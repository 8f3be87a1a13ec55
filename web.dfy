/** The per-exchange part of the web decoder: for one HTTP request and the
    response captured for it (possibly none), derive the fields of the alert
    record. Header lookup (`util.getHeader`), the `Last-Modified` rendering
    (`util.HTTPlastmodified`) and the MD5 hex digest are not part of this
    model; they are supplied as the functions of an `Oracles` value. */
module Web {
  import opened Optional
  import opened PyStrings
  import opened Classifier
  import opened Upload

  type Headers = map<string, string>

  /** A request as the HTTP message decoder hands it over. */
  datatype Request = Request(verb: string, uri: string, version: string, headers: Headers,
                             body: Bytes, data: Bytes)

  /** A response; `None` marks an attribute that is missing, whose access the
      decoder guards with `try`/`except`. */
  datatype Response = Response(status: Option<string>, reason: Option<string>, headers: Headers,
                               body: Option<Bytes>)

  datatype Endpoint = Endpoint(ip: string, port: int)

  datatype Connection = Connection(client: Endpoint, server: Endpoint)

  /** The collaborators whose code is not modelled. */
  datatype Oracles = Oracles(
    getHeader: (Option<Headers>, string) -> string,
    lastModified: Option<Response> -> string,
    md5Hex: Bytes -> string)

  /** The decoder's options `maxurilen`, `md5` and `color`. */
  datatype Options = Options(maxUriLen: int, md5: bool, color: bool)

  /** A file seen in the traffic: a name and the bytes. */
  datatype Artifact = Artifact(name: string, data: Bytes)

  /** The fields handed to the alert, plus the colour selected before it. */
  datatype Record = Record(
    color: Color,
    requestInfo: string, responseInfo: string,
    referer: string, userAgent: string, via: string,
    verb: string, host: string, uri: string,
    status: string, reason: string, lastModified: string,
    md5: string, responseSize: nat, contentType: string,
    responseFile: Option<Artifact>, uploadFile: Option<Artifact>)

  // ---------------------------------------------------------------------------
  // the connection filter

  const WebPorts: set<int> := {80, 8000, 8080}

  /** `filterfn`: a connection is decoded when either end uses a web port. */
  predicate FilterFn(src: Endpoint, dst: Endpoint) {
    src.port in WebPorts || dst.port in WebPorts
  }

  /** The filter does not depend on which end opened the connection. */
  lemma FilterFnSymmetric(src: Endpoint, dst: Endpoint)
    ensures FilterFn(src, dst) <==> FilterFn(dst, src)
    ensures FilterFn(src, dst) <==> src.port in {80, 8000, 8080} || dst.port in {80, 8000, 8080}
  {
  }

  // ---------------------------------------------------------------------------
  // single fields

  function HeadersOf(response: Option<Response>): Option<Headers> {
    match response
    case Some(r) => Some(r.headers)
    case None => None
  }

  /** `response.body`, `None` when it cannot be read. */
  function BodyOf(response: Option<Response>): Option<Bytes> {
    match response
    case Some(r) => r.body
    case None => None
  }

  /** `response.status`, or `''` when it cannot be read. */
  function StatusOf(response: Option<Response>): string {
    match response
    case Some(r) => r.status.GetOr("")
    case None => ""
  }

  /** `response.reason`, or `''` when it cannot be read. */
  function ReasonOf(response: Option<Response>): string {
    match response
    case Some(r) => r.reason.GetOr("")
    case None => ""
  }

  /** The `Host` header, or the server address when the header is empty. */
  function Host(conn: Connection, request: Request, o: Oracles): string {
    var host := o.getHeader(Some(request.headers), "host");
    if host == "" then conn.server.ip else host
  }

  /** The redirect annotation: the `Location` header after `"-> "`, looked up
      only when the first two characters of the status are `30`. */
  function Redirect(status: string, response: Option<Response>, o: Oracles): string {
    if Take(status, 2) == "30" then
      var loc := o.getHeader(HeadersOf(response), "location");
      if |loc| > 0 then "-> " + loc else loc
    else ""
  }

  const Nul: string := "\0"

  /** `len(response.body.rstrip('\0'))`, or 0 when the body cannot be read. */
  function ResponseSize(response: Option<Response>): nat {
    match BodyOf(response)
    case Some(b) => |RStrip(b, Nuls)|
    case None => 0
  }

  /** `_bodyMD5`: `''` for an unreadable or empty body, otherwise the digest of
      the body without its trailing NULs. */
  function BodyMD5(response: Option<Response>, md5Hex: Bytes -> string): string {
    match BodyOf(response)
    case Some(b) => if |b| > 0 then md5Hex(RStrip(b, Nuls)) else ""
    case None => ""
  }

  /** The downloaded file: the whole body named after the request URI, or
      none when the body is empty or unreadable. */
  function ResponseFile(request: Request, response: Option<Response>): Option<Artifact> {
    match BodyOf(response)
    case Some(b) => if |b| > 0 then Some(Artifact(request.uri, b)) else None
    case None => None
  }

  /** The uploaded file of a POST with a non-empty body, named by the parsed
      file name, even when that name is empty. */
  function UploadFile(request: Request): Option<Artifact> {
    if request.verb == "POST" && |request.body| > 0 then
      var u := ParseUpload(request.body);
      Some(Artifact(u.filename, u.data))
    else None
  }

  const TruncationMark: string := "[truncated]"

  /** The URI as displayed in the request summary. */
  function DisplayUri(uri: string, maxUriLen: int): string {
    if maxUriLen > 0 && |uri| > maxUriLen then uri[..maxUriLen] + TruncationMark else uri
  }

  /** `'{0} {1}{2} HTTP/{3}'` */
  function RequestInfo(request: Request, host: string, maxUriLen: int): string {
    request.verb + " " + host + DisplayUri(request.uri, maxUriLen) + " HTTP/" + request.version
  }

  /** `'{0} {1} {2} {3}'` when a response was captured, `''` otherwise. */
  function ResponseInfo(response: Option<Response>, status: string, reason: string, loc: string,
                        lastModified: string): string {
    if response.Some? then status + " " + reason + " " + loc + " " + lastModified else ""
  }

  /** The record `HTTPHandler` hands to the alert, `shown` being the colour
      printed before it. */
  function Alert(conn: Connection, request: Request, response: Option<Response>, opts: Options,
                 o: Oracles, shown: Color): Record {
    var host := Host(conn, request, o);
    var status := StatusOf(response);
    var reason := ReasonOf(response);
    var loc := Redirect(status, response, o);
    var lastModified := o.lastModified(response);
    Record(
      shown,
      RequestInfo(request, host, opts.maxUriLen),
      ResponseInfo(response, status, reason, loc, lastModified),
      o.getHeader(Some(request.headers), "referer"),
      o.getHeader(Some(request.headers), "user-agent"),
      o.getHeader(Some(request.headers), "via"),
      request.verb, host, request.uri,
      status, reason, lastModified,
      if opts.md5 then BodyMD5(response, o.md5Hex) else "",
      ResponseSize(response),
      o.getHeader(HeadersOf(response), "content-type"),
      ResponseFile(request, response),
      UploadFile(request))
  }

  // ---------------------------------------------------------------------------
  // properties of the record

  /** The host is the `Host` header, and the server address stands in for an
      empty one; the full URI is passed on unmodified. */
  lemma HostAndUri(conn: Connection, request: Request, response: Option<Response>, opts: Options,
                   o: Oracles, shown: Color)
    ensures var r := Alert(conn, request, response, opts, o, shown);
      var h := o.getHeader(Some(request.headers), "host");
      && (h != "" ==> r.host == h)
      && (h == "" ==> r.host == conn.server.ip)
      && r.uri == request.uri && r.verb == request.verb
  {
  }

  /** The URI is truncated for display exactly when the limit is positive and
      the URI is longer: the first `maxUriLen` characters followed by the
      marker. A limit of zero or below never truncates. */
  lemma DisplayUriTruncation(uri: string, maxUriLen: int)
    ensures maxUriLen > 0 && |uri| > maxUriLen ==>
              DisplayUri(uri, maxUriLen) == uri[..maxUriLen] + TruncationMark
              && |DisplayUri(uri, maxUriLen)| == maxUriLen + |TruncationMark|
    ensures maxUriLen <= 0 || |uri| <= maxUriLen ==> DisplayUri(uri, maxUriLen) == uri
  {
  }

  /** Without a captured response, status, reason, redirect annotation and
      response summary are empty, the size is 0, there is no digest and no
      downloaded file; a record is still produced. */
  lemma NoResponseRecord(conn: Connection, request: Request, opts: Options, o: Oracles, shown: Color)
    ensures var r := Alert(conn, request, None, opts, o, shown);
      && r.status == "" && r.reason == "" && r.responseInfo == ""
      && r.responseSize == 0 && r.md5 == "" && r.responseFile == None
      && r.requestInfo == RequestInfo(request, Host(conn, request, o), opts.maxUriLen)
  {
  }

  /** The redirect annotation is non-empty exactly when the status starts with
      `30` and the `Location` header is non-empty, and then it is `"-> "`
      followed by that header. */
  lemma RedirectAnnotation(status: string, response: Option<Response>, o: Oracles)
    ensures var loc := o.getHeader(HeadersOf(response), "location");
      && (Redirect(status, response, o) != "" <==>
            |status| >= 2 && status[0] == '3' && status[1] == '0' && loc != "")
      && (Redirect(status, response, o) != "" ==> Redirect(status, response, o) == "-> " + loc)
  {
    if |status| >= 2 {
      assert Take(status, 2) == [status[0], status[1]];
    }
  }

  /** A body padded with NULs: `s` followed by `k` zero bytes. */
  function Padded(s: Bytes, k: nat): (b: Bytes)
    ensures |b| == |s| + k
    ensures forall i :: |s| <= i < |b| ==> b[i] == '\0'
    ensures b[..|s|] == s
  {
    if k == 0 then s else Padded(s, k - 1) + Nul
  }

  /** Stripping NULs from a padded body gives what stripping the unpadded
      body gives. */
  lemma PaddedStrip(s: Bytes, k: nat)
    ensures RStrip(Padded(s, k), Nuls) == RStrip(s, Nuls)
  {
    var b := Padded(s, k);
    assert b == s + b[|s|..];
    RStripAppend(s, b[|s|..], Nuls);
  }

  /** Trailing NUL padding does not count towards the response size. */
  lemma PaddingIgnoredBySize(s: Bytes, k: nat, status: Option<string>, reason: Option<string>, headers: Headers)
    ensures ResponseSize(Some(Response(status, reason, headers, Some(Padded(s, k)))))
         == ResponseSize(Some(Response(status, reason, headers, Some(s))))
  {
    PaddedStrip(s, k);
  }

  /** The response size never exceeds the body length, and is the length of
      the body once its trailing NULs are gone. */
  lemma ResponseSizeBound(response: Option<Response>)
    requires BodyOf(response).Some?
    ensures ResponseSize(response) <= |BodyOf(response).value|
    ensures var b := BodyOf(response).value;
      ResponseSize(response) == |b| || b[|b| - 1] == '\0'
  {
    RStripIsPrefix(BodyOf(response).value, Nuls);
  }

  /** The digest is empty for an empty body, and depends only on the body
      without its trailing NULs: two non-empty bodies that differ only in NUL
      padding digest alike. */
  lemma DigestIgnoresPadding(s: Bytes, k1: nat, k2: nat, md5Hex: Bytes -> string,
                             status: Option<string>, reason: Option<string>, headers: Headers)
    requires |s| + k1 > 0 && |s| + k2 > 0
    ensures BodyMD5(Some(Response(status, reason, headers, Some(Padded(s, k1)))), md5Hex)
         == BodyMD5(Some(Response(status, reason, headers, Some(Padded(s, k2)))), md5Hex)
         == md5Hex(RStrip(s, Nuls))
  {
    PaddedStrip(s, k1);
    PaddedStrip(s, k2);
  }

  /** An empty body has no digest, while a non-empty body made only of NULs is
      digested as the empty input. */
  lemma DigestGating(k: nat, md5Hex: Bytes -> string,
                     status: Option<string>, reason: Option<string>, headers: Headers)
    ensures BodyMD5(Some(Response(status, reason, headers, Some(""))), md5Hex) == ""
    ensures k > 0 ==> BodyMD5(Some(Response(status, reason, headers, Some(Padded("", k)))), md5Hex) == md5Hex("")
  {
    if k > 0 {
      DigestIgnoresPadding("", k, k, md5Hex, status, reason, headers);
    }
  }

  /** The downloaded file exists exactly when the body is readable and
      non-empty; it carries the whole body, padding included, under the request
      URI. The uploaded file exists exactly for a POST with a non-empty body. */
  lemma Artifacts(request: Request, response: Option<Response>)
    ensures ResponseFile(request, response).Some? <==> BodyOf(response).Some? && BodyOf(response).value != ""
    ensures ResponseFile(request, response).Some? ==>
              ResponseFile(request, response).value == Artifact(request.uri, BodyOf(response).value)
    ensures UploadFile(request).Some? <==> request.verb == "POST" && request.body != ""
    ensures UploadFile(request).Some? ==>
              UploadFile(request).value.name == ParseUpload(request.body).filename
  {
  }

  // ---------------------------------------------------------------------------
  // the decoder object

  /** The colour shown for an exchange: `set_color` on the response's
      `Content-Type` when colouring is on, otherwise the current one; `None`
      when `set_color` raises. */
  function SelectedColor(color: bool, current: Color, response: Option<Response>, o: Oracles): Option<Color> {
    if color then SetColor(o.getHeader(HeadersOf(response), "content-type"), BodyOf(response))
    else Some(current)
  }

  /** The decoder with its options and the colour it last selected. */
  class Decoder {
    const maxUriLen: int
    const md5: bool
    const color: bool
    var colorCode: Color

    /** The colour only ever changes when colouring is enabled. */
    ghost predicate Valid()
      reads this
    {
      !color ==> colorCode == White
    }

    constructor (maxUriLen: int, md5: bool, color: bool)
      ensures this.maxUriLen == maxUriLen && this.md5 == md5 && this.color == color
      ensures colorCode == White && Valid()
    {
      this.maxUriLen := maxUriLen;
      this.md5 := md5;
      this.color := color;
      colorCode := White;
    }

    function Opts(): Options {
      Options(maxUriLen, md5, color)
    }

    /** `HTTPHandler`: derives the fields one by one and returns the alert.
        With colouring on, `set_color` reads the body of an
        `application/octet-stream` response without a guard; when that body
        is missing the handler stops there, with no alert and the colour
        unchanged. */
    method HTTPHandler(conn: Connection, request: Request, response: Option<Response>, o: Oracles)
      returns (alert: Option<Record>)
      requires Valid()
      modifies this`colorCode
      ensures Valid()
      ensures match SelectedColor(color, old(colorCode), response, o)
        case None => alert == None && colorCode == old(colorCode)
        case Some(c) => colorCode == c && alert == Some(Alert(conn, request, response, Opts(), o, c))
    {
      var host := o.getHeader(Some(request.headers), "host");
      if host == "" {
        host := conn.server.ip;
      }
      var status := StatusOf(response);
      var reason := ReasonOf(response);
      var loc := "";
      if Take(status, 2) == "30" {
        loc := o.getHeader(HeadersOf(response), "location");
        if |loc| > 0 {
          loc := "-> " + loc;
        }
      }
      assert loc == Redirect(status, response, o);
      var lastModified := o.lastModified(response);
      var referer := o.getHeader(Some(request.headers), "referer");
      var userAgent := o.getHeader(Some(request.headers), "user-agent");
      var via := o.getHeader(Some(request.headers), "via");
      var contentType := o.getHeader(HeadersOf(response), "content-type");
      if color {
        var selected := SetColor(contentType, BodyOf(response));
        if selected.None? {
          return None;
        }
        colorCode := selected.value;
      }
      var responseSize := match BodyOf(response) case Some(b) => |RStrip(b, Nuls)| case None => 0;
      var digest := "";
      if md5 {
        digest := BodyMD5(response, o.md5Hex);
      }
      var responseFile, uploadFile := FileObjects(request, response);
      var requestInfo := request.verb + " " + host
        + (if maxUriLen > 0 && |request.uri| > maxUriLen then request.uri[..maxUriLen] + TruncationMark else request.uri)
        + " HTTP/" + request.version;
      var responseInfo := "";
      if response.Some? {
        responseInfo := status + " " + reason + " " + loc + " " + lastModified;
      }
      assert requestInfo == RequestInfo(request, host, maxUriLen);
      alert := Some(Record(colorCode, requestInfo, responseInfo, referer, userAgent, via,
                           request.verb, host, request.uri, status, reason, lastModified,
                           digest, responseSize, contentType, responseFile, uploadFile));
    }
  }

  /** The "File objects" step of `HTTPHandler`: the downloaded body, and for a
      POST with a body the file recovered by `POSTHandler`. */
  method FileObjects(request: Request, response: Option<Response>)
    returns (responseFile: Option<Artifact>, uploadFile: Option<Artifact>)
    ensures responseFile == ResponseFile(request, response)
    ensures uploadFile == UploadFile(request)
  {
    responseFile := None;
    if BodyOf(response).Some? && |BodyOf(response).value| > 0 {
      responseFile := Some(Artifact(request.uri, BodyOf(response).value));
    }
    uploadFile := None;
    if request.verb == "POST" && |request.body| > 0 {
      var _, ulFilename, ulData := POSTHandler(request.body);
      uploadFile := Some(Artifact(ulFilename, ulData));
    }
  }

  /** With colouring off, every alert is shown in White. */
  method ColorOffShowsWhite(conn: Connection, request: Request, response: Option<Response>, o: Oracles,
                            maxUriLen: int, md5: bool)
    returns (alert: Option<Record>)
    ensures alert.Some? && alert.value.color == White
  {
    var d := new Decoder(maxUriLen, md5, false);
    alert := d.HTTPHandler(conn, request, response, o);
  }
}
