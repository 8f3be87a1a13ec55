/** The multipart upload header parser of the web decoder (`POSTHandler` with
    `splitstrip`). The POST body is cut into `"\r\n"`-separated segments; the
    segments before the first empty one are header lines, from which the last
    `Content-Type` value and the last `filename=` parameter of a
    `Content-Disposition` line are kept. */
module Upload {
  import opened Optional
  import opened PyStrings

  const CRLF: string := "\r\n"

  /** What `POSTHandler` returns: content type, file name and the segment it
      stopped on. */
  datatype Upload = Upload(contentType: string, filename: string, data: Bytes)

  // ---------------------------------------------------------------------------
  // one header line

  /** The value bound by `k, v = splitstrip(line, ':')` when that unpacking
      succeeds and `k == key`; `None` when the line does not split into exactly
      two parts (the `except: pass` path) or the key differs. */
  function HeaderValue(line: string, key: string): Option<string> {
    var kv := SplitStrip(line, ":", Spaces);
    if |kv| == 2 && kv[0] == key then Some(kv[1]) else None
  }

  /** The value of one `;`-separated Content-Disposition parameter when it
      splits on `=` into exactly two quote-stripped parts with key `filename`. */
  function FilenameParam(param: string): Option<string> {
    var kv := SplitStrip(param, "=", Quotes);
    if |kv| == 2 && kv[0] == "filename" then Some(kv[1]) else None
  }

  /** The last element of `xs` on which `f` gives a value, and that value. */
  function LastSome(xs: seq<string>, f: string -> Option<string>): Option<string> {
    if xs == [] then None
    else if f(xs[|xs| - 1]).Some? then f(xs[|xs| - 1])
    else LastSome(xs[..|xs| - 1], f)
  }

  /** What a header line contributes to the content type. */
  function ContentTypeOfLine(line: string): Option<string> {
    HeaderValue(line, "Content-Type")
  }

  /** What a header line contributes to the file name: the last `filename`
      parameter of a `Content-Disposition` line. */
  function FilenameOfLine(line: string): Option<string> {
    match HeaderValue(line, "Content-Disposition")
    case Some(v) => LastSome(SplitStrip(v, ";", Spaces), FilenameParam)
    case None => None
  }

  /** Index of the first empty segment, or `|segs|` when there is none. */
  function FirstBlank(segs: seq<string>): (b: nat)
    ensures b <= |segs|
    ensures forall k :: 0 <= k < b ==> segs[k] != ""
    ensures b < |segs| ==> segs[b] == ""
  {
    if segs == [] then 0
    else if segs[0] == "" then 0
    else 1 + FirstBlank(segs[1..])
  }

  // ---------------------------------------------------------------------------
  // the parser, specified on segments

  /** The result of `POSTHandler` on the segments of a POST body. The third
      component is the segment right after the first empty one; with no empty
      segment it is the last segment, and when the empty segment is the last
      one it is that empty segment. */
  function ParseSegments(segs: seq<string>): (u: Upload)
    requires |segs| >= 1
    ensures var b := FirstBlank(segs);
      u.data == (if b == |segs| then segs[|segs| - 1] else if b == |segs| - 1 then "" else segs[b + 1])
  {
    var b := FirstBlank(segs);
    Upload(LastSome(segs[..b], ContentTypeOfLine).GetOr(""),
           LastSome(segs[..b], FilenameOfLine).GetOr(""),
           segs[if b + 1 < |segs| then b + 1 else |segs| - 1])
  }

  /** `POSTHandler(postdata)` as a function of the body. */
  function ParseUpload(postdata: Bytes): Upload {
    ParseSegments(Split(postdata, CRLF))
  }

  /** The inner loop of `POSTHandler` over the `;`-separated parameters of a
      `Content-Disposition` value: each `filename=` parameter that unpacks into
      two parts overwrites the file name found so far. */
  method ScanDisposition(cdparts: seq<string>, filename: string) returns (result: string)
    ensures result == LastSome(cdparts, FilenameParam).GetOr(filename)
  {
    result := filename;
    var j := 0;
    while j < |cdparts|
      invariant 0 <= j <= |cdparts|
      invariant result == LastSome(cdparts[..j], FilenameParam).GetOr(filename)
    {
      LastSomeStep(cdparts, j, FilenameParam);
      var pv := SplitStrip(cdparts[j], "=", Quotes);
      if |pv| == 2 && pv[0] == "filename" {
        result := pv[1];
      }
      j := j + 1;
    }
    assert cdparts[..j] == cdparts;
  }

  /** `POSTHandler`: one pass over the segments with the `next_line_is_data`
      flag, overwriting the accumulators, stopping on the segment after the
      first empty one. A line that does not unpack into two parts is skipped. */
  method POSTHandler(postdata: Bytes) returns (contentType: string, filename: string, data: Bytes)
    ensures Upload(contentType, filename, data) == ParseUpload(postdata)
  {
    var segs := Split(postdata, CRLF);
    ghost var b := FirstBlank(segs);
    var nextLineIsData := false;
    contentType, filename := "", "";
    data := "";
    var i := 0;
    while i < |segs|
      invariant 0 <= i <= |segs|
      invariant if nextLineIsData then i == b + 1 else i <= b
      invariant contentType == LastSome(segs[..if nextLineIsData then b else i], ContentTypeOfLine).GetOr("")
      invariant filename == LastSome(segs[..if nextLineIsData then b else i], FilenameOfLine).GetOr("")
      invariant i > 0 ==> data == segs[i - 1]
    {
      data := segs[i];
      if nextLineIsData {
        break;
      }
      if data == "" {
        nextLineIsData := true;
        i := i + 1;
        continue;
      }
      LastSomeStep(segs, i, ContentTypeOfLine);
      LastSomeStep(segs, i, FilenameOfLine);
      var kv := SplitStrip(data, ":", Spaces);
      if |kv| == 2 {
        var k, v := kv[0], kv[1];
        if k == "Content-Type" {
          contentType := v;
        }
        if k == "Content-Disposition" {
          filename := ScanDisposition(SplitStrip(v, ";", Spaces), filename);
        }
      }
      i := i + 1;
    }
  }

  // ---------------------------------------------------------------------------
  // properties

  /** Extending the scanned prefix by one element. */
  lemma LastSomeStep(xs: seq<string>, i: nat, f: string -> Option<string>)
    requires i < |xs|
    ensures LastSome(xs[..i + 1], f) == if f(xs[i]).Some? then f(xs[i]) else LastSome(xs[..i], f)
  {
    assert xs[..i + 1][..i] == xs[..i];
  }

  /** `LastSome` is the value of the last hit. */
  lemma {:induction false} LastSomeIsLastHit(xs: seq<string>, f: string -> Option<string>, i: nat)
    requires i < |xs| && f(xs[i]).Some?
    requires forall j :: i < j < |xs| ==> f(xs[j]).None?
    ensures LastSome(xs, f) == f(xs[i])
    decreases |xs|
  {
    if i < |xs| - 1 {
      LastSomeIsLastHit(xs[..|xs| - 1], f, i);
    }
  }

  /** `LastSome` gives nothing exactly when nothing is a hit. */
  lemma {:induction false} LastSomeNone(xs: seq<string>, f: string -> Option<string>)
    ensures LastSome(xs, f).None? <==> forall i :: 0 <= i < |xs| ==> f(xs[i]).None?
    decreases |xs|
  {
    if xs != [] {
      LastSomeNone(xs[..|xs| - 1], f);
    }
  }

  /** The content type is the value of the last header line, before the first
      empty segment, that splits on `:` into two parts with key exactly
      `Content-Type`; it stays `""` when there is none. */
  lemma ContentTypeIsLastHeader(segs: seq<string>, i: nat)
    requires |segs| >= 1
    requires i < FirstBlank(segs) && ContentTypeOfLine(segs[i]).Some?
    requires forall j :: i < j < FirstBlank(segs) ==> ContentTypeOfLine(segs[j]).None?
    ensures ParseSegments(segs).contentType == ContentTypeOfLine(segs[i]).value
  {
    var hs := segs[..FirstBlank(segs)];
    LastSomeIsLastHit(hs, ContentTypeOfLine, i);
  }

  /** Without any `Content-Type` header line the content type is `""`, and
      without any usable `filename` parameter the file name is `""`. */
  lemma DefaultsWhenAbsent(segs: seq<string>)
    requires |segs| >= 1
    ensures (forall i :: 0 <= i < FirstBlank(segs) ==> ContentTypeOfLine(segs[i]).None?) ==>
              ParseSegments(segs).contentType == ""
    ensures (forall i :: 0 <= i < FirstBlank(segs) ==> FilenameOfLine(segs[i]).None?) ==>
              ParseSegments(segs).filename == ""
  {
    var hs := segs[..FirstBlank(segs)];
    LastSomeNone(hs, ContentTypeOfLine);
    LastSomeNone(hs, FilenameOfLine);
  }

  /** The file name is the last `filename` parameter of the last
      `Content-Disposition` header line that has one. */
  lemma FilenameIsLastParameter(segs: seq<string>, i: nat, p: nat)
    requires |segs| >= 1 && i < FirstBlank(segs)
    requires HeaderValue(segs[i], "Content-Disposition").Some?
    requires var ps := SplitStrip(HeaderValue(segs[i], "Content-Disposition").value, ";", Spaces);
      p < |ps| && FilenameParam(ps[p]).Some? && forall q :: p < q < |ps| ==> FilenameParam(ps[q]).None?
    requires forall j :: i < j < FirstBlank(segs) ==> FilenameOfLine(segs[j]).None?
    ensures var ps := SplitStrip(HeaderValue(segs[i], "Content-Disposition").value, ";", Spaces);
      ParseSegments(segs).filename == FilenameParam(ps[p]).value
  {
    var ps := SplitStrip(HeaderValue(segs[i], "Content-Disposition").value, ";", Spaces);
    LastSomeIsLastHit(ps, FilenameParam, p);
    LastSomeIsLastHit(segs[..FirstBlank(segs)], FilenameOfLine, i);
  }

  /** A header line counts only when it holds exactly one `:`; lines with none
      or several are skipped whatever their key. */
  lemma HeaderNeedsOneColon(line: string, key: string)
    ensures HeaderValue(line, key).Some? ==> Count(line, ':') == 1
  {
    OneSeparatorTwoParts(line, ':', Spaces);
  }

  /** A line `name: value` with a single colon yields the space-stripped value
      exactly when the space-stripped name is the key, compared case-sensitively. */
  lemma HeaderLine(name: string, value: string, key: string)
    requires ':' !in name && ':' !in value
    ensures HeaderValue(name + ":" + value, key) ==
              if Strip(name, Spaces) == key then Some(Strip(value, Spaces)) else None
  {
    SplitStripOnce(name, ':', value, Spaces);
  }

  /** A parameter `name=value` with a single `=` is the file name exactly when
      its quote-stripped name is `filename`; the value loses surrounding quotes. */
  lemma FilenameParameter(name: string, value: string)
    requires '=' !in name && '=' !in value
    ensures FilenameParam(name + "=" + value) ==
              if Strip(name, Quotes) == "filename" then Some(Strip(value, Quotes)) else None
  {
    SplitStripOnce(name, '=', value, Quotes);
  }

  /** `FirstBlank` of a prefix that reaches past the first empty segment. */
  lemma {:induction false} FirstBlankPrefix(segs: seq<string>, n: nat)
    requires FirstBlank(segs) < n <= |segs|
    ensures FirstBlank(segs[..n]) == FirstBlank(segs)
    decreases n
  {
    if segs[0] != "" {
      assert segs[..n][1..] == segs[1..][..n - 1];
      FirstBlankPrefix(segs[1..], n - 1);
    }
  }

  /** Nothing after the segment that follows the first empty one is ever looked
      at: the body may continue arbitrarily. */
  lemma ReadsOnlyHead(segs: seq<string>)
    requires |segs| >= 1
    ensures var n := if FirstBlank(segs) + 2 <= |segs| then FirstBlank(segs) + 2 else |segs|;
      ParseSegments(segs) == ParseSegments(segs[..n])
  {
    var b := FirstBlank(segs);
    var n := if b + 2 <= |segs| then b + 2 else |segs|;
    if b < |segs| {
      FirstBlankPrefix(segs, n);
    } else {
      assert segs[..n] == segs;
    }
    assert segs[..n][..b] == segs[..b];
  }
}
