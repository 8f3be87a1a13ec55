/** The content classifier of the web decoder (`set_color`): a declared
    content type, and for `application/octet-stream` the leading bytes of the
    response body, select the colour the exchange is displayed in. */
module Classifier {
  import opened Optional
  import opened PyStrings

  /** The four display colours; the terminal escape codes are left out. */
  datatype Color =
    | Yellow  // archive
    | Cyan    // Flash / Shockwave
    | Red     // executable
    | White   // everything else

  const ArchiveTypes: set<string> :=
    {"application/zip", "application/x-rar-compressed", "application/vnd.ms-cab-compressed"}

  const FlashTypes: set<string> :=
    {"application/x-shockwave-flash", "application/vnd.adobe.flash-movie",
     "application/x-www-form-urlencoded"}

  const ExecutableTypes: set<string> :=
    {"application/x-msdownload", "application/exe", "application/x-msdos-program",
     "application/x-exe", "application/dos-exe", "vms/exe", "application/x-winexe",
     "application/msdos-windows"}

  const OctetStream: string := "application/octet-stream"

  /** SWF signatures: uncompressed, zlib- and LZMA-compressed. */
  const FlashMagic: seq<string> := ["CWS", "ZWS", "FWS"]

  /** ZIP local file header. */
  const ArchiveMagic: string := "PK"

  /** DOS, NE, LX, LE and PE executable signatures. */
  const ExecutableMagic: seq<string> := ["MZ", "NE", "LX", "LE", "PE"]

  /** `body.startswith(prefixes)` for a tuple of prefixes. */
  predicate StartsWithAny(body: Bytes, prefixes: seq<string>) {
    exists p :: p in prefixes && StartsWith(body, p)
  }

  /** The sniffing of an `application/octet-stream` body, tried in order:
      Flash, then ZIP, then executable. */
  function SniffBody(body: Bytes): Color {
    if StartsWithAny(body, FlashMagic) then Cyan
    else if StartsWith(body, ArchiveMagic) then Yellow
    else if StartsWithAny(body, ExecutableMagic) then Red
    else White
  }

  /** `set_color(contenttype, response)`. The body is read only for
      `application/octet-stream`; `None` is returned exactly when that read
      would raise because the response carries no body. */
  function SetColor(contentType: string, body: Option<Bytes>): (r: Option<Color>)
    ensures r.None? <==> contentType == OctetStream && body.None?
  {
    if contentType in ArchiveTypes then Some(Yellow)
    else if contentType in FlashTypes then Some(Cyan)
    else if contentType in ExecutableTypes then Some(Red)
    else if contentType == OctetStream then
      match body
      case Some(b) => Some(SniffBody(b))
      case None => None
    else Some(White)
  }

  /** Which prefix family a body starts with is decided by its first two bytes,
      and the families exclude each other. */
  lemma MagicFamiliesDisjoint(body: Bytes)
    ensures StartsWithAny(body, FlashMagic) ==> !StartsWith(body, ArchiveMagic) && !StartsWithAny(body, ExecutableMagic)
    ensures StartsWith(body, ArchiveMagic) ==> !StartsWithAny(body, ExecutableMagic)
  {
    if StartsWithAny(body, FlashMagic) {
      var p :| p in FlashMagic && StartsWith(body, p);
      assert body[1] == 'W';
    }
    if StartsWith(body, ArchiveMagic) {
      assert body[0] == 'P' && body[1] == 'K';
      forall q | q in ExecutableMagic ensures !StartsWith(body, q) {
        assert q[1] != 'K';
      }
    }
  }

  /** For `application/octet-stream`, each colour is chosen by exactly its own
      signatures. */
  lemma OctetStreamSniffing(body: Bytes)
    ensures SetColor(OctetStream, Some(body)) == Some(Cyan) <==> StartsWithAny(body, FlashMagic)
    ensures SetColor(OctetStream, Some(body)) == Some(Yellow) <==> StartsWith(body, ArchiveMagic)
    ensures SetColor(OctetStream, Some(body)) == Some(Red) <==> StartsWithAny(body, ExecutableMagic)
    ensures SetColor(OctetStream, Some(body)) == Some(White) <==>
              !StartsWithAny(body, FlashMagic) && !StartsWith(body, ArchiveMagic) && !StartsWithAny(body, ExecutableMagic)
  {
    assert OctetStream !in ArchiveTypes + FlashTypes + ExecutableTypes;
    MagicFamiliesDisjoint(body);
  }

  /** A content type other than `application/octet-stream` decides the colour
      alone: the tables give Yellow, Cyan and Red, anything else White, and the
      body is never looked at (it may even be missing). */
  lemma DeclaredTypeDecides(contentType: string, body: Option<Bytes>)
    requires contentType != OctetStream
    ensures SetColor(contentType, body) == Some(Yellow) <==> contentType in ArchiveTypes
    ensures SetColor(contentType, body) == Some(Cyan) <==> contentType in FlashTypes
    ensures SetColor(contentType, body) == Some(Red) <==> contentType in ExecutableTypes
    ensures SetColor(contentType, body) == Some(White) <==>
              contentType !in ArchiveTypes + FlashTypes + ExecutableTypes
  {
    assert ArchiveTypes !! FlashTypes && ArchiveTypes !! ExecutableTypes && FlashTypes !! ExecutableTypes;
  }

  /** A prefix of at most three bytes is seen in the first three bytes. */
  lemma StartsWithinThree(body: Bytes, p: string)
    requires |p| <= 3
    ensures StartsWith(body, p) <==> StartsWith(Take(body, 3), p)
  {
    if |body| > 3 {
      assert Take(body, 3)[..|p|] == body[..|p|];
    }
  }

  /** Sniffing looks at no more than the first three bytes of the body. */
  lemma SniffReadsThreeBytes(body: Bytes)
    ensures SniffBody(body) == SniffBody(Take(body, 3))
  {
    var head := Take(body, 3);
    forall p | p in FlashMagic || p in ExecutableMagic || p == ArchiveMagic
      ensures StartsWith(body, p) <==> StartsWith(head, p)
    {
      StartsWithinThree(body, p);
    }
    assert StartsWithAny(body, FlashMagic) == StartsWithAny(head, FlashMagic);
    assert StartsWithAny(body, ExecutableMagic) == StartsWithAny(head, ExecutableMagic);
  }
}
