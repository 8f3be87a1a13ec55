/** The upload body `Content-Type: text/plain\r\nContent-Disposition:
    form-data; filename="a.txt"\r\n\r\nhello` is parsed into content type
    `text/plain`, file name `a.txt` and data `hello`. */
module UploadSample {
  import opened Optional
  import opened PyStrings
  import opened Upload

  /** Two header lines, the empty segment and one data segment. */
  lemma {:induction false} FourSegments(a: string, b: string, c: string)
    requires a != "" && b != ""
    requires '\r' !in a && '\r' !in b && '\r' !in c
    ensures ParseUpload(a + CRLF + (b + CRLF + ("" + CRLF + c)))
         == Upload(LastSome([a, b], ContentTypeOfLine).GetOr(""), LastSome([a, b], FilenameOfLine).GetOr(""), c)
  {
    SplitAtFirst("", CRLF, c);
    SplitWhole(c, CRLF);
    SplitAtFirst(b, CRLF, "" + CRLF + c);
    SplitAtFirst(a, CRLF, b + CRLF + ("" + CRLF + c));
    var segs := [a, b, "", c];
    assert Split(a + CRLF + (b + CRLF + ("" + CRLF + c)), CRLF) == segs;
    assert FirstBlank(["", c]) == 0;
    assert segs[1..][1..] == ["", c];
    assert FirstBlank(segs[1..]) == 1;
    assert FirstBlank(segs) == 2;
    assert segs[..2] == [a, b];
  }

  predicate IsTypeLine(line: string) {
    line == "Content-Type: text/plain"
  }

  predicate IsDispositionLine(line: string) {
    line == "Content-Disposition" + ":" + (" " + ("form-data" + [';'] + (" " + "filename=\"a.txt\"")))
  }

  lemma TypeLineText(line: string)
    requires IsTypeLine(line)
    ensures '\r' !in line && line == "Content-Type" + ":" + " text/plain"
  {
  }

  lemma TypeLineStrips()
    ensures Strip("Content-Type", Spaces) == "Content-Type" && Strip(" text/plain", Spaces) == "text/plain"
  {
  }

  lemma DispositionLineText(line: string)
    requires IsDispositionLine(line)
    ensures '\r' !in line
    ensures line == "Content-Disposition" + ":" + (" " + ("form-data" + [';'] + (" " + "filename=\"a.txt\"")))
  {
  }

  lemma DispositionValueText(w: string)
    requires w == "form-data" + [';'] + (" " + "filename=\"a.txt\"")
    ensures ':' !in " " + w && w != "" && w[0] !in " " && w[|w| - 1] !in " "
  {
  }

  lemma ParameterText(p: string)
    requires p == "filename=\"a.txt\""
    ensures ';' !in " " + p && ';' !in "form-data" && '=' !in "form-data"
    ensures p != "" && p[0] !in " " && p[|p| - 1] !in " "
    ensures p == "filename" + "=" + "\"a.txt\""
  {
  }

  lemma ParameterStrips()
    ensures Strip("form-data", Spaces) == "form-data"
    ensures Strip("filename", Quotes) == "filename" && Strip("\"a.txt\"", Quotes) == "a.txt"
    ensures Strip("Content-Disposition", Spaces) == "Content-Disposition"
  {
  }

  lemma SampleTypeLine(line: string)
    requires IsTypeLine(line)
    ensures ContentTypeOfLine(line) == Some("text/plain") && FilenameOfLine(line).None?
  {
    TypeLineText(line);
    TypeLineStrips();
    HeaderLine("Content-Type", " text/plain", "Content-Type");
    HeaderLine("Content-Type", " text/plain", "Content-Disposition");
  }

  lemma SampleParameters(w: string, p: string)
    requires p == "filename=\"a.txt\"" && w == "form-data" + [';'] + (" " + p)
    ensures LastSome(SplitStrip(w, ";", Spaces), FilenameParam) == Some("a.txt")
  {
    ParameterText(p);
    ParameterStrips();
    StripPadded(" ", p, Spaces);
    SplitStripOnce("form-data", ';', " " + p, Spaces);
    SplitWhole("form-data", "=");
    FilenameParameter("filename", "\"a.txt\"");
    LastSomeIsLastHit(["form-data", p], FilenameParam, 1);
  }

  lemma SampleDispositionLine(line: string)
    requires IsDispositionLine(line)
    ensures ContentTypeOfLine(line).None?
    ensures FilenameOfLine(line) == Some("a.txt")
  {
    DispositionLineText(line);
    var p := "filename=\"a.txt\"";
    var w := "form-data" + [';'] + (" " + p);
    DispositionValueText(w);
    ParameterStrips();
    HeaderLine("Content-Disposition", " " + w, "Content-Type");
    HeaderLine("Content-Disposition", " " + w, "Content-Disposition");
    StripPadded(" ", w, Spaces);
    SampleParameters(w, p);
  }

  /** The example upload of the decoder's documentation. */
  lemma SampleUpload(typeLine: string, dispositionLine: string)
    requires IsTypeLine(typeLine) && IsDispositionLine(dispositionLine)
    ensures ParseUpload(typeLine + CRLF + (dispositionLine + CRLF + ("" + CRLF + "hello")))
         == Upload("text/plain", "a.txt", "hello")
  {
    TypeLineText(typeLine);
    DispositionLineText(dispositionLine);
    FourSegments(typeLine, dispositionLine, "hello");
    SampleTypeLine(typeLine);
    SampleDispositionLine(dispositionLine);
    LastSomeIsLastHit([typeLine, dispositionLine], ContentTypeOfLine, 0);
    LastSomeIsLastHit([typeLine, dispositionLine], FilenameOfLine, 1);
  }
}
