# Web decoder decision logic, modelled in Dafny

This project models the decision logic of the Dshell `web` HTTP decoder
(`decoders/http/web.py`). For every HTTP request, and the response captured for
it if there is one, the decoder derives an alert record. It picks the host, the
status and reason, a redirect annotation, the response size and an optional MD5
digest. It builds the downloaded and uploaded file artifacts and a display
colour, and it writes a one-line summary with the URI truncated for display.

Modules, one per part of the decoder:

- `Optional` (`optional.dfy`): the `Option` type. It stands for Python's
  `None` and for an attribute read that the source guards with
  `try`/`except`.
- `PyStrings` (`pystrings.dfy`): the Python 2 byte-string operations the
  decoder uses. These are `split` for a non-empty separator, `strip`/`rstrip`
  with a character set, `startswith` and `s[:n]`. A Python 2 `str` is a byte
  string, and each `char` stands for one byte.
- `Classifier` (`classifier.dfy`): `set_color`. The four colours are a
  datatype, not terminal escape codes.
- `Upload` (`upload.dfy`): `POSTHandler` with `splitstrip`. It is
  imperative: a loop with the `next_line_is_data` flag and overwritten
  accumulators. It is proved equal to the segment-level specification
  `ParseSegments`.
- `UploadSample` (`upload_sample.dfy`): the documented example upload
  body, worked through the specification.
- `Web` (`web.dfy`):
  - the connection filter `filterfn`;
  - the per-field derivations of `HTTPHandler` and `_bodyMD5`;
  - the pure record function `Alert`;
  - the class `Decoder`. It holds the options and the `color_code` field that
    `HTTPHandler` updates in place. Its `HTTPHandler` method assigns the
    fields step by step and is proved to return `Alert(...)`.

Three collaborators have no code in this model. `util.getHeader`,
`util.HTTPlastmodified` and the MD5 hex digest are passed in as the function
fields of an `Oracles` value. The model relies on nothing about them except
that they are functions.

Where the decoder's design description and the code disagree, the model follows
the code:

- The design says a digest is "not computed" when the body is empty after its
  trailing NULs are stripped. The code tests the length of the unstripped body,
  so a non-empty all-NUL body is digested as empty input (`Web.DigestGating`).
- The design says a Content-Disposition parameter is split on its first `=`.
  The code unpacks `k, v = ...split('=')`, so a parameter counts only when it
  holds exactly one `=` (`Upload.FilenameParameter`).
- The design says zero-length artifacts are represented as no artifact. The
  code builds the upload artifact for every POST with a non-empty body, even
  when the recovered data is empty (`Web.Artifacts`).
- The design says no exchange aborts. In the code, `set_color` reads
  `response.body` without a guard when the content type is
  `application/octet-stream` and colouring is on. If that body cannot be read,
  the handler raises before the alert. `Classifier.SetColor` returns `None`
  there, and `Web.Decoder.HTTPHandler` then returns no alert and leaves the
  colour unchanged.

## Model

| member | source | states |
|---|---|---|
| `PyStrings.Split` | decoders/http/web.py:177 | `split` on a non-empty separator always gives at least one part |
| `PyStrings.JoinSplit` | decoders/http/web.py:177 | joining the parts of `s.split(sep)` with `sep` gives back `s`, so splitting loses nothing |
| `PyStrings.SplitAtFirst` | decoders/http/web.py:177 | when `a` holds no first character of `sep`, the first part of `a + sep + b` is `a` and the rest is the split of `b` |
| `PyStrings.SplitWhole` | decoders/http/web.py:201 | a string without the separator's first character splits into itself alone |
| `PyStrings.SplitCharCount` | decoders/http/web.py:200-201 | splitting on one character `c` gives `count(c) + 1` parts, none containing `c` |
| `PyStrings.SplitStrip` | decoders/http/web.py:200-201 | `splitstrip` gives exactly one stripped part per part of the split |
| `PyStrings.OneSeparatorTwoParts` | decoders/http/web.py:184 | `k, v = splitstrip(data, c, ...)` can unpack exactly when `c` occurs once in `data` |
| `PyStrings.SplitStripOnce` | decoders/http/web.py:200-201 | for `a + c + b` with `c` in neither side, `splitstrip` gives the stripped `a` and the stripped `b` |
| `PyStrings.LStripIsSuffix` | decoders/http/web.py:201 | left stripping removes exactly the longest prefix made of the character set |
| `PyStrings.RStripIsPrefix` | decoders/http/web.py:112 | right stripping removes exactly the longest suffix made of the character set |
| `PyStrings.StripIsTrimmedSlice` | decoders/http/web.py:201 | `strip` returns a slice `s[i..j]`: all of `s[..i]` and `s[j..]` is in the set, and the result neither starts nor ends with a character of the set |
| `PyStrings.StripIdempotent` | decoders/http/web.py:201 | stripping a stripped string changes nothing |
| `PyStrings.StripPadded` | decoders/http/web.py:201 | a padding made of the set is removed in front of a word that neither starts nor ends with a character of the set |
| `PyStrings.RStripAppend` | decoders/http/web.py:112 | appending characters of the set does not change `rstrip` |
| `Classifier.SetColor` | decoders/http/web.py:34-75 | `set_color` fails exactly when it needs the body (`application/octet-stream`) and the body cannot be read |
| `Classifier.DeclaredTypeDecides` | decoders/http/web.py:35-56 | for any type other than `application/octet-stream`, the three tables give Yellow, Cyan and Red, each exactly for its own types; anything else gives White; the body is never read |
| `Classifier.OctetStreamSniffing` | decoders/http/web.py:58-69 | for `application/octet-stream`: Cyan exactly for `CWS`/`ZWS`/`FWS`, Yellow exactly for `PK`, Red exactly for `MZ`/`NE`/`LX`/`LE`/`PE`, White exactly when none matches |
| `Classifier.MagicFamiliesDisjoint` | decoders/http/web.py:59-67 | no body starts with signatures of two families, so the order of the checks never hides a match |
| `Classifier.SniffReadsThreeBytes` | decoders/http/web.py:59-67 | sniffing depends on nothing beyond the first three bytes of the body |
| `Classifier.StartsWithinThree` | decoders/http/web.py:59-67 | a prefix of at most three bytes is found in the body exactly when it is found in the body's first three bytes |
| `Upload.FirstBlank` | decoders/http/web.py:178-181 | finds the first empty segment: every segment before it is non-empty, and the segment at it, if any, is empty |
| `Upload.ParseSegments` | decoders/http/web.py:177-198 | the third result is the segment right after the first empty one; with no empty segment it is the last segment; when the empty segment is the last one it is `''` |
| `Upload.ScanDisposition` | decoders/http/web.py:188-195 | the inner loop leaves the value of the last parameter that unpacks into `filename` and a value, and otherwise keeps the earlier file name |
| `Upload.POSTHandler` | decoders/http/web.py:173-198 | the loop with the flag, the early `break` and the overwritten accumulators returns exactly `ParseUpload(postdata)` |
| `Upload.LastSomeStep` | decoders/http/web.py:185-186 | scanning one more line either overwrites the accumulator with that line's value or keeps it |
| `Upload.LastSomeIsLastHit` | decoders/http/web.py:185-193 | the accumulator ends with the value of the last line or parameter that supplies one |
| `Upload.LastSomeNone` | decoders/http/web.py:175-176 | the accumulator gets no value exactly when no line or parameter supplies one |
| `Upload.ContentTypeIsLastHeader` | decoders/http/web.py:183-186 | the content type is the value of the last header line before the first empty segment that unpacks into key `Content-Type` (compared case-sensitively) and a value |
| `Upload.DefaultsWhenAbsent` | decoders/http/web.py:175-176 | without such a line the content type is `''`; without a usable `filename` parameter the file name is `''` |
| `Upload.FilenameIsLastParameter` | decoders/http/web.py:187-195 | the file name is the last `filename` parameter of the last `Content-Disposition` line that has one |
| `Upload.HeaderNeedsOneColon` | decoders/http/web.py:183-197 | a line with no `:` or with several is skipped, whatever its key |
| `Upload.HeaderLine` | decoders/http/web.py:184-187 | a line `name:value` with one colon gives the space-stripped value exactly when the space-stripped name equals the key |
| `Upload.FilenameParameter` | decoders/http/web.py:191-193 | a parameter `name=value` with one `=` is the file name exactly when its quote-stripped name is `filename`; the value loses its surrounding quotes |
| `Upload.FirstBlankPrefix` | decoders/http/web.py:178-181 | cutting the segments after the first empty one does not move it |
| `Upload.ReadsOnlyHead` | decoders/http/web.py:177-182 | nothing after the segment that follows the first empty one affects the result |
| `UploadSample.FourSegments` | decoders/http/web.py:177-198 | two header lines, an empty segment and a data segment parse into the header values and that data segment |
| `UploadSample.SampleUpload` | decoders/http/web.py:173-198 | `Content-Type: text/plain`, `Content-Disposition: form-data; filename="a.txt"`, an empty line and `hello` parse into `text/plain`, `a.txt` and `hello` |
| `Web.FilterFnSymmetric` | decoders/http/web.py:22-23 | a connection is decoded when either end uses port 80, 8000 or 8080, whichever end opened it |
| `Web.HostAndUri` | decoders/http/web.py:83-85 | the host is the `Host` header, or the server address when that header is empty; the alert's `uri` and method are the request's own, unmodified |
| `Web.DisplayUriTruncation` | decoders/http/web.py:136-140 | the displayed URI is its first `maxurilen` characters plus `[truncated]` exactly when `maxurilen > 0` and the URI is longer; otherwise it is the full URI |
| `Web.NoResponseRecord` | decoders/http/web.py:87-144 | without a response a record is still produced: status, reason and response summary are `''`, size 0, no digest, no downloaded file |
| `Web.RedirectAnnotation` | decoders/http/web.py:96-100 | the annotation is non-empty exactly when the status starts with `30` and the `Location` header is non-empty, and then it is `-> ` followed by that header |
| `Web.PaddedStrip` | decoders/http/web.py:112 | stripping the NULs of a padded body gives what stripping the unpadded body gives |
| `Web.PaddingIgnoredBySize` | decoders/http/web.py:111-114 | trailing NUL padding does not change the response size |
| `Web.ResponseSizeBound` | decoders/http/web.py:111-114 | the response size never exceeds the body length, and is smaller only for a body that ends in NUL |
| `Web.DigestIgnoresPadding` | decoders/http/web.py:164-171 | two non-empty bodies that differ only in trailing NULs get the same digest, the digest of the stripped body |
| `Web.DigestGating` | decoders/http/web.py:164-171 | an empty body has digest `''`; a non-empty all-NUL body is digested as empty input |
| `Web.Artifacts` | decoders/http/web.py:122-134 | the downloaded file exists exactly for a readable non-empty body and carries the whole body under the request URI; the upload file exists exactly for a POST with a non-empty body and is named by the parsed file name |
| `Web.FileObjects` | decoders/http/web.py:121-134 | the file-object step builds exactly the downloaded and uploaded artifacts described by `ResponseFile` and `UploadFile` |
| `Web.Decoder.constructor` | decoders/http/web.py:17-32 | a fresh decoder keeps its options and starts in White |
| `Web.Decoder.HTTPHandler` | decoders/http/web.py:77-144 | with colouring on, `color_code` becomes the `set_color` result; the returned alert is `Alert(...)` with that colour; when `set_color` raises, no alert is returned and the colour is kept; the invariant "colouring off means White" is preserved |
| `Web.ColorOffShowsWhite` | decoders/http/web.py:108-109 | with colouring off every exchange yields an alert and is shown in White |

## Left out

- The MD5 algorithm (`hashlib.md5(...).hexdigest()`), `util.getHeader` and `util.HTTPlastmodified` are not part of this model. They are the function fields of `Web.Oracles`, with no property assumed.
- Terminal output is left out: the `print` of the escape codes (web.py:146, 156) and the `"{0:<80}"` padding of the alert line. `Record` carries the request and response summaries and the colour instead.
- The `self.alert` call (web.py:147-154) is represented by the returned `Record`. The passed-through `request_time`, `response_time` and `conn.info()` values are not modelled, because the decoder does not inspect them.
- The session writer (`self.write`, web.py:158-161) is output plumbing and is left out.
- Framework set-up is left out: the `HTTPDecoder` base class, the option dictionary and BPF filter string of `__init__` (web.py:17-31), `self.gunzip`, and module instantiation (web.py:204-208). The three options are the constructor parameters of `Web.Decoder`.
- `dfile.dfile` is modelled as the value `Artifact(name, data)`. The `''`/`None` placeholders become `None`.
- Python exceptions are modelled as `Option` values. `if response:` is read as "a response was captured".
- `Web.Decoder.HTTPHandler`: the "File objects" block (web.py:121-134) is the separate method `Web.FileObjects`, which the handler calls. `POSTHandler`'s inner loop is the separate method `Upload.ScanDisposition`. The order of effects is unchanged.
- The content type that `POSTHandler` returns (`ulcontenttype`, web.py:131) is discarded by the handler, as in the source.
