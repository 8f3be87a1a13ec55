/** The Python 2 byte-string operations the web decoder relies on: `split`,
    `strip`/`rstrip` with a set of characters, `startswith` and the slice `s[:n]`.
    A Python 2 `str` is a byte string; here each `char` stands for one byte. */
module PyStrings {

  type Bytes = string

  /** The character sets passed to `strip`: `' '`, `'"'` and `'\0'`. */
  const Spaces: set<char> := {' '}
  const Quotes: set<char> := {'"'}
  const Nuls: set<char> := {'\0'}

  /** `s.startswith(p)` */
  predicate StartsWith(s: string, p: string) {
    |p| <= |s| && s[..|p|] == p
  }

  /** `s[:n]` for a non-negative `n`: Python clamps the bound to the length. */
  function Take(s: string, n: nat): string {
    if n <= |s| then s[..n] else s
  }

  /** Number of occurrences of the character `c` in `s` (`s.count(c)`). */
  function Count(s: string, c: char): nat {
    if s == "" then 0 else (if s[0] == c then 1 else 0) + Count(s[1..], c)
  }

  // ---------------------------------------------------------------------------
  // split and its inverse

  /** `s.split(sep)` for a non-empty separator. Scanning left to right, a part
      ends where the first occurrence of `sep` starts; occurrences never
      overlap, and there is always at least one part. */
  function Split(s: string, sep: string): (parts: seq<string>)
    requires sep != ""
    ensures |parts| >= 1
    decreases |s|
  {
    if |s| < |sep| then [s]
    else if s[..|sep|] == sep then [""] + Split(s[|sep|..], sep)
    else
      var rest := Split(s[1..], sep);
      [[s[0]] + rest[0]] + rest[1..]
  }

  /** `sep.join(parts)` */
  function Join(parts: seq<string>, sep: string): string
    requires |parts| >= 1
  {
    if |parts| == 1 then parts[0] else parts[0] + sep + Join(parts[1..], sep)
  }

  lemma {:induction false} JoinConsHead(c: char, parts: seq<string>, sep: string)
    requires |parts| >= 1
    ensures Join([[c] + parts[0]] + parts[1..], sep) == [c] + Join(parts, sep)
  {
    var ps := [[c] + parts[0]] + parts[1..];
    assert ps[1..] == parts[1..];
  }

  /** Splitting loses nothing: joining the parts with the separator gives back
      the original string. */
  lemma {:induction false} JoinSplit(s: string, sep: string)
    requires sep != ""
    ensures Join(Split(s, sep), sep) == s
    decreases |s|
  {
    if |s| < |sep| {
    } else if s[..|sep|] == sep {
      var rest := Split(s[|sep|..], sep);
      assert Split(s, sep) == [""] + rest;
      JoinSplit(s[|sep|..], sep);
      assert ([""] + rest)[1..] == rest;
      assert Join([""] + rest, sep) == "" + sep + Join(rest, sep);
      assert s == s[..|sep|] + s[|sep|..];
    } else {
      var rest := Split(s[1..], sep);
      assert Split(s, sep) == [[s[0]] + rest[0]] + rest[1..];
      JoinSplit(s[1..], sep);
      JoinConsHead(s[0], rest, sep);
      assert s == [s[0]] + s[1..];
    }
  }

  /** When the first character of `sep` does not occur in `a`, the first part
      of `a + sep + b` is exactly `a`. */
  lemma {:induction false} SplitAtFirst(a: string, sep: string, b: string)
    requires sep != "" && sep[0] !in a
    ensures Split(a + sep + b, sep) == [a] + Split(b, sep)
    decreases |a|
  {
    var s := a + sep + b;
    if a == "" {
      assert s[..|sep|] == sep && s[|sep|..] == b;
    } else {
      assert s[0] == a[0] != sep[0];
      assert s[..|sep|] != sep;
      assert s[1..] == a[1..] + sep + b;
      SplitAtFirst(a[1..], sep, b);
      assert [a[0]] + a[1..] == a;
    }
  }

  /** A string in which the first character of `sep` does not occur is a
      single part. */
  lemma {:induction false} SplitWhole(a: string, sep: string)
    requires sep != "" && sep[0] !in a
    ensures Split(a, sep) == [a]
    decreases |a|
  {
    if |a| >= |sep| {
      assert a[0] != sep[0];
      assert a[..|sep|] != sep;
      SplitWhole(a[1..], sep);
      assert [a[0]] + a[1..] == a;
    }
  }

  /** Splitting on one character `c` yields `s.count(c) + 1` parts, none of
      which contains `c`. */
  lemma {:induction false} SplitCharCount(s: string, c: char)
    ensures |Split(s, [c])| == Count(s, c) + 1
    ensures forall i :: 0 <= i < |Split(s, [c])| ==> c !in Split(s, [c])[i]
    decreases |s|
  {
    if s != "" {
      SplitCharCount(s[1..], c);
      if s[0] == c {
        assert s[..1] == [c];
      } else {
        assert s[..1] != [c];
      }
    }
  }

  // ---------------------------------------------------------------------------
  // strip

  /** `s.lstrip(chars)`: drops leading characters that belong to `chars`. */
  function LStrip(s: string, chars: set<char>): string
    decreases |s|
  {
    if s != "" && s[0] in chars then LStrip(s[1..], chars) else s
  }

  /** `s.rstrip(chars)`: drops trailing characters that belong to `chars`. */
  function RStrip(s: string, chars: set<char>): string
    decreases |s|
  {
    if s != "" && s[|s| - 1] in chars then RStrip(s[..|s| - 1], chars) else s
  }

  /** `s.strip(chars)` */
  function Strip(s: string, chars: set<char>): string {
    RStrip(LStrip(s, chars), chars)
  }

  /** `LStrip` removes exactly the longest prefix made of `chars`. */
  lemma {:induction false} LStripIsSuffix(s: string, chars: set<char>)
    ensures |LStrip(s, chars)| <= |s|
    ensures LStrip(s, chars) == s[|s| - |LStrip(s, chars)|..]
    ensures forall k :: 0 <= k < |s| - |LStrip(s, chars)| ==> s[k] in chars
    ensures LStrip(s, chars) != "" ==> LStrip(s, chars)[0] !in chars
    decreases |s|
  {
    if s != "" && s[0] in chars {
      LStripIsSuffix(s[1..], chars);
    }
  }

  /** `RStrip` removes exactly the longest suffix made of `chars`. */
  lemma {:induction false} RStripIsPrefix(s: string, chars: set<char>)
    ensures |RStrip(s, chars)| <= |s|
    ensures RStrip(s, chars) == s[..|RStrip(s, chars)|]
    ensures forall k :: |RStrip(s, chars)| <= k < |s| ==> s[k] in chars
    ensures var r := RStrip(s, chars); r != "" ==> r[|r| - 1] !in chars
    decreases |s|
  {
    if s != "" && s[|s| - 1] in chars {
      RStripIsPrefix(s[..|s| - 1], chars);
    }
  }

  /** `Strip` yields the slice `s[i..j]` left once every leading and trailing
      character of `chars` is gone: what remains neither starts nor ends with
      one of them. */
  lemma StripIsTrimmedSlice(s: string, chars: set<char>) returns (i: nat, j: nat)
    ensures i <= j <= |s| && Strip(s, chars) == s[i..j]
    ensures forall k :: 0 <= k < i ==> s[k] in chars
    ensures forall k :: j <= k < |s| ==> s[k] in chars
    ensures Strip(s, chars) != "" ==> Strip(s, chars)[0] !in chars
    ensures Strip(s, chars) != "" ==> Strip(s, chars)[|Strip(s, chars)| - 1] !in chars
  {
    var l := LStrip(s, chars);
    LStripIsSuffix(s, chars);
    var r := RStrip(l, chars);
    RStripIsPrefix(l, chars);
    assert Strip(s, chars) == r;
    i := |s| - |l|;
    j := i + |r|;
    assert l == s[i..];
    assert r == s[i..j];
    forall k | j <= k < |s|
      ensures s[k] in chars
    {
      assert s[k] == l[k - i];
    }
    if r != "" {
      assert r[0] == l[0];
    }
  }

  /** Stripping twice is stripping once. */
  lemma StripIdempotent(s: string, chars: set<char>)
    ensures Strip(Strip(s, chars), chars) == Strip(s, chars)
  {
    var r := Strip(s, chars);
    var _, _ := StripIsTrimmedSlice(s, chars);
    assert LStrip(r, chars) == r;
  }

  /** Stripping removes a padding made of `chars` and stops at a word that
      neither starts nor ends with one of them. */
  lemma {:induction false} StripPadded(pad: string, w: string, chars: set<char>)
    requires forall k :: 0 <= k < |pad| ==> pad[k] in chars
    requires w != "" && w[0] !in chars && w[|w| - 1] !in chars
    ensures Strip(pad + w, chars) == w
    decreases |pad|
  {
    if pad == "" {
      assert pad + w == w;
    } else {
      assert (pad + w)[1..] == pad[1..] + w;
      StripPadded(pad[1..], w, chars);
    }
  }

  /** Appending characters of `chars` does not change the result of
      `rstrip(chars)`. */
  lemma {:induction false} RStripAppend(s: string, t: string, chars: set<char>)
    requires forall k :: 0 <= k < |t| ==> t[k] in chars
    ensures RStrip(s + t, chars) == RStrip(s, chars)
    decreases |t|
  {
    if t != "" {
      var u := s + t;
      assert u[..|u| - 1] == s + t[..|t| - 1];
      RStripAppend(s, t[..|t| - 1], chars);
    } else {
      assert s + t == s;
    }
  }

  // ---------------------------------------------------------------------------
  // splitstrip

  /** `[part.strip(chars) for part in data.split(sep)]` */
  function SplitStrip(data: string, sep: string, chars: set<char>): (parts: seq<string>)
    requires sep != ""
    ensures |parts| == |Split(data, sep)|
  {
    var raw := Split(data, sep);
    seq(|raw|, i requires 0 <= i < |raw| => Strip(raw[i], chars))
  }

  /** Unpacking `k, v = splitstrip(data, c, chars)` succeeds exactly when `c`
      occurs once in `data`; then `k` and `v` are the stripped text before and
      after it. */
  lemma OneSeparatorTwoParts(data: string, c: char, chars: set<char>)
    ensures |SplitStrip(data, [c], chars)| == 2 <==> Count(data, c) == 1
  {
    SplitCharCount(data, c);
  }

  /** Splitting `a + [c] + b` on `c` when `c` occurs in neither side. */
  lemma SplitStripOnce(a: string, c: char, b: string, chars: set<char>)
    requires c !in a && c !in b
    ensures SplitStrip(a + [c] + b, [c], chars) == [Strip(a, chars), Strip(b, chars)]
  {
    SplitAtFirst(a, [c], b);
    SplitWhole(b, [c]);
  }
}
