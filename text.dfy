/** The Python 2 string operations the checksum scripts rely on: reading a
    text file line by line, str.split(", "), unicode.strip() and the
    implicit ASCII conversions of str(). */
module Text {
  import opened Common

  predicate IsAscii(s: string)
  {
    forall i :: 0 <= i < |s| ==> s[i] < 128 as char
  }

  /** The characters unicode.splitlines() breaks at ("\r\n" counts as one
      break): LF, VT, FF, CR, the separators 0x1C-0x1E, NEL and the line and
      paragraph separators. */
  predicate IsLineBreak(c: char)
  {
    var n := c as int;
    (0x0A <= n <= 0x0D) || (0x1C <= n <= 0x1E) || n == 0x85 || n == 0x2028 || n == 0x2029
  }

  /** The characters unicode.strip() removes: Python 2.7's unicode
      whitespace. */
  predicate IsWhitespace(c: char)
  {
    var n := c as int;
    (0x09 <= n <= 0x0D) || (0x1C <= n <= 0x20) || n == 0x85 || n == 0xA0 || n == 0x1680 ||
    n == 0x180E || (0x2000 <= n <= 0x200A) || n == 0x2028 || n == 0x2029 || n == 0x202F ||
    n == 0x205F || n == 0x3000
  }

  // ---------------------------------------------------------------------
  // Lines

  /** Length of the first line of s, its line break included. */
  function FirstLineEnd(s: string): (k: nat)
    requires s != []
    ensures 0 < k <= |s|
  {
    if IsLineBreak(s[0]) then
      (if s[0] == '\r' && |s| > 1 && s[1] == '\n' then 2 else 1)
    else if |s| == 1 then 1
    else 1 + FirstLineEnd(s[1..])
  }

  /** Iterating over a text file opened with codecs.open: the lines of s,
      each with its line break, the last one possibly without. */
  function SplitLines(s: string): (lines: seq<string>)
    ensures Flatten(lines) == s
    ensures forall i :: 0 <= i < |lines| ==> lines[i] != []
    decreases |s|
  {
    if s == [] then [] else [s[..FirstLineEnd(s)]] + SplitLines(s[FirstLineEnd(s)..])
  }

  /** A line made of a break-free body and "\n" is split off whole. */
  lemma SplitLinesCons(body: string, rest: string)
    requires forall j :: 0 <= j < |body| ==> !IsLineBreak(body[j])
    ensures SplitLines(body + "\n" + rest) == [body + "\n"] + SplitLines(rest)
  {
    var s := body + "\n" + rest;
    FirstLineEndOf(body, rest);
    assert s[..|body| + 1] == body + "\n";
    assert s[|body| + 1..] == rest;
  }

  lemma {:induction false} FirstLineEndOf(body: string, rest: string)
    requires forall j :: 0 <= j < |body| ==> !IsLineBreak(body[j])
    ensures FirstLineEnd(body + "\n" + rest) == |body| + 1
    decreases |body|
  {
    var s := body + "\n" + rest;
    if body != [] {
      assert s[1..] == body[1..] + "\n" + rest;
      FirstLineEndOf(body[1..], rest);
    }
  }

  const ByteOrderMark: char := 0xFEFF as char

  /** The utf_8_sig codec drops one leading byte order mark. */
  function StripBom(s: string): (r: string)
    ensures r == s || (s != [] && s[0] == ByteOrderMark && r == s[1..])
  {
    if s != [] && s[0] == ByteOrderMark then s[1..] else s
  }

  // ---------------------------------------------------------------------
  // str.split(", ")

  predicate SeparatorAt(s: string, i: int)
  {
    0 <= i && i + 1 < |s| && s[i] == ',' && s[i + 1] == ' '
  }

  predicate HasSeparator(s: string)
  {
    exists i :: 0 <= i < |s| && SeparatorAt(s, i)
  }

  /** Index of the first ", " in s. */
  function FindSeparator(s: string): (k: nat)
    requires HasSeparator(s)
    ensures SeparatorAt(s, k)
    ensures forall j :: 0 <= j < k ==> !SeparatorAt(s, j)
  {
    if SeparatorAt(s, 0) then 0
    else
      assert HasSeparator(s[1..]) by {
        var i :| 0 <= i < |s| && SeparatorAt(s, i);
        assert SeparatorAt(s[1..], i - 1);
      }
      var k := FindSeparator(s[1..]);
      assert forall j :: 1 <= j <= k ==> (SeparatorAt(s, j) <==> SeparatorAt(s[1..], j - 1));
      1 + k
  }

  /** s.split(", "): the pieces between separators, at least one. */
  function Fields(s: string): (fs: seq<string>)
    ensures |fs| >= 1
    ensures HasSeparator(s) <==> |fs| >= 2
    decreases |s|
  {
    if HasSeparator(s) then
      var k := FindSeparator(s);
      [s[..k]] + Fields(s[k + 2..])
    else [s]
  }

  /** A name free of ", " followed by ", " and a separator-free tail splits
      into exactly those two pieces. */
  lemma FieldsOfPair(name: string, rest: string)
    requires !HasSeparator(name) && !HasSeparator(rest)
    requires rest == [] || rest[0] != ' '
    ensures Fields(name + ", " + rest) == [name, rest]
  {
    var s := name + ", " + rest;
    assert SeparatorAt(s, |name|);
    forall j | 0 <= j < |name|
      ensures !SeparatorAt(s, j)
    {
      if j + 1 < |name| {
        assert !SeparatorAt(name, j);
      }
    }
    assert FindSeparator(s) == |name|;
    assert s[..|name|] == name;
    assert s[|name| + 2..] == rest;
  }

  // ---------------------------------------------------------------------
  // unicode.strip()

  function StripLeft(s: string): (r: string)
    ensures |r| <= |s| && r == s[|s| - |r|..]
    ensures r == [] || !IsWhitespace(r[0])
  {
    if s != [] && IsWhitespace(s[0]) then StripLeft(s[1..]) else s
  }

  function StripRight(s: string): (r: string)
    ensures |r| <= |s| && r == s[..|r|]
    ensures r == [] || !IsWhitespace(r[|r| - 1])
  {
    if s != [] && IsWhitespace(s[|s| - 1]) then StripRight(s[..|s| - 1]) else s
  }

  function Strip(s: string): string
  {
    StripRight(StripLeft(s))
  }

  /** Stripping a word that begins and ends with non-whitespace, followed
      by a line break, gives back the word. */
  lemma StripWordNewline(w: string)
    requires w != [] && !IsWhitespace(w[0]) && !IsWhitespace(w[|w| - 1])
    ensures Strip(w + "\n") == w
  {
    assert StripLeft(w + "\n") == w + "\n";
    assert (w + "\n")[..|w|] == w;
    assert StripRight(w) == w;
  }
}
