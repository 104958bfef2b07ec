/** wordWrap(text, width), the console formatter that all four CLI scripts
    carry an identical copy of: the text is split at single spaces and the
    words are joined back one at a time, each with a newline when the current
    last line plus the next word's first line would reach the width, and
    with a space otherwise. */
module TextWrap {

  /** Index of the first occurrence of c in s. */
  function IndexOf(s: string, c: char): (i: nat)
    requires c in s
    ensures i < |s| && s[i] == c && c !in s[..i]
  {
    if s[0] == c then 0 else 1 + IndexOf(s[1..], c)
  }

  /** s.split(c) with an explicit one-character separator: at least one
      word, and adjacent separators give empty words. */
  function Split(s: string, c: char): (r: seq<string>)
    ensures |r| >= 1
    decreases |s|
  {
    if c in s then [s[..IndexOf(s, c)]] + Split(s[IndexOf(s, c) + 1..], c) else [s]
  }

  /** s.rfind(c): the index of the last c, or -1. */
  function RFind(s: string, c: char): (i: int)
    ensures -1 <= i < |s|
    ensures i >= 0 ==> s[i] == c
  {
    if s == [] then -1
    else if s[|s| - 1] == c then |s| - 1
    else RFind(s[..|s| - 1], c)
  }

  /** No c comes after the one RFind reports. */
  lemma {:induction false} RFindIsLast(s: string, c: char)
    ensures forall j :: RFind(s, c) < j < |s| ==> s[j] != c
  {
    if s != [] && s[|s| - 1] != c {
      RFindIsLast(s[..|s| - 1], c);
    }
  }

  /** word.split("\n", 1)[0]: the word up to its first newline. */
  function FirstLine(word: string): string
  {
    if '\n' in word then word[..IndexOf(word, '\n')] else word
  }

  /** The nested func(line, word) of wordWrap. */
  function JoinWord(line: string, word: string, width: int): string
  {
    var n := |line| - RFind(line, '\n') - 1 + |FirstLine(word)|;
    line + [if n >= width then '\n' else ' '] + word
  }

  // ---------------------------------------------------------------------
  // What the output is, stated position by position

  /** Length of the last line of s. */
  function LastLineLength(s: string): int
  {
    |s| - RFind(s, '\n') - 1
  }

  /** Length of the first line of the next word of s: the distance to the
      first space or newline. */
  function FirstLineLength(s: string): (n: nat)
    ensures n <= |s|
    ensures forall j :: 0 <= j < n ==> s[j] != ' ' && s[j] != '\n'
    ensures n < |s| ==> s[n] == ' ' || s[n] == '\n'
  {
    if s == [] || s[0] == ' ' || s[0] == '\n' then 0 else 1 + FirstLineLength(s[1..])
  }

  /** The character the wrapped text holds at position i, given the wrapped
      text before it: a space of the input becomes a newline exactly when the
      current last line plus the next word's first line reaches the width;
      every other character is kept. */
  function WrappedChar(text: string, width: int, before: string, i: nat): char
    requires i < |text|
  {
    if text[i] != ' ' then text[i]
    else if LastLineLength(before) + FirstLineLength(text[i + 1..]) >= width then '\n'
    else ' '
  }

  ghost predicate WrapsPrefix(text: string, width: int, r: string)
  {
    |r| <= |text| &&
    forall i :: 0 <= i < |r| ==> r[i] == WrappedChar(text, width, r[..i], i)
  }

  ghost predicate WrapsTo(text: string, width: int, r: string)
  {
    |r| == |text| && WrapsPrefix(text, width, r)
  }

  lemma FirstLineLengthIs(s: string, k: nat)
    requires k <= |s|
    requires forall j :: 0 <= j < k ==> s[j] != ' ' && s[j] != '\n'
    requires k < |s| ==> s[k] == ' ' || s[k] == '\n'
    ensures FirstLineLength(s) == k
  {
  }

  /** The shape of s.split(c): a first word free of c, then either the end
      of s or a separator followed by the split of the rest. */
  lemma SplitHead(s: string, c: char)
    ensures var w := Split(s, c)[0];
      && |w| <= |s| && w == s[..|w|] && c !in w
      && (|w| < |s| ==> s[|w|] == c && Split(s, c)[1..] == Split(s[|w| + 1..], c))
      && (|w| == |s| ==> |Split(s, c)| == 1)
  {
  }

  /** The word that follows the space at pos, located in text; ws is the
      split of what follows that space. */
  lemma NextWord(text: string, pos: nat, ws: seq<string>) returns (next: nat)
    requires pos < |text| && text[pos] == ' '
    requires ws == Split(text[pos + 1..], ' ')
    ensures next == pos + 1 + |ws[0]| <= |text|
    ensures ws[0] == text[pos + 1..next] && ' ' !in ws[0]
    ensures next < |text| ==> text[next] == ' ' && ws[1..] == Split(text[next + 1..], ' ')
    ensures next == |text| ==> |ws| == 1
  {
    var s := text[pos + 1..];
    SplitHead(s, ' ');
    var w := ws[0];
    next := pos + 1 + |w|;
    if |w| < |s| {
      assert s[|w| + 1..] == text[next + 1..];
    }
  }

  /** The next word after the space at pos, measured in the text, has the
      first line that JoinWord measures in the word. */
  lemma WordFirstLine(text: string, pos: nat, word: string)
    requires pos + 1 + |word| <= |text|
    requires word == text[pos + 1..pos + 1 + |word|]
    requires ' ' !in word
    requires pos + 1 + |word| < |text| ==> text[pos + 1 + |word|] == ' '
    ensures FirstLineLength(text[pos + 1..]) == |FirstLine(word)|
  {
    var s := text[pos + 1..];
    var k := |FirstLine(word)|;
    forall j | 0 <= j < |word|
      ensures s[j] == word[j]
    {
    }
    if '\n' in word {
      var idx := IndexOf(word, '\n');
      forall j | 0 <= j < idx
        ensures s[j] != ' ' && s[j] != '\n'
      {
        assert word[..idx][j] == word[j];
      }
    } else {
      forall j | 0 <= j < |word|
        ensures s[j] != ' ' && s[j] != '\n'
      {
        assert word[j] in word;
      }
    }
    FirstLineLengthIs(s, k);
  }

  /** Appending one word with JoinWord extends a correctly wrapped prefix. */
  lemma ExtendWrap(text: string, width: int, line: string, word: string)
    requires WrapsPrefix(text, width, line)
    requires |line| < |text| && text[|line|] == ' '
    requires |line| + 1 + |word| <= |text|
    requires word == text[|line| + 1..|line| + 1 + |word|]
    requires ' ' !in word
    requires |line| + 1 + |word| < |text| ==> text[|line| + 1 + |word|] == ' '
    ensures WrapsPrefix(text, width, JoinWord(line, word, width))
  {
    var pos := |line|;
    WordFirstLine(text, pos, word);
    var r := JoinWord(line, word, width);
    assert |r| == pos + 1 + |word|;
    forall i | 0 <= i < |r|
      ensures r[i] == WrappedChar(text, width, r[..i], i)
    {
      if i < pos {
        assert r[..i] == line[..i];
      } else if i == pos {
        assert r[..i] == line;
      } else {
        assert r[i] == word[i - pos - 1] == text[i];
        assert text[i] in word;
      }
    }
  }

  /** A first word, which holds no space, is already wrapped. */
  lemma SpacelessPrefixWraps(text: string, width: int, w: string)
    requires |w| <= |text| && w == text[..|w|] && ' ' !in w
    ensures WrapsPrefix(text, width, w)
  {
    forall i | 0 <= i < |w|
      ensures w[i] == WrappedChar(text, width, w[..i], i)
    {
      assert w[i] == text[i];
      assert w[i] in w;
    }
  }

  /** What the position rule says about single characters. */
  lemma WrapsToKeepsText(text: string, width: int, r: string)
    requires WrapsTo(text, width, r)
    ensures forall i :: 0 <= i < |text| && text[i] != ' ' ==> r[i] == text[i]
    ensures forall i :: 0 <= i < |text| && text[i] == ' ' ==> r[i] == ' ' || r[i] == '\n'
    ensures ' ' !in text ==> r == text
  {
    forall i | 0 <= i < |text|
      ensures r[i] == WrappedChar(text, width, r[..i], i)
    {
    }
    if ' ' !in text {
      forall i | 0 <= i < |text|
        ensures r[i] == text[i]
      {
        assert text[i] in text;
      }
    }
  }

  /** The wrapped text up to pos is line, and rest are the words after
      it. */
  ghost predicate Progress(text: string, width: int, line: string, rest: seq<string>, pos: nat)
  {
    && pos == |line| <= |text|
    && WrapsPrefix(text, width, line)
    && (pos < |text| ==> text[pos] == ' ' && rest == Split(text[pos + 1..], ' '))
    && (pos == |text| ==> rest == [])
  }

  /** The loop state of wordWrap: the first list element is the wrapped
      text up to pos, and the remaining elements are the words after it. */
  ghost predicate WrapState(text: string, width: int, words: seq<string>, pos: nat)
  {
    |words| >= 1 && Progress(text, width, words[0], words[1..], pos)
  }

  lemma WrapStart(text: string, width: int)
    ensures WrapState(text, width, Split(text, ' '), |Split(text, ' ')[0]|)
  {
    SplitHead(text, ' ');
    SpacelessPrefixWraps(text, width, Split(text, ' ')[0]);
  }

  /** Joining the next word onto the wrapped line; next is the position of
      the space that follows that word, or the end of the text. */
  lemma ProgressStep(text: string, width: int, line: string, rest: seq<string>, pos: nat)
    returns (next: nat)
    requires Progress(text, width, line, rest, pos) && rest != []
    ensures next == pos + 1 + |rest[0]|
    ensures Progress(text, width, JoinWord(line, rest[0], width), rest[1..], next)
  {
    next := NextWord(text, pos, rest);
    ExtendWrap(text, width, line, rest[0]);
    if next == |text| {
      assert rest[1..] == [];
    }
  }

  /** One iteration: pop the first element and join it onto the next. */
  lemma WrapStep(text: string, width: int, words: seq<string>, pos: nat) returns (next: nat)
    requires WrapState(text, width, words, pos) && |words| > 1
    ensures WrapState(text, width, words[1..][0 := JoinWord(words[0], words[1], width)], next)
  {
    var ws := words[1..];
    next := ProgressStep(text, width, words[0], ws, pos);
    TailAfterUpdate(ws, JoinWord(words[0], ws[0], width), ws[1..]);
  }

  lemma TailAfterUpdate<T>(s: seq<T>, v: T, t: seq<T>)
    requires s != [] && s[1..] == t
    ensures s[0 := v][0] == v && s[0 := v][1..] == t
  {
    assert s[0 := v][1..] == s[1..];
  }

  /** wordWrap as the script runs it: the word list is consumed from the
      front, its first element repeatedly replaced by the join of the first
      two. */
  method WordWrap(text: string, width: int) returns (r: string)
    ensures WrapsTo(text, width, r)
  {
    var words := Split(text, ' ');
    ghost var pos: nat := |words[0]|;
    WrapStart(text, width);
    while |words| > 1
      invariant WrapState(text, width, words, pos)
      decreases |words|
    {
      words, pos := PopJoin(text, width, words, pos);
    }
    r := words[0];
  }

  /** text[0] = func(text.pop(0), text[0]). */
  method PopJoin(text: string, width: int, words: seq<string>, ghost pos: nat)
    returns (words': seq<string>, ghost pos': nat)
    requires WrapState(text, width, words, pos) && |words| > 1
    ensures WrapState(text, width, words', pos') && |words'| == |words| - 1
  {
    pos' := WrapStep(text, width, words, pos);
    var line := words[0];
    words' := words[1..];
    words' := words'[0 := JoinWord(line, words'[0], width)];
  }

  /** The position-by-position rule determines the wrapped text: at most one
      string satisfies it, so WordWrap computes exactly that string. */
  lemma {:induction false} WrapUnique(text: string, width: int, r1: string, r2: string)
    requires WrapsTo(text, width, r1) && WrapsTo(text, width, r2)
    ensures r1 == r2
  {
    var k := 0;
    while k < |text|
      invariant 0 <= k <= |text|
      invariant r1[..k] == r2[..k]
    {
      assert r1[k] == WrappedChar(text, width, r1[..k], k);
      assert r2[k] == WrappedChar(text, width, r2[..k], k);
      assert r1[..k + 1] == r1[..k] + [r1[k]];
      assert r2[..k + 1] == r2[..k] + [r2[k]];
      k := k + 1;
    }
    assert r1 == r1[..k] && r2 == r2[..k];
  }
}
