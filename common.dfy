/** Vocabulary shared by the five scripts: bytes and digests, paths as
    component sequences, decimal rendering with zero padding, and a few
    sequence utilities. */
module Common {

  newtype Byte = b: int | 0 <= b < 256

  type Bytes = seq<Byte>

  /** A hashlib digest algorithm (md5, sha1) seen from outside: a total
      function from the bytes fed to it to the raw digest. Its internals are
      not part of the model. */
  type Hash = Bytes -> Bytes

  datatype Option<T> = None | Some(value: T)

  /** A filesystem path as the sequence of its components. */
  type Path = seq<string>

  /** A name as os.walk and os.listdir report it: never empty, no separator. */
  type FileName = s: string | s != "" && '/' !in s witness "f"

  /** os.path.join(dir, name) for a name without a separator: joining an
      empty name only adds a trailing slash, i.e. names the same directory. */
  function Join(dir: Path, name: string): Path
  {
    if name == "" then dir else dir + [name]
  }

  /** os.path.basename. */
  function Basename(p: Path): string
  {
    if p == [] then "" else p[|p| - 1]
  }

  lemma BasenameOfJoin(dir: Path, name: FileName)
    ensures Basename(Join(dir, name)) == name
  {
  }

  // ---------------------------------------------------------------------
  // Sequence utilities

  function Flatten<T>(ss: seq<seq<T>>): seq<T>
  {
    if ss == [] then [] else ss[0] + Flatten(ss[1..])
  }

  lemma {:induction false} FlattenSnoc<T>(ss: seq<seq<T>>, s: seq<T>)
    ensures Flatten(ss + [s]) == Flatten(ss) + s
  {
    if ss == [] {
      assert ss + [s] == [s];
    } else {
      assert (ss + [s])[1..] == ss[1..] + [s];
      FlattenSnoc(ss[1..], s);
    }
  }

  /** Number of occurrences of x in s. */
  function Count<T(==)>(s: seq<T>, x: T): nat
  {
    if s == [] then 0 else (if s[0] == x then 1 else 0) + Count(s[1..], x)
  }

  lemma {:induction false} CountSnoc<T>(s: seq<T>, y: T, x: T)
    ensures Count(s + [y], x) == Count(s, x) + (if y == x then 1 else 0)
  {
    if s == [] {
      assert s + [y] == [y];
    } else {
      assert (s + [y])[1..] == s[1..] + [y];
      CountSnoc(s[1..], y, x);
    }
  }

  /** A non-empty sequence is its front plus its last element, also
      after a prefix. */
  lemma SplitLast<T>(a: seq<T>, b: seq<T>)
    requires b != []
    ensures b[..|b| - 1] + [b[|b| - 1]] == b
    ensures a + b == (a + b[..|b| - 1]) + [b[|b| - 1]]
    ensures (a + b)[..|a + b| - 1] == a + b[..|b| - 1]
  {
    assert b[..|b| - 1] + [b[|b| - 1]] == b;
  }

  /** Growing a prefix by one element. */
  lemma PrefixSnoc<T>(s: seq<T>, k: nat)
    requires k < |s|
    ensures s[..k + 1] == s[..k] + [s[k]]
    ensures s[..k + 1][..k] == s[..k]
    ensures s[..k + 1] <= s
  {
  }

  lemma WholePrefix<T>(s: seq<T>)
    ensures s[..|s|] == s
  {
  }

  lemma CountLast<T>(s: seq<T>, x: T)
    requires s != []
    ensures Count(s, x) == Count(s[..|s| - 1], x) + (if s[|s| - 1] == x then 1 else 0)
  {
    assert s[..|s| - 1] + [s[|s| - 1]] == s;
    CountSnoc(s[..|s| - 1], s[|s| - 1], x);
  }

  lemma {:induction false} CountAbsent<T>(s: seq<T>, x: T)
    requires x !in s
    ensures Count(s, x) == 0
  {
    if s != [] {
      CountAbsent(s[1..], x);
    }
  }

  /** Index of the first occurrence of x in s. */
  function FirstIndex<T(==)>(s: seq<T>, x: T): (i: nat)
    requires x in s
    ensures i < |s| && s[i] == x && x !in s[..i]
  {
    if s[0] == x then 0 else 1 + FirstIndex(s[1..], x)
  }

  /** The first occurrence is the only index with nothing equal before it. */
  lemma FirstIndexUnique<T>(s: seq<T>, x: T, k: nat)
    requires k < |s| && s[k] == x && x !in s[..k]
    ensures FirstIndex(s, x) == k
  {
  }

  /** The elements of s, as a set. */
  function Elements<T(!new)>(s: seq<T>): (r: set<T>)
    ensures forall x :: x in r <==> x in s
  {
    set x | x in s
  }

  predicate NoDups<T(==)>(s: seq<T>)
  {
    forall i, j :: 0 <= i < j < |s| ==> s[i] != s[j]
  }

  function Min(a: int, b: int): int
  {
    if a <= b then a else b
  }

  // ---------------------------------------------------------------------
  // str(n) and zfill(3)

  function DigitChar(d: nat): char
    requires d < 10
  {
    "0123456789"[d]
  }

  /** str(n) for a non-negative int. */
  function NatToString(n: nat): (s: string)
    ensures |s| >= 1
  {
    if n < 10 then [DigitChar(n)] else NatToString(n / 10) + [DigitChar(n % 10)]
  }

  /** str.zfill(3) of a digit string: left-pad with '0' to three characters. */
  function ZFill3(s: string): (r: string)
    decreases 3 - |s|
  {
    if |s| >= 3 then s else ZFill3("0" + s)
  }

  /** str(n).zfill(3), the bucket number of dir_NNN and ext_NNN. */
  function Padded(n: nat): string
  {
    ZFill3(NatToString(n))
  }

  /** Value of a string of decimal digits (used only to prove that padding
      keeps numbers apart). */
  function DecimalValue(s: string): nat
  {
    if s == [] then 0
    else DecimalValue(s[..|s| - 1]) * 10 + DigitValue(s[|s| - 1])
  }

  function DigitValue(c: char): nat
  {
    if '0' <= c <= '9' then (c as int) - ('0' as int) else 0
  }

  lemma {:induction false} DecimalValueOfNatToString(n: nat)
    ensures DecimalValue(NatToString(n)) == n
  {
    if n >= 10 {
      var s := NatToString(n);
      assert s[..|s| - 1] == NatToString(n / 10);
      DecimalValueOfNatToString(n / 10);
    }
  }

  lemma {:induction false} DecimalValueLeadingZero(s: string)
    ensures DecimalValue("0" + s) == DecimalValue(s)
    decreases |s|
  {
    if s != [] {
      var t := "0" + s;
      assert t[..|t| - 1] == "0" + s[..|s| - 1];
      assert t[|t| - 1] == s[|s| - 1];
      DecimalValueLeadingZero(s[..|s| - 1]);
    } else {
      assert DecimalValue("0") == DecimalValue([]) * 10 + DigitValue('0');
    }
  }

  lemma {:induction false} DecimalValueOfZFill3(s: string)
    ensures DecimalValue(ZFill3(s)) == DecimalValue(s)
    decreases 3 - |s|
  {
    if |s| < 3 {
      DecimalValueOfZFill3("0" + s);
      DecimalValueLeadingZero(s);
    }
  }

  /** Distinct bucket numbers give distinct zero-padded names. */
  lemma PaddedInjective(a: nat, b: nat)
    ensures Padded(a) == Padded(b) ==> a == b
  {
    DecimalValueOfZFill3(NatToString(a));
    DecimalValueOfZFill3(NatToString(b));
    DecimalValueOfNatToString(a);
    DecimalValueOfNatToString(b);
  }
}
