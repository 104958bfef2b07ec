/** The file-type rule shared by dataMiner.py and fileSorter.py:
    os.path.splitext(f)[1].replace('.', '') for a name f without '/'. */
module Extensions {

  /** Index of the last '.' in s, or -1 when there is none. */
  function LastDot(s: string): (k: int)
    ensures -1 <= k < |s|
    ensures k >= 0 ==> s[k] == '.'
    ensures forall j :: k < j < |s| ==> s[j] != '.'
  {
    if s == [] then -1
    else if s[|s| - 1] == '.' then |s| - 1
    else LastDot(s[..|s| - 1])
  }

  predicate AllDots(s: string)
  {
    forall j :: 0 <= j < |s| ==> s[j] == '.'
  }

  /** splitext cuts at the last dot unless only dots precede it (a hidden
      file such as ".bashrc" has no extension); the extension keeps its dot,
      which replace then removes. */
  function Ext(name: string): (e: string)
    ensures '.' !in e
    ensures e != [] ==> |e| < |name| && name[|name| - |e| - 1] == '.' && name[|name| - |e|..] == e
    ensures e != [] ==> !AllDots(name[..|name| - |e| - 1])
  {
    var k := LastDot(name);
    if k >= 0 && !AllDots(name[..k]) then name[k + 1..] else ""
  }

  /** The extension is empty exactly when the name has no dot, ends with a
      dot, or has only dots before its last dot. */
  lemma ExtEmpty(name: string)
    ensures Ext(name) == [] <==>
      ('.' !in name || name[|name| - 1] == '.' || AllDots(name[..LastDot(name)]))
  {
    var k := LastDot(name);
    if '.' in name {
      var j :| 0 <= j < |name| && name[j] == '.';
      assert k >= j;
    }
  }

  /** A name with a dot-free tail after a dot, preceded by something other
      than dots, has that tail as its extension. */
  lemma ExtOfStem(stem: string, e: string)
    requires '.' !in e && !AllDots(stem)
    ensures Ext(stem + "." + e) == e
  {
    var name := stem + "." + e;
    var k := LastDot(name);
    assert name[|stem|] == '.';
    assert k == |stem|;
    assert name[..k] == stem;
    assert name[k + 1..] == e;
  }
}
