/** compareSums.py: read a folder's checkSum.txt line by line, split each
    line at ", ", recompute the MD5 of the named file and count the lines
    whose recorded sum matches. */
module CompareSums {
  import opened Common
  import opened Folders
  import opened Text
  import opened Hashing
  import CheckSumGetter

  /** The counters of compare: matching lines, lines read, and the files
      reported as "not the same", in order. */
  datatype Tally = Tally(fileCount: nat, total: nat, mismatched: seq<string>)

  /** How a compare run ends: the manifest is missing (sys.exit before any
      line is read), an exception escapes while a line is checked, or every
      line was checked. */
  datatype CompareOutcome = NoManifest | Stopped(tally: Tally) | Done(tally: Tally)

  datatype LineOutcome = Match | Mismatch | Raises

  /** The file a line names: the text before its first ", ", unstripped. */
  function Target(line: string): string
  {
    Fields(line)[0]
  }

  /** One manifest line. The sum of the named file is computed before
      anything else, so a name that does not open raises, and the "File not
      found" branch is never reached; a line without ", " has no second
      field and raises; str() of a recorded sum with non-ASCII characters
      raises. Otherwise the hex digest is compared with the second field,
      stripped; further fields are ignored. */
  function CheckLine(folder: Folder, line: string, md5: Hash, utf8: string -> Bytes): LineOutcome
  {
    var fields := Fields(line);
    match Lookup(folder, fields[0], utf8)
    case None => Raises
    case Some(content) =>
      if |fields| < 2 then Raises
      else
        var listSum := Strip(fields[1]);
        if !IsAscii(listSum) then Raises
        else if Hex(md5(content)) == listSum then Match
        else Mismatch
  }

  /** What checking one line gave, with the name it was checked under. */
  datatype Check = Check(outcome: LineOutcome, target: string)

  /** The verdicts of every manifest line against the folder, in order. */
  function Checks(folder: Folder, lines: seq<string>, md5: Hash, utf8: string -> Bytes): (cs: seq<Check>)
    ensures |cs| == |lines|
  {
    seq(|lines|, i requires 0 <= i < |lines| => Check(CheckLine(folder, lines[i], md5, utf8), Target(lines[i])))
  }

  /** The loop of compare over the line verdicts, stated on their prefixes:
      the total counts every line read, a match counts a file, a mismatch
      records the name, and a line that raises ends the run. */
  function Outcome(checks: seq<Check>): (r: CompareOutcome)
    ensures !r.NoManifest?
  {
    if checks == [] then Done(Tally(0, 0, []))
    else
      match Outcome(checks[..|checks| - 1])
      case Stopped(t) => Stopped(t)
      case Done(t) =>
        var c := checks[|checks| - 1];
        var counted := t.(total := t.total + 1);
        match c.outcome
        case Raises => Stopped(counted)
        case Mismatch => Done(counted.(mismatched := t.mismatched + [c.target]))
        case Match => Done(counted.(fileCount := t.fileCount + 1))
  }

  /** The lines compare reads from the manifest, decoded with utf_8_sig. */
  function ManifestLines(text: string): seq<string>
  {
    SplitLines(StripBom(text))
  }

  function CompareResult(folder: Folder, md5: Hash, utf8: string -> Bytes): CompareOutcome
  {
    match folder.manifest
    case None => NoManifest
    case Some(text) => Outcome(Checks(folder, ManifestLines(text), md5, utf8))
  }

  /** compare(targetPath). */
  method Compare(folder: Folder, md5: Hash, utf8: string -> Bytes) returns (r: CompareOutcome)
    ensures r == CompareResult(folder, md5, utf8)
  {
    if folder.manifest.None? {
      return NoManifest;
    }
    var lines := ManifestLines(folder.manifest.value);
    ghost var checks := Checks(folder, lines, md5, utf8);
    var fileCount: nat := 0;
    var total: nat := 0;
    var mismatched: seq<string> := [];
    for i := 0 to |lines|
      invariant Outcome(checks[..i]) == Done(Tally(fileCount, total, mismatched))
    {
      TallyAdvance(checks, i, fileCount, total, mismatched);
      total := total + 1;
      var verdict, target := CheckSum(folder, lines[i], md5, utf8);
      if verdict == Raises {
        TallyStopSticks(checks, i + 1);
        return Stopped(Tally(fileCount, total, mismatched));
      } else if verdict == Mismatch {
        mismatched := mismatched + [target];
      } else {
        fileCount := fileCount + 1;
      }
    }
    assert checks[..|lines|] == checks;
    r := Done(Tally(fileCount, total, mismatched));
  }

  /** The body of compare's loop for one line: the target named before
      the first ", ", its MD5 sum, the recorded sum stripped, and the
      comparison of the two. Opening the file raises first, then indexing
      the second field, then str() of a non-ASCII sum. */
  method CheckSum(folder: Folder, line: string, md5: Hash, utf8: string -> Bytes) returns (verdict: LineOutcome, target: string)
    ensures verdict == CheckLine(folder, line, md5, utf8) && target == Target(line)
  {
    var fields := Fields(line);
    target := fields[0];
    var content := Lookup(folder, target, utf8);
    if content.None? {
      return Raises, target;
    }
    var targetSum := MdfiveSum(md5, content.value);
    if |fields| < 2 {
      return Raises, target;
    }
    var listSum := Strip(fields[1]);
    if !IsAscii(listSum) {
      return Raises, target;
    }
    verdict := if targetSum == listSum then Match else Mismatch;
  }

  lemma TallyAdvance(checks: seq<Check>, i: nat, fileCount: nat, total: nat, mismatched: seq<string>)
    requires i < |checks| && Outcome(checks[..i]) == Done(Tally(fileCount, total, mismatched))
    ensures var next := Outcome(checks[..i + 1]);
      && (checks[i].outcome == Raises ==> next == Stopped(Tally(fileCount, total + 1, mismatched)))
      && (checks[i].outcome == Mismatch ==> next == Done(Tally(fileCount, total + 1, mismatched + [checks[i].target])))
      && (checks[i].outcome == Match ==> next == Done(Tally(fileCount + 1, total + 1, mismatched)))
  {
    assert checks[..i + 1][..i] == checks[..i];
  }

  /** A line raises when the file it names does not open, when it has no
      second field, or when that field stripped is not ASCII. */
  lemma LineRaises(folder: Folder, line: string, md5: Hash, utf8: string -> Bytes)
    requires var fields := Fields(line);
      Lookup(folder, fields[0], utf8).None? || |fields| < 2 || !IsAscii(Strip(fields[1]))
    ensures CheckLine(folder, line, md5, utf8) == Raises
  {
  }

  /** A line naming a file that opens and carrying an ASCII sum is a match
      exactly when the sums agree. */
  lemma SumsCompared(folder: Folder, line: string, md5: Hash, utf8: string -> Bytes, content: Bytes)
    requires Lookup(folder, Fields(line)[0], utf8) == Some(content)
    requires |Fields(line)| >= 2 && IsAscii(Strip(Fields(line)[1]))
    ensures CheckLine(folder, line, md5, utf8) == if Hex(md5(content)) == Strip(Fields(line)[1]) then Match else Mismatch
  {
  }

  /** Once a line has raised, no later line is read. */
  lemma {:induction false} TallyStopSticks(checks: seq<Check>, k: nat)
    requires k <= |checks|
    requires Outcome(checks[..k]).Stopped?
    ensures Outcome(checks) == Outcome(checks[..k])
    decreases |checks| - k
  {
    if k < |checks| {
      assert checks[..k + 1][..k] == checks[..k];
      TallyStopSticks(checks, k + 1);
    } else {
      assert checks[..k] == checks;
    }
  }

  // ---------------------------------------------------------------------
  // Counting

  /** Every line read is counted once, as a match or as a mismatch, except
      the line that raised; so 0 <= fileCount <= total, and a finished run
      read every line. */
  lemma {:induction false} TallyCounts(checks: seq<Check>)
    ensures var r := Outcome(checks);
      && (r.Done? ==> r.tally.total == |checks| && r.tally.fileCount + |r.tally.mismatched| == r.tally.total)
      && (r.Stopped? ==> 1 <= r.tally.total <= |checks| && r.tally.fileCount + |r.tally.mismatched| + 1 == r.tally.total)
  {
    if checks != [] {
      TallyCounts(checks[..|checks| - 1]);
    }
  }

  /** A run stops exactly when some line raises, and then it stops at the
      first such line. */
  lemma {:induction false} StopsAtFirstRaise(checks: seq<Check>)
    ensures var r := Outcome(checks);
      && (r.Done? <==> forall i :: 0 <= i < |checks| ==> checks[i].outcome != Raises)
      && (r.Stopped? ==>
            var k := r.tally.total - 1;
            0 <= k < |checks| && checks[k].outcome == Raises &&
            forall i :: 0 <= i < k ==> checks[i].outcome != Raises)
  {
    if checks != [] {
      var prefix := checks[..|checks| - 1];
      StopsAtFirstRaise(prefix);
      TallyCounts(prefix);
      assert forall i :: 0 <= i < |prefix| ==> prefix[i] == checks[i];
    }
  }

  /** compare looks only at the files the manifest names: two folders with
      the same manifest whose named entries open to the same bytes give the
      same result, whatever else they hold. */
  lemma OnlyListedFilesMatter(a: Folder, b: Folder, md5: Hash, utf8: string -> Bytes)
    requires a.manifest == b.manifest && a.manifest.Some?
    requires var lines := ManifestLines(a.manifest.value);
      forall i :: 0 <= i < |lines| ==> Lookup(a, Target(lines[i]), utf8) == Lookup(b, Target(lines[i]), utf8)
    ensures CompareResult(a, md5, utf8) == CompareResult(b, md5, utf8)
  {
    var lines := ManifestLines(a.manifest.value);
    forall i | 0 <= i < |lines|
      ensures Checks(a, lines, md5, utf8)[i] == Checks(b, lines, md5, utf8)[i]
    {
      SameLookupSameVerdict(a, b, lines[i], md5, utf8);
    }
    assert Checks(a, lines, md5, utf8) == Checks(b, lines, md5, utf8);
  }

  lemma SameLookupSameVerdict(a: Folder, b: Folder, line: string, md5: Hash, utf8: string -> Bytes)
    requires Lookup(a, Target(line), utf8) == Lookup(b, Target(line), utf8)
    ensures CheckLine(a, line, md5, utf8) == CheckLine(b, line, md5, utf8)
  {
  }

  // ---------------------------------------------------------------------
  // Reading back what sumUp wrote

  /** MD5 digests are 16 bytes (RFC 1321, section 3.5). */
  ghost predicate SixteenByteDigests(md5: Hash)
  {
    forall b :: |md5(b)| == 16
  }

  /** A name sumUp writes and compare reads back unchanged: ASCII, free of
      ", " and of line breaks. */
  predicate PlainName(name: string)
  {
    IsAscii(name) && !HasSeparator(name) && (forall j :: 0 <= j < |name| ==> !IsLineBreak(name[j]))
  }

  /** The manifest lines for names as sumUp writes them. */
  function EntryLines(a: Folder, names: seq<string>, md5: Hash): (lines: seq<string>)
    requires forall i :: 0 <= i < |names| ==> names[i] in a.files
    ensures |lines| == |names|
  {
    seq(|names|, i requires 0 <= i < |names| => CheckSumGetter.ManifestEntry(names[i], a.files[names[i]], md5) + "\n")
  }

  /** The listed files whose digest in b differs from the one recorded
      from a, in manifest order. */
  function ChangedNames(a: Folder, b: Folder, names: seq<string>, md5: Hash): (changed: seq<string>)
    requires forall i :: 0 <= i < |names| ==> names[i] in a.files && names[i] in b.files
    ensures |changed| <= |names|
  {
    if names == [] then []
    else
      var n := |names| - 1;
      ChangedNames(a, b, names[..n], md5) + (if md5(b.files[names[n]]) != md5(a.files[names[n]]) then [names[n]] else [])
  }

  lemma HexLineShape(d: Bytes)
    requires |d| == 16
    ensures var h := Hex(d) + "\n";
      && !HasSeparator(h) && h[0] != ' '
      && h[..|h| - 1] == Hex(d) && !IsWhitespace(Hex(d)[0]) && !IsWhitespace(Hex(d)[|Hex(d)| - 1])
      && IsAscii(Hex(d))
  {
    HexShape(d);
    var h := Hex(d) + "\n";
    forall i | 0 <= i < |h| ensures h[i] != ','
    {
      if i < |Hex(d)| {
        assert IsHexDigit(Hex(d)[i]);
      }
    }
    assert IsHexDigit(Hex(d)[0]) && IsHexDigit(Hex(d)[|Hex(d)| - 1]);
  }

  /** A line written for a file present in b: compared against b, it
      matches exactly when the file's digest is the recorded one. */
  lemma CheckEntryLine(a: Folder, b: Folder, name: string, md5: Hash, utf8: string -> Bytes)
    requires SixteenByteDigests(md5) && PlainName(name)
    requires name in a.files && name in b.files
    ensures var line := CheckSumGetter.ManifestEntry(name, a.files[name], md5) + "\n";
      && Target(line) == name
      && CheckLine(b, line, md5, utf8) == if md5(b.files[name]) == md5(a.files[name]) then Match else Mismatch
  {
    var hex := Hex(md5(a.files[name]));
    HexLineShape(md5(a.files[name]));
    var line := CheckSumGetter.ManifestEntry(name, a.files[name], md5) + "\n";
    assert line == name + ", " + (hex + "\n");
    FieldsOfPair(name, hex + "\n");
    StripWordNewline(hex);
    if Hex(md5(b.files[name])) == hex {
      HexInjective(md5(b.files[name]), md5(a.files[name]));
    }
  }

  /** A line written for a file that no longer opens in b raises. */
  lemma CheckMissingLine(a: Folder, b: Folder, name: string, md5: Hash, utf8: string -> Bytes)
    requires SixteenByteDigests(md5) && PlainName(name)
    requires name in a.files && name !in b.files && name != ManifestName
    ensures CheckLine(b, CheckSumGetter.ManifestEntry(name, a.files[name], md5) + "\n", md5, utf8) == Raises
  {
    var hex := Hex(md5(a.files[name]));
    HexLineShape(md5(a.files[name]));
    var line := CheckSumGetter.ManifestEntry(name, a.files[name], md5) + "\n";
    assert line == name + ", " + (hex + "\n");
    FieldsOfPair(name, hex + "\n");
  }

  /** The manifest text splits back into the lines that were written. */
  lemma {:induction false} SplitEntryLines(a: Folder, names: seq<string>, md5: Hash)
    requires forall i :: 0 <= i < |names| ==> names[i] in a.files && PlainName(names[i])
    requires SixteenByteDigests(md5)
    ensures SplitLines(CheckSumGetter.ManifestText(a, names, md5)) == EntryLines(a, names, md5)
  {
    var lines := EntryLines(a, names, md5);
    assert CheckSumGetter.ManifestText(a, names, md5) == Flatten(lines);
    SplitFlatten(a, names, md5);
  }

  lemma {:induction false} SplitFlatten(a: Folder, names: seq<string>, md5: Hash)
    requires forall i :: 0 <= i < |names| ==> names[i] in a.files && PlainName(names[i])
    requires SixteenByteDigests(md5)
    ensures SplitLines(Flatten(EntryLines(a, names, md5))) == EntryLines(a, names, md5)
  {
    if names != [] {
      var lines := EntryLines(a, names, md5);
      var name := names[0];
      var body := CheckSumGetter.ManifestEntry(name, a.files[name], md5);
      var hex := Hex(md5(a.files[name]));
      HexShape(md5(a.files[name]));
      forall j | 0 <= j < |body|
        ensures !IsLineBreak(body[j])
      {
        if j >= |name| + 2 {
          assert body[j] == hex[j - |name| - 2];
          assert IsHexDigit(hex[j - |name| - 2]);
        }
      }
      assert lines[1..] == EntryLines(a, names[1..], md5);
      SplitFlatten(a, names[1..], md5);
      SplitLinesCons(body, Flatten(lines[1..]));
    }
  }

  /** The verdict each line written from a gets against b: a match when
      the file's digest is unchanged, a mismatch otherwise. */
  function Verdicts(a: Folder, b: Folder, names: seq<string>, md5: Hash): (cs: seq<Check>)
    requires forall i :: 0 <= i < |names| ==> names[i] in a.files && names[i] in b.files
    ensures |cs| == |names|
  {
    seq(|names|, i requires 0 <= i < |names| =>
      Check(if md5(b.files[names[i]]) == md5(a.files[names[i]]) then Match else Mismatch, names[i]))
  }

  lemma EntryChecks(a: Folder, b: Folder, names: seq<string>, md5: Hash, utf8: string -> Bytes)
    requires forall i :: 0 <= i < |names| ==> names[i] in a.files && names[i] in b.files && PlainName(names[i])
    requires SixteenByteDigests(md5)
    ensures Checks(b, EntryLines(a, names, md5), md5, utf8) == Verdicts(a, b, names, md5)
  {
    forall i | 0 <= i < |names|
      ensures Checks(b, EntryLines(a, names, md5), md5, utf8)[i] == Verdicts(a, b, names, md5)[i]
    {
      CheckEntryLine(a, b, names[i], md5, utf8);
    }
  }

  /** Over such verdicts nothing raises; the count of matches is the
      number of files whose digest is unchanged and the files reported are
      exactly the changed ones. */
  lemma {:induction false} VerdictsTally(a: Folder, b: Folder, names: seq<string>, md5: Hash)
    requires forall i :: 0 <= i < |names| ==> names[i] in a.files && names[i] in b.files
    ensures var changed := ChangedNames(a, b, names, md5);
      Outcome(Verdicts(a, b, names, md5)) == Done(Tally(|names| - |changed|, |names|, changed))
  {
    if names != [] {
      var n := |names| - 1;
      VerdictsPrefix(a, b, names, md5);
      VerdictsTally(a, b, names[..n], md5);
    }
  }

  lemma VerdictsPrefix(a: Folder, b: Folder, names: seq<string>, md5: Hash)
    requires names != []
    requires forall i :: 0 <= i < |names| ==> names[i] in a.files && names[i] in b.files
    ensures Verdicts(a, b, names, md5)[..|names| - 1] == Verdicts(a, b, names[..|names| - 1], md5)
  {
  }

  /** Checking the lines written from a against b, with every listed file
      still present in b. */
  lemma CheckWritten(a: Folder, b: Folder, names: seq<string>, md5: Hash, utf8: string -> Bytes)
    requires forall i :: 0 <= i < |names| ==> names[i] in a.files && names[i] in b.files && PlainName(names[i])
    requires SixteenByteDigests(md5)
    ensures var changed := ChangedNames(a, b, names, md5);
      Outcome(Checks(b, EntryLines(a, names, md5), md5, utf8)) == Done(Tally(|names| - |changed|, |names|, changed))
  {
    EntryChecks(a, b, names, md5, utf8);
    VerdictsTally(a, b, names, md5);
  }

  /** Checking the lines written from a against b when a listed file is
      gone: the run stops. */
  lemma CheckWrittenMissing(a: Folder, b: Folder, names: seq<string>, k: nat, md5: Hash, utf8: string -> Bytes)
    requires forall i :: 0 <= i < |names| ==> names[i] in a.files && PlainName(names[i])
    requires ManifestName !in a.files
    requires SixteenByteDigests(md5)
    requires k < |names| && names[k] !in b.files
    ensures Outcome(Checks(b, EntryLines(a, names, md5), md5, utf8)).Stopped?
  {
    var checks := Checks(b, EntryLines(a, names, md5), md5, utf8);
    CheckMissingLine(a, b, names[k], md5, utf8);
    assert checks[k].outcome == Raises;
    StopsAtFirstRaise(checks);
  }

  lemma ManifestHasNoBom(a: Folder, names: seq<string>, md5: Hash)
    requires forall i :: 0 <= i < |names| ==> names[i] in a.files && PlainName(names[i])
    requires names != [] && names[0] != []
    ensures StripBom(CheckSumGetter.ManifestText(a, names, md5)) == CheckSumGetter.ManifestText(a, names, md5)
  {
    var lines := EntryLines(a, names, md5);
    assert CheckSumGetter.ManifestText(a, names, md5) == lines[0] + Flatten(lines[1..]);
    assert lines[0][0] == names[0][0];
  }

  /** later holds the manifest written for names from a, and still has
      every file it lists. */
  ghost predicate HoldsManifestOf(a: Folder, names: seq<string>, later: Folder, md5: Hash)
  {
    && names != []
    && (forall i :: 0 <= i < |names| ==> names[i] in a.files && names[i] in later.files && PlainName(names[i]) && names[i] != [])
    && later.manifest == Some(CheckSumGetter.ManifestText(a, names, md5))
  }

  /** What sumUp is for: a folder holding the manifest written for names
      from an earlier state a, with every listed file still in place,
      compares with nothing raised, reports as "not the same" exactly the
      files whose MD5 changed since, in manifest order, and counts the
      others as matched. */
  lemma CompareWritten(a: Folder, names: seq<string>, later: Folder, md5: Hash, utf8: string -> Bytes)
    requires HoldsManifestOf(a, names, later, md5) && SixteenByteDigests(md5)
    ensures var changed := ChangedNames(a, later, names, md5);
      CompareResult(later, md5, utf8) == Done(Tally(|names| - |changed|, |names|, changed))
  {
    ManifestHasNoBom(a, names, md5);
    SplitEntryLines(a, names, md5);
    CheckWritten(a, later, names, md5, utf8);
  }

  /** Round trip: compared right after sumUp, every listed file matches. */
  lemma RoundTrip(folder: Folder, listing: seq<string>, md5: Hash, utf8: string -> Bytes)
    requires Valid(folder) && CheckSumGetter.IsListing(folder.(manifest := None), listing)
    requires forall name :: name in folder.files ==> PlainName(name) && name != []
    requires ManifestName !in folder.dirs
    requires SixteenByteDigests(md5)
    ensures var s := CheckSumGetter.SumUpResult(folder, listing, md5);
      && s.Summed?
      && CompareResult(s.folder, md5, utf8)
        == if s.total == 0 then NoManifest else Done(Tally(s.total, s.total, []))
  {
    CheckSumGetter.SumUpWrites(folder, listing, md5);
    var s := CheckSumGetter.SumUpResult(folder, listing, md5);
    var files := CheckSumGetter.ListFiles(folder, listing);
    if files != [] {
      assert HoldsManifestOf(folder, files, s.folder, md5);
      CompareWritten(folder, files, s.folder, md5, utf8);
      NothingChanged(folder, s.folder, files, md5);
    }
  }

  lemma {:induction false} NothingChanged(a: Folder, b: Folder, names: seq<string>, md5: Hash)
    requires a.files == b.files
    requires forall i :: 0 <= i < |names| ==> names[i] in a.files
    ensures ChangedNames(a, b, names, md5) == []
  {
    if names != [] {
      NothingChanged(a, b, names[..|names| - 1], md5);
    }
  }

  /** Rewriting one listed file, after its manifest was written, with
      content of another digest makes compare report exactly that file. */
  lemma OneChangedFile(a: Folder, names: seq<string>, later: Folder, name: string, content: Bytes, md5: Hash, utf8: string -> Bytes)
    requires names != [] && forall i :: 0 <= i < |names| ==> names[i] in a.files && PlainName(names[i]) && names[i] != []
    requires NoDups(names) && name in names && SixteenByteDigests(md5)
    requires later.files == a.files[name := content] && md5(content) != md5(a.files[name])
    requires later.manifest == Some(CheckSumGetter.ManifestText(a, names, md5))
    ensures CompareResult(later, md5, utf8) == Done(Tally(|names| - 1, |names|, [name]))
  {
    ChangedOne(a, later, names, name, content, md5);
    CompareWritten(a, names, later, md5, utf8);
  }

  lemma ChangedOne(a: Folder, b: Folder, names: seq<string>, name: string, content: Bytes, md5: Hash)
    requires forall i :: 0 <= i < |names| ==> names[i] in a.files
    requires NoDups(names) && name in names
    requires b.files == a.files[name := content] && md5(content) != md5(a.files[name])
    ensures forall i :: 0 <= i < |names| ==> names[i] in b.files
    ensures ChangedNames(a, b, names, md5) == [name]
  {
    OnlyOneChanged(a, b, names, FirstIndex(names, name), md5);
  }

  /** Deleting a listed file after its manifest was written makes compare
      raise. */
  lemma DeletedFileStops(a: Folder, names: seq<string>, later: Folder, name: string, md5: Hash, utf8: string -> Bytes)
    requires names != [] && forall i :: 0 <= i < |names| ==> names[i] in a.files && PlainName(names[i]) && names[i] != []
    requires ManifestName !in a.files && SixteenByteDigests(md5)
    requires name in names && name !in later.files
    requires later.manifest == Some(CheckSumGetter.ManifestText(a, names, md5))
    ensures CompareResult(later, md5, utf8).Stopped?
  {
    ManifestHasNoBom(a, names, md5);
    SplitEntryLines(a, names, md5);
    CheckWrittenMissing(a, later, names, FirstIndex(names, name), md5, utf8);
  }


  lemma {:induction false} OnlyOneChanged(a: Folder, b: Folder, names: seq<string>, k: nat, md5: Hash)
    requires forall i :: 0 <= i < |names| ==> names[i] in a.files
    requires NoDups(names) && k < |names|
    requires b.files.Keys == a.files.Keys
    requires forall name :: name in a.files && name != names[k] ==> b.files[name] == a.files[name]
    requires md5(b.files[names[k]]) != md5(a.files[names[k]])
    ensures ChangedNames(a, b, names, md5) == [names[k]]
  {
    var n := |names| - 1;
    if k < n {
      assert NoDups(names[..n]);
      OnlyOneChanged(a, b, names[..n], k, md5);
      assert names[n] != names[k];
    } else {
      assert forall i :: 0 <= i < n ==> names[..n][i] != names[k];
      NoneChanged(a, b, names[..n], names[k], md5);
    }
  }

  lemma {:induction false} NoneChanged(a: Folder, b: Folder, names: seq<string>, other: string, md5: Hash)
    requires forall i :: 0 <= i < |names| ==> names[i] in a.files && names[i] in b.files && names[i] != other
    requires forall name :: name in a.files && name != other ==> name in b.files && b.files[name] == a.files[name]
    ensures ChangedNames(a, b, names, md5) == []
  {
    if names != [] {
      NoneChanged(a, b, names[..|names| - 1], other, md5);
    }
  }
}
