/** dataMiner.py: walk a source tree, select the files of the wanted types
    that reach a minimum size, and copy them into the target directory or
    into numbered buckets dir_001, dir_002, ... holding a fixed number of
    files each. */
module DataMiner {
  import opened Common
  import opened FileSystems
  import opened Extensions

  // ---------------------------------------------------------------------
  // Settings

  /** The -m choices bt, kb, mb and gb. */
  datatype Unit = Bt | Kb | Mb | Gb

  /** The factor each unit multiplies the file size by. */
  function Multiplier(u: Unit): nat
  {
    match u
    case Bt => 1
    case Kb => 1024
    case Mb => 1048576
    case Gb => 1073741824
  }

  function Rank(u: Unit): nat
  {
    match u
    case Bt => 0
    case Kb => 1
    case Mb => 2
    case Gb => 3
  }

  function Power(b: nat, e: nat): nat
  {
    if e == 0 then 1 else b * Power(b, e - 1)
  }

  /** Each unit is 1024 times the one before it. */
  lemma MultiplierIsPowerOf1024(u: Unit)
    ensures Multiplier(u) == Power(1024, Rank(u))
  {
    assert Power(1024, 2) == 1024 * Power(1024, 1);
    assert Power(1024, 3) == 1024 * Power(1024, 2);
  }

  /** int(x) on a float: truncation toward zero. */
  function Trunc(x: real): int
  {
    if x >= 0.0 then x.Floor else -((-x).Floor)
  }

  /** int(ms), where ms is float(fileSize) times the unit's factor. */
  function Threshold(fileSize: real, u: Unit): int
  {
    Trunc(fileSize * (Multiplier(u) as real))
  }

  /** The test int(size) >= int(ms) admits a byte count exactly when it
      exceeds ms minus one: a fractional threshold is rounded down, and a
      threshold of zero or below admits every file. */
  lemma SizeTest(size: nat, ms: real)
    ensures size >= Trunc(ms) <==> (size as real) > ms - 1.0
  {
    if ms >= 0.0 {
      var f := ms.Floor;
      assert (f as real) <= ms < (f as real) + 1.0;
      if (size as real) > ms - 1.0 {
        assert (size as real) > (f as real) - 1.0;
      }
    } else {
      var c := (-ms).Floor;
      assert (c as real) <= -ms;
    }
  }

  /** A whole size in a unit is that many times the unit's factor. */
  lemma WholeThreshold(n: nat, u: Unit)
    ensures Threshold(n as real, u) == n * Multiplier(u)
  {
    var p := n * Multiplier(u);
    assert (n as real) * (Multiplier(u) as real) == p as real;
  }

  /** The arguments of dig. targetDirs is None for a false value and
      Some(int(targetDirs)) for a true one (the string "0" is true). dig
      only tells test mode apart: a move copies. */
  datatype Settings = Settings(
    target: Path,
    fileType: seq<string>,
    unit: Unit,
    fileSize: real,
    targetDirs: Option<int>,
    mode: Mode)

  // ---------------------------------------------------------------------
  // The -y argument: fileType = args.file_type.lower().split()

  /** str.lower() on a byte string: only A-Z change. */
  function LowerChar(c: char): char
  {
    if 'A' <= c <= 'Z' then (c as int + 32) as char else c
  }

  function Lower(s: string): string
  {
    seq(|s|, i requires 0 <= i < |s| => LowerChar(s[i]))
  }

  predicate IsUpper(c: char)
  {
    'A' <= c <= 'Z'
  }

  /** The characters str.split() separates at: space, \t, \n, \v, \f and
      \r. */
  predicate IsSpace(c: char)
  {
    c == ' ' || 0x09 <= c as int <= 0x0D
  }

  predicate IsWord(w: string)
  {
    w != [] && forall j :: 0 <= j < |w| ==> !IsSpace(w[j])
  }

  /** Length of the run of non-space characters s starts with. */
  function WordLength(s: string): (k: nat)
    requires s != [] && !IsSpace(s[0])
    ensures 0 < k <= |s|
    ensures forall j :: 0 <= j < k ==> !IsSpace(s[j])
    ensures k < |s| ==> IsSpace(s[k])
  {
    if |s| == 1 || IsSpace(s[1]) then 1 else 1 + WordLength(s[1..])
  }

  /** str.split() without arguments. */
  function SplitWords(s: string): seq<string>
    decreases |s|
  {
    if s == [] then []
    else if IsSpace(s[0]) then SplitWords(s[1..])
    else
      var k := WordLength(s);
      [s[..k]] + SplitWords(s[k..])
  }

  /** ' '.join(ws). */
  function JoinWords(ws: seq<string>): string
  {
    if ws == [] then ""
    else if |ws| == 1 then ws[0]
    else ws[0] + " " + JoinWords(ws[1..])
  }

  /** Every piece str.split() returns is a non-empty run without spaces. */
  lemma {:induction false} SplitWordsAreWords(s: string)
    ensures forall i :: 0 <= i < |SplitWords(s)| ==> IsWord(SplitWords(s)[i])
    decreases |s|
  {
    if s != [] {
      if IsSpace(s[0]) {
        SplitWordsAreWords(s[1..]);
      } else {
        SplitWordsAreWords(s[WordLength(s)..]);
      }
    }
  }

  /** Splitting words joined by single spaces gives the words back. */
  lemma {:induction false} SplitJoinWords(ws: seq<string>)
    requires forall i :: 0 <= i < |ws| ==> IsWord(ws[i])
    ensures SplitWords(JoinWords(ws)) == ws
  {
    if ws != [] {
      var w := ws[0];
      var rest := if |ws| == 1 then "" else " " + JoinWords(ws[1..]);
      assert JoinWords(ws) == w + rest;
      SplitWord(w, rest);
      if |ws| > 1 {
        SplitJoinWords(ws[1..]);
        assert rest[1..] == JoinWords(ws[1..]);
      }
    }
  }

  /** A word followed by nothing or by a space is split off whole. */
  lemma SplitWord(w: string, rest: string)
    requires IsWord(w) && (rest == [] || IsSpace(rest[0]))
    ensures SplitWords(w + rest) == [w] + SplitWords(rest)
  {
    var s := w + rest;
    WordLengthOf(w, rest);
    assert s[..|w|] == w;
    assert s[|w|..] == rest;
  }

  lemma {:induction false} WordLengthOf(w: string, rest: string)
    requires IsWord(w) && (rest == [] || IsSpace(rest[0]))
    ensures WordLength(w + rest) == |w|
    decreases |w|
  {
    var s := w + rest;
    if |w| > 1 {
      assert s[1..] == w[1..] + rest;
      WordLengthOf(w[1..], rest);
    }
  }

  /** fileType as dig receives it from the command line. */
  function FileTypes(arg: string): seq<string>
  {
    SplitWords(Lower(arg))
  }

  /** The listed types are non-empty, free of spaces and free of capitals. */
  lemma FileTypesShape(arg: string)
    ensures forall i :: 0 <= i < |FileTypes(arg)| ==>
      IsWord(FileTypes(arg)[i]) && forall j :: 0 <= j < |FileTypes(arg)[i]| ==> !IsUpper(FileTypes(arg)[i][j])
  {
    var low := Lower(arg);
    SplitWordsAreWords(low);
    SplitWordsHaveNo(low);
  }

  /** Every character of a split piece comes from the split string. */
  lemma {:induction false} SplitWordsHaveNo(s: string)
    requires forall j :: 0 <= j < |s| ==> !IsUpper(s[j])
    ensures forall i, j :: 0 <= i < |SplitWords(s)| && 0 <= j < |SplitWords(s)[i]| ==> !IsUpper(SplitWords(s)[i][j])
    decreases |s|
  {
    if s != [] {
      if IsSpace(s[0]) {
        SplitWordsHaveNo(s[1..]);
      } else {
        SplitWordsHaveNo(s[WordLength(s)..]);
      }
    }
  }

  /** Extensions are not lowered: a file whose extension holds a capital,
      and a file without an extension, is never of a listed type. */
  lemma NeverSelectedTypes(arg: string, name: string)
    requires Ext(name) == [] || exists j :: 0 <= j < |Ext(name)| && IsUpper(Ext(name)[j])
    ensures Ext(name) !in FileTypes(arg)
  {
    FileTypesShape(arg);
  }

  // ---------------------------------------------------------------------
  // The dig loop

  /** targetPath/dir_NNN. */
  function Bucket(target: Path, k: nat): Path
  {
    target + ["dir_" + Padded(k)]
  }

  lemma BucketInjective(target: Path, a: nat, b: nat)
    ensures Bucket(target, a) == Bucket(target, b) ==> a == b
  {
    if Bucket(target, a) == Bucket(target, b) {
      var na := "dir_" + Padded(a);
      var nb := "dir_" + Padded(b);
      assert na == Bucket(target, a)[|target|];
      assert na[4..] == Padded(a) && nb[4..] == Padded(b);
      PaddedInjective(a, b);
    }
  }

  /** p lies in the directory tree rooted at dir (or is dir). */
  predicate Within(dir: Path, p: Path)
  {
    |dir| <= |p| && p[..|dir|] == dir
  }

  /** The local state of dig between two files of the walk. placed is the
      directory each selected file was sent to, in order; dig keeps no
      such list, but its copies (or, in test mode, its counters) follow
      it. */
  datatype Miner = Miner(
    fs: FileSystem,
    curDir: Path,
    fileCount: nat,
    dirCount: nat,
    totalFiles: nat,
    placed: seq<Path>)

  /** dig still running, or an exception has escaped it; either way with
      the state at that point. */
  datatype DigState = Digging(m: Miner) | Aborted(m: Miner)

  /** The bucket switch is armed when targetDirs is a non-zero int. */
  predicate Switches(s: Settings)
  {
    s.targetDirs.Some? && s.targetDirs.value != 0
  }

  /** if not os.path.isdir(p): if mode != 'test': os.mkdir(p). */
  function EnsureDir(fs: FileSystem, p: Path, mode: Mode): Option<FileSystem>
  {
    if p in fs.dirs || mode == Test then Some(fs) else Mkdir(fs, p)
  }

  /** The setup before the walk: the first bucket when targetDirs is
      given, counted only when it does not exist yet. */
  function Start(s: Settings, fs0: FileSystem): DigState
  {
    if s.targetDirs.None? then Digging(Miner(fs0, s.target, 0, 1, 0, []))
    else
      var cur := Bucket(s.target, 1);
      if cur in fs0.dirs then Digging(Miner(fs0, cur, 0, 1, 0, []))
      else match EnsureDir(fs0, cur, s.mode)
        case None => Aborted(Miner(fs0, cur, 0, 1, 0, []))
        case Some(fs1) => Digging(Miner(fs1, cur, 0, 2, 0, []))
  }

  /** A full bucket moves dig on to dir_<dirCount>, whether or not that
      directory already exists. */
  function SwitchIfFull(s: Settings, m: Miner): DigState
  {
    if Switches(s) && m.fileCount >= s.targetDirs.value then
      var cur := Bucket(s.target, m.dirCount);
      match EnsureDir(m.fs, cur, s.mode)
      case None => Aborted(m.(curDir := cur))
      case Some(fs1) => Digging(m.(fs := fs1, curDir := cur, fileCount := 0, dirCount := m.dirCount + 1))
    else Digging(m)
  }

  /** Whether a file of the wanted type and size, read in fs. */
  predicate Selects(s: Settings, fs: FileSystem, e: WalkEntry)
  {
    && Ext(e.name) in s.fileType
    && FullPath(e) in fs.files
    && |fs.files[FullPath(e)]| >= Threshold(s.fileSize, s.unit)
  }

  /** One walked file: its type is checked first, then its size is read
      (os.path.getsize raises for a file that is gone), and a selected
      file is counted and, outside test mode, copied into curDir. */
  function Consider(s: Settings, m: Miner, e: WalkEntry): DigState
  {
    var src := FullPath(e);
    if Ext(e.name) !in s.fileType then Digging(m)
    else if src !in m.fs.files then Aborted(m)
    else if |m.fs.files[src]| < Threshold(s.fileSize, s.unit) then Digging(m)
    else
      var next := m.(fileCount := m.fileCount + 1, totalFiles := m.totalFiles + 1, placed := m.placed + [m.curDir]);
      if s.mode == Test then Digging(next)
      else match CopyFile(m.fs, src, Join(m.curDir, e.name))
        case None => Aborted(next)
        case Some(fs1) => Digging(next.(fs := fs1))
  }

  function Step(s: Settings, m: Miner, e: WalkEntry): DigState
  {
    match SwitchIfFull(s, m)
    case Aborted(a) => Aborted(a)
    case Digging(m1) => Consider(s, m1, e)
  }

  /** dig over the files of a walk, in walk order, stated on its
      prefixes. */
  function Run(s: Settings, fs0: FileSystem, walk: seq<WalkEntry>): DigState
  {
    if walk == [] then Start(s, fs0)
    else
      match Run(s, fs0, walk[..|walk| - 1])
      case Aborted(m) => Aborted(m)
      case Digging(m) => Step(s, m, walk[|walk| - 1])
  }

  /** What dig leaves behind: the filesystem, and the two counts of its
      closing message unless an exception escaped. */
  datatype Report = Finished(fs: FileSystem, totalFiles: nat, dirCount: nat) | Raised(fs: FileSystem)

  function Observe(st: DigState): Report
  {
    match st
    case Digging(m) => Finished(m.fs, m.totalFiles, m.dirCount)
    case Aborted(m) => Raised(m.fs)
  }

  /** dig(sourcePath, targetPath, fileType, sizeMultiplier, fileSize,
      targetDirs, mode), with the walk of sourcePath flattened into the
      sequence of files os.walk reports. */
  method Dig(s: Settings, fs0: FileSystem, walk: seq<WalkEntry>) returns (r: Report)
    ensures r == Observe(Run(s, fs0, walk))
  {
    var fs := fs0;
    var fileCount: nat := 0;
    var dirCount: nat := 1;
    var totalFiles: nat := 0;
    ghost var placed: seq<Path> := [];
    var curDir: Path;
    if s.targetDirs.Some? {
      curDir := Bucket(s.target, dirCount);
      if curDir !in fs.dirs {
        if s.mode != Test {
          var made := Mkdir(fs, curDir);
          if made.None? {
            assert walk[..0] == [];
            RunAbortSticks(s, fs0, walk, 0);
            return Raised(fs);
          }
          fs := made.value;
        }
        dirCount := dirCount + 1;
      }
    } else {
      curDir := s.target;
    }
    for i := 0 to |walk|
      invariant Run(s, fs0, walk[..i]) == Digging(Miner(fs, curDir, fileCount, dirCount, totalFiles, placed))
    {
      RunStep(s, fs0, walk, i);
      var ok;
      ok, fs, curDir, fileCount, dirCount := SwitchBucket(s, fs, curDir, fileCount, dirCount, totalFiles, placed);
      if !ok {
        RunAbortSticks(s, fs0, walk, i + 1);
        return Raised(fs);
      }
      ok, fs, fileCount, totalFiles, placed := Sift(s, fs, curDir, fileCount, dirCount, totalFiles, placed, walk[i]);
      if !ok {
        RunAbortSticks(s, fs0, walk, i + 1);
        return Raised(fs);
      }
    }
    assert walk[..|walk|] == walk;
    r := Finished(fs, totalFiles, dirCount);
  }

  /** The top of the loop body: when the bucket is full, move on to
      dir_<dirCount>, creating it outside test mode. */
  method SwitchBucket(s: Settings, fs: FileSystem, curDir: Path, fileCount: nat, dirCount: nat,
                      ghost totalFiles: nat, ghost placed: seq<Path>)
    returns (ok: bool, fs': FileSystem, curDir': Path, fileCount': nat, dirCount': nat)
    ensures var st := SwitchIfFull(s, Miner(fs, curDir, fileCount, dirCount, totalFiles, placed));
      && ok == st.Digging?
      && fs' == st.m.fs
      && (ok ==> st.m == Miner(fs', curDir', fileCount', dirCount', totalFiles, placed))
  {
    ok, fs', curDir', fileCount', dirCount' := true, fs, curDir, fileCount, dirCount;
    if Switches(s) && fileCount >= s.targetDirs.value {
      curDir' := Bucket(s.target, dirCount);
      if curDir' !in fs.dirs && s.mode != Test {
        var made := Mkdir(fs, curDir');
        if made.None? {
          return false, fs, curDir', fileCount, dirCount;
        }
        fs' := made.value;
      }
      fileCount' := 0;
      dirCount' := dirCount + 1;
    }
  }

  /** The rest of the loop body: the type test, the size test, and the copy
      of a selected file. */
  method Sift(s: Settings, fs: FileSystem, curDir: Path, fileCount: nat, ghost dirCount: nat,
              totalFiles: nat, ghost placed: seq<Path>, e: WalkEntry)
    returns (ok: bool, fs': FileSystem, fileCount': nat, totalFiles': nat, ghost placed': seq<Path>)
    ensures var st := Consider(s, Miner(fs, curDir, fileCount, dirCount, totalFiles, placed), e);
      && ok == st.Digging?
      && fs' == st.m.fs
      && (ok ==> st.m == Miner(fs', curDir, fileCount', dirCount, totalFiles', placed'))
  {
    ok, fs', fileCount', totalFiles', placed' := true, fs, fileCount, totalFiles, placed;
    var source := FullPath(e);
    if Ext(e.name) in s.fileType {
      if source !in fs.files {
        return false, fs, fileCount, totalFiles, placed;
      }
      if |fs.files[source]| >= Threshold(s.fileSize, s.unit) {
        fileCount' := fileCount + 1;
        totalFiles' := totalFiles + 1;
        placed' := placed + [curDir];
        if s.mode != Test {
          var copied := CopyFile(fs, source, Join(curDir, e.name));
          if copied.None? {
            return false, fs, fileCount', totalFiles', placed';
          }
          fs' := copied.value;
        }
      }
    }
  }

  lemma RunStep(s: Settings, fs0: FileSystem, walk: seq<WalkEntry>, i: nat)
    requires i < |walk| && Run(s, fs0, walk[..i]).Digging?
    ensures Run(s, fs0, walk[..i + 1]) == Step(s, Run(s, fs0, walk[..i]).m, walk[i])
  {
    assert walk[..i + 1][..i] == walk[..i];
  }

  /** Once an exception has escaped, the rest of the walk is never
      looked at. */
  lemma {:induction false} RunAbortSticks(s: Settings, fs0: FileSystem, walk: seq<WalkEntry>, k: nat)
    requires k <= |walk| && Run(s, fs0, walk[..k]).Aborted?
    ensures Run(s, fs0, walk) == Run(s, fs0, walk[..k])
    decreases |walk| - k
  {
    if k < |walk| {
      assert walk[..k + 1][..k] == walk[..k];
      RunAbortSticks(s, fs0, walk, k + 1);
    } else {
      assert walk[..k] == walk;
    }
  }

  // ---------------------------------------------------------------------
  // What a run does

  /** Test mode creates no directory and copies nothing, and it only stops
      at a file of a wanted type that has gone missing. */
  lemma {:induction false} TestModeChangesNothing(s: Settings, fs0: FileSystem, walk: seq<WalkEntry>)
    requires s.mode == Test
    ensures Run(s, fs0, walk).m.fs == fs0
    ensures (forall i :: 0 <= i < |walk| ==> FullPath(walk[i]) in fs0.files) ==> Run(s, fs0, walk).Digging?
  {
    if walk != [] {
      var n := |walk| - 1;
      TestModeChangesNothing(s, fs0, walk[..n]);
    }
  }

  /** The files outside dir are those of fs0, with the same bytes. */
  ghost predicate SameOutside(fs0: FileSystem, fs: FileSystem, dir: Path)
  {
    forall p :: !Within(dir, p) ==>
      (p in fs.files <==> p in fs0.files) && (p in fs0.files ==> fs.files[p] == fs0.files[p])
  }

  lemma WithinExtended(dir: Path, p: Path, q: Path)
    requires Within(dir, p)
    ensures Within(dir, p + q)
  {
    assert (p + q)[..|dir|] == p[..|dir|];
  }

  /** A copy into the tree under dir changes nothing outside it. */
  lemma CopyStaysWithin(fs: FileSystem, src: Path, dst: Path, dir: Path)
    requires Within(dir, dst) && CopyFile(fs, src, dst).Some?
    ensures SameOutside(fs, CopyFile(fs, src, dst).value, dir)
  {
    WithinExtended(dir, dst, [Basename(src)]);
  }

  /** One file of the walk changes nothing outside the target, and the
      current directory stays inside it. */
  lemma StepKeepsOutside(s: Settings, m: Miner, e: WalkEntry)
    requires Within(s.target, m.curDir)
    ensures SameOutside(m.fs, Step(s, m, e).m.fs, s.target)
    ensures Within(s.target, Step(s, m, e).m.curDir)
  {
    var sw := SwitchIfFull(s, m);
    WithinExtended(s.target, s.target, ["dir_" + Padded(m.dirCount)]);
    if sw.Digging? {
      var m1 := sw.m;
      var src := FullPath(e);
      if Ext(e.name) in s.fileType && src in m1.fs.files && |m1.fs.files[src]| >= Threshold(s.fileSize, s.unit)
         && s.mode != Test {
        var dst := Join(m1.curDir, e.name);
        WithinExtended(s.target, m1.curDir, [e.name]);
        if CopyFile(m1.fs, src, dst).Some? {
          CopyStaysWithin(m1.fs, src, dst, s.target);
        }
      }
    }
  }

  /** dig writes only under the target directory: no file outside it is
      created, changed or removed, so a move never removes its source. */
  lemma {:induction false} RunKeepsOutside(s: Settings, fs0: FileSystem, walk: seq<WalkEntry>)
    ensures SameOutside(fs0, Run(s, fs0, walk).m.fs, s.target)
    ensures Within(s.target, Run(s, fs0, walk).m.curDir)
  {
    if walk == [] {
      WithinExtended(s.target, s.target, ["dir_" + Padded(1)]);
      assert s.target == s.target + [];
    } else {
      var n := |walk| - 1;
      RunKeepsOutside(s, fs0, walk[..n]);
      var st := Run(s, fs0, walk[..n]);
      if st.Digging? {
        StepKeepsOutside(s, st.m, walk[n]);
      }
    }
  }

  /** The files dig selects, in walk order, with sizes read before the
      run. */
  function Selected(s: Settings, fs0: FileSystem, walk: seq<WalkEntry>): seq<WalkEntry>
  {
    if walk == [] then []
    else
      var e := walk[|walk| - 1];
      Selected(s, fs0, walk[..|walk| - 1]) + (if Selects(s, fs0, e) then [e] else [])
  }

  /** One walked file from outside the target adds one to totalFiles and
      one destination exactly when it is selected. */
  lemma StepCounts(s: Settings, fs0: FileSystem, m: Miner, e: WalkEntry)
    requires SameOutside(fs0, m.fs, s.target) && !Within(s.target, FullPath(e))
    requires Step(s, m, e).Digging?
    ensures var m2 := Step(s, m, e).m;
      var sw := SwitchIfFull(s, m).m;
      && m2.totalFiles == m.totalFiles + (if Selects(s, fs0, e) then 1 else 0)
      && m2.placed == m.placed + (if Selects(s, fs0, e) then [sw.curDir] else [])
  {
  }

  /** totalFiles counts exactly the selected files, one destination each,
      for a walk that does not reach into the target directory. */
  lemma {:induction false} TotalsCountSelected(s: Settings, fs0: FileSystem, walk: seq<WalkEntry>)
    requires forall i :: 0 <= i < |walk| ==> !Within(s.target, FullPath(walk[i]))
    ensures var st := Run(s, fs0, walk);
      st.Digging? ==> st.m.totalFiles == |st.m.placed| == |Selected(s, fs0, walk)|
  {
    if walk != [] {
      var n := |walk| - 1;
      TotalsCountSelected(s, fs0, walk[..n]);
      var st := Run(s, fs0, walk[..n]);
      if st.Digging? && Step(s, st.m, walk[n]).Digging? {
        RunKeepsOutside(s, fs0, walk[..n]);
        StepCounts(s, fs0, st.m, walk[n]);
      }
    }
  }

  /** Where every selected file goes when the bucket switch is off:
      dir_001 for targetDirs 0, the target itself without targetDirs. */
  function Home(s: Settings): Path
  {
    if s.targetDirs.Some? then Bucket(s.target, 1) else s.target
  }

  predicate AllHome(s: Settings, m: Miner)
  {
    m.curDir == Home(s) && forall i :: 0 <= i < |m.placed| ==> m.placed[i] == Home(s)
  }

  lemma AllHomeStep(s: Settings, m: Miner, e: WalkEntry)
    requires !Switches(s) && AllHome(s, m)
    ensures AllHome(s, Step(s, m, e).m)
  {
    assert SwitchIfFull(s, m) == Digging(m);
  }

  /** Without the bucket switch every selected file goes to one place. */
  lemma {:induction false} SingleDestination(s: Settings, fs0: FileSystem, walk: seq<WalkEntry>)
    requires !Switches(s)
    ensures AllHome(s, Run(s, fs0, walk).m)
  {
    if walk != [] {
      var n := |walk| - 1;
      SingleDestination(s, fs0, walk[..n]);
      if Run(s, fs0, walk[..n]).Digging? {
        AllHomeStep(s, Run(s, fs0, walk[..n]).m, walk[n]);
      }
    }
  }

  // ---------------------------------------------------------------------
  // Bucket capacity

  /** d is one of dir_001 .. dir_<below - 1>. */
  ghost predicate InBuckets(d: Path, target: Path, below: nat)
  {
    exists k :: 1 <= k < below && d == Bucket(target, k)
  }

  /** The state of a run with a bucket size of n: dig fills
      dir_<dirCount - 1>, holding fileCount files, and no bucket holds
      more than n. */
  ghost predicate Filling(s: Settings, n: nat, m: Miner)
  {
    && m.dirCount >= 2
    && m.curDir == Bucket(s.target, m.dirCount - 1)
    && m.fileCount <= n
    && Count(m.placed, m.curDir) == m.fileCount
    && (forall d :: Count(m.placed, d) <= n)
    && (forall i :: 0 <= i < |m.placed| ==> InBuckets(m.placed[i], s.target, m.dirCount))
  }

  /** A switch opens a bucket that has received nothing yet. */
  lemma FillingSwitch(s: Settings, n: nat, m: Miner)
    requires s.targetDirs == Some(n) && n >= 1 && Filling(s, n, m)
    requires SwitchIfFull(s, m).Digging?
    ensures var m1 := SwitchIfFull(s, m).m;
      Filling(s, n, m1) && m1.fileCount < n && m1.placed == m.placed
  {
    if m.fileCount >= n {
      var cur := Bucket(s.target, m.dirCount);
      forall i | 0 <= i < |m.placed|
        ensures m.placed[i] != cur && InBuckets(m.placed[i], s.target, m.dirCount + 1)
      {
        var k :| 1 <= k < m.dirCount && m.placed[i] == Bucket(s.target, k);
        BucketInjective(s.target, k, m.dirCount);
      }
      CountAbsent(m.placed, cur);
    }
  }

  /** A selected file goes into a bucket with room left. */
  lemma FillingConsider(s: Settings, n: nat, m: Miner, e: WalkEntry)
    requires Filling(s, n, m) && m.fileCount < n
    requires Consider(s, m, e).Digging?
    ensures Filling(s, n, Consider(s, m, e).m)
  {
    var m2 := Consider(s, m, e).m;
    if m2.placed != m.placed {
      assert m2.placed == m.placed + [m.curDir];
      forall d
        ensures Count(m2.placed, d) <= n
      {
        CountSnoc(m.placed, m.curDir, d);
      }
      CountSnoc(m.placed, m.curDir, m.curDir);
      assert InBuckets(m.curDir, s.target, m.dirCount);
    }
  }

  /** With targetDirs = n >= 1, and dir_001 not there before the run, no
      bucket receives more than n files, and every file goes into one of
      dir_001 .. dir_<dirCount - 1>. */
  lemma {:induction false} BucketCapacity(s: Settings, fs0: FileSystem, walk: seq<WalkEntry>, n: nat)
    requires s.targetDirs == Some(n) && n >= 1
    requires Bucket(s.target, 1) !in fs0.dirs
    ensures var st := Run(s, fs0, walk);
      st.Digging? ==>
        && (forall d :: Count(st.m.placed, d) <= n)
        && (forall i :: 0 <= i < |st.m.placed| ==> InBuckets(st.m.placed[i], s.target, st.m.dirCount))
  {
    FillingRun(s, fs0, walk, n);
  }

  lemma {:induction false} FillingRun(s: Settings, fs0: FileSystem, walk: seq<WalkEntry>, n: nat)
    requires s.targetDirs == Some(n) && n >= 1
    requires Bucket(s.target, 1) !in fs0.dirs
    ensures Run(s, fs0, walk).Digging? ==> Filling(s, n, Run(s, fs0, walk).m)
  {
    if walk != [] {
      var k := |walk| - 1;
      FillingRun(s, fs0, walk[..k], n);
      var st := Run(s, fs0, walk[..k]);
      if st.Digging? && Step(s, st.m, walk[k]).Digging? {
        FillingSwitch(s, n, st.m);
        FillingConsider(s, n, SwitchIfFull(s, st.m).m, walk[k]);
      }
    }
  }

  /** A dir_001 left from an earlier run is not counted, so the first
      switch goes back into it: with one file per bucket, two selected
      files both land in dir_001. */
  lemma FirstBucketReused(s: Settings, fs0: FileSystem, a: WalkEntry, b: WalkEntry)
    requires s.targetDirs == Some(1) && s.mode == Test
    requires Bucket(s.target, 1) in fs0.dirs
    requires Selects(s, fs0, a) && Selects(s, fs0, b)
    ensures Run(s, fs0, [a, b]).Digging?
    ensures Count(Run(s, fs0, [a, b]).m.placed, Bucket(s.target, 1)) == 2
  {
    var cur := Bucket(s.target, 1);
    var m0 := Miner(fs0, cur, 0, 1, 0, []);
    var m1 := m0.(fileCount := 1, totalFiles := 1, placed := [cur]);
    var m2 := m1.(fileCount := 1, dirCount := 2, totalFiles := 2, placed := [cur, cur]);
    assert Run(s, fs0, []) == Digging(m0);
    assert Step(s, m0, a) == Digging(m1) by {
      assert SwitchIfFull(s, m0) == Digging(m0);
    }
    assert Step(s, m1, b) == Digging(m2) by {
      assert SwitchIfFull(s, m1) == Digging(m1.(fileCount := 0, dirCount := 2));
    }
    assert [a, b][..1] == [a] && [a][..0] == [];
    assert Run(s, fs0, [a]) == Digging(m1);
    assert Run(s, fs0, [a, b]) == Digging(m2);
    assert [cur][1..] == [] && [cur, cur][1..] == [cur];
    assert Count([cur], cur) == 1;
  }
}
