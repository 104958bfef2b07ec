/** fileSorter.py: walk a source tree, group its files by extension, and
    copy or move each group into numbered buckets
    target/<ext>/<ext>_NNN of at most maxFiles files. */
module FileSorter {
  import opened Common
  import opened FileSystems
  import opened Extensions

  const MaxFiles: nat := 100

  /** How far sorter has got: still running with its state, or an
      exception has escaped, leaving the filesystem as it then was. */
  datatype Status<T> = Running(state: T) | Raised(fs: FileSystem)

  // ---------------------------------------------------------------------
  // Setting up and grouping

  /** if not os.path.isdir(targetPath) and mode != 'test':
      os.mkdir(targetPath). */
  function Setup(target: Path, mode: Mode, fs0: FileSystem): Status<FileSystem>
  {
    if target !in fs0.dirs && mode != Test then
      match Mkdir(fs0, target)
      case None => Raised(fs0)
      case Some(fs1) => Running(fs1)
    else Running(fs0)
  }

  /** dirCount after the setup: one more when the target was created. */
  function FirstDirCount(target: Path, mode: Mode, fs0: FileSystem): nat
  {
    if target !in fs0.dirs && mode != Test then 2 else 1
  }

  /** The state of the grouping loop: fileType lists the extensions seen,
      typeDic maps each to its files' paths. */
  datatype Pile = Pile(fs: FileSystem, fileType: seq<string>, typeDic: map<string, seq<Path>>, totalFiles: nat)

  /** The files of one type so far (typeDic is a defaultdict(list)). */
  function Sources(typeDic: map<string, seq<Path>>, ext: string): seq<Path>
  {
    if ext in typeDic then typeDic[ext] else []
  }

  /** One walked file counted, its extension listed when new, and its
      path appended to the files of that extension. */
  function Record(p: Pile, e: WalkEntry): Pile
  {
    var ext := Ext(e.name);
    p.(totalFiles := p.totalFiles + 1,
       fileType := if ext in p.fileType then p.fileType else p.fileType + [ext],
       typeDic := p.typeDic[ext := Sources(p.typeDic, ext) + [FullPath(e)]])
  }

  /** One walked file: record it, then create target/<ext> outside test
      mode. */
  function Gather(target: Path, mode: Mode, p: Pile, e: WalkEntry): Status<Pile>
  {
    var next := Record(p, e);
    var extDir := Join(target, Ext(e.name));
    if extDir !in p.fs.dirs && mode != Test then
      match Mkdir(p.fs, extDir)
      case None => Raised(p.fs)
      case Some(fs1) => Running(next.(fs := fs1))
    else Running(next)
  }

  /** The grouping loop over the walk, stated on its prefixes. */
  function GatherAll(target: Path, mode: Mode, fs1: FileSystem, walk: seq<WalkEntry>): Status<Pile>
  {
    if walk == [] then Running(Pile(fs1, [], map[], 0))
    else
      match GatherAll(target, mode, fs1, walk[..|walk| - 1])
      case Raised(fs) => Raised(fs)
      case Running(p) => Gather(target, mode, p, walk[|walk| - 1])
  }

  // ---------------------------------------------------------------------
  // Distributing into buckets

  /** target/<ext>/<ext>_NNN. */
  function BucketOf(target: Path, ext: string, k: nat): Path
  {
    Join(Join(target, ext), ext + "_" + Padded(k))
  }

  /** The state of the distributing loops. placed is the directory each
      file was sent to, in order; sorter keeps no such list, but its copies
      and moves follow it. */
  datatype Bins = Bins(fs: FileSystem, fileCount: nat, dirCount: nat, curDir: Path, placed: seq<Path>)

  /** curDir becomes target/<ext>/<ext>_<dirCount>; outside test mode a
      bucket that does not exist yet is created, and only then is
      dirCount advanced and fileCount reset to 1. */
  function Open(target: Path, mode: Mode, b: Bins, ext: string): Status<Bins>
  {
    var cur := BucketOf(target, ext, b.dirCount);
    if cur !in b.fs.dirs && mode != Test then
      match Mkdir(b.fs, cur)
      case None => Raised(b.fs)
      case Some(fs1) => Running(b.(fs := fs1, curDir := cur, dirCount := b.dirCount + 1, fileCount := 1))
    else Running(b.(curDir := cur))
  }

  /** One source file: open a new bucket once fileCount exceeds maxFiles,
      then copy or move the file there under its own base name. */
  function Place(target: Path, mode: Mode, b: Bins, ext: string, src: Path): Status<Bins>
  {
    match (if b.fileCount > MaxFiles then Open(target, mode, b, ext) else Running(b))
    case Raised(fs) => Raised(fs)
    case Running(b1) =>
      var dst := Join(b1.curDir, Basename(src));
      var next := b1.(fileCount := b1.fileCount + 1, placed := b1.placed + [b1.curDir]);
      match mode
      case Test => Running(next)
      case Copy =>
        (match CopyFile(b1.fs, src, dst)
         case None => Raised(b1.fs)
         case Some(fs2) => Running(next.(fs := fs2)))
      case Move =>
        (match MoveFile(b1.fs, src, dst)
         case None => Raised(b1.fs)
         case Some(fs2) => Running(next.(fs := fs2)))
  }

  /** The inner loop over the files of one type, stated on its prefixes. */
  function PlaceAll(target: Path, mode: Mode, b: Bins, ext: string, sources: seq<Path>): Status<Bins>
  {
    if sources == [] then Running(b)
    else
      match PlaceAll(target, mode, b, ext, sources[..|sources| - 1])
      case Raised(fs) => Raised(fs)
      case Running(b1) => Place(target, mode, b1, ext, sources[|sources| - 1])
  }

  /** One type of the outer loop: its first bucket, then its files. */
  function Handle(target: Path, mode: Mode, typeDic: map<string, seq<Path>>, b: Bins, ext: string): Status<Bins>
  {
    match Open(target, mode, b, ext)
    case Raised(fs) => Raised(fs)
    case Running(b1) => PlaceAll(target, mode, b1, ext, Sources(typeDic, ext))
  }

  /** The outer loop over typeDic.iteritems(), whose order is an input. */
  function Distribute(target: Path, mode: Mode, typeDic: map<string, seq<Path>>, b: Bins, order: seq<string>): Status<Bins>
  {
    if order == [] then Running(b)
    else
      match Distribute(target, mode, typeDic, b, order[..|order| - 1])
      case Raised(fs) => Raised(fs)
      case Running(b1) => Handle(target, mode, typeDic, b1, order[|order| - 1])
  }

  /** The grouping pass after the setup. */
  function Grouping(target: Path, mode: Mode, fs0: FileSystem, walk: seq<WalkEntry>): Status<Pile>
  {
    match Setup(target, mode, fs0)
    case Raised(fs) => Raised(fs)
    case Running(fs1) => GatherAll(target, mode, fs1, walk)
  }

  /** The distributing pass after the grouping pass. */
  function Placement(target: Path, mode: Mode, fs0: FileSystem, walk: seq<WalkEntry>, order: seq<string>): Status<Bins>
  {
    match Grouping(target, mode, fs0, walk)
    case Raised(fs) => Raised(fs)
    case Running(p) =>
      Distribute(target, mode, p.typeDic, Bins(p.fs, 0, FirstDirCount(target, mode, fs0), [], []), order)
  }

  /** What sorter leaves behind: the filesystem, and the counts of its
      closing message unless an exception escaped. */
  datatype Report = Finished(fs: FileSystem, totalFiles: nat, fileCount: nat, dirCount: nat) | Failed(fs: FileSystem)

  function SortResult(target: Path, mode: Mode, fs0: FileSystem, walk: seq<WalkEntry>, order: seq<string>): Report
  {
    match Placement(target, mode, fs0, walk, order)
    case Raised(fs) => Failed(fs)
    case Running(b) => Finished(b.fs, Grouping(target, mode, fs0, walk).state.totalFiles, b.fileCount, b.dirCount)
  }

  // ---------------------------------------------------------------------
  // sorter

  /** sorter(sourcePath, targetPath, mode), with the walk of sourcePath
      flattened into the sequence of files os.walk reports and the order
      of typeDic's keys given. */
  method Sort(target: Path, mode: Mode, fs0: FileSystem, walk: seq<WalkEntry>, order: seq<string>) returns (r: Report)
    ensures r == SortResult(target, mode, fs0, walk, order)
  {
    var fs := fs0;
    var dirCount: nat := 1;
    if target !in fs.dirs && mode != Test {
      var made := Mkdir(fs, target);
      if made.None? {
        return Failed(fs);
      }
      fs := made.value;
      dirCount := dirCount + 1;
    }
    var ok, fileType, typeDic, totalFiles;
    ok, fs, fileType, typeDic, totalFiles := GroupFiles(target, mode, fs, walk);
    if !ok {
      return Failed(fs);
    }
    var fileCount;
    ok, fs, fileCount, dirCount := DistributeFiles(target, mode, typeDic, fs, dirCount, order);
    if !ok {
      return Failed(fs);
    }
    r := Finished(fs, totalFiles, fileCount, dirCount);
  }

  /** Lines 132-160: the outer loop over the types, from fileCount 0. */
  method DistributeFiles(target: Path, mode: Mode, typeDic: map<string, seq<Path>>, fs0: FileSystem, dirCount0: nat,
                         order: seq<string>)
    returns (ok: bool, fs: FileSystem, fileCount: nat, dirCount: nat)
    ensures var st := Distribute(target, mode, typeDic, Bins(fs0, 0, dirCount0, [], []), order);
      && ok == st.Running?
      && (ok ==> fs == st.state.fs && fileCount == st.state.fileCount && dirCount == st.state.dirCount)
      && (!ok ==> st.fs == fs)
  {
    ghost var start := Bins(fs0, 0, dirCount0, [], []);
    fs, fileCount, dirCount := fs0, 0, dirCount0;
    var curDir: Path := [];
    ghost var placed: seq<Path> := [];
    for k := 0 to |order|
      invariant Distribute(target, mode, typeDic, start, order[..k]) == Running(Bins(fs, fileCount, dirCount, curDir, placed))
    {
      DistributeStep(target, mode, typeDic, start, order, k);
      ok, fs, fileCount, dirCount, curDir, placed := SortType(target, mode, typeDic, fs, fileCount, dirCount, curDir, placed, order[k]);
      if !ok {
        DistributeSticks(target, mode, typeDic, start, order, k + 1);
        return;
      }
    }
    WholePrefix(order);
    ok := true;
  }

  lemma DistributeStep(target: Path, mode: Mode, typeDic: map<string, seq<Path>>, b: Bins, order: seq<string>, k: nat)
    requires k < |order| && Distribute(target, mode, typeDic, b, order[..k]).Running?
    ensures Distribute(target, mode, typeDic, b, order[..k + 1])
      == Handle(target, mode, typeDic, Distribute(target, mode, typeDic, b, order[..k]).state, order[k])
  {
    PrefixSnoc(order, k);
  }

  /** Lines 113-128: the grouping loop. */
  method GroupFiles(target: Path, mode: Mode, fs1: FileSystem, walk: seq<WalkEntry>)
    returns (ok: bool, fs: FileSystem, fileType: seq<string>, typeDic: map<string, seq<Path>>, totalFiles: nat)
    ensures var st := GatherAll(target, mode, fs1, walk);
      && ok == st.Running?
      && (ok ==> st.state == Pile(fs, fileType, typeDic, totalFiles))
      && (!ok ==> st.fs == fs)
  {
    fs, fileType, typeDic, totalFiles := fs1, [], map[], 0;
    for i := 0 to |walk|
      invariant GatherAll(target, mode, fs1, walk[..i]) == Running(Pile(fs, fileType, typeDic, totalFiles))
    {
      GatherStep(target, mode, fs1, walk, i);
      ok, fs, fileType, typeDic, totalFiles := RecordFile(target, mode, fs, fileType, typeDic, totalFiles, walk[i]);
      if !ok {
        GatherSticks(target, mode, fs1, walk, i + 1);
        return;
      }
    }
    assert walk[..|walk|] == walk;
    ok := true;
  }

  /** Lines 115-128: one walked file. */
  method RecordFile(target: Path, mode: Mode, fs: FileSystem, fileType: seq<string>, typeDic: map<string, seq<Path>>,
                    totalFiles: nat, e: WalkEntry)
    returns (ok: bool, fs': FileSystem, fileType': seq<string>, typeDic': map<string, seq<Path>>, totalFiles': nat)
    ensures var st := Gather(target, mode, Pile(fs, fileType, typeDic, totalFiles), e);
      && ok == st.Running?
      && (ok ==> st.state == Pile(fs', fileType', typeDic', totalFiles'))
      && (!ok ==> st.fs == fs')
  {
    ok, fs', fileType' := true, fs, fileType;
    totalFiles' := totalFiles + 1;
    var ext := Ext(e.name);
    if ext !in fileType {
      fileType' := fileType + [ext];
    }
    typeDic' := typeDic[ext := Sources(typeDic, ext) + [FullPath(e)]];
    assert Record(Pile(fs, fileType, typeDic, totalFiles), e) == Pile(fs, fileType', typeDic', totalFiles');
    var extDir := Join(target, ext);
    if extDir !in fs.dirs && mode != Test {
      var made := Mkdir(fs, extDir);
      if made.None? {
        return false, fs, fileType', typeDic', totalFiles';
      }
      fs' := made.value;
    }
  }

  lemma GatherStep(target: Path, mode: Mode, fs1: FileSystem, walk: seq<WalkEntry>, i: nat)
    requires i < |walk| && GatherAll(target, mode, fs1, walk[..i]).Running?
    ensures GatherAll(target, mode, fs1, walk[..i + 1]) == Gather(target, mode, GatherAll(target, mode, fs1, walk[..i]).state, walk[i])
  {
    assert walk[..i + 1][..i] == walk[..i];
  }

  /** Lines 132-160 for one extension: its first bucket, then its files. */
  method SortType(target: Path, mode: Mode, typeDic: map<string, seq<Path>>, fs: FileSystem, fileCount: nat,
                  dirCount: nat, curDir: Path, ghost placed: seq<Path>, ext: string)
    returns (ok: bool, fs': FileSystem, fileCount': nat, dirCount': nat, curDir': Path, ghost placed': seq<Path>)
    ensures var st := Handle(target, mode, typeDic, Bins(fs, fileCount, dirCount, curDir, placed), ext);
      && ok == st.Running?
      && (ok ==> st.state == Bins(fs', fileCount', dirCount', curDir', placed'))
      && (!ok ==> st.fs == fs')
  {
    placed' := placed;
    ok, fs', fileCount', dirCount', curDir' := OpenBucket(target, mode, fs, fileCount, dirCount, curDir, placed, ext);
    if !ok {
      return;
    }
    ghost var begun := Bins(fs', fileCount', dirCount', curDir', placed');
    var sources := Sources(typeDic, ext);
    for j := 0 to |sources|
      invariant PlaceAll(target, mode, begun, ext, sources[..j]) == Running(Bins(fs', fileCount', dirCount', curDir', placed'))
    {
      PlaceAllStep(target, mode, begun, ext, sources, j);
      ok, fs', fileCount', dirCount', curDir', placed' := PlaceFile(target, mode, fs', fileCount', dirCount', curDir', placed', ext, sources[j]);
      if !ok {
        PlaceAllSticks(target, mode, begun, ext, sources, j + 1);
        return;
      }
    }
    WholePrefix(sources);
  }

  lemma PlaceAllStep(target: Path, mode: Mode, b: Bins, ext: string, sources: seq<Path>, j: nat)
    requires j < |sources| && PlaceAll(target, mode, b, ext, sources[..j]).Running?
    ensures PlaceAll(target, mode, b, ext, sources[..j + 1])
      == Place(target, mode, PlaceAll(target, mode, b, ext, sources[..j]).state, ext, sources[j])
  {
    PrefixSnoc(sources, j);
  }

  /** Lines 135-141 and 147-153: move curDir on to the next bucket. */
  method OpenBucket(target: Path, mode: Mode, fs: FileSystem, fileCount: nat, dirCount: nat, curDir: Path,
                    ghost placed: seq<Path>, ext: string)
    returns (ok: bool, fs': FileSystem, fileCount': nat, dirCount': nat, curDir': Path)
    ensures var st := Open(target, mode, Bins(fs, fileCount, dirCount, curDir, placed), ext);
      && ok == st.Running?
      && (ok ==> st.state == Bins(fs', fileCount', dirCount', curDir', placed))
      && (!ok ==> st.fs == fs')
  {
    ok, fs', fileCount', dirCount' := true, fs, fileCount, dirCount;
    curDir' := BucketOf(target, ext, dirCount);
    if curDir' !in fs.dirs && mode != Test {
      var made := Mkdir(fs, curDir');
      if made.None? {
        return false, fs, fileCount, dirCount, curDir';
      }
      fs' := made.value;
      dirCount' := dirCount + 1;
      fileCount' := 1;
    }
  }

  /** One pass of the inner loop: switch buckets when full, then copy or
      move the file. */
  method PlaceFile(target: Path, mode: Mode, fs: FileSystem, fileCount: nat, dirCount: nat, curDir: Path,
                   ghost placed: seq<Path>, ext: string, source: Path)
    returns (ok: bool, fs': FileSystem, fileCount': nat, dirCount': nat, curDir': Path, ghost placed': seq<Path>)
    ensures var st := Place(target, mode, Bins(fs, fileCount, dirCount, curDir, placed), ext, source);
      && ok == st.Running?
      && (ok ==> st.state == Bins(fs', fileCount', dirCount', curDir', placed'))
      && (!ok ==> st.fs == fs')
  {
    ok, fs', fileCount', dirCount', curDir', placed' := true, fs, fileCount, dirCount, curDir, placed;
    if fileCount > MaxFiles {
      ok, fs', fileCount', dirCount', curDir' := OpenBucket(target, mode, fs, fileCount, dirCount, curDir, placed, ext);
      if !ok {
        return;
      }
    }
    var dst := Join(curDir', Basename(source));
    if mode == Copy {
      var copied := CopyFile(fs', source, dst);
      if copied.None? {
        return false, fs', fileCount', dirCount', curDir', placed';
      }
      fs' := copied.value;
    } else if mode == Move {
      var moved := MoveFile(fs', source, dst);
      if moved.None? {
        return false, fs', fileCount', dirCount', curDir', placed';
      }
      fs' := moved.value;
    }
    fileCount' := fileCount' + 1;
    placed' := placed' + [curDir'];
  }

  lemma {:induction false} GatherSticks(target: Path, mode: Mode, fs1: FileSystem, walk: seq<WalkEntry>, k: nat)
    requires k <= |walk| && GatherAll(target, mode, fs1, walk[..k]).Raised?
    ensures GatherAll(target, mode, fs1, walk) == GatherAll(target, mode, fs1, walk[..k])
    decreases |walk| - k
  {
    if k < |walk| {
      assert walk[..k + 1][..k] == walk[..k];
      GatherSticks(target, mode, fs1, walk, k + 1);
    } else {
      assert walk[..k] == walk;
    }
  }

  lemma {:induction false} PlaceAllSticks(target: Path, mode: Mode, b: Bins, ext: string, sources: seq<Path>, k: nat)
    requires k <= |sources| && PlaceAll(target, mode, b, ext, sources[..k]).Raised?
    ensures PlaceAll(target, mode, b, ext, sources) == PlaceAll(target, mode, b, ext, sources[..k])
    decreases |sources| - k
  {
    if k < |sources| {
      assert sources[..k + 1][..k] == sources[..k];
      PlaceAllSticks(target, mode, b, ext, sources, k + 1);
    } else {
      assert sources[..k] == sources;
    }
  }

  lemma {:induction false} DistributeSticks(target: Path, mode: Mode, typeDic: map<string, seq<Path>>, b: Bins,
                                            order: seq<string>, k: nat)
    requires k <= |order| && Distribute(target, mode, typeDic, b, order[..k]).Raised?
    ensures Distribute(target, mode, typeDic, b, order) == Distribute(target, mode, typeDic, b, order[..k])
    decreases |order| - k
  {
    if k < |order| {
      assert order[..k + 1][..k] == order[..k];
      DistributeSticks(target, mode, typeDic, b, order, k + 1);
    } else {
      assert order[..k] == order;
    }
  }

  // ---------------------------------------------------------------------
  // The grouping pass

  /** The extensions of the walked files, in walk order. */
  function Exts(walk: seq<WalkEntry>): (xs: seq<string>)
    ensures |xs| == |walk|
  {
    seq(|walk|, i requires 0 <= i < |walk| => Ext(walk[i].name))
  }

  /** The paths of the walked files of one type, in walk order. */
  function OfType(walk: seq<WalkEntry>, ext: string): seq<Path>
  {
    if walk == [] then []
    else
      var e := walk[|walk| - 1];
      OfType(walk[..|walk| - 1], ext) + (if Ext(e.name) == ext then [FullPath(e)] else [])
  }

  /** What the grouping loop has built after a walk. */
  ghost predicate Grouped(p: Pile, walk: seq<WalkEntry>)
  {
    && p.totalFiles == |walk|
    && NoDups(p.fileType)
    && (forall x :: x in p.fileType <==> x in Exts(walk))
    && (forall x :: x in p.typeDic <==> x in Exts(walk))
    && (forall x :: Sources(p.typeDic, x) == OfType(walk, x))
  }

  lemma ExtsSnoc(walk: seq<WalkEntry>)
    requires walk != []
    ensures Exts(walk) == Exts(walk[..|walk| - 1]) + [Ext(walk[|walk| - 1].name)]
  {
  }

  /** Gather changes the filesystem only; its record is Record's. */
  lemma GatherRecords(target: Path, mode: Mode, p: Pile, e: WalkEntry)
    requires Gather(target, mode, p, e).Running?
    ensures Gather(target, mode, p, e).state == Record(p, e).(fs := Gather(target, mode, p, e).state.fs)
  {
  }

  lemma TypesStep(p: Pile, walk: seq<WalkEntry>)
    requires walk != []
    requires NoDups(p.fileType) && (forall x :: x in p.fileType <==> x in Exts(walk[..|walk| - 1]))
    ensures var p2 := Record(p, walk[|walk| - 1]);
      NoDups(p2.fileType) && (forall x :: x in p2.fileType <==> x in Exts(walk))
  {
    var n := |walk| - 1;
    ExtsSnoc(walk);
  }

  lemma OfTypeSnoc(w: seq<WalkEntry>, e: WalkEntry, x: string)
    ensures OfType(w + [e], x) == OfType(w, x) + (if Ext(e.name) == x then [FullPath(e)] else [])
  {
    assert (w + [e])[..|w|] == w;
  }

  /** The keys of typeDic grow by the extension of the next file. */
  lemma DicKeysStep(td: map<string, seq<Path>>, w: seq<WalkEntry>, e: WalkEntry, x0: string, v: seq<Path>)
    requires x0 == Ext(e.name)
    requires forall x :: x in td <==> x in Exts(w)
    ensures forall x :: x in td[x0 := v] <==> x in Exts(w + [e])
  {
    assert Exts(w + [e]) == Exts(w) + [x0];
  }

  /** Each extension's files grow by the next file when it has that
      extension. */
  lemma DicSourcesStep(td: map<string, seq<Path>>, w: seq<WalkEntry>, e: WalkEntry, x0: string)
    requires x0 == Ext(e.name)
    requires forall x :: Sources(td, x) == OfType(w, x)
    ensures forall x :: Sources(td[x0 := Sources(td, x0) + [FullPath(e)]], x) == OfType(w + [e], x)
  {
    forall x
      ensures Sources(td[x0 := Sources(td, x0) + [FullPath(e)]], x) == OfType(w + [e], x)
    {
      OfTypeSnoc(w, e, x);
    }
  }

  /** The grouping loop counts every walked file, lists each extension
      once, and gives each extension exactly its own files in walk order. */
  lemma {:induction false} GatherGroups(target: Path, mode: Mode, fs1: FileSystem, walk: seq<WalkEntry>)
    ensures GatherAll(target, mode, fs1, walk).Running? ==> Grouped(GatherAll(target, mode, fs1, walk).state, walk)
  {
    if walk != [] {
      var n := |walk| - 1;
      GatherGroups(target, mode, fs1, walk[..n]);
      var st := GatherAll(target, mode, fs1, walk[..n]);
      if st.Running? && Gather(target, mode, st.state, walk[n]).Running? {
        GatherRecords(target, mode, st.state, walk[n]);
        TypesStep(st.state, walk);
        SplitLast([], walk);
        var x0 := Ext(walk[n].name);
        DicKeysStep(st.state.typeDic, walk[..n], walk[n], x0, Sources(st.state.typeDic, x0) + [FullPath(walk[n])]);
        DicSourcesStep(st.state.typeDic, walk[..n], walk[n], x0);
      }
    }
  }

  /** ft lists extensions drawn from xs in the order of their first
      occurrence there. */
  ghost predicate FirstSeen(ft: seq<string>, xs: seq<string>)
  {
    && (forall i :: 0 <= i < |ft| ==> ft[i] in xs)
    && (forall i :: 0 <= i < |ft| ==> (i + 1 < |ft| ==> FirstIndex(xs, ft[i]) < FirstIndex(xs, ft[i + 1])))
  }

  /** fileType grows by the extensions not seen before, in walk order. */
  lemma TypesOrderStep(ft: seq<string>, xs: seq<string>, x: string)
    requires FirstSeen(ft, xs)
    requires x in xs ==> x in ft
    ensures FirstSeen(if x in ft then ft else ft + [x], xs + [x])
  {
    var ys := xs + [x];
    forall i | 0 <= i < |ft|
      ensures FirstIndex(ys, ft[i]) == FirstIndex(xs, ft[i])
    {
      FirstIndexUnique(ys, ft[i], FirstIndex(xs, ft[i]));
    }
    if x !in ft {
      FirstIndexUnique(ys, x, |xs|);
    }
  }

  /** The extensions of fileType come in the order of their first
      appearance in the walk. */
  lemma {:induction false} FirstSeenOrder(target: Path, mode: Mode, fs1: FileSystem, walk: seq<WalkEntry>)
    ensures var st := GatherAll(target, mode, fs1, walk);
      st.Running? ==> FirstSeen(st.state.fileType, Exts(walk))
  {
    if walk != [] {
      var n := |walk| - 1;
      FirstSeenOrder(target, mode, fs1, walk[..n]);
      GatherGroups(target, mode, fs1, walk[..n]);
      var st := GatherAll(target, mode, fs1, walk[..n]);
      if st.Running? && Gather(target, mode, st.state, walk[n]).Running? {
        GatherRecords(target, mode, st.state, walk[n]);
        ExtsSnoc(walk);
        var ft, xs, x := st.state.fileType, Exts(walk[..n]), Ext(walk[n].name);
        assert x in xs ==> x in ft by {
          assert Grouped(st.state, walk[..n]);
        }
        TypesOrderStep(ft, xs, x);
      }
    }
  }

  // ---------------------------------------------------------------------
  // Where a file lands

  /** Outside test mode a placed file keeps its base name and contents in
      the bucket it is listed under (inside it again when a directory
      already holds that name); a move takes it away from its source, and
      no other file changes. */
  lemma PlaceLands(target: Path, mode: Mode, b: Bins, ext: string, src: Path)
    requires mode != Test
    requires Place(target, mode, b, ext, src).Running?
    ensures var b2 := Place(target, mode, b, ext, src).state;
      var dst := Join(b2.curDir, Basename(src));
      var to := if dst in b2.fs.dirs then dst + [Basename(src)] else dst;
      && src in b.fs.files
      && b2.placed == b.placed + [b2.curDir]
      && to in b2.fs.files && b2.fs.files[to] == b.fs.files[src]
      && (mode == Move && src != to ==> src !in b2.fs.files)
      && (forall q :: q != to && q != src && q in b.fs.files ==> q in b2.fs.files && b2.fs.files[q] == b.fs.files[q])
      && b2.fs.files.Keys <= b.fs.files.Keys + {to}
  {
    var b1 := if b.fileCount > MaxFiles then Open(target, mode, b, ext).state else b;
    assert b1.fs.files == b.fs.files && b1.placed == b.placed;
    TransferKeepsDirs(b1.fs, src, Join(b1.curDir, Basename(src)));
  }

  // ---------------------------------------------------------------------
  // Bucket capacity

  /** Bucket paths name their type and number: two buckets are the same
      directory only when both agree. */
  lemma BucketOfInjective(target: Path, x: string, j: nat, y: string, k: nat)
    ensures BucketOf(target, x, j) == BucketOf(target, y, k) ==> x == y && j == k
  {
    var p, q := BucketOf(target, x, j), BucketOf(target, y, k);
    if p == q {
      var nx, ny := x + "_" + Padded(j), y + "_" + Padded(k);
      assert |p| == |target| + (if x == "" then 1 else 2);
      assert |q| == |target| + (if y == "" then 1 else 2);
      if x != "" {
        assert x == p[|target|] == q[|target|] == y;
      }
      assert nx == p[|p| - 1] == q[|q| - 1] == ny;
      assert nx[|x| + 1..] == Padded(j) && ny[|y| + 1..] == Padded(k);
      PaddedInjective(j, k);
    }
  }

  /** An extension directory target/<ext> is never a bucket, unless the
      extension itself looks like "_NNN" (the bucket of the empty
      extension is target/_NNN). */
  lemma ExtDirNotBucket(target: Path, ext: string, x: string, k: nat)
    requires ext == [] || ext[0] != '_'
    ensures Join(target, ext) != BucketOf(target, x, k)
  {
    var b := BucketOf(target, x, k);
    assert |b| == |target| + (if x == "" then 1 else 2);
    if x == "" {
      assert b[|b| - 1][0] == '_';
    }
  }

  /** No bucket numbered from `from` on exists. */
  ghost predicate NoBucketsFrom(fs: FileSystem, target: Path, from: nat)
  {
    forall x, k :: k >= from ==> BucketOf(target, x, k) !in fs.dirs
  }

  /** d is a bucket of some type numbered below `below`. */
  ghost predicate BucketBelow(d: Path, target: Path, below: nat)
  {
    exists x, k: nat :: k < below && d == BucketOf(target, x, k)
  }

  /** No walked file has an extension beginning with '_'. */
  predicate PlainExts(walk: seq<WalkEntry>)
  {
    forall i :: 0 <= i < |walk| ==> Ext(walk[i].name) == [] || Ext(walk[i].name)[0] != '_'
  }

  /** The state between two types: buckets from dirCount on do not exist
      yet, every file went into an earlier bucket, and none holds more
      than maxFiles. */
  ghost predicate Roomy(target: Path, b: Bins)
  {
    && NoBucketsFrom(b.fs, target, b.dirCount)
    && (forall i :: 0 <= i < |b.placed| ==> BucketBelow(b.placed[i], target, b.dirCount))
    && (forall d :: Count(b.placed, d) <= MaxFiles)
  }

  /** The state inside a type: curDir is a bucket that has received
      fileCount - 1 files. */
  ghost predicate Filling(target: Path, b: Bins)
  {
    && Roomy(target, b)
    && 1 <= b.fileCount <= MaxFiles + 1
    && BucketBelow(b.curDir, target, b.dirCount)
    && Count(b.placed, b.curDir) == b.fileCount - 1
  }

  /** Opening a bucket outside test mode creates a new, empty one. */
  lemma OpenFilling(target: Path, mode: Mode, b: Bins, ext: string)
    requires mode != Test && Roomy(target, b)
    requires Open(target, mode, b, ext).Running?
    ensures var b1 := Open(target, mode, b, ext).state;
      Filling(target, b1) && b1.fileCount == 1 && b1.placed == b.placed
  {
    var cur := BucketOf(target, ext, b.dirCount);
    assert cur !in b.fs.dirs;
    var b1 := Open(target, mode, b, ext).state;
    assert b1.fs.dirs == b.fs.dirs + {cur};
    forall x, k | k >= b1.dirCount
      ensures BucketOf(target, x, k) !in b1.fs.dirs
    {
      BucketOfInjective(target, x, k, ext, b.dirCount);
    }
    forall i | 0 <= i < |b.placed|
      ensures b.placed[i] != cur && BucketBelow(b.placed[i], target, b1.dirCount)
    {
      var x, k: nat :| k < b.dirCount && b.placed[i] == BucketOf(target, x, k);
      BucketOfInjective(target, x, k, ext, b.dirCount);
    }
    CountAbsent(b.placed, cur);
    assert BucketBelow(cur, target, b1.dirCount);
  }

  /** Copying or moving a file leaves the directories as they are. */
  lemma TransferKeepsDirs(fs: FileSystem, src: Path, dst: Path)
    ensures CopyFile(fs, src, dst).Some? ==> CopyFile(fs, src, dst).value.dirs == fs.dirs
    ensures MoveFile(fs, src, dst).Some? ==> MoveFile(fs, src, dst).value.dirs == fs.dirs
  {
  }

  /** One file goes into a bucket with room left. */
  lemma PlaceFilling(target: Path, mode: Mode, b: Bins, ext: string, src: Path)
    requires mode != Test && Filling(target, b)
    requires Place(target, mode, b, ext, src).Running?
    ensures Filling(target, Place(target, mode, b, ext, src).state)
  {
    var b1 := if b.fileCount > MaxFiles then Open(target, mode, b, ext).state else b;
    if b.fileCount > MaxFiles {
      OpenFilling(target, mode, b, ext);
    }
    TransferKeepsDirs(b1.fs, src, Join(b1.curDir, Basename(src)));
    var b2 := Place(target, mode, b, ext, src).state;
    assert b2.placed == b1.placed + [b1.curDir] && b2.fileCount == b1.fileCount + 1;
    assert b2.fs.dirs == b1.fs.dirs && b2.dirCount == b1.dirCount && b2.curDir == b1.curDir;
    forall d
      ensures Count(b2.placed, d) <= MaxFiles
    {
      CountSnoc(b1.placed, b1.curDir, d);
    }
    CountSnoc(b1.placed, b1.curDir, b1.curDir);
  }

  lemma {:induction false} PlaceAllFilling(target: Path, mode: Mode, b: Bins, ext: string, sources: seq<Path>)
    requires mode != Test && Filling(target, b)
    ensures PlaceAll(target, mode, b, ext, sources).Running? ==>
      Filling(target, PlaceAll(target, mode, b, ext, sources).state)
  {
    if sources != [] {
      var n := |sources| - 1;
      PlaceAllFilling(target, mode, b, ext, sources[..n]);
      var st := PlaceAll(target, mode, b, ext, sources[..n]);
      if st.Running? && Place(target, mode, st.state, ext, sources[n]).Running? {
        PlaceFilling(target, mode, st.state, ext, sources[n]);
      }
    }
  }

  lemma {:induction false} DistributeRoomy(target: Path, mode: Mode, typeDic: map<string, seq<Path>>, b: Bins, order: seq<string>)
    requires mode != Test && Roomy(target, b)
    ensures Distribute(target, mode, typeDic, b, order).Running? ==>
      Roomy(target, Distribute(target, mode, typeDic, b, order).state)
  {
    if order != [] {
      var n := |order| - 1;
      DistributeRoomy(target, mode, typeDic, b, order[..n]);
      var st := Distribute(target, mode, typeDic, b, order[..n]);
      if st.Running? && Open(target, mode, st.state, order[n]).Running? {
        var b1 := Open(target, mode, st.state, order[n]).state;
        OpenFilling(target, mode, st.state, order[n]);
        PlaceAllFilling(target, mode, b1, order[n], Sources(typeDic, order[n]));
      }
    }
  }

  /** Creating the extension directories creates no bucket. */
  lemma {:induction false} GatherMakesNoBuckets(target: Path, mode: Mode, fs1: FileSystem, walk: seq<WalkEntry>)
    requires NoBucketsFrom(fs1, target, 0) && PlainExts(walk)
    ensures GatherAll(target, mode, fs1, walk).Running? ==>
      NoBucketsFrom(GatherAll(target, mode, fs1, walk).state.fs, target, 0)
  {
    if walk != [] {
      var n := |walk| - 1;
      assert PlainExts(walk[..n]) by {
        forall i | 0 <= i < n
          ensures Ext(walk[..n][i].name) == [] || Ext(walk[..n][i].name)[0] != '_'
        {
          assert walk[..n][i] == walk[i];
        }
      }
      GatherMakesNoBuckets(target, mode, fs1, walk[..n]);
      var st := GatherAll(target, mode, fs1, walk[..n]);
      if st.Running? && Gather(target, mode, st.state, walk[n]).Running? {
        var ext := Ext(walk[n].name);
        var fs := Gather(target, mode, st.state, walk[n]).state.fs;
        assert fs.dirs <= st.state.fs.dirs + {Join(target, ext)};
        forall x, k: nat
          ensures BucketOf(target, x, k) !in fs.dirs
        {
          ExtDirNotBucket(target, ext, x, k);
        }
      }
    }
  }

  /** Creating the target and the extension directories creates no
      bucket. */
  lemma GroupingMakesNoBuckets(target: Path, mode: Mode, fs0: FileSystem, walk: seq<WalkEntry>)
    requires NoBucketsFrom(fs0, target, 0) && PlainExts(walk)
    ensures Grouping(target, mode, fs0, walk).Running? ==>
      NoBucketsFrom(Grouping(target, mode, fs0, walk).state.fs, target, 0)
  {
    var st := Setup(target, mode, fs0);
    if st.Running? {
      assert st.state.dirs <= fs0.dirs + {target};
      forall x, k: nat
        ensures BucketOf(target, x, k) !in st.state.dirs
      {
        ExtDirNotBucket(target, "", x, k);
      }
      GatherMakesNoBuckets(target, mode, st.state, walk);
    }
  }

  /** Each placed file is recorded once. */
  lemma {:induction false} PlaceAllRecords(target: Path, mode: Mode, b: Bins, ext: string, sources: seq<Path>)
    ensures var st := PlaceAll(target, mode, b, ext, sources);
      st.Running? ==> |st.state.placed| == |b.placed| + |sources|
  {
    if sources != [] {
      PlaceAllRecords(target, mode, b, ext, sources[..|sources| - 1]);
    }
  }

  lemma {:induction false} DistributeRecords(target: Path, mode: Mode, typeDic: map<string, seq<Path>>, b: Bins, order: seq<string>)
    ensures var st := Distribute(target, mode, typeDic, b, order);
      st.Running? ==> |st.state.placed| == |b.placed| + SumSources(typeDic, order)
  {
    if order != [] {
      var n := |order| - 1;
      DistributeRecords(target, mode, typeDic, b, order[..n]);
      var st := Distribute(target, mode, typeDic, b, order[..n]);
      if st.Running? && Open(target, mode, st.state, order[n]).Running? {
        var b1 := Open(target, mode, st.state, order[n]).state;
        PlaceAllRecords(target, mode, b1, order[n], Sources(typeDic, order[n]));
      }
    }
  }

  /** In every mode, a run that completes with an order listing each walked
      type once has placed exactly as many files as it walked. */
  lemma SortPlacesAll(target: Path, mode: Mode, fs0: FileSystem, walk: seq<WalkEntry>, order: seq<string>)
    requires NoDups(order)
    requires forall i :: 0 <= i < |walk| ==> Ext(walk[i].name) in order
    ensures var st := Placement(target, mode, fs0, walk, order);
      st.Running? ==> |st.state.placed| == |walk|
  {
    var g := Grouping(target, mode, fs0, walk);
    if g.Running? {
      var fs1 := Setup(target, mode, fs0).state;
      GatherGroups(target, mode, fs1, walk);
      var b := Bins(g.state.fs, 0, FirstDirCount(target, mode, fs0), [], []);
      DistributeRecords(target, mode, g.state.typeDic, b, order);
      SumSourcesOfTypes(g.state.typeDic, walk, order);
      SumTypesAll(walk, order);
    }
  }

  /** Outside test mode, with no bucket left from an earlier run and no
      extension looking like "_NNN", no bucket receives more than maxFiles
      files and every placed file lands in a bucket; when the order lists
      each walked type once, as typeDic.iteritems() does, every walked file
      is placed. */
  lemma SortCapacity(target: Path, mode: Mode, fs0: FileSystem, walk: seq<WalkEntry>, order: seq<string>)
    requires mode != Test
    requires NoBucketsFrom(fs0, target, 0) && PlainExts(walk)
    ensures var st := Placement(target, mode, fs0, walk, order);
      st.Running? ==>
        && (forall d :: Count(st.state.placed, d) <= MaxFiles)
        && (forall i :: 0 <= i < |st.state.placed| ==> BucketBelow(st.state.placed[i], target, st.state.dirCount))
        && (NoDups(order) && (forall i :: 0 <= i < |walk| ==> Ext(walk[i].name) in order) ==>
              |st.state.placed| == |walk|)
  {
    GroupingMakesNoBuckets(target, mode, fs0, walk);
    var g := Grouping(target, mode, fs0, walk);
    if g.Running? {
      var b := Bins(g.state.fs, 0, FirstDirCount(target, mode, fs0), [], []);
      assert Roomy(target, b);
      DistributeRoomy(target, mode, g.state.typeDic, b, order);
    }
    if NoDups(order) && (forall i :: 0 <= i < |walk| ==> Ext(walk[i].name) in order) {
      SortPlacesAll(target, mode, fs0, walk, order);
    }
  }

  // ---------------------------------------------------------------------
  // Test mode

  /** How many files the listed types hold. */
  function SumSources(typeDic: map<string, seq<Path>>, order: seq<string>): nat
  {
    if order == [] then 0
    else SumSources(typeDic, order[..|order| - 1]) + |Sources(typeDic, order[|order| - 1])|
  }

  function SumTypes(walk: seq<WalkEntry>, order: seq<string>): nat
  {
    if order == [] then 0
    else SumTypes(walk, order[..|order| - 1]) + |OfType(walk, order[|order| - 1])|
  }

  lemma {:induction false} SumSourcesOfTypes(typeDic: map<string, seq<Path>>, walk: seq<WalkEntry>, order: seq<string>)
    requires forall x :: Sources(typeDic, x) == OfType(walk, x)
    ensures SumSources(typeDic, order) == SumTypes(walk, order)
  {
    if order != [] {
      SumSourcesOfTypes(typeDic, walk, order[..|order| - 1]);
    }
  }

  lemma {:induction false} SumTypesSnoc(walk: seq<WalkEntry>, e: WalkEntry, order: seq<string>)
    ensures SumTypes(walk + [e], order) == SumTypes(walk, order) + Count(order, Ext(e.name))
  {
    if order != [] {
      var n := |order| - 1;
      var x := Ext(e.name);
      SumTypesSnoc(walk, e, order[..n]);
      OfTypeSnoc(walk, e, order[n]);
      assert |OfType(walk + [e], order[n])| == |OfType(walk, order[n])| + (if x == order[n] then 1 else 0);
      CountLast(order, x);
    }
  }

  lemma {:induction false} CountOnce<T>(s: seq<T>, x: T)
    requires NoDups(s) && x in s
    ensures Count(s, x) == 1
  {
    if s[0] == x {
      CountAbsent(s[1..], x);
    } else {
      CountOnce(s[1..], x);
    }
  }

  /** Listing every walked type once, the types hold all walked files
      between them. */
  lemma {:induction false} SumTypesAll(walk: seq<WalkEntry>, order: seq<string>)
    requires NoDups(order)
    requires forall i :: 0 <= i < |walk| ==> Ext(walk[i].name) in order
    ensures SumTypes(walk, order) == |walk|
  {
    if walk == [] {
      SumTypesEmpty(order);
    } else {
      var n := |walk| - 1;
      SumTypesAll(walk[..n], order);
      assert walk[..n] + [walk[n]] == walk;
      SumTypesSnoc(walk[..n], walk[n], order);
      CountOnce(order, Ext(walk[n].name));
    }
  }

  lemma {:induction false} SumTypesEmpty(order: seq<string>)
    ensures SumTypes([], order) == 0
  {
    if order != [] {
      SumTypesEmpty(order[..|order| - 1]);
    }
  }

  /** Test mode: grouping changes nothing. */
  lemma {:induction false} GatherTest(target: Path, fs1: FileSystem, walk: seq<WalkEntry>)
    ensures GatherAll(target, Test, fs1, walk).Running? && GatherAll(target, Test, fs1, walk).state.fs == fs1
  {
    if walk != [] {
      GatherTest(target, fs1, walk[..|walk| - 1]);
    }
  }

  /** Test mode: placing files only counts them; no bucket is created, so
      fileCount is never reset. */
  lemma {:induction false} PlaceAllTest(target: Path, b: Bins, ext: string, sources: seq<Path>)
    ensures var st := PlaceAll(target, Test, b, ext, sources);
      && st.Running?
      && st.state.fs == b.fs && st.state.dirCount == b.dirCount
      && st.state.fileCount == b.fileCount + |sources|
  {
    if sources != [] {
      PlaceAllTest(target, b, ext, sources[..|sources| - 1]);
    }
  }

  lemma {:induction false} DistributeTest(target: Path, typeDic: map<string, seq<Path>>, b: Bins, order: seq<string>)
    ensures var st := Distribute(target, Test, typeDic, b, order);
      && st.Running?
      && st.state.fs == b.fs && st.state.dirCount == b.dirCount
      && st.state.fileCount == b.fileCount + SumSources(typeDic, order)
  {
    if order != [] {
      var n := |order| - 1;
      DistributeTest(target, typeDic, b, order[..n]);
      var b1 := Distribute(target, Test, typeDic, b, order[..n]).state;
      PlaceAllTest(target, b1.(curDir := BucketOf(target, order[n], b1.dirCount)), order[n], Sources(typeDic, order[n]));
    }
  }

  /** In test mode nothing is created, copied or moved, and the closing
      message reports as many files handled as walked, in one folder:
      fileCount, never reset, ends equal to totalFiles. The order lists
      each walked type once, as typeDic.iteritems() does. */
  lemma TestModeSorts(target: Path, fs0: FileSystem, walk: seq<WalkEntry>, order: seq<string>)
    requires NoDups(order)
    requires forall i :: 0 <= i < |walk| ==> Ext(walk[i].name) in order
    ensures SortResult(target, Test, fs0, walk, order) == Finished(fs0, |walk|, |walk|, 1)
  {
    GatherTest(target, fs0, walk);
    GatherGroups(target, Test, fs0, walk);
    var p := GatherAll(target, Test, fs0, walk).state;
    DistributeTest(target, p.typeDic, Bins(p.fs, 0, 1, [], []), order);
    SumSourcesOfTypes(p.typeDic, walk, order);
    SumTypesAll(walk, order);
  }
}
