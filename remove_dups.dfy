/** removeDups.py: walk the given roots in order, identify every file by
    (digest of its content, size), keep an index from identity to the first
    path seen with it, and remove every later file whose identity is
    already in the index. */
module RemoveDups {
  import opened Common
  import opened FileSystems
  import Hashing

  /** file_id: the digest of the whole content and the size in bytes. */
  datatype Identity = Identity(digest: Bytes, size: nat)

  function IdentityOf(hash: Hash, content: Bytes): Identity
  {
    Identity(hash(content), |content|)
  }

  /** The running state of check_for_duplicates: the filesystem, the
      `hashes` index and the `dups` counter. */
  datatype ScanState = ScanState(fs: FileSystem, hashes: map<Identity, Path>, dups: nat)

  /** A scan either visits every file or stops at the first file that
      cannot be opened (the IOError is not caught); what it removed before
      stays removed. */
  datatype ScanResult = Finished(st: ScanState) | Aborted(st: ScanState, at: Path)

  /** One file of the walk (removeDups.py:65-81): an identity already in the
      index counts a duplicate and tries to remove the file, whatever the
      outcome of the removal; a new identity is recorded with this path. */
  function Visit(hash: Hash, st: ScanState, p: Path): ScanState
    requires p in st.fs.files
  {
    var id := IdentityOf(hash, st.fs.files[p]);
    if id in st.hashes then ScanState(Remove(st.fs, p).0, st.hashes, st.dups + 1)
    else ScanState(st.fs, st.hashes[id := p], st.dups)
  }

  /** The scan over the walk order of all roots, stated on its prefixes. */
  function Scan(hash: Hash, fs0: FileSystem, walk: seq<Path>): ScanResult
  {
    if walk == [] then Finished(ScanState(fs0, map[], 0))
    else
      match Scan(hash, fs0, walk[..|walk| - 1])
      case Aborted(st, at) => Aborted(st, at)
      case Finished(st) =>
        var p := walk[|walk| - 1];
        if p !in st.fs.files then Aborted(st, p) else Finished(Visit(hash, st, p))
  }

  /** The walk of all roots, one root after the other. */
  function AllPaths(roots: seq<seq<WalkEntry>>): seq<Path>
  {
    if roots == [] then [] else AllPaths(roots[..|roots| - 1]) + Paths(roots[|roots| - 1])
  }

  const NoDuplicatesMessage: string := "\nNo duplicate files found."

  /** The closing report (removeDups.py:83-86). */
  function Summary(dups: nat): (msg: string)
    ensures msg == NoDuplicatesMessage <==> dups == 0
  {
    if dups > 0 then
      var m := "\nTotal duplicate files found: " + NatToString(dups);
      assert m[1] != NoDuplicatesMessage[1];
      m
    else NoDuplicatesMessage
  }

  /** check_for_duplicates(paths, hash): the nested walk loops with the
      index, the counter and best-effort removal. The report is produced
      only when the scan was not aborted. */
  method CheckForDuplicates(roots: seq<seq<WalkEntry>>, fs: FileSystem, hash: Hash)
    returns (result: ScanResult, report: Option<string>)
    ensures result == Scan(hash, fs, AllPaths(roots))
    ensures report == if result.Finished? then Some(Summary(result.st.dups)) else None
  {
    var dups: nat := 0;
    var hashes: map<Identity, Path> := map[];
    var cur := fs;
    ghost var done: seq<Path> := [];
    for r := 0 to |roots|
      invariant done == AllPaths(roots[..r])
      invariant Scan(hash, fs, done) == Finished(ScanState(cur, hashes, dups))
    {
      var walk := roots[r];
      for i := 0 to |walk|
        invariant done == AllPaths(roots[..r]) + Paths(walk)[..i]
        invariant Scan(hash, fs, done) == Finished(ScanState(cur, hashes, dups))
      {
        var fullPath := FullPath(walk[i]);
        PathsSnoc(walk, i);
        if fullPath !in cur.files {
          // open(full_path, 'rb') raises and nothing catches it
          result, report := Aborted(ScanState(cur, hashes, dups), fullPath), None;
          AbortInWalk(hash, fs, roots, r, i, done);
          return;
        }
        ghost var before := ScanState(cur, hashes, dups);
        var content := cur.files[fullPath];
        var digest := Hashing.DigestInChunks(hash, content, 1024);
        var fileId := Identity(digest, |content|);
        // a recorded path is never empty, so hashes.get() is truthy exactly
        // when the identity is present
        if fileId in hashes {
          dups := dups + 1;
          var removal := Remove(cur, fullPath);
          cur := removal.0;
        } else {
          hashes := hashes[fileId := fullPath];
        }
        assert ScanState(cur, hashes, dups) == Visit(hash, before, fullPath);
        ScanStep(hash, fs, done, fullPath);
        done := done + [fullPath];
      }
      AllPathsSnoc(roots, r);
    }
    assert roots[..|roots|] == roots;
    result, report := Finished(ScanState(cur, hashes, dups)), Some(Summary(dups));
  }

  lemma PathsSnoc(walk: seq<WalkEntry>, i: nat)
    requires i < |walk|
    ensures Paths(walk)[..i + 1] == Paths(walk)[..i] + [FullPath(walk[i])]
  {
  }

  lemma AllPathsSnoc(roots: seq<seq<WalkEntry>>, r: nat)
    requires r < |roots|
    ensures AllPaths(roots[..r + 1]) == AllPaths(roots[..r]) + Paths(roots[r])[..|roots[r]|]
  {
    assert roots[..r + 1][..r] == roots[..r];
  }

  lemma ScanStep(hash: Hash, fs0: FileSystem, done: seq<Path>, p: Path)
    requires Scan(hash, fs0, done).Finished? && p in Scan(hash, fs0, done).st.fs.files
    ensures Scan(hash, fs0, done + [p]) == Finished(Visit(hash, Scan(hash, fs0, done).st, p))
  {
    assert (done + [p])[..|done|] == done;
  }

  /** The file at position i of root r cannot be opened: the whole scan
      aborts there. */
  lemma AbortInWalk(hash: Hash, fs0: FileSystem, roots: seq<seq<WalkEntry>>, r: nat, i: nat, done: seq<Path>)
    requires r < |roots| && i < |roots[r]|
    requires done == AllPaths(roots[..r]) + Paths(roots[r])[..i]
    requires Scan(hash, fs0, done).Finished?
    requires FullPath(roots[r][i]) !in Scan(hash, fs0, done).st.fs.files
    ensures Scan(hash, fs0, AllPaths(roots)) == Aborted(Scan(hash, fs0, done).st, FullPath(roots[r][i]))
  {
    var p := FullPath(roots[r][i]);
    SplitLast(done, [p]);
    PrefixSnoc(Paths(roots[r]), i);
    AllPathsPrefix(roots, r + 1);
    PrefixSnoc(roots, r);
    ScanAbortSticks(hash, fs0, done + [p], AllPaths(roots));
  }

  lemma {:induction false} AllPathsPrefix(roots: seq<seq<WalkEntry>>, k: nat)
    requires k <= |roots|
    ensures AllPaths(roots[..k]) <= AllPaths(roots)
    decreases |roots| - k
  {
    if k < |roots| {
      AllPathsPrefix(roots, k + 1);
      assert roots[..k + 1][..k] == roots[..k];
    } else {
      assert roots[..k] == roots;
    }
  }

  /** Once the scan aborts, a longer walk aborts at the same file. */
  lemma {:induction false} ScanAbortSticks(hash: Hash, fs0: FileSystem, prefix: seq<Path>, walk: seq<Path>)
    requires prefix <= walk
    requires Scan(hash, fs0, prefix).Aborted?
    ensures Scan(hash, fs0, walk) == Scan(hash, fs0, prefix)
    decreases |walk|
  {
    if |walk| > |prefix| {
      assert prefix <= walk[..|walk| - 1];
      ScanAbortSticks(hash, fs0, prefix, walk[..|walk| - 1]);
    } else {
      assert walk == prefix;
    }
  }

  // ---------------------------------------------------------------------
  // What a finished scan has done

  /** The identities of the walked files, computed on the filesystem the
      scan started from. */
  function Ids(hash: Hash, fs0: FileSystem, walk: seq<Path>): (ids: seq<Identity>)
    requires forall i :: 0 <= i < |walk| ==> walk[i] in fs0.files
    ensures |ids| == |walk|
    ensures forall i :: 0 <= i < |walk| ==> ids[i] == IdentityOf(hash, fs0.files[walk[i]])
  {
    seq(|walk|, i requires 0 <= i < |walk| => IdentityOf(hash, fs0.files[walk[i]]))
  }

  /** The identities of a prefix of the walk are a prefix of its
      identities. */
  lemma IdsPrefix(hash: Hash, fs0: FileSystem, walk: seq<Path>, k: nat)
    requires forall i :: 0 <= i < |walk| ==> walk[i] in fs0.files
    requires k <= |walk|
    ensures forall i :: 0 <= i < k ==> walk[..k][i] in fs0.files
    ensures Ids(hash, fs0, walk[..k]) == Ids(hash, fs0, walk)[..k]
  {
  }

  ghost predicate Visited(fs0: FileSystem, walk: seq<Path>)
  {
    forall i :: 0 <= i < |walk| ==> walk[i] in fs0.files
  }

  /** fs differs from fs0 only by removed files, none of them protected. */
  ghost predicate OnlyRemoved(fs0: FileSystem, fs: FileSystem)
  {
    && fs.dirs == fs0.dirs && fs.locked == fs0.locked
    && (forall p :: p in fs.files ==> p in fs0.files && fs.files[p] == fs0.files[p])
    && (forall p :: p in fs0.files && p in fs0.locked ==> p in fs.files)
  }

  /** The index holds exactly the identities of the walk, each with the
      first path that had it. */
  ghost predicate FirstSeen(hash: Hash, fs0: FileSystem, walk: seq<Path>, hashes: map<Identity, Path>)
    requires Visited(fs0, walk)
  {
    var ids := Ids(hash, fs0, walk);
    && (forall id :: id in hashes <==> id in ids)
    && (forall id :: id in hashes ==> hashes[id] == walk[FirstIndex(ids, id)])
  }

  /** A walked file whose identity came up earlier is gone unless
      protected. */
  ghost predicate RepeatsGone(hash: Hash, fs0: FileSystem, walk: seq<Path>, fs: FileSystem)
    requires Visited(fs0, walk)
  {
    var ids := Ids(hash, fs0, walk);
    forall i :: 0 <= i < |walk| && ids[i] in ids[..i] && walk[i] !in fs0.locked ==>
      walk[i] !in fs.files
  }

  /** Every file that is gone was walked with an identity that came up
      earlier. */
  ghost predicate GoneAreRepeats(hash: Hash, fs0: FileSystem, walk: seq<Path>, fs: FileSystem)
    requires Visited(fs0, walk)
  {
    var ids := Ids(hash, fs0, walk);
    forall p :: p in fs0.files && p !in fs.files ==>
      exists i :: 0 <= i < |walk| && walk[i] == p && ids[i] in ids[..i]
  }

  ghost predicate ScanInvariant(hash: Hash, fs0: FileSystem, walk: seq<Path>, st: ScanState)
  {
    && Visited(fs0, walk)
    && OnlyRemoved(fs0, st.fs)
    && st.dups + |st.hashes| == |walk|
    && FirstSeen(hash, fs0, walk, st.hashes)
    && RepeatsGone(hash, fs0, walk, st.fs)
    && GoneAreRepeats(hash, fs0, walk, st.fs)
  }

  lemma IndexStep(hash: Hash, fs0: FileSystem, prefix: seq<Path>, st: ScanState, p: Path)
    requires Visited(fs0, prefix) && OnlyRemoved(fs0, st.fs) && FirstSeen(hash, fs0, prefix, st.hashes)
    requires p in st.fs.files
    ensures Visited(fs0, prefix + [p])
    ensures FirstSeen(hash, fs0, prefix + [p], Visit(hash, st, p).hashes)
  {
    var walk := prefix + [p];
    var n := |prefix|;
    assert walk[..n] == prefix;
    IdsPrefix(hash, fs0, walk, n);
    var ids := Ids(hash, fs0, walk);
    var preIds := Ids(hash, fs0, prefix);
    var id := ids[n];
    assert ids == preIds + [id];
    forall x | x in preIds
      ensures FirstIndex(ids, x) == FirstIndex(preIds, x)
    {
      var k := FirstIndex(preIds, x);
      assert ids[..k] == preIds[..k];
      FirstIndexUnique(ids, x, k);
    }
    if id !in preIds {
      assert ids[..n] == preIds;
      FirstIndexUnique(ids, id, n);
    }
  }

  lemma VisitOnlyRemoves(hash: Hash, fs0: FileSystem, st: ScanState, p: Path)
    requires OnlyRemoved(fs0, st.fs) && p in st.fs.files
    ensures OnlyRemoved(fs0, Visit(hash, st, p).fs)
  {
  }

  /** The facts both removal steps start from: whether the visited file
      repeats an identity, and what the visit does to the files. */
  lemma RepeatOfLast(hash: Hash, fs0: FileSystem, prefix: seq<Path>, st: ScanState, p: Path)
    requires Visited(fs0, prefix) && OnlyRemoved(fs0, st.fs) && FirstSeen(hash, fs0, prefix, st.hashes)
    requires p in st.fs.files
    ensures Visited(fs0, prefix + [p])
    ensures var ids := Ids(hash, fs0, prefix + [p]);
      var n := |prefix|;
      && ids[..n] == Ids(hash, fs0, prefix)
      && Visit(hash, st, p).fs == if ids[n] in ids[..n] then Remove(st.fs, p).0 else st.fs
  {
    var walk := prefix + [p];
    var n := |prefix|;
    assert walk[..n] == prefix;
    IdsPrefix(hash, fs0, walk, n);
    assert st.fs.files[p] == fs0.files[p];
  }

  lemma RepeatsGoneStep(hash: Hash, fs0: FileSystem, prefix: seq<Path>, st: ScanState, p: Path)
    requires Visited(fs0, prefix) && OnlyRemoved(fs0, st.fs)
    requires FirstSeen(hash, fs0, prefix, st.hashes) && RepeatsGone(hash, fs0, prefix, st.fs)
    requires p in st.fs.files
    ensures Visited(fs0, prefix + [p])
    ensures RepeatsGone(hash, fs0, prefix + [p], Visit(hash, st, p).fs)
  {
    RepeatOfLast(hash, fs0, prefix, st, p);
    var walk := prefix + [p];
    var n := |prefix|;
    var ids := Ids(hash, fs0, walk);
    var preIds := Ids(hash, fs0, prefix);
    var after := Visit(hash, st, p).fs;
    forall i | 0 <= i < |walk| && ids[i] in ids[..i] && walk[i] !in fs0.locked
      ensures walk[i] !in after.files
    {
      if i < n {
        assert ids[..i] == preIds[..i];
        assert walk[i] == prefix[i];
      }
    }
  }

  /** A file removed while scanning a prefix was removed at a repeat of
      that prefix, which is also a repeat of the longer walk. */
  lemma GoneEarlier(hash: Hash, fs0: FileSystem, prefix: seq<Path>, p: Path, q: Path, i: nat)
    requires Visited(fs0, prefix + [p])
    requires i < |prefix| && prefix[i] == q
    requires Visited(fs0, prefix) && Ids(hash, fs0, prefix)[i] in Ids(hash, fs0, prefix)[..i]
    ensures var ids := Ids(hash, fs0, prefix + [p]);
      exists j :: 0 <= j < |prefix + [p]| && (prefix + [p])[j] == q && ids[j] in ids[..j]
  {
    var walk := prefix + [p];
    assert walk[..|prefix|] == prefix;
    IdsPrefix(hash, fs0, walk, |prefix|);
    var ids := Ids(hash, fs0, walk);
    assert ids[..i] == Ids(hash, fs0, prefix)[..i];
    assert walk[i] == q;
  }

  lemma GoneAreRepeatsStep(hash: Hash, fs0: FileSystem, prefix: seq<Path>, st: ScanState, p: Path)
    requires Visited(fs0, prefix) && OnlyRemoved(fs0, st.fs)
    requires FirstSeen(hash, fs0, prefix, st.hashes) && GoneAreRepeats(hash, fs0, prefix, st.fs)
    requires p in st.fs.files
    ensures Visited(fs0, prefix + [p])
    ensures GoneAreRepeats(hash, fs0, prefix + [p], Visit(hash, st, p).fs)
  {
    RepeatOfLast(hash, fs0, prefix, st, p);
    var walk := prefix + [p];
    var n := |prefix|;
    var ids := Ids(hash, fs0, walk);
    var preIds := Ids(hash, fs0, prefix);
    var after := Visit(hash, st, p).fs;
    forall q | q in fs0.files && q !in after.files
      ensures exists i :: 0 <= i < |walk| && walk[i] == q && ids[i] in ids[..i]
    {
      if q in st.fs.files {
        assert walk[n] == q && ids[n] in ids[..n];
      } else {
        var i :| 0 <= i < n && prefix[i] == q && preIds[i] in preIds[..i];
        GoneEarlier(hash, fs0, prefix, p, q, i);
      }
    }
  }

  lemma CountStep(hash: Hash, st: ScanState, p: Path, n: nat)
    requires p in st.fs.files && st.dups + |st.hashes| == n
    ensures Visit(hash, st, p).dups + |Visit(hash, st, p).hashes| == n + 1
  {
  }

  lemma {:induction false} ScanHolds(hash: Hash, fs0: FileSystem, walk: seq<Path>)
    requires Scan(hash, fs0, walk).Finished?
    ensures ScanInvariant(hash, fs0, walk, Scan(hash, fs0, walk).st)
  {
    if walk == [] {
      assert Ids(hash, fs0, walk) == [];
    } else {
      var prefix := walk[..|walk| - 1];
      var p := walk[|walk| - 1];
      assert walk == prefix + [p];
      ScanHolds(hash, fs0, prefix);
      var st := Scan(hash, fs0, prefix).st;
      ScanStep(hash, fs0, prefix, p);
      IndexStep(hash, fs0, prefix, st, p);
      VisitOnlyRemoves(hash, fs0, st, p);
      CountStep(hash, st, p, |prefix|);
      RepeatsGoneStep(hash, fs0, prefix, st, p);
      GoneAreRepeatsStep(hash, fs0, prefix, st, p);
    }
  }

  /** A finished scan visited files that all existed at the start; it only
      ever removed files (contents, directories and permissions untouched,
      refused files kept); and every visited file either counted one
      duplicate or added one index entry. */
  lemma ScanFinished(hash: Hash, fs0: FileSystem, walk: seq<Path>)
    requires Scan(hash, fs0, walk).Finished?
    ensures forall i :: 0 <= i < |walk| ==> walk[i] in fs0.files
    ensures var st := Scan(hash, fs0, walk).st;
      && st.fs.dirs == fs0.dirs && st.fs.locked == fs0.locked
      && (forall p :: p in st.fs.files ==> p in fs0.files && st.fs.files[p] == fs0.files[p])
      && (forall p :: p in fs0.files && p in fs0.locked ==> p in st.fs.files)
      && st.dups + |st.hashes| == |walk|
  {
    ScanHolds(hash, fs0, walk);
  }

  /** The index after a finished scan: its keys are exactly the identities
      of the visited files, and each maps to the first visited path with
      that identity. */
  lemma ScanIndex(hash: Hash, fs0: FileSystem, walk: seq<Path>)
    requires Scan(hash, fs0, walk).Finished?
    ensures forall i :: 0 <= i < |walk| ==> walk[i] in fs0.files
    ensures var st := Scan(hash, fs0, walk).st;
      var ids := Ids(hash, fs0, walk);
      && (forall id :: id in st.hashes <==> id in ids)
      && (forall id :: id in st.hashes ==> st.hashes[id] == walk[FirstIndex(ids, id)])
  {
    ScanHolds(hash, fs0, walk);
  }

  /** An entry of the index is never replaced: scanning further only adds
      entries. */
  lemma {:induction false} ScanIndexGrows(hash: Hash, fs0: FileSystem, prefix: seq<Path>, walk: seq<Path>)
    requires prefix <= walk
    requires Scan(hash, fs0, walk).Finished?
    ensures Scan(hash, fs0, prefix).Finished?
    ensures var before := Scan(hash, fs0, prefix).st.hashes;
      var after := Scan(hash, fs0, walk).st.hashes;
      forall id :: id in before ==> id in after && after[id] == before[id]
    decreases |walk|
  {
    if |walk| > |prefix| {
      var shorter := walk[..|walk| - 1];
      assert prefix <= shorter;
      ScanIndexGrows(hash, fs0, prefix, shorter);
    } else {
      assert walk == prefix;
    }
  }

  /** Which files a finished scan removed: a visited file whose identity
      was seen earlier in the walk is gone unless the OS refused its removal,
      and a file that is gone was visited with an identity seen before it. */
  lemma ScanRemoved(hash: Hash, fs0: FileSystem, walk: seq<Path>)
    requires Scan(hash, fs0, walk).Finished?
    ensures forall i :: 0 <= i < |walk| ==> walk[i] in fs0.files
    ensures var st := Scan(hash, fs0, walk).st;
      var ids := Ids(hash, fs0, walk);
      && (forall i :: 0 <= i < |walk| && ids[i] in ids[..i] && walk[i] !in fs0.locked ==>
            walk[i] !in st.fs.files)
      && (forall p :: p in fs0.files && p !in st.fs.files ==>
            exists i :: 0 <= i < |walk| && walk[i] == p && ids[i] in ids[..i])
  {
    ScanHolds(hash, fs0, walk);
  }

  /** With every file walked once and nothing protected, the files left are
      exactly the first file of each identity. */
  lemma Survivors(hash: Hash, fs0: FileSystem, walk: seq<Path>)
    requires NoDups(walk)
    requires Scan(hash, fs0, walk).Finished?
    requires forall i :: 0 <= i < |walk| ==> walk[i] !in fs0.locked
    ensures forall i :: 0 <= i < |walk| ==> walk[i] in fs0.files
    ensures var st := Scan(hash, fs0, walk).st;
      var ids := Ids(hash, fs0, walk);
      forall i :: 0 <= i < |walk| ==> (walk[i] in st.fs.files <==> FirstIndex(ids, ids[i]) == i)
  {
    ScanRemoved(hash, fs0, walk);
    var st := Scan(hash, fs0, walk).st;
    var ids := Ids(hash, fs0, walk);
    forall i | 0 <= i < |walk|
      ensures walk[i] in st.fs.files <==> FirstIndex(ids, ids[i]) == i
    {
      if ids[i] !in ids[..i] {
        FirstIndexUnique(ids, ids[i], i);
      }
    }
  }

  // ---------------------------------------------------------------------
  // A root passed twice

  /** Scanning files again whose identities are all recorded (for example
      the survivors themselves) removes every one of them and counts each
      as a duplicate: nothing checks that the recorded path is another
      file. */
  lemma {:induction false} RescanRemoves(hash: Hash, fs0: FileSystem, walk: seq<Path>, again: seq<Path>)
    requires Scan(hash, fs0, walk).Finished?
    requires NoDups(again)
    requires var st := Scan(hash, fs0, walk).st;
      forall i :: 0 <= i < |again| ==>
        again[i] in st.fs.files && again[i] !in st.fs.locked &&
        IdentityOf(hash, st.fs.files[again[i]]) in st.hashes
    ensures Scan(hash, fs0, walk + again).Finished?
    ensures var st := Scan(hash, fs0, walk).st;
      var st2 := Scan(hash, fs0, walk + again).st;
      && st2.fs == st.fs.(files := st.fs.files - Elements(again))
      && st2.hashes == st.hashes
      && st2.dups == st.dups + |again|
    decreases |again|
  {
    if again == [] {
      assert walk + again == walk;
    } else {
      var n := |again| - 1;
      var shorter := again[..n];
      var q := again[n];
      SplitLast(walk, again);
      RescanRemoves(hash, fs0, walk, shorter);
      var st := Scan(hash, fs0, walk).st;
      var st1 := Scan(hash, fs0, walk + shorter).st;
      assert q !in Elements(shorter);
      assert q in st1.fs.files && st1.fs.files[q] == st.fs.files[q];
      ScanStep(hash, fs0, walk + shorter, q);
      assert Visit(hash, st1, q) == ScanState(st1.fs.(files := st1.fs.files - {q}), st1.hashes, st1.dups + 1);
      assert Elements(again) == Elements(shorter) + {q};
    }
  }

  /** A root whose files all differ in content, passed twice: the second
      pass deletes every one of its files. */
  lemma RootTwiceEmptiesIt(hash: Hash, fs0: FileSystem, w: seq<WalkEntry>)
    requires forall i :: 0 <= i < |w| ==> FullPath(w[i]) in fs0.files && FullPath(w[i]) !in fs0.locked
    requires NoDups(Paths(w))
    requires NoDups(Ids(hash, fs0, Paths(w)))
    ensures Scan(hash, fs0, AllPaths([w, w])).Finished?
    ensures var st := Scan(hash, fs0, AllPaths([w, w])).st;
      && (forall i :: 0 <= i < |w| ==> FullPath(w[i]) !in st.fs.files)
      && st.dups == |w|
  {
    var walk := Paths(w);
    TwoRoots(w, w);
    ScanFirstPassKeepsAll(hash, fs0, walk);
    SurvivorsRecorded(hash, fs0, walk, walk);
    RescanRemoves(hash, fs0, walk, walk);
    var st2 := Scan(hash, fs0, walk + walk).st;
    forall i | 0 <= i < |w|
      ensures FullPath(w[i]) !in st2.fs.files
    {
      assert walk[i] in Elements(walk);
    }
  }

  /** Files of the walk still present after a finished scan have their
      identity in the index. */
  lemma SurvivorsRecorded(hash: Hash, fs0: FileSystem, walk: seq<Path>, again: seq<Path>)
    requires Scan(hash, fs0, walk).Finished?
    requires forall i :: 0 <= i < |again| ==> again[i] in walk
    requires forall i :: 0 <= i < |again| ==>
      again[i] in Scan(hash, fs0, walk).st.fs.files && again[i] !in fs0.locked
    ensures var st := Scan(hash, fs0, walk).st;
      forall i :: 0 <= i < |again| ==>
        again[i] in st.fs.files && again[i] !in st.fs.locked &&
        IdentityOf(hash, st.fs.files[again[i]]) in st.hashes
  {
    ScanHolds(hash, fs0, walk);
    var st := Scan(hash, fs0, walk).st;
    var ids := Ids(hash, fs0, walk);
    forall i | 0 <= i < |again|
      ensures IdentityOf(hash, st.fs.files[again[i]]) in st.hashes
    {
      var j := FirstIndex(walk, again[i]);
      assert ids[j] in ids;
    }
  }

  /** Without repeated identities and nothing failing to open, the first
      pass finishes, removes nothing and counts nothing. */
  lemma {:induction false} ScanFirstPassKeepsAll(hash: Hash, fs0: FileSystem, walk: seq<Path>)
    requires forall i :: 0 <= i < |walk| ==> walk[i] in fs0.files
    requires NoDups(Ids(hash, fs0, walk))
    ensures Scan(hash, fs0, walk).Finished?
    ensures Scan(hash, fs0, walk).st.fs == fs0 && Scan(hash, fs0, walk).st.dups == 0
  {
    if walk != [] {
      var n := |walk| - 1;
      var prefix := walk[..n];
      IdsPrefix(hash, fs0, walk, n);
      var ids := Ids(hash, fs0, walk);
      assert NoDups(Ids(hash, fs0, prefix));
      ScanFirstPassKeepsAll(hash, fs0, prefix);
      ScanHolds(hash, fs0, prefix);
      assert ids[n] !in ids[..n];
    }
  }

  /** The entries of a walk whose files still exist, in walk order: what
      os.walk lists for a root walked again, since it reads each directory
      only when it reaches it. */
  function Relisted(w: seq<WalkEntry>, files: map<Path, Bytes>): (r: seq<WalkEntry>)
    ensures forall i :: 0 <= i < |r| ==> r[i] in w && FullPath(r[i]) in files
    ensures forall i :: 0 <= i < |w| && FullPath(w[i]) in files ==> w[i] in r
  {
    if w == [] then []
    else
      var n := |w| - 1;
      Relisted(w[..n], files) + (if FullPath(w[n]) in files then [w[n]] else [])
  }

  lemma PathsAppend(a: seq<WalkEntry>, e: WalkEntry)
    ensures Paths(a + [e]) == Paths(a) + [FullPath(e)]
  {
  }

  /** A walk listing each path once relists each survivor once. */
  lemma {:induction false} RelistedNoDups(w: seq<WalkEntry>, files: map<Path, Bytes>)
    requires NoDups(Paths(w))
    ensures NoDups(Paths(Relisted(w, files)))
  {
    if w != [] {
      var n := |w| - 1;
      var r' := Relisted(w[..n], files);
      assert Paths(w[..n]) == Paths(w)[..n];
      RelistedNoDups(w[..n], files);
      if FullPath(w[n]) in files {
        PathsAppend(r', w[n]);
        forall i | 0 <= i < |r'|
          ensures Paths(r')[i] != FullPath(w[n])
        {
          var j :| 0 <= j < n && w[..n][j] == r'[i];
          assert Paths(w)[j] == Paths(r')[i] && Paths(w)[n] == FullPath(w[n]);
        }
      } else {
        assert Relisted(w, files) == r';
      }
    }
  }

  lemma TwoRoots(w: seq<WalkEntry>, v: seq<WalkEntry>)
    ensures AllPaths([w, v]) == Paths(w) + Paths(v)
  {
    assert [w, v][..1] == [w] && [w][..0] == [];
    calc {
      AllPaths([w, v]);
      AllPaths([w]) + Paths(v);
      (AllPaths([]) + Paths(w)) + Paths(v);
      { assert AllPaths([]) + Paths(w) == Paths(w); }
      Paths(w) + Paths(v);
    }
  }

  /** A root passed twice: its second walk lists the files the first pass
      kept, and the second pass removes every one of them and counts each
      as a duplicate, so none of the root's files is left. */
  lemma RootTwiceRemovesSurvivors(hash: Hash, fs0: FileSystem, w: seq<WalkEntry>)
    requires NoDups(Paths(w))
    requires forall i :: 0 <= i < |w| ==> FullPath(w[i]) !in fs0.locked
    requires Scan(hash, fs0, Paths(w)).Finished?
    ensures var st := Scan(hash, fs0, Paths(w)).st;
      var again := Relisted(w, st.fs.files);
      var second := Scan(hash, fs0, AllPaths([w, again]));
      && second.Finished?
      && second.st.fs.files == st.fs.files - Elements(Paths(again))
      && second.st.dups == st.dups + |again|
      && (forall i :: 0 <= i < |w| ==> FullPath(w[i]) !in second.st.fs.files)
  {
    var walk := Paths(w);
    var st := Scan(hash, fs0, walk).st;
    var again := Relisted(w, st.fs.files);
    var ps := Paths(again);
    TwoRoots(w, again);
    RelistedNoDups(w, st.fs.files);
    forall i | 0 <= i < |ps|
      ensures ps[i] in walk && ps[i] in st.fs.files && ps[i] !in fs0.locked
    {
      var j :| 0 <= j < |w| && w[j] == again[i];
      assert walk[j] == ps[i];
    }
    SurvivorsRecorded(hash, fs0, walk, ps);
    RescanRemoves(hash, fs0, walk, ps);
    var st2 := Scan(hash, fs0, walk + ps).st;
    forall i | 0 <= i < |w|
      ensures FullPath(w[i]) !in st2.fs.files
    {
      if FullPath(w[i]) in st.fs.files {
        var k :| 0 <= k < |again| && again[k] == w[i];
        assert ps[k] == FullPath(w[i]);
      }
    }
  }
}
