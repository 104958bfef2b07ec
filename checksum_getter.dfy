/** checkSumGetter.py: list the regular files directly inside a folder and
    write one "name, md5hex" line per file to the folder's checkSum.txt,
    through writeToLog's create-or-append. */
module CheckSumGetter {
  import opened Common
  import opened Folders
  import opened Text
  import Hashing

  /** How a call that writes to the manifest ends: it returns, or an
      exception escapes it; either way with the folder as it then is. */
  datatype WriteOutcome = Written(folder: Folder) | Crashed(folder: Folder)

  /** The manifest's current text, or nothing when it does not exist. */
  function Existing(folder: Folder): string
  {
    if folder.manifest.Some? then folder.manifest.value else ""
  }

  /** writeToLog(msg, logFile). The manifest is opened for writing when it
      is absent and for appending otherwise, then msg and a newline are
      written. msg is a Python 2 byte string going through a UTF-8 writer,
      so a non-ASCII msg fails after the file was opened; the handler then
      reports msg on the console, and reporting a non-ASCII byte string
      raises again, uncaught. When a directory holds the manifest's name the
      open itself fails, and an ASCII msg is only reported. */
  function WriteToLog(folder: Folder, msg: string): (r: WriteOutcome)
    ensures r.folder.files == folder.files && r.folder.dirs == folder.dirs
    ensures r.Written? <==> IsAscii(msg)
    ensures ManifestName in folder.dirs ==> r.folder == folder
  {
    if ManifestName in folder.dirs then
      if IsAscii(msg) then Written(folder) else Crashed(folder)
    else
      var open := folder.(manifest := Some(Existing(folder)));
      if IsAscii(msg) then Written(open.(manifest := Some(Existing(folder) + msg + "\n")))
      else Crashed(open)
  }

  /** The manifest line of one file, without its newline. */
  function ManifestEntry(name: string, content: Bytes, md5: Hash): string
  {
    name + ", " + Hashing.Hex(md5(content))
  }

  /** listing is what os.listdir reports for the folder: every file and
      subdirectory name once (checkSum.txt is already removed). */
  ghost predicate IsListing(folder: Folder, listing: seq<string>)
  {
    && NoDups(listing)
    && (forall name :: name in listing <==> name in folder.files || name in folder.dirs)
  }

  /** [f for f in os.listdir(targetPath) if os.path.isfile(...)]: the
      regular files among the listed names, in listing order. */
  function ListFiles(folder: Folder, listing: seq<string>): (files: seq<string>)
    ensures forall name :: name in files <==> name in listing && name in folder.files
    ensures NoDups(listing) ==> NoDups(files)
  {
    if listing == [] then []
    else (if listing[0] in folder.files then [listing[0]] else []) + ListFiles(folder, listing[1..])
  }

  /** The manifest-writing loop of sumUp over the listed files, stated on
      its prefixes. Contents are read from folder: writing the manifest
      changes no other file. */
  function Emit(folder: Folder, names: seq<string>, md5: Hash): (r: WriteOutcome)
    requires forall i :: 0 <= i < |names| ==> names[i] in folder.files
    ensures r.folder.files == folder.files && r.folder.dirs == folder.dirs
  {
    if names == [] then Written(folder)
    else
      match Emit(folder, names[..|names| - 1], md5)
      case Crashed(f) => Crashed(f)
      case Written(f) =>
        var name := names[|names| - 1];
        WriteToLog(f, ManifestEntry(name, folder.files[name], md5))
  }

  /** The end of a sumUp run: it reports the number of listed files, or an
      exception escapes it. */
  datatype SumUpOutcome = Summed(folder: Folder, total: nat) | Stopped(folder: Folder)

  /** sumUp(targetPath) as a function of the folder and the listing order. */
  function SumUpResult(folder: Folder, listing: seq<string>, md5: Hash): SumUpOutcome
  {
    var cleared := folder.(manifest := None);
    var files := ListFiles(cleared, listing);
    match Emit(cleared, files, md5)
    case Written(f) => Summed(f, |files|)
    case Crashed(f) => Stopped(f)
  }

  /** sumUp(targetPath): remove the old manifest, list the regular files,
      then hash each one and append its line. */
  method SumUp(folder: Folder, listing: seq<string>, md5: Hash) returns (r: SumUpOutcome)
    requires IsListing(folder.(manifest := None), listing)
    ensures r == SumUpResult(folder, listing, md5)
  {
    var cleared := folder.(manifest := None);
    var files := ListFiles(cleared, listing);
    var cur := cleared;
    for i := 0 to |files|
      invariant Emit(cleared, files[..i], md5) == Written(cur)
    {
      var w := WriteEntry(cleared, files, i, cur, md5);
      if w.Crashed? {
        EmitCrashSticks(cleared, files, i + 1, md5);
        return Stopped(w.folder);
      }
      cur := w.folder;
    }
    assert files[..|files|] == files;
    r := Summed(cur, |files|);
  }

  /** One turn of sumUp's loop: hash the file and append its line. */
  method WriteEntry(cleared: Folder, files: seq<string>, i: nat, cur: Folder, md5: Hash) returns (w: WriteOutcome)
    requires forall j :: 0 <= j < |files| ==> files[j] in cleared.files
    requires i < |files| && Emit(cleared, files[..i], md5) == Written(cur)
    ensures w == Emit(cleared, files[..i + 1], md5)
  {
    var name := files[i];
    var hex := Hashing.MdfiveSum(md5, cur.files[name]);
    EmitStep(cleared, files, i, md5);
    w := WriteToLog(cur, name + ", " + hex);
  }

  lemma EmitStep(folder: Folder, names: seq<string>, i: nat, md5: Hash)
    requires forall j :: 0 <= j < |names| ==> names[j] in folder.files
    requires i < |names| && Emit(folder, names[..i], md5).Written?
    ensures Emit(folder, names[..i + 1], md5)
      == WriteToLog(Emit(folder, names[..i], md5).folder, ManifestEntry(names[i], folder.files[names[i]], md5))
  {
    assert names[..i + 1][..i] == names[..i];
  }

  /** Once a write has raised, the rest of the loop never runs. */
  lemma {:induction false} EmitCrashSticks(folder: Folder, names: seq<string>, k: nat, md5: Hash)
    requires forall i :: 0 <= i < |names| ==> names[i] in folder.files
    requires k <= |names|
    requires Emit(folder, names[..k], md5).Crashed?
    ensures Emit(folder, names, md5) == Emit(folder, names[..k], md5)
    decreases |names| - k
  {
    if k < |names| {
      assert names[..k + 1][..k] == names[..k];
      EmitCrashSticks(folder, names, k + 1, md5);
    } else {
      assert names[..k] == names;
    }
  }

  // ---------------------------------------------------------------------
  // What the manifest holds

  /** The manifest text for the given files: one line per file, in order. */
  function ManifestText(folder: Folder, names: seq<string>, md5: Hash): string
    requires forall i :: 0 <= i < |names| ==> names[i] in folder.files
  {
    Flatten(seq(|names|, i requires 0 <= i < |names| => ManifestEntry(names[i], folder.files[names[i]], md5) + "\n"))
  }

  lemma ManifestTextSnoc(folder: Folder, names: seq<string>, md5: Hash)
    requires names != []
    requires forall i :: 0 <= i < |names| ==> names[i] in folder.files
    ensures var n := |names| - 1;
      ManifestText(folder, names, md5)
        == ManifestText(folder, names[..n], md5) + ManifestEntry(names[n], folder.files[names[n]], md5) + "\n"
  {
    var n := |names| - 1;
    var lines := seq(|names|, i requires 0 <= i < |names| => ManifestEntry(names[i], folder.files[names[i]], md5) + "\n");
    var front := seq(n, i requires 0 <= i < n => ManifestEntry(names[..n][i], folder.files[names[..n][i]], md5) + "\n");
    assert lines == front + [lines[n]];
    FlattenSnoc(front, lines[n]);
  }

  lemma HexIsAscii(d: Bytes)
    ensures IsAscii(Hashing.Hex(d))
  {
    Hashing.HexShape(d);
  }

  /** With only ASCII names and nothing in the manifest's way, every listed
      file gets its line, in listing order, and no file is created when
      nothing is listed. */
  lemma {:induction false} EmitWrites(folder: Folder, names: seq<string>, md5: Hash)
    requires forall i :: 0 <= i < |names| ==> names[i] in folder.files && IsAscii(names[i])
    requires folder.manifest == None && ManifestName !in folder.dirs
    ensures Emit(folder, names, md5)
      == Written(folder.(manifest := if names == [] then None else Some(ManifestText(folder, names, md5))))
  {
    if names != [] {
      var n := |names| - 1;
      EmitWrites(folder, names[..n], md5);
      ManifestTextSnoc(folder, names, md5);
      HexIsAscii(md5(folder.files[names[n]]));
      assert ManifestText(folder, names[..0], md5) == "";
    }
  }

  /** A directory named checkSum.txt: no line is ever written, and the run
      still completes when all names are ASCII. */
  lemma {:induction false} EmitBlocked(folder: Folder, names: seq<string>, md5: Hash)
    requires forall i :: 0 <= i < |names| ==> names[i] in folder.files && IsAscii(names[i])
    requires ManifestName in folder.dirs
    ensures Emit(folder, names, md5) == Written(folder)
  {
    if names != [] {
      var n := |names| - 1;
      EmitBlocked(folder, names[..n], md5);
      HexIsAscii(md5(folder.files[names[n]]));
    }
  }

  /** The first non-ASCII name stops the run: the lines before it are in
      the manifest, which exists even if that name comes first. */
  lemma EmitStopsAtNonAscii(folder: Folder, names: seq<string>, k: nat, md5: Hash)
    requires forall i :: 0 <= i < |names| ==> names[i] in folder.files
    requires k < |names| && !IsAscii(names[k])
    requires forall i :: 0 <= i < k ==> IsAscii(names[i])
    requires folder.manifest == None && ManifestName !in folder.dirs
    ensures Emit(folder, names, md5) == Crashed(folder.(manifest := Some(ManifestText(folder, names[..k], md5))))
  {
    EmitWrites(folder, names[..k], md5);
    assert ManifestText(folder, names[..0], md5) == "";
    EntryNotAscii(names[k], folder.files[names[k]], md5);
    EmitStep(folder, names, k, md5);
    EmitCrashSticks(folder, names, k + 1, md5);
  }

  lemma EntryNotAscii(name: string, content: Bytes, md5: Hash)
    requires !IsAscii(name)
    ensures !IsAscii(ManifestEntry(name, content, md5))
  {
    var j :| 0 <= j < |name| && name[j] >= 128 as char;
    assert ManifestEntry(name, content, md5)[j] == name[j];
  }

  /** sumUp never lists the manifest, lists exactly the folder's regular
      files, and with ASCII names writes one line per file; an empty folder
      ends with no manifest at all. */
  lemma SumUpWrites(folder: Folder, listing: seq<string>, md5: Hash)
    requires Valid(folder) && IsListing(folder.(manifest := None), listing)
    requires forall name :: name in folder.files ==> IsAscii(name)
    requires ManifestName !in folder.dirs
    ensures var files := ListFiles(folder, listing);
      && ManifestName !in files
      && (forall name :: name in files <==> name in folder.files)
      && SumUpResult(folder, listing, md5)
        == Summed(folder.(manifest := if files == [] then None else Some(ManifestText(folder, files, md5))), |files|)
  {
    var cleared := folder.(manifest := None);
    var files := ListFiles(cleared, listing);
    assert ListFiles(folder, listing) == files by {
      ListFilesSameFiles(folder, cleared, listing);
    }
    EmitWrites(cleared, files, md5);
    assert ManifestText(cleared, files, md5) == ManifestText(folder, files, md5) by {
      ManifestTextSameFiles(cleared, folder, files, md5);
    }
  }

  lemma {:induction false} ListFilesSameFiles(a: Folder, b: Folder, listing: seq<string>)
    requires a.files == b.files
    ensures ListFiles(a, listing) == ListFiles(b, listing)
  {
    if listing != [] {
      ListFilesSameFiles(a, b, listing[1..]);
    }
  }

  lemma ManifestTextSameFiles(a: Folder, b: Folder, names: seq<string>, md5: Hash)
    requires a.files == b.files
    requires forall i :: 0 <= i < |names| ==> names[i] in a.files
    ensures ManifestText(a, names, md5) == ManifestText(b, names, md5)
  {
  }
}
