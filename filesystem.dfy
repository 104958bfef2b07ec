/** The filesystem as the scripts see it, reduced to what they read and
    change: regular files with their bytes, directories, and the files whose
    removal the operating system refuses. Walk orders are inputs. */
module FileSystems {
  import opened Common

  datatype FileSystem = FileSystem(files: map<Path, Bytes>, dirs: set<Path>, locked: set<Path>)

  /** The mode argument of dataMiner.py and fileSorter.py. */
  datatype Mode = Copy | Move | Test

  /** One file reported by os.walk: the directory it was found in and its
      name. */
  datatype WalkEntry = WalkEntry(dir: Path, name: FileName)

  /** os.path.join(dirpath, filename). */
  function FullPath(e: WalkEntry): Path
  {
    Join(e.dir, e.name)
  }

  /** The full paths of a walk, in walk order. */
  function Paths(walk: seq<WalkEntry>): (ps: seq<Path>)
    ensures |ps| == |walk|
  {
    seq(|walk|, i requires 0 <= i < |walk| => FullPath(walk[i]))
  }

  /** os.remove(p). The second component is false when it raises OSError:
      p is not a regular file, or the OS refuses to remove it. */
  function Remove(fs: FileSystem, p: Path): (FileSystem, bool)
  {
    if p in fs.files && p !in fs.locked then (fs.(files := fs.files - {p}), true)
    else (fs, false)
  }

  /** os.mkdir(p) where no directory p exists yet; None when it raises
      OSError because a file already has that path. */
  function Mkdir(fs: FileSystem, p: Path): Option<FileSystem>
  {
    if p in fs.files then None else Some(fs.(dirs := fs.dirs + {p}))
  }

  /** shutil.copy(src, dst): a directory dst receives the file under the
      source's base name. None when src cannot be read, or the destination
      is src itself (shutil.Error) or a directory (IOError). */
  function CopyFile(fs: FileSystem, src: Path, dst: Path): Option<FileSystem>
  {
    var to := if dst in fs.dirs then dst + [Basename(src)] else dst;
    if src !in fs.files || src == to || to in fs.dirs then None
    else Some(fs.(files := fs.files[to := fs.files[src]]))
  }

  /** shutil.move(src, dst): into a directory dst under the source's base
      name, refusing to replace anything there (shutil.Error); otherwise a
      rename, which replaces a file at dst. None when src cannot be
      renamed. */
  function MoveFile(fs: FileSystem, src: Path, dst: Path): Option<FileSystem>
  {
    var to := if dst in fs.dirs then dst + [Basename(src)] else dst;
    if src !in fs.files || (dst in fs.dirs && (to in fs.files || to in fs.dirs)) then None
    else if src == to then Some(fs)
    else Some(fs.(files := (fs.files - {src})[to := fs.files[src]]))
  }
}
