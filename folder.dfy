/** The one directory the checksum scripts work in: its regular files by
    name, its subdirectories, and the manifest checkSum.txt, held as the text
    written to it. */
module Folders {
  import opened Common

  const ManifestName: string := "checkSum.txt"

  /** files never holds the manifest; when the manifest exists no
      subdirectory carries its name. Names are those os.listdir reports. */
  datatype Folder = Folder(files: map<string, Bytes>, dirs: set<string>, manifest: Option<string>)

  predicate Valid(folder: Folder)
  {
    && ManifestName !in folder.files
    && (folder.manifest.Some? ==> ManifestName !in folder.dirs)
    && (forall name :: name in folder.files ==> name !in folder.dirs)
  }

  /** open(os.path.join(targetPath, name), 'rb').read(): the bytes of the
      regular file of that name, None when opening raises (no such entry, a
      directory, the empty name naming the folder itself). The manifest's
      bytes are its text in UTF-8, which is what utf8 stands for. */
  function Lookup(folder: Folder, name: string, utf8: string -> Bytes): (r: Option<Bytes>)
    ensures name in folder.files ==> r == Some(folder.files[name])
    ensures name !in folder.files && name != ManifestName ==> r == None
  {
    if name in folder.files then Some(folder.files[name])
    else if name == ManifestName && folder.manifest.Some? then Some(utf8(folder.manifest.value))
    else None
  }
}
