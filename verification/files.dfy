/** The filesystem as the handler sees it, and the five operations it performs
    on it: os.Stat (through imageExists), os.Remove, os.MkdirAll,
    ioutil.ReadFile and ioutil.WriteFile. Paths are compared as strings. */
module Files {
  import opened Optional
  import opened Seqs

  type Bytes = seq<bv8>

  /** Regular files with their contents, directories, and the paths whose
      os.Stat fails with an error other than "does not exist" (a permission
      error on a parent, say). */
  datatype FileSystem = FileSystem(files: map<string, Bytes>, dirs: set<string>, statErrors: set<string>)

  /** What os.Stat reports for a path. */
  datatype StatResult = NotExist | Directory | RegularFile | StatFailure

  /** os.Stat: a failing stat wins over everything; otherwise a directory, a
      regular file or nothing, and at most one of the first two. */
  function Stat(fs: FileSystem, p: string): (r: StatResult)
    ensures r == StatFailure <==> p in fs.statErrors
    ensures r == NotExist <==> p !in fs.statErrors && p !in fs.dirs && p !in fs.files
    ensures r == RegularFile ==> p in fs.files && p !in fs.dirs
    ensures r == Directory ==> p in fs.dirs
  {
    if p in fs.statErrors then StatFailure
    else if p in fs.dirs then Directory
    else if p in fs.files then RegularFile
    else NotExist
  }

  /** imageExists: Some(false) for a missing path or a directory, Some(true)
      for an existing non-directory. None where os.Stat fails with another
      error: the code then calls IsDir on a nil FileInfo and panics. */
  function ImageExists(fs: FileSystem, p: string): (r: Option<bool>)
    ensures r.None? <==> p in fs.statErrors
    ensures r == Some(true) <==> p !in fs.statErrors && p !in fs.dirs && p in fs.files
    ensures r == Some(false) <==> p !in fs.statErrors && (p in fs.dirs || p !in fs.files)
  {
    match Stat(fs, p)
    case StatFailure => None
    case NotExist => Some(false)
    case Directory => Some(false)
    case RegularFile => Some(true)
  }

  /** os.Remove of a regular file; anything else at `p` is left in place (the
      error is ignored by the caller). */
  function Remove(fs: FileSystem, p: string): (r: FileSystem)
    ensures r.dirs == fs.dirs && r.statErrors == fs.statErrors
    ensures Stat(fs, p) == RegularFile ==> r.files == fs.files - {p} && Stat(r, p) == NotExist
    ensures Stat(fs, p) != RegularFile ==> r == fs
  {
    if Stat(fs, p) == RegularFile then fs.(files := fs.files - {p}) else fs
  }

  /** os.MkdirAll: creates `d` when nothing is there; an existing directory is
      success, and a file or a failing stat at `d` is an error (ignored by the
      caller) that creates nothing. Parent components are not tracked. */
  function MkdirAll(fs: FileSystem, d: string): (r: FileSystem)
    ensures r.files == fs.files && r.statErrors == fs.statErrors
    ensures fs.dirs <= r.dirs <= fs.dirs + {d}
    ensures Stat(fs, d) in {NotExist, Directory} <==> Stat(r, d) == Directory
    ensures Stat(fs, d) !in {NotExist, Directory} ==> r == fs
    ensures forall q :: ReadFile(r, q) == ReadFile(fs, q)
  {
    if Stat(fs, d) == NotExist then fs.(dirs := fs.dirs + {d}) else fs
  }

  /** The directory that holds `p`: its text before the final '/' ("." when
      there is no '/'). */
  function Parent(p: string): (r: string)
    ensures '/' in p ==> |r| < |p| && p[..|r|] == r && p[|r|] == '/' && '/' !in p[|r| + 1..]
  {
    var k := LastIndex(p, '/');
    if k < 0 then "." else p[..k]
  }

  /** ioutil.ReadFile with its error dropped: exactly the paths the handler's
      existence check accepts read as their bytes; every other path reads as
      nothing. */
  function ReadFile(fs: FileSystem, p: string): (r: Bytes)
    ensures ImageExists(fs, p) == Some(true) ==> p in fs.files && r == fs.files[p]
    ensures ImageExists(fs, p) != Some(true) ==> r == []
  {
    if Stat(fs, p) == RegularFile then fs.files[p] else []
  }

  /** ioutil.WriteFile creates or truncates `p`; that fails (and the caller
      only logs it) when `p` is a directory or cannot be stat'ed, or its parent
      is not a directory. */
  predicate CanWrite(fs: FileSystem, p: string) {
    Stat(fs, p) in {NotExist, RegularFile} && Stat(fs, Parent(p)) == Directory
  }

  function WriteFile(fs: FileSystem, p: string, data: Bytes): (r: FileSystem)
    ensures r.dirs == fs.dirs && r.statErrors == fs.statErrors
    ensures CanWrite(fs, p) ==> r.files == fs.files[p := data] && Stat(r, p) == RegularFile
    ensures !CanWrite(fs, p) ==> r == fs
  {
    if CanWrite(fs, p) then fs.(files := fs.files[p := data]) else fs
  }

  /** Reading back what was written: the path holds exactly the data when the
      write could happen and is unchanged when it could not; every other path
      reads as before. */
  lemma {:induction false} ReadAfterWrite(fs: FileSystem, p: string, q: string, data: Bytes)
    ensures CanWrite(fs, p) ==> ReadFile(WriteFile(fs, p, data), p) == data
    ensures !CanWrite(fs, p) ==> ReadFile(WriteFile(fs, p, data), p) == ReadFile(fs, p)
    ensures q != p ==> ReadFile(WriteFile(fs, p, data), q) == ReadFile(fs, q)
  {
  }

  /** Reading after a removal: the removed path reads as nothing when it was a
      regular file; every other path reads as before. */
  lemma {:induction false} ReadAfterRemove(fs: FileSystem, p: string, q: string)
    ensures ImageExists(fs, p) == Some(true) ==> ReadFile(Remove(fs, p), p) == []
    ensures q != p ==> ReadFile(Remove(fs, p), q) == ReadFile(fs, q)
  {
  }
}
