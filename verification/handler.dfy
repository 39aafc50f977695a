/** The route handler of the server: path derivation, the extension gate, the
    existence checks and the four cache actions, as one function from a
    request path and a filesystem to a response and a new filesystem. */
module Handler {
  import opened Optional
  import opened Seqs
  import opened GoStrings
  import opened GoPath
  import opened AllowList
  import opened Files
  import opened Encoder

  /** The configuration the handler reads: IMG_PATH and ALLOWED_TYPES. QUALITY
      only reaches the codecs and is part of the Encoding; HOST and PORT only
      matter to the listener. */
  datatype Config = Config(imgPath: string, allowedTypes: seq<string>)

  /** The values the handler derives from the request path before checking
      anything. `ext` is None where the code's index expression panics. */
  datatype Resolved = Resolved(
    source: string,
    ext: Option<string>,
    name: string,
    dir: string,
    artifact: string,
    artifactDir: string)

  /** The text after the '.' that path.Ext returns, as element 1 of
      strings.Split: the extension without its dot, or None when there is none. */
  lemma {:induction false} ExtensionToken(p: string)
    ensures SecondField(Ext(p), '.') == (if Ext(p) == "" then None else Some(Ext(p)[1..]))
  {
    if Ext(p) != "" {
      TokenOfExtension(Ext(p), p);
    }
  }

  /** Splitting an extension at '.' gives the empty text before its one dot
      and the rest of it after: element 1 is the extension without its dot. */
  lemma {:induction false} TokenOfExtension(e: string, p: string)
    requires IsExtensionOf(e, p)
    ensures SecondField(e, '.') == Some(e[1..])
    ensures IsExtensionOf("." + e[1..], p)
  {
    assert e == [e[0]] + e[1..];
    assert "." + e[1..] == e;
    var i := FirstIndex(e, '.');
    assert forall k :: 0 < k < |e| ==> e[k] != '.' by {
      forall k | 0 < k < |e|
        ensures e[k] != '.'
      {
        assert e[k] == e[1..][k - 1];
      }
    }
    assert i == 0;
    assert '.' !in e[1..] by {
      forall k | 0 <= k < |e[1..]|
        ensures e[1..][k] != '.'
      {
      }
    }
  }

  /** The final element of a clean path, with ".webp" appended, holds no '/'. */
  lemma {:induction false} ArtifactNameHasNoSlash(p: string)
    requires IsClean(p)
    ensures '/' !in Base(p) + ".webp"
  {
    CleanShape(p);
    var name := Base(p);
    assert name != "/";
    forall k | 0 <= k < |name + ".webp"|
      ensures (name + ".webp")[k] != '/'
    {
      if k < |name| {
        assert (name + ".webp")[k] == name[k];
      }
    }
  }

  /** Dir is "/" exactly for a file at the root: a path with no '/' past the
      leading one. */
  lemma {:induction false} RootLevelDir(p: string)
    requires IsClean(p)
    ensures Dir(p) == "/" <==> '/' !in p[1..]
  {
    CleanShape(p);
    var k := LastIndex(p, '/');
    if k == 0 {
      forall j | 0 <= j < |p[1..]|
        ensures p[1..][j] != '/'
      {
        assert p[1..][j] == p[j + 1];
      }
    } else {
      assert p[1..][k - 1] == '/';
    }
  }

  /** Dir, "/", Base and the suffix put back together: ".webp" appended to the
      request path, after one extra '/' for a root-level file. */
  lemma {:induction false} ArtifactJoin(prefix: string, p: string)
    requires IsClean(p)
    ensures prefix + Dir(p) + "/" + Base(p) + ".webp"
         == prefix + (if Dir(p) == "/" then "/" else "") + p + ".webp"
  {
    RejoinWithSuffix(prefix, Dir(p), Base(p), p);
  }

  /** The regrouping behind ArtifactJoin, for any directory text and name
      that join to `p`. */
  lemma {:induction false} RejoinWithSuffix(prefix: string, dir: string, name: string, p: string)
    requires (if dir == "/" then "" else dir) + "/" + name == p
    ensures prefix + dir + "/" + name + ".webp" == prefix + (if dir == "/" then "/" else "") + p + ".webp"
  {
    if dir == "/" {
      assert "/" + name == p;
      assert prefix + dir + "/" + name + ".webp" == prefix + "/" + ("/" + name) + ".webp";
    } else {
      assert prefix + dir + "/" + name + ".webp" == prefix + (dir + "/" + name) + ".webp";
    }
  }

  /** The split has no element 1 exactly when there is no extension. */
  lemma {:induction false} TokenAbsent(p: string)
    ensures SecondField(Ext(p), '.').None? <==> NoExtension(p)
  {
    ExtensionToken(p);
  }

  /** Element 1 of the split, put back behind a '.', is the extension. */
  lemma {:induction false} TokenPresent(p: string)
    ensures SecondField(Ext(p), '.').Some? ==> IsExtensionOf("." + SecondField(Ext(p), '.').value, p)
  {
    var e := Ext(p);
    if e == "" {
      assert SecondField(e, '.') == None;
    } else {
      TokenOfExtension(e, p);
    }
  }

  /** The artifact lies directly in the artifact directory. */
  lemma {:induction false} ArtifactParent(prefix: string, p: string)
    requires IsClean(p)
    ensures Parent(prefix + Dir(p) + "/" + Base(p) + ".webp") == prefix + Dir(p)
  {
    ArtifactNameHasNoSlash(p);
    var head, name := prefix + Dir(p), Base(p);
    var tail := name + ".webp";
    assert head + "/" + name + ".webp" == head + ['/'] + tail;
    LastIndexAtSeparator(head, '/', tail);
  }

  /** The derivations of the handler, from the request path `p`, the image root
      IMG_PATH and the working directory. */
  function Resolve(imgPath: string, cwd: string, p: string): (r: Resolved)
    requires IsClean(p)
    ensures r.source == imgPath + p
    ensures r.ext.None? <==> NoExtension(p)
    ensures r.ext.Some? ==> IsExtensionOf("." + r.ext.value, p)
    ensures r.dir == "/" <==> '/' !in p[1..]
    ensures r.artifactDir == cwd + "/exhaust" + r.dir
    ensures r.artifact == cwd + "/exhaust" + (if r.dir == "/" then "/" else "") + p + ".webp"
    ensures Parent(r.artifact) == r.artifactDir
  {
    TokenAbsent(p);
    TokenPresent(p);
    RootLevelDir(p);
    ArtifactJoin(cwd + "/exhaust", p);
    ArtifactParent(cwd + "/exhaust", p);
    var name := Base(p);
    var dir := Dir(p);
    Resolved(imgPath + p, SecondField(Ext(p), '.'), name, dir,
             cwd + "/exhaust" + dir + "/" + name + ".webp", cwd + "/exhaust" + dir)
  }

  /** Resolving the request for `name` in directory `dir`: the artifact is
      `name` plus ".webp" in the mirror of `dir` under the cache root. */
  lemma {:induction false} ResolveChild(imgPath: string, cwd: string, dir: string, name: string)
    requires dir == "/" || IsClean(dir)
    requires IsProperName(name)
    ensures var p := (if dir == "/" then "" else dir) + "/" + name;
      && IsClean(p)
      && var r := Resolve(imgPath, cwd, p);
      && r.name == name
      && r.dir == dir
      && r.artifactDir == cwd + "/exhaust" + dir
      && r.artifact == cwd + "/exhaust" + dir + "/" + name + ".webp"
  {
    SplitOfJoin(dir, name);
  }

  /** The four cache actions, decided from the two existence facts alone: the
      artifact is valid exactly while its source exists, whatever either
      file's contents or age. */
  datatype Action = EvictStale | RejectMissing | ServeCached | GenerateAndServe

  function Decide(sourceExists: bool, artifactExists: bool): (a: Action)
    ensures a in {ServeCached, GenerateAndServe} <==> sourceExists
    ensures a in {EvictStale, ServeCached} <==> artifactExists
  {
    if !sourceExists then (if artifactExists then EvictStale else RejectMissing)
    else if artifactExists then ServeCached
    else GenerateAndServe
  }

  /** Why a request ends in a panic instead of a response. */
  datatype Fault =
    | NoExtensionToSplit        // strings.Split(path.Ext(p), ".")[1] out of range
    | StatFailed(path: string)  // imageExists calls IsDir on a nil FileInfo

  /** What the client gets: the two plain-text errors, the file at a path, or
      nothing because the handler panicked. */
  datatype Response = Forbidden403 | NotFound404 | Serve(path: string) | Panic(fault: Fault)

  datatype Outcome = Outcome(response: Response, fs: FileSystem)

  /** The generate branch: MkdirAll of the artifact directory, then webpEncoder
      from the source to the artifact. The error of MkdirAll is discarded and
      that of the write only logged; a call that fails changes nothing. When
      the directory can be made, the directory and the encoded artifact are
      added; when a file or a failing stat blocks it, nothing changes; in no
      case does another file change. */
  function Generate(fs: FileSystem, r: Resolved, encode: Encoding): (out: FileSystem)
    ensures out.statErrors == fs.statErrors
    ensures fs.dirs <= out.dirs <= fs.dirs + {r.artifactDir}
    ensures forall q :: q != r.artifact ==> (q in out.files <==> q in fs.files)
    ensures forall q :: q != r.artifact && q in fs.files ==> out.files[q] == fs.files[q]
    ensures Parent(r.artifact) == r.artifactDir && r.artifact != r.artifactDir
            && Stat(fs, r.artifact) == NotExist && Stat(fs, r.artifactDir) in {NotExist, Directory} ==>
      && out.dirs == fs.dirs + {r.artifactDir}
      && out.files == fs.files[r.artifact := encode(SelectDecoder(r.source), ReadFile(fs, r.source))]
    ensures Parent(r.artifact) == r.artifactDir && Stat(fs, r.artifactDir) !in {NotExist, Directory} ==> out == fs
  {
    WebpEncode(MkdirAll(fs, r.artifactDir), r.source, r.artifact, encode)
  }

  /** The handler after path derivation: the panic on a missing extension,
      the gate, the two existence checks (source first) and the chosen action. */
  function Dispatch(cfg: Config, r: Resolved, fs: FileSystem, encode: Encoding): (out: Outcome)
    ensures out.response.Panic? ==> out.fs == fs
    ensures out.response == Panic(NoExtensionToSplit) <==> r.ext.None?
    ensures out.response == Forbidden403 <==> r.ext.Some? && r.ext.value !in cfg.allowedTypes
    ensures out.response.Panic? && out.response.fault.StatFailed? ==>
      out.response.fault.path in {r.source, r.artifact} && out.response.fault.path in fs.statErrors
    ensures out.response == NotFound404 ==> ImageExists(fs, r.source) == Some(false)
    ensures out.response.Serve? ==>
      out.response.path == r.artifact && ImageExists(fs, r.source) == Some(true)
    ensures out.fs.statErrors == fs.statErrors
    ensures fs.dirs <= out.fs.dirs <= fs.dirs + {r.artifactDir}
    ensures forall q :: q != r.artifact ==> (q in out.fs.files <==> q in fs.files)
    ensures forall q :: q != r.artifact && q in fs.files ==> out.fs.files[q] == fs.files[q]
  {
    match r.ext
    case None => Outcome(Panic(NoExtensionToSplit), fs)
    case Some(ext) =>
      if !Find(cfg.allowedTypes, ext).1 then Outcome(Forbidden403, fs)
      else
        match ImageExists(fs, r.source)
        case None => Outcome(Panic(StatFailed(r.source)), fs)
        case Some(sourceExists) =>
          match ImageExists(fs, r.artifact)
          case None => Outcome(Panic(StatFailed(r.artifact)), fs)
          case Some(artifactExists) =>
            match Decide(sourceExists, artifactExists)
            case EvictStale => Outcome(NotFound404, Remove(fs, r.artifact))
            case RejectMissing => Outcome(NotFound404, fs)
            case ServeCached => Outcome(Serve(r.artifact), fs)
            case GenerateAndServe => Outcome(Serve(r.artifact), Generate(fs, r, encode))
  }

  /** The route handler for a GET of the clean request path `p`. */
  function Handle(cfg: Config, cwd: string, p: string, fs: FileSystem, encode: Encoding): (out: Outcome)
    requires IsClean(p)
    ensures out.response == Panic(NoExtensionToSplit) <==> NoExtension(p)
    ensures out.response.Panic? ==> out.fs == fs
    ensures out.response == NotFound404 ==> ImageExists(fs, cfg.imgPath + p) == Some(false)
    ensures out.response.Serve? ==> ImageExists(fs, cfg.imgPath + p) == Some(true)
    ensures out.fs.statErrors == fs.statErrors
  {
    Dispatch(cfg, Resolve(cfg.imgPath, cwd, p), fs, encode)
  }
}
