/** Requests followed through the model: the naming of an artifact for a
    file whose name holds several dots, and the generate-then-evict life of
    one artifact. */
module Scenarios {
  import opened Optional
  import opened GoPath
  import opened Files
  import opened Encoder
  import opened Handler
  import opened CacheLaws

  /** A request for `stem.ext` in `dir`, where `stem` may itself hold dots (as
      in cat.v2.jpg): the extension checked is `ext` alone, and ".webp" is
      appended to the whole name, not substituted for `ext`. */
  lemma {:induction false} LastDotNaming(imgPath: string, cwd: string, dir: string, stem: string, ext: string)
    requires dir == "/" || IsClean(dir)
    requires IsProperName(stem + "." + ext)
    requires NoDotOrSlash(ext)
    ensures var p := (if dir == "/" then "" else dir) + "/" + (stem + "." + ext);
      && IsClean(p)
      && var r := Resolve(imgPath, cwd, p);
      && r.ext == Some(ext)
      && r.artifact == cwd + "/exhaust" + dir + "/" + (stem + "." + ext) + ".webp"
  {
    var name := stem + "." + ext;
    var lead := (if dir == "/" then "" else dir) + "/";
    var p := lead + name;
    assert p == (lead + stem) + ("." + ext);
    ResolveChild(imgPath, cwd, dir, name);
    DotExtensionSuffix(lead + stem, ext);
    ExtensionOfRequest(imgPath, cwd, p, ext);
  }

  /** "." followed by dot- and slash-free text is the extension of any path
      that ends with it. */
  lemma {:induction false} DotExtensionSuffix(front: string, ext: string)
    requires NoDotOrSlash(ext)
    ensures IsExtensionOf("." + ext, front + ("." + ext))
  {
    var e := "." + ext;
    var p := front + e;
    assert p[|p| - |e|..] == e;
    assert e[1..] == ext;
  }

  /** The life of one artifact, after path derivation. */
  lemma {:induction false} DispatchGenerateThenEvict(cfg: Config, r: Resolved, fs0: FileSystem, encode: Encoding)
    requires r.ext.Some? && r.ext.value in cfg.allowedTypes
    requires Parent(r.artifact) == r.artifactDir && r.artifact != r.artifactDir
    requires ImageExists(fs0, r.source) == Some(true)
    requires Stat(fs0, r.artifact) == NotExist
    requires Stat(fs0, r.artifactDir) in {NotExist, Directory}
    ensures
      var o1 := Dispatch(cfg, r, fs0, encode);
      var o2 := Dispatch(cfg, r, Remove(o1.fs, r.source), encode);
      && o1.response == Serve(r.artifact)
      && r.artifact in o1.fs.files
      && o2.response == NotFound404
      && r.artifact !in o2.fs.files
      && o2.fs.files == fs0.files - {r.source}
      && o2.fs.dirs == fs0.dirs + {r.artifactDir}
      && o2.fs.statErrors == fs0.statErrors
  {
    DispatchGenerate(cfg, r, fs0, encode);
    var o1 := Dispatch(cfg, r, fs0, encode);
    var data := encode(SelectDecoder(r.source), fs0.files[r.source]);
    assert Stat(o1.fs, r.source) == RegularFile;
    var fs1 := Remove(o1.fs, r.source);
    assert fs1.files == fs0.files[r.artifact := data] - {r.source};
    assert ImageExists(fs1, r.source) == Some(false);
    assert ImageExists(fs1, r.artifact) == Some(true);
    var o2 := Dispatch(cfg, r, fs1, encode);
    assert o2.fs == Remove(fs1, r.artifact);
    WriteThenDelete(fs0.files, r.source, r.artifact, data);
  }

  /** The life of one artifact: with the source present and nothing cached,
      a GET generates and serves the artifact; after the source is deleted,
      the same GET answers 404 and deletes the artifact. */
  lemma {:induction false} GenerateThenEvict(cfg: Config, cwd: string, p: string, ext: string, fs0: FileSystem, encode: Encoding)
    requires IsClean(p)
    requires IsExtensionOf("." + ext, p) && ext in cfg.allowedTypes
    requires ImageExists(fs0, cfg.imgPath + p) == Some(true)
    requires Stat(fs0, Resolve(cfg.imgPath, cwd, p).artifact) == NotExist
    requires Stat(fs0, Resolve(cfg.imgPath, cwd, p).artifactDir) in {NotExist, Directory}
    ensures
      var source := cfg.imgPath + p;
      var artifact := Resolve(cfg.imgPath, cwd, p).artifact;
      var o1 := Handle(cfg, cwd, p, fs0, encode);
      var o2 := Handle(cfg, cwd, p, Remove(o1.fs, source), encode);
      && o1.response == Serve(artifact)
      && artifact in o1.fs.files
      && o2.response == NotFound404
      && artifact !in o2.fs.files
      && o2.fs.files == fs0.files - {source}
      && o2.fs.dirs == fs0.dirs + {Resolve(cfg.imgPath, cwd, p).artifactDir}
      && o2.fs.statErrors == fs0.statErrors
  {
    var r := Resolve(cfg.imgPath, cwd, p);
    ExtensionOfRequest(cfg.imgPath, cwd, p, ext);
    assert r.artifact != r.artifactDir by {
      assert |Parent(r.artifact)| < |r.artifact|;
    }
    DispatchGenerateThenEvict(cfg, r, fs0, encode);
  }

  /** Writing a new entry, then deleting another and the new one, leaves the
      map with just the other deleted. */
  lemma {:induction false} WriteThenDelete(m: map<string, Bytes>, gone: string, added: string, data: Bytes)
    requires added !in m && gone != added
    ensures m[added := data] - {gone} - {added} == m - {gone}
  {
  }
}
