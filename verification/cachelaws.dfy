/** What the handler promises across requests: the gate comes first, a
    missing source evicts its artifact, an existing artifact is served as is,
    a missing one is generated once, and every request is idempotent. */
module CacheLaws {
  import opened Optional
  import opened Seqs
  import opened GoPath
  import opened AllowList
  import opened Files
  import opened Encoder
  import opened Handler

  /** The token the handler checks is the extension of the request path. */
  lemma {:induction false} ExtensionOfRequest(imgPath: string, cwd: string, p: string, ext: string)
    requires IsClean(p)
    requires IsExtensionOf("." + ext, p)
    ensures Resolve(imgPath, cwd, p).ext == Some(ext)
  {
    var r := Resolve(imgPath, cwd, p);
    var k := |p| - |"." + ext|;
    assert p[k..] == "." + ext;
    assert IsExtensionOf(p[k..], p);
    assert r.ext.Some?;
    ExtensionIsUnique(p, "." + r.ext.value, "." + ext);
    assert ("." + r.ext.value)[1..] == r.ext.value;
  }

  /** A request whose last element has no extension panics before the gate,
      whatever the configuration and the disk hold. */
  lemma {:induction false} MissingExtensionPanics(cfg: Config, cwd: string, p: string, fs: FileSystem, encode: Encoding)
    requires IsClean(p)
    requires NoExtension(p)
    ensures Handle(cfg, cwd, p, fs, encode) == Outcome(Panic(NoExtensionToSplit), fs)
  {
  }

  /** An extension outside the allow-list is refused with 403 and nothing
      changes, whatever exists on disk: the gate runs before any stat. */
  lemma {:induction false} GateComesFirst(cfg: Config, cwd: string, p: string, ext: string, fs: FileSystem, encode: Encoding)
    requires IsClean(p)
    requires IsExtensionOf("." + ext, p)
    requires ext !in cfg.allowedTypes
    ensures Handle(cfg, cwd, p, fs, encode) == Outcome(Forbidden403, fs)
  {
    ExtensionOfRequest(cfg.imgPath, cwd, p, ext);
  }

  /** A source whose stat fails makes the handler panic, with nothing changed. */
  lemma {:induction false} SourceStatFailurePanics(cfg: Config, cwd: string, p: string, ext: string, fs: FileSystem, encode: Encoding)
    requires IsClean(p)
    requires IsExtensionOf("." + ext, p) && ext in cfg.allowedTypes
    requires cfg.imgPath + p in fs.statErrors
    ensures Handle(cfg, cwd, p, fs, encode) == Outcome(Panic(StatFailed(cfg.imgPath + p)), fs)
  {
    ExtensionOfRequest(cfg.imgPath, cwd, p, ext);
  }

  /** A source that can be stat'ed but an artifact whose stat fails makes the
      handler panic at the artifact's existence check, with nothing changed,
      whether or not the source exists. */
  lemma {:induction false} ArtifactStatFailurePanics(cfg: Config, cwd: string, p: string, ext: string, fs: FileSystem, encode: Encoding)
    requires IsClean(p)
    requires IsExtensionOf("." + ext, p) && ext in cfg.allowedTypes
    requires cfg.imgPath + p !in fs.statErrors
    requires Resolve(cfg.imgPath, cwd, p).artifact in fs.statErrors
    ensures var a := Resolve(cfg.imgPath, cwd, p).artifact;
      Handle(cfg, cwd, p, fs, encode) == Outcome(Panic(StatFailed(a)), fs)
  {
    ExtensionOfRequest(cfg.imgPath, cwd, p, ext);
  }

  /** A missing source answers 404 and leaves no artifact behind: a stale one
      is deleted, and nothing else on disk changes. */
  lemma {:induction false} MissingSourceEvicts(cfg: Config, cwd: string, p: string, ext: string, fs: FileSystem, encode: Encoding)
    requires IsClean(p)
    requires IsExtensionOf("." + ext, p) && ext in cfg.allowedTypes
    requires ImageExists(fs, cfg.imgPath + p) == Some(false)
    requires Resolve(cfg.imgPath, cwd, p).artifact !in fs.statErrors
    ensures var a := Resolve(cfg.imgPath, cwd, p).artifact;
            var out := Handle(cfg, cwd, p, fs, encode);
      && out.response == NotFound404
      && ImageExists(out.fs, a) == Some(false)
      && (ImageExists(fs, a) == Some(false) ==> out.fs == fs)
      && (ImageExists(fs, a) == Some(true) ==> out.fs == fs.(files := fs.files - {a}))
  {
    ExtensionOfRequest(cfg.imgPath, cwd, p, ext);
  }

  /** The cache-hit branch of the dispatch. */
  lemma {:induction false} DispatchHit(cfg: Config, r: Resolved, fs: FileSystem, encode: Encoding)
    requires r.ext.Some? && r.ext.value in cfg.allowedTypes
    requires ImageExists(fs, r.source) == Some(true)
    requires ImageExists(fs, r.artifact) == Some(true)
    ensures Dispatch(cfg, r, fs, encode) == Outcome(Serve(r.artifact), fs)
  {
  }

  /** The generate branch of the dispatch, when the directory can be made
      and the artifact written. */
  lemma {:induction false} DispatchGenerate(cfg: Config, r: Resolved, fs: FileSystem, encode: Encoding)
    requires r.ext.Some? && r.ext.value in cfg.allowedTypes
    requires Parent(r.artifact) == r.artifactDir && r.artifact != r.artifactDir
    requires ImageExists(fs, r.source) == Some(true)
    requires Stat(fs, r.artifact) == NotExist
    requires Stat(fs, r.artifactDir) in {NotExist, Directory}
    ensures var out := Dispatch(cfg, r, fs, encode);
      && out.response == Serve(r.artifact)
      && out.fs.dirs == fs.dirs + {r.artifactDir}
      && out.fs.files == fs.files[r.artifact := encode(SelectDecoder(r.source), fs.files[r.source])]
      && out.fs.statErrors == fs.statErrors
      && ReadFile(out.fs, r.artifact) == encode(SelectDecoder(r.source), ReadFile(fs, r.source))
  {
    var data := encode(SelectDecoder(r.source), fs.files[r.source]);
    assert Stat(Generate(fs, r, encode), r.artifact) == RegularFile;
    ReadAfterWrite(MkdirAll(fs, r.artifactDir), r.artifact, r.artifact, data);
  }

  /** The generate branch of the dispatch when a regular file blocks the
      artifact directory. */
  lemma {:induction false} DispatchGenerateBlocked(cfg: Config, r: Resolved, fs: FileSystem, encode: Encoding)
    requires r.ext.Some? && r.ext.value in cfg.allowedTypes
    requires Parent(r.artifact) == r.artifactDir
    requires ImageExists(fs, r.source) == Some(true)
    requires Stat(fs, r.artifact) == NotExist
    requires Stat(fs, r.artifactDir) == RegularFile
    ensures Dispatch(cfg, r, fs, encode) == Outcome(Serve(r.artifact), fs)
  {
    assert MkdirAll(fs, r.artifactDir) == fs;
    assert !CanWrite(fs, r.artifact);
  }

  /** Source and artifact both present: the artifact path is served and the
      disk is untouched, so the bytes served are those already there. */
  lemma {:induction false} CacheHit(cfg: Config, cwd: string, p: string, ext: string, fs: FileSystem, encode: Encoding)
    requires IsClean(p)
    requires IsExtensionOf("." + ext, p) && ext in cfg.allowedTypes
    requires ImageExists(fs, cfg.imgPath + p) == Some(true)
    requires ImageExists(fs, Resolve(cfg.imgPath, cwd, p).artifact) == Some(true)
    ensures Handle(cfg, cwd, p, fs, encode) == Outcome(Serve(Resolve(cfg.imgPath, cwd, p).artifact), fs)
  {
    ExtensionOfRequest(cfg.imgPath, cwd, p, ext);
    DispatchHit(cfg, Resolve(cfg.imgPath, cwd, p), fs, encode);
  }

  /** Source present, artifact absent and room for its directory: the
      directory and the artifact (holding whatever the encoder produced from
      the source's bytes) are added, the artifact path is served, and nothing
      else changes. */
  lemma {:induction false} GenerateOnMiss(cfg: Config, cwd: string, p: string, ext: string, fs: FileSystem, encode: Encoding)
    requires IsClean(p)
    requires IsExtensionOf("." + ext, p) && ext in cfg.allowedTypes
    requires ImageExists(fs, cfg.imgPath + p) == Some(true)
    requires Stat(fs, Resolve(cfg.imgPath, cwd, p).artifact) == NotExist
    requires Stat(fs, Resolve(cfg.imgPath, cwd, p).artifactDir) in {NotExist, Directory}
    ensures var r := Resolve(cfg.imgPath, cwd, p);
            var out := Handle(cfg, cwd, p, fs, encode);
      && out.response == Serve(r.artifact)
      && out.fs.dirs == fs.dirs + {r.artifactDir}
      && out.fs.files == fs.files[r.artifact := encode(SelectDecoder(r.source), fs.files[r.source])]
      && out.fs.statErrors == fs.statErrors
      && ReadFile(out.fs, r.artifact) == encode(SelectDecoder(r.source), ReadFile(fs, r.source))
  {
    ExtensionOfRequest(cfg.imgPath, cwd, p, ext);
    var r := Resolve(cfg.imgPath, cwd, p);
    assert r.artifact != r.artifactDir by {
      assert |Parent(r.artifact)| < |r.artifact|;
    }
    DispatchGenerate(cfg, r, fs, encode);
  }

  /** Where a regular file sits in place of the artifact directory, neither
      MkdirAll nor the write succeeds, and the handler still answers with the
      artifact path, which names no file. */
  lemma {:induction false} GenerateBlockedServesMissing(cfg: Config, cwd: string, p: string, ext: string, fs: FileSystem, encode: Encoding)
    requires IsClean(p)
    requires IsExtensionOf("." + ext, p) && ext in cfg.allowedTypes
    requires ImageExists(fs, cfg.imgPath + p) == Some(true)
    requires Stat(fs, Resolve(cfg.imgPath, cwd, p).artifact) == NotExist
    requires Stat(fs, Resolve(cfg.imgPath, cwd, p).artifactDir) == RegularFile
    ensures var a := Resolve(cfg.imgPath, cwd, p).artifact;
      && Handle(cfg, cwd, p, fs, encode) == Outcome(Serve(a), fs)
      && a !in fs.files
  {
    ExtensionOfRequest(cfg.imgPath, cwd, p, ext);
    DispatchGenerateBlocked(cfg, Resolve(cfg.imgPath, cwd, p), fs, encode);
  }

  /** Running the dispatch again on the filesystem it produced gives the same
      response and changes nothing more. */
  lemma {:induction false} DispatchIdempotent(cfg: Config, r: Resolved, fs: FileSystem, encode: Encoding)
    ensures var o1 := Dispatch(cfg, r, fs, encode);
      Dispatch(cfg, r, o1.fs, encode) == o1
  {
    var o1 := Dispatch(cfg, r, fs, encode);
    if r.ext.Some? && Find(cfg.allowedTypes, r.ext.value).1
       && ImageExists(fs, r.source).Some? && ImageExists(fs, r.artifact).Some?
    {
      var sourceExists := ImageExists(fs, r.source).value;
      var artifactExists := ImageExists(fs, r.artifact).value;
      if !sourceExists && artifactExists {
        assert r.source != r.artifact;
        assert o1.fs == Remove(fs, r.artifact);
        assert ImageExists(o1.fs, r.source) == Some(false);
      } else if sourceExists && !artifactExists {
        var fs1 := MkdirAll(fs, r.artifactDir);
        var data := encode(SelectDecoder(r.source), ReadFile(fs1, r.source));
        assert o1.fs == WriteFile(fs1, r.artifact, data);
        assert Stat(fs1, r.source) == RegularFile;
        if CanWrite(fs1, r.artifact) {
          assert r.source != r.artifact;
          assert ImageExists(o1.fs, r.source) == Some(true);
          assert ImageExists(o1.fs, r.artifact) == Some(true);
        } else {
          assert o1.fs == fs1;
          assert MkdirAll(fs1, r.artifactDir) == fs1;
          assert ReadFile(fs1, r.source) == ReadFile(fs, r.source);
          assert Generate(fs1, r, encode) == fs1;
        }
      }
    }
  }

  /** The same request twice in a row: the second finds the first's result on
      disk, answers the same and changes nothing (a miss is generated once,
      then hit; an evicted artifact stays gone). */
  lemma {:induction false} RequestIsIdempotent(cfg: Config, cwd: string, p: string, fs: FileSystem, encode: Encoding)
    requires IsClean(p)
    ensures var o1 := Handle(cfg, cwd, p, fs, encode);
      Handle(cfg, cwd, p, o1.fs, encode) == o1
  {
    DispatchIdempotent(cfg, Resolve(cfg.imgPath, cwd, p), fs, encode);
  }

  /** The request path can be read back from the artifact path, so distinct
      clean request paths never share an artifact. */
  lemma {:induction false} ArtifactPathsAreDistinct(imgPath: string, cwd: string, p1: string, p2: string)
    requires IsClean(p1) && IsClean(p2)
    ensures Resolve(imgPath, cwd, p1).artifact == Resolve(imgPath, cwd, p2).artifact ==> p1 == p2
  {
    var prefix := cwd + "/exhaust";
    var a1 := Resolve(imgPath, cwd, p1).artifact;
    var a2 := Resolve(imgPath, cwd, p2).artifact;
    var q1 := RequestOfArtifact(prefix, imgPath, cwd, p1);
    var q2 := RequestOfArtifact(prefix, imgPath, cwd, p2);
    if a1 == a2 {
      assert a1[|prefix|..|a1| - 5] == a2[|prefix|..|a2| - 5];
    }
  }

  /** The text of an artifact path between the cache root and ".webp" gives
      back the request path: it is the request path itself, or "/" before it
      for a root-level file, and a clean path never starts with "//". */
  lemma {:induction false} RequestOfArtifact(prefix: string, imgPath: string, cwd: string, p: string) returns (q: string)
    requires IsClean(p)
    requires prefix == cwd + "/exhaust"
    ensures var a := Resolve(imgPath, cwd, p).artifact;
      && |prefix| + 5 <= |a|
      && q == a[|prefix|..|a| - 5]
      && p == (if |q| >= 2 && q[1] == '/' then q[1..] else q)
  {
    var r := Resolve(imgPath, cwd, p);
    var lead := if r.dir == "/" then "/" else "";
    q := lead + p;
    ArtifactMiddle(prefix, lead, p);
  }

  /** The middle of `prefix + lead + p + ".webp"` is `lead + p`, from which
      the unshift rule recovers `p`. */
  lemma {:induction false} ArtifactMiddle(prefix: string, lead: string, p: string)
    requires IsClean(p)
    requires lead == "/" || lead == ""
    ensures var a := prefix + lead + p + ".webp";
      && |prefix| + 5 <= |a|
      && a[|prefix|..|a| - 5] == lead + p
      && p == (if |lead + p| >= 2 && (lead + p)[1] == '/' then (lead + p)[1..] else lead + p)
  {
    var q := lead + p;
    assert prefix + lead + p + ".webp" == prefix + q + ".webp";
    MiddleOfConcat(prefix, q, ".webp");
    UnshiftRequest(p, lead);
  }

  /** Dropping the extra '/' of a root-level artifact name, and only that. */
  lemma {:induction false} UnshiftRequest(p: string, lead: string)
    requires IsClean(p)
    requires lead == "/" || lead == ""
    ensures var q := lead + p;
      p == (if |q| >= 2 && q[1] == '/' then q[1..] else q)
  {
    CleanShape(p);
    var q := lead + p;
    if lead == "/" {
      assert q[1] == p[0];
      assert q[1..] == p;
    } else {
      assert q[1] == p[1];
    }
  }
}
