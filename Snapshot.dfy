/**
 * git_snapshot: serve a tree at a revision as an archive. The configured
 * compression format and the availability of the compressors decide the
 * content type, the file name extension and which compressor runs; the
 * archive is built and compressed only when the template cache misses.
 */
module Snapshot {
  import opened Php

  /**
   * The configured 'compressformat'. `Tar` stands for GITPHP_COMPRESS_TAR
   * and for every other configured value: all of them take the final branch.
   */
  datatype CompressFormat = Zip | Bz2 | Gz | Tar

  /** What the if/else chain on the format selects. */
  datatype Selection = Selection(contentType: string, extension: string, bzcompress: bool, gzencode: bool)

  /** The selection table of git_snapshot. */
  function SelectOutput(format: CompressFormat, hasBzcompress: bool, hasGzencode: bool): (s: Selection)
    ensures !(s.bzcompress && s.gzencode)
    ensures s.bzcompress <==> format == Bz2 && hasBzcompress
    ensures s.gzencode <==> format == Gz && hasGzencode
    ensures s.extension == ".zip" <==> format == Zip
    ensures s.contentType == "application/x-tar" <==> !(format == Zip || s.bzcompress || s.gzencode)
    ensures format == Zip ==> s.contentType == "application/x-zip" && s.extension == ".zip"
    ensures s.bzcompress ==> s.contentType == "application/x-bzip2" && s.extension == ".tar.bz2"
    ensures s.gzencode ==> s.contentType == "application/x-gzip" && s.extension == ".tar.gz"
    ensures !(format == Zip || s.bzcompress || s.gzencode) ==> s.extension == ".tar"
  {
    if format == Zip then Selection("application/x-zip", ".zip", false, false)
    else if format == Bz2 && hasBzcompress then Selection("application/x-bzip2", ".tar.bz2", true, false)
    else if format == Gz && hasGzencode then Selection("application/x-gzip", ".tar.gz", false, true)
    else Selection("application/x-tar", ".tar", false, false)
  }

  /** A requested compressor that is missing falls back to plain tar, with no compression. */
  lemma MissingCompressorFallsBackToTar(format: CompressFormat, hasBzcompress: bool, hasGzencode: bool)
    requires (format == Bz2 && !hasBzcompress) || (format == Gz && !hasGzencode)
    ensures SelectOutput(format, hasBzcompress, hasGzencode) == Selection("application/x-tar", ".tar", false, false)
  {
  }

  /** The container handed to git_archive. */
  function Container(format: CompressFormat): (c: string)
    ensures c == "zip" <==> format == Zip
    ensures c == "zip" || c == "tar"
  {
    if format == Zip then "zip" else "tar"
  }

  /** An unset hash means HEAD. */
  function DefaultHash(hash: Option<string>): (h: string)
    ensures hash.None? ==> h == "HEAD"
    ensures hash.Some? ==> h == hash.value
  {
    hash.GetOr("HEAD")
  }

  /** `str_replace(array("/", ".git"), array("-", ""), $project)`. */
  function RName(project: string): (r: string)
    ensures '/' !in r
  {
    var dashed := StrReplace(project, "/", "-");
    StrReplaceRemovesChar(project, '/', "-");
    StrReplaceDeleteKeepsChars(dashed, ".git", '/');
    StrReplace(dashed, ".git", "")
  }

  /**
   * For a repository directory `p.git` whose path has no other dot, the
   * name is `p` with every `/` turned into `-`.
   */
  lemma RNameOfRepositoryPath(p: string)
    requires '.' !in p
    ensures var r := RName(p + ".git");
      |r| == |p| && forall i :: 0 <= i < |p| ==> r[i] == (if p[i] == '/' then '-' else p[i])
  {
    StrReplaceCharAppend(p, ".git", '/', "-");
    assert StrReplace(".git", "/", "-") == ".git" by {
      StrReplaceCharPointwise(".git", '/', '-');
    }
    var dashed := StrReplace(p, "/", "-");
    StrReplaceCharPointwise(p, '/', '-');
    assert '.' !in dashed;
    StrReplaceDeletesSuffix(dashed, ".git");
  }

  /** Compression level: one 'compresslevel' setting, with a default per compressor. */
  function BzLevel(configured: Option<int>): (level: int)
    ensures configured.None? ==> level == 4
    ensures configured.Some? ==> level == configured.value
  {
    configured.GetOr(4)
  }

  function GzLevel(configured: Option<int>): (level: int)
    ensures configured.None? ==> level == -1
    ensures configured.Some? ==> level == configured.value
  {
    configured.GetOr(-1)
  }

  /** The configuration and the collaborators of git_snapshot, all opaque. */
  datatype SnapshotEnv = SnapshotEnv(
    format: CompressFormat,
    hasBzcompress: bool,                                  // function_exists("bzcompress")
    hasGzencode: bool,                                    // function_exists("gzencode")
    compressLevel: Option<int>,                           // the 'compresslevel' setting
    sha1: string -> string,
    isCached: string -> bool,                             // $tpl->is_cached('snapshot.tpl', key)
    gitArchive: (string, string, string, string) -> Bytes, // git_archive(path, hash, prefix, container)
    bzcompress: (Bytes, int) -> Bytes,
    gzencode: (Bytes, int) -> Bytes)

  /** The template cache key: project and hash, not the format. */
  function SnapshotCacheKey(env: SnapshotEnv, project: string, hash: string): (k: string)
    ensures var digest := env.sha1(project);
      |k| == |digest| + 1 + |hash| && k[..|digest|] == digest && k[|digest|] == '|' && k[|digest| + 1..] == hash
  {
    env.sha1(project) + "|" + hash
  }

  /** The archive handed to the template on a cache miss. */
  function BuildArchive(env: SnapshotEnv, projectroot: string, project: string, hash: string): (arc: Bytes)
    ensures var raw := env.gitArchive(projectroot + project, hash, RName(project), Container(env.format));
      && (env.format == Bz2 && env.hasBzcompress ==> arc == env.bzcompress(raw, BzLevel(env.compressLevel)))
      && (env.format == Gz && env.hasGzencode ==> arc == env.gzencode(raw, GzLevel(env.compressLevel)))
      && (!(env.format == Bz2 && env.hasBzcompress) && !(env.format == Gz && env.hasGzencode) ==> arc == raw)
  {
    var sel := SelectOutput(env.format, env.hasBzcompress, env.hasGzencode);
    var raw := env.gitArchive(projectroot + project, hash, RName(project), Container(env.format));
    if env.format == Bz2 && sel.bzcompress then env.bzcompress(raw, BzLevel(env.compressLevel))
    else if env.format == Gz && sel.gzencode then env.gzencode(raw, GzLevel(env.compressLevel))
    else raw
  }

  /** What git_snapshot sends: the two headers, the cache key it displays under, and the archive it assigns. */
  datatype SnapshotResponse = SnapshotResponse(
    contentType: string,
    disposition: string,
    cacheKey: string,
    archive: Option<Bytes>)

  /** The external calls git_snapshot makes. */
  datatype ArchiveCall =
    | GitArchive(path: string, hash: string, prefix: string, container: string)
    | BzCompress(level: int)
    | GzEncode(level: int)

  method GitSnapshot(env: SnapshotEnv, projectroot: string, project: string, hashArg: Option<string>)
    returns (resp: SnapshotResponse, ghost calls: seq<ArchiveCall>)
    ensures var hash := DefaultHash(hashArg);
      var sel := SelectOutput(env.format, env.hasBzcompress, env.hasGzencode);
      && resp.contentType == sel.contentType
      && resp.disposition == "attachment; filename=" + (RName(project) + sel.extension)
      && resp.cacheKey == SnapshotCacheKey(env, project, hash)
      && (resp.archive.None? <==> env.isCached(resp.cacheKey))
      && (resp.archive.Some? ==> resp.archive.value == BuildArchive(env, projectroot, project, hash))
    ensures env.isCached(resp.cacheKey) ==> calls == []
    ensures var sel := SelectOutput(env.format, env.hasBzcompress, env.hasGzencode);
      !env.isCached(resp.cacheKey) ==>
      calls == [GitArchive(projectroot + project, DefaultHash(hashArg), RName(project), Container(env.format))]
        + (if sel.bzcompress then [BzCompress(BzLevel(env.compressLevel))]
           else if sel.gzencode then [GzEncode(GzLevel(env.compressLevel))]
           else [])
  {
    var hash := if hashArg.None? then "HEAD" else hashArg.value;
    var cachekey := env.sha1(project) + "|" + hash;
    var rname := RName(project);
    var contentType, filename, bzcompress, gzencode := ChooseHeaders(env, rname);
    var archive := None;
    calls := [];
    if !env.isCached(cachekey) {
      var container := if env.format == Zip then "zip" else "tar";
      var arc := env.gitArchive(projectroot + project, hash, rname, container);
      ghost var compressions;
      arc, compressions := Compress(env, arc, bzcompress, gzencode);
      calls := [GitArchive(projectroot + project, hash, rname, container)] + compressions;
      archive := Some(arc);
    }
    resp := SnapshotResponse(contentType, "attachment; filename=" + filename, cachekey, archive);
  }

  /** The if-chain over the format: content type, file name and the compressor flags. */
  method ChooseHeaders(env: SnapshotEnv, rname: string)
    returns (contentType: string, filename: string, bzcompress: bool, gzencode: bool)
    ensures var sel := SelectOutput(env.format, env.hasBzcompress, env.hasGzencode);
      && contentType == sel.contentType && filename == rname + sel.extension
      && bzcompress == sel.bzcompress && gzencode == sel.gzencode
  {
    bzcompress, gzencode := false, false;
    if env.format == Zip {
      contentType, filename := "application/x-zip", rname + ".zip";
    } else if env.format == Bz2 && env.hasBzcompress {
      bzcompress := true;
      contentType, filename := "application/x-bzip2", rname + ".tar.bz2";
    } else if env.format == Gz && env.hasGzencode {
      gzencode := true;
      contentType, filename := "application/x-gzip", rname + ".tar.gz";
    } else {
      contentType, filename := "application/x-tar", rname + ".tar";
    }
  }

  /** The compression step on a fresh archive, with the calls it makes. */
  method Compress(env: SnapshotEnv, raw: Bytes, bzcompress: bool, gzencode: bool)
    returns (arc: Bytes, ghost calls: seq<ArchiveCall>)
    requires var sel := SelectOutput(env.format, env.hasBzcompress, env.hasGzencode);
      bzcompress == sel.bzcompress && gzencode == sel.gzencode
    ensures bzcompress ==> arc == env.bzcompress(raw, BzLevel(env.compressLevel)) && calls == [BzCompress(BzLevel(env.compressLevel))]
    ensures gzencode ==> arc == env.gzencode(raw, GzLevel(env.compressLevel)) && calls == [GzEncode(GzLevel(env.compressLevel))]
    ensures !bzcompress && !gzencode ==> arc == raw && calls == []
  {
    arc, calls := raw, [];
    if env.format == Bz2 && bzcompress {
      var level := BzLevel(env.compressLevel);
      arc := env.bzcompress(raw, level);
      calls := [BzCompress(level)];
    } else if env.format == Gz && gzencode {
      var level := GzLevel(env.compressLevel);
      arc := env.gzencode(raw, level);
      calls := [GzEncode(level)];
    }
  }

  /** Two requests that differ only in format share one cache entry. */
  lemma CacheKeyIgnoresFormat(env: SnapshotEnv, other: CompressFormat, project: string, hash: string)
    ensures SnapshotCacheKey(env, project, hash) == SnapshotCacheKey(env.(format := other), project, hash)
  {
  }
}
