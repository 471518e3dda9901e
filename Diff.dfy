/**
 * git_diff: write each side of a diff to a temporary file named after the
 * process id, run the configured diff program on the two files (or on
 * /dev/null for a missing side), delete the temporary files and return
 * the program's output.
 */
module Diff {
  import opened Php

  const DEV_NULL := "/dev/null"

  /** The two operands of the diff. */
  datatype Side = From | To

  function Suffix(side: Side): string {
    match side
    case From => "_from"
    case To => "_to"
  }

  /** A change the function makes to the file system. */
  datatype FsOp = Wrote(path: string) | Unlinked(path: string)

  /** The file system the temporary files live in, with a log of what was done to it. */
  class FileSystem {
    var files: map<string, Bytes>
    ghost var ops: seq<FsOp>

    constructor (initial: map<string, Bytes>)
      ensures files == initial && ops == []
    {
      files := initial;
      ops := [];
    }

    /** Create or overwrite a file. */
    method Write(path: string, content: Bytes)
      modifies this
      ensures files == old(files)[path := content]
      ensures ops == old(ops) + [Wrote(path)]
    {
      files := files[path := content];
      ops := ops + [Wrote(path)];
    }

    /** `unlink($path)`; a missing file is left missing. */
    method Unlink(path: string)
      modifies this
      ensures files == old(files) - {path}
      ensures ops == old(ops) + [Unlinked(path)]
    {
      files := files - {path};
      ops := ops + [Unlinked(path)];
    }
  }

  /**
   * The configuration and collaborators of git_diff. `pid` is what
   * `posix_getpid()` (or, without it, `rand()`) returned; `catFile` is the
   * content git_cat_file writes for an object; `shellExec` runs a command
   * line against the files present and yields its output, or None for
   * PHP's null.
   */
  datatype DiffConfig = DiffConfig(
    pid: nat,
    gittmp: Option<string>,
    diffbin: Option<string>,
    catFile: (string, string) -> Bytes,
    shellExec: (string, map<string, Bytes>) -> Option<string>)

  /** The `gittmp` setting, or /tmp/gitphp/ when it is not set. */
  function TmpDir(cfg: DiffConfig): (d: string)
    ensures cfg.gittmp.Some? ==> d == cfg.gittmp.value
    ensures cfg.gittmp.None? ==> d == "/tmp/gitphp/"
  {
    cfg.gittmp.GetOr("/tmp/gitphp/")
  }

  /** The `diffbin` setting, or `diff` when it is not set. */
  function DiffBin(cfg: DiffConfig): (b: string)
    ensures cfg.diffbin.Some? ==> b == cfg.diffbin.value
    ensures cfg.diffbin.None? ==> b == "diff"
  {
    cfg.diffbin.GetOr("diff")
  }

  /** `$tmpdir . "gitphp_" . $pid . "_from"` (or `"_to"`). */
  function TempPath(tmpdir: string, pid: nat, side: Side): string {
    tmpdir + "gitphp_" + NatToString(pid) + Suffix(side)
  }

  /** A temporary path is the directory, then `gitphp_`, the pid and the side's suffix. */
  lemma TempPathShape(tmpdir: string, pid: nat, side: Side)
    ensures var p := TempPath(tmpdir, pid, side);
      && |p| > |tmpdir| + 7 + |Suffix(side)|
      && p[..|tmpdir|] == tmpdir
      && p[|tmpdir|..|tmpdir| + 7] == "gitphp_"
      && p[|tmpdir| + 7..|p| - |Suffix(side)|] == NatToString(pid)
      && p[|p| - |Suffix(side)|..] == Suffix(side)
  {
    var p := TempPath(tmpdir, pid, side);
    assert p == tmpdir + "gitphp_" + NatToString(pid) + Suffix(side);
  }

  /** The file the diff program reads for one side: the temporary file, or /dev/null when the side is unset. */
  function Operand(tmpdir: string, pid: nat, side: Side, present: bool): (o: string)
    ensures present ==> o == TempPath(tmpdir, pid, side)
    ensures !present ==> o == DEV_NULL
  {
    if present then TempPath(tmpdir, pid, side) else DEV_NULL
  }

  /** The command line handed to `shell_exec`. */
  function DiffCommand(diffbin: string, fromName: string, toName: string, fromTmp: string, toTmp: string): string {
    diffbin + " -u -p -L '" + fromName + "' -L '" + toName + "' " + fromTmp + " " + toTmp
  }

  /** The command starts with the program and its options and ends with the two operands. */
  lemma DiffCommandShape(diffbin: string, fromName: string, toName: string, fromTmp: string, toTmp: string)
    ensures var c := DiffCommand(diffbin, fromName, toName, fromTmp, toTmp);
      && |c| >= |diffbin| + 11 + |fromTmp| + 2 + |toTmp|
      && c[..|diffbin|] == diffbin
      && c[|diffbin|..|diffbin| + 11] == " -u -p -L '"
      && c[|c| - |toTmp| - |fromTmp| - 2..] == " " + fromTmp + " " + toTmp
  {
    var c := DiffCommand(diffbin, fromName, toName, fromTmp, toTmp);
    var head := diffbin + " -u -p -L '" + fromName + "' -L '" + toName + "'";
    var tail := " " + fromTmp + " " + toTmp;
    assert c == head + tail;
    assert c[|c| - |tail|..] == tail;
  }

  /** The temporary files created, in the order they are written. */
  function TempFiles(tmpdir: string, pid: nat, hasFrom: bool, hasTo: bool): seq<string> {
    (if hasFrom then [TempPath(tmpdir, pid, From)] else [])
      + (if hasTo then [TempPath(tmpdir, pid, To)] else [])
  }

  /** The files as the diff program sees them: the user's files plus the temporary ones. */
  function DiffInputs(before: map<string, Bytes>, cfg: DiffConfig, proj: string, from: Option<string>, to: Option<string>): map<string, Bytes> {
    var tmpdir := TmpDir(cfg);
    var afterFrom := if from.Some? then before[TempPath(tmpdir, cfg.pid, From) := cfg.catFile(proj, from.value)] else before;
    if to.Some? then afterFrom[TempPath(tmpdir, cfg.pid, To) := cfg.catFile(proj, to.value)] else afterFrom
  }

  function WriteOps(paths: seq<string>): (ops: seq<FsOp>)
    ensures |ops| == |paths| && forall i :: 0 <= i < |paths| ==> ops[i] == Wrote(paths[i])
  {
    if paths == [] then [] else [Wrote(paths[0])] + WriteOps(paths[1..])
  }

  function UnlinkOps(paths: seq<string>): (ops: seq<FsOp>)
    ensures |ops| == |paths| && forall i :: 0 <= i < |paths| ==> ops[i] == Unlinked(paths[i])
  {
    if paths == [] then [] else [Unlinked(paths[0])] + UnlinkOps(paths[1..])
  }

  /**
   * git_diff. The file system ends as it began, less the temporary paths;
   * the diff program runs on the file system holding both sides; the log
   * shows every temporary file written, then every one unlinked.
   */
  method GitDiff(fs: FileSystem, cfg: DiffConfig, proj: string,
                 from: Option<string>, fromName: string, to: Option<string>, toName: string)
    returns (out: Option<string>)
    modifies fs
    ensures var tmpdir := TmpDir(cfg);
      out == cfg.shellExec(
        DiffCommand(DiffBin(cfg), fromName, toName,
          Operand(tmpdir, cfg.pid, From, from.Some?), Operand(tmpdir, cfg.pid, To, to.Some?)),
        DiffInputs(old(fs.files), cfg, proj, from, to))
    ensures fs.files == old(fs.files) - (set p | p in TempFiles(TmpDir(cfg), cfg.pid, from.Some?, to.Some?))
    ensures (forall p :: p in TempFiles(TmpDir(cfg), cfg.pid, from.Some?, to.Some?) ==> p !in old(fs.files)) ==>
      fs.files == old(fs.files)
    ensures var temps := TempFiles(TmpDir(cfg), cfg.pid, from.Some?, to.Some?);
      fs.ops == old(fs.ops) + WriteOps(temps) + UnlinkOps(temps)
  {
    ghost var before, ops0 := fs.files, fs.ops;
    var pid := cfg.pid;
    var tmpdir := if cfg.gittmp.Some? then cfg.gittmp.value else "/tmp/gitphp/";
    assert tmpdir == TmpDir(cfg);
    var fromTmp := WriteSide(fs, tmpdir, pid, From, proj, from, cfg.catFile);
    var toTmp := WriteSide(fs, tmpdir, pid, To, proj, to, cfg.catFile);
    assert fs.files == DiffInputs(before, cfg, proj, from, to);
    var diffbin := if cfg.diffbin.Some? then cfg.diffbin.value else "diff";
    out := cfg.shellExec(DiffCommand(diffbin, fromName, toName, fromTmp, toTmp), fs.files);
    UnlinkSide(fs, fromTmp, from.Some?);
    UnlinkSide(fs, toTmp, to.Some?);
    CleanupRemovesTemps(before, cfg, proj, from, to);
    LogOfTempFiles(ops0, tmpdir, pid, from.Some?, to.Some?);
    ghost var temps := TempFiles(tmpdir, pid, from.Some?, to.Some?);
    if forall p :: p in temps ==> p !in before {
      RemoveAbsent(before, temps);
    }
  }

  /** Removing keys the map does not hold leaves it as it was. */
  lemma RemoveAbsent(m: map<string, Bytes>, keys: seq<string>)
    requires forall p :: p in keys ==> p !in m
    ensures m - (set p | p in keys) == m
  {
  }

  /**
   * One `if (isset($x)) { $x_tmp = ...; git_cat_file(...); }` block: the
   * side's operand, with the object's content written to it when the side is set.
   */
  method WriteSide(fs: FileSystem, tmpdir: string, pid: nat, side: Side, proj: string,
                   obj: Option<string>, catFile: (string, string) -> Bytes)
    returns (path: string)
    modifies fs
    ensures path == Operand(tmpdir, pid, side, obj.Some?)
    ensures fs.files == if obj.Some? then old(fs.files)[path := catFile(proj, obj.value)] else old(fs.files)
    ensures fs.ops == old(fs.ops) + (if obj.Some? then [Wrote(path)] else [])
  {
    path := DEV_NULL;
    if obj.Some? {
      path := TempPath(tmpdir, pid, side);
      fs.Write(path, catFile(proj, obj.value));
    }
  }

  /** One `if (isset($x)) unlink($x_tmp);` line. */
  method UnlinkSide(fs: FileSystem, path: string, present: bool)
    modifies fs
    ensures fs.files == if present then old(fs.files) - {path} else old(fs.files)
    ensures fs.ops == old(fs.ops) + (if present then [Unlinked(path)] else [])
  {
    if present {
      fs.Unlink(path);
    }
  }

  /** Removing the temporary files after writing them leaves the original files less the temporary paths. */
  lemma CleanupRemovesTemps(before: map<string, Bytes>, cfg: DiffConfig, proj: string, from: Option<string>, to: Option<string>)
    ensures var tmpdir := TmpDir(cfg);
      var inputs := DiffInputs(before, cfg, proj, from, to);
      var afterFrom := if from.Some? then inputs - {TempPath(tmpdir, cfg.pid, From)} else inputs;
      var afterTo := if to.Some? then afterFrom - {TempPath(tmpdir, cfg.pid, To)} else afterFrom;
      afterTo == before - (set p | p in TempFiles(tmpdir, cfg.pid, from.Some?, to.Some?))
  {
    TempPathsDistinct(TmpDir(cfg), cfg.pid, cfg.pid);
  }

  /** The log git_diff leaves: each side's write, then each side's unlink. */
  lemma LogOfTempFiles(ops0: seq<FsOp>, tmpdir: string, pid: nat, hasFrom: bool, hasTo: bool)
    ensures var f, t := TempPath(tmpdir, pid, From), TempPath(tmpdir, pid, To);
      var temps := TempFiles(tmpdir, pid, hasFrom, hasTo);
      ops0 + (if hasFrom then [Wrote(f)] else []) + (if hasTo then [Wrote(t)] else [])
        + (if hasFrom then [Unlinked(f)] else []) + (if hasTo then [Unlinked(t)] else [])
      == ops0 + WriteOps(temps) + UnlinkOps(temps)
  {
  }

  /** The temporary paths of the two sides never coincide, whatever the two pids. */
  lemma TempPathsDistinct(tmpdir: string, p: nat, q: nat)
    ensures TempPath(tmpdir, p, From) != TempPath(tmpdir, q, To)
  {
    var a := TempPath(tmpdir, p, From);
    var b := TempPath(tmpdir, q, To);
    assert a[|a| - 1] == 'm';
    assert b[|b| - 1] == 'o';
  }

  /** No temporary path is /dev/null. */
  lemma TempPathNotDevNull(tmpdir: string, pid: nat, side: Side)
    ensures TempPath(tmpdir, pid, side) != DEV_NULL
  {
    var a := TempPath(tmpdir, pid, side);
    assert a[|a| - 1] != DEV_NULL[|DEV_NULL| - 1];
  }

  /** A side is read from /dev/null exactly when it is unset. */
  lemma OperandIsDevNull(tmpdir: string, pid: nat, side: Side, present: bool)
    ensures Operand(tmpdir, pid, side, present) == DEV_NULL <==> !present
  {
    TempPathNotDevNull(tmpdir, pid, side);
  }

  /** Processes with different ids use different temporary files. */
  lemma TempPathInjective(tmpdir: string, p: nat, q: nat, side: Side)
    requires TempPath(tmpdir, p, side) == TempPath(tmpdir, q, side)
    ensures p == q
  {
    var head := tmpdir + "gitphp_";
    var np, nq := NatToString(p), NatToString(q);
    var a, b := head + np + Suffix(side), head + nq + Suffix(side);
    assert |np| == |nq|;
    assert a[|head|..|head| + |np|] == np;
    assert b[|head|..|head| + |nq|] == nq;
    NatToStringInjective(p, q);
  }

  /** The temporary files are distinct, are never /dev/null, and there is one per side given. */
  lemma TempFilesShape(tmpdir: string, pid: nat, hasFrom: bool, hasTo: bool)
    ensures var t := TempFiles(tmpdir, pid, hasFrom, hasTo);
      && |t| == (if hasFrom then 1 else 0) + (if hasTo then 1 else 0)
      && DEV_NULL !in t
      && (forall i, j :: 0 <= i < j < |t| ==> t[i] != t[j])
      && (TempPath(tmpdir, pid, From) in t <==> hasFrom)
      && (TempPath(tmpdir, pid, To) in t <==> hasTo)
  {
    TempPathsDistinct(tmpdir, pid, pid);
    TempPathNotDevNull(tmpdir, pid, From);
    TempPathNotDevNull(tmpdir, pid, To);
  }

  /** The diff program finds each given side's content in that side's operand. */
  lemma DiffSeesBothSides(before: map<string, Bytes>, cfg: DiffConfig, proj: string, from: Option<string>, to: Option<string>)
    ensures var inputs := DiffInputs(before, cfg, proj, from, to);
      var tmpdir := TmpDir(cfg);
      && (from.Some? ==>
            Operand(tmpdir, cfg.pid, From, true) in inputs
            && inputs[Operand(tmpdir, cfg.pid, From, true)] == cfg.catFile(proj, from.value))
      && (to.Some? ==>
            Operand(tmpdir, cfg.pid, To, true) in inputs
            && inputs[Operand(tmpdir, cfg.pid, To, true)] == cfg.catFile(proj, to.value))
  {
    TempPathsDistinct(TmpDir(cfg), cfg.pid, cfg.pid);
  }

  /** Every file other than the temporary ones reaches the diff program unchanged. */
  lemma DiffInputsKeepOtherFiles(before: map<string, Bytes>, cfg: DiffConfig, proj: string, from: Option<string>, to: Option<string>, path: string)
    requires path !in TempFiles(TmpDir(cfg), cfg.pid, from.Some?, to.Some?)
    ensures var inputs := DiffInputs(before, cfg, proj, from, to);
      (path in inputs <==> path in before) && (path in before ==> inputs[path] == before[path])
  {
  }

  /** A path is in the unlink log exactly when it is in the write log: exactly the temporary paths. */
  lemma {:induction false} UnlinksMatchWrites(paths: seq<string>, path: string)
    ensures Wrote(path) in WriteOps(paths) <==> path in paths
    ensures Unlinked(path) in UnlinkOps(paths) <==> path in paths
  {
    var w, u := WriteOps(paths), UnlinkOps(paths);
    if path in paths {
      var i :| 0 <= i < |paths| && paths[i] == path;
      assert w[i] == Wrote(path);
      assert u[i] == Unlinked(path);
    }
    if Wrote(path) in w {
      var i :| 0 <= i < |w| && w[i] == Wrote(path);
      assert paths[i] == path;
    }
    if Unlinked(path) in u {
      var i :| 0 <= i < |u| && u[i] == Unlinked(path);
      assert paths[i] == path;
    }
  }

  /** The diff program receives the two operands as its last two arguments when neither holds a space. */
  lemma DiffCommandEndsWithOperands(diffbin: string, fromName: string, toName: string, fromTmp: string, toTmp: string)
    requires ' ' !in fromTmp && ' ' !in toTmp
    ensures var words := Explode(DiffCommand(diffbin, fromName, toName, fromTmp, toTmp), ' ');
      |words| >= 3 && words[|words| - 2] == fromTmp && words[|words| - 1] == toTmp
  {
    var head := diffbin + " -u -p -L '" + fromName + "' -L '" + toName + "'";
    assert DiffCommand(diffbin, fromName, toName, fromTmp, toTmp) == head + [' '] + (fromTmp + [' '] + toTmp);
    ExplodeLastTwo(head, fromTmp, toTmp, ' ');
  }

  /** The last two pieces of a text ending in two separator-free words are those words. */
  lemma ExplodeLastTwo<T>(head: seq<T>, x: seq<T>, y: seq<T>, sep: T)
    requires sep !in x && sep !in y
    ensures var words := Explode(head + [sep] + (x + [sep] + y), sep);
      |words| >= 3 && words[|words| - 2] == x && words[|words| - 1] == y
  {
    ExplodeTwoWords(x, y, sep);
    ExplodeJoin(head, x + [sep] + y, sep);
    LastTwo(Explode(head, sep), x, y);
  }

  /** Two separator-free words joined by the separator explode into those words. */
  lemma ExplodeTwoWords<T>(x: seq<T>, y: seq<T>, sep: T)
    requires sep !in x && sep !in y
    ensures Explode(x + [sep] + y, sep) == [x, y]
  {
    ExplodeJoin(x, y, sep);
    ExplodeNoSeparator(x, sep);
    ExplodeNoSeparator(y, sep);
    assert [x] + [y] == [x, y];
  }

  lemma LastTwo<U>(w: seq<U>, x: U, y: U)
    ensures var v := w + [x, y];
      |v| == |w| + 2 && v[|v| - 2] == x && v[|v| - 1] == y
  {
  }
}
