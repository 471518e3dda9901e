/**
 * GitPHP_Blob: a blob of a project, read lazily from one of two backends
 * (the `git cat-file` subprocess in compat mode, the project's object loader
 * otherwise), written into the object cache on every read, and classified:
 * size, binary test, file kind from a mode, MIME type from a chain of three
 * strategies.
 */
module Blob {
  import opened Php

  // ---------------------------------------------------------------------
  // File kind from an octal mode string (GitPHP_Blob::FileType)
  // ---------------------------------------------------------------------

  /** `octdec($s)`: the octal digits of `s`, any other character ignored. */
  function OctDec(s: string): nat {
    if s == [] then 0
    else
      var init := OctDec(s[..|s| - 1]);
      var c := s[|s| - 1];
      if '0' <= c <= '7' then init * 8 + (c as int - '0' as int) else init
  }

  /** `octdec` skips a character that is not an octal digit, wherever it stands. */
  lemma {:induction false} OctDecSkipsNonOctal(s: string, c: char, t: string)
    requires !('0' <= c <= '7')
    ensures OctDec(s + [c] + t) == OctDec(s + t)
    decreases |t|
  {
    if t == [] {
      assert s + [c] + t == s + [c];
      assert (s + [c])[..|s|] == s;
      assert s + t == s;
    } else {
      var t0, d := t[..|t| - 1], t[|t| - 1];
      assert t == t0 + [d];
      OctDecSkipsNonOctal(s, c, t0);
      assert s + [c] + t == (s + [c] + t0) + [d];
      assert (s + [c] + t)[..|s + [c] + t| - 1] == s + [c] + t0;
      assert s + t == (s + t0) + [d];
      assert (s + t)[..|s + t| - 1] == s + t0;
    }
  }

  function Pow2(k: nat): (p: nat)
    ensures p >= 1
  {
    if k == 0 then 1 else 2 * Pow2(k - 1)
  }

  /** `m >> k`. */
  function ShiftRight(m: nat, k: nat): nat {
    if k == 0 then m else ShiftRight(m / 2, k - 1)
  }

  /** Bit `k` of `m` is set. */
  predicate Bit(m: nat, k: nat) {
    ShiftRight(m, k) % 2 == 1
  }

  /** `(m & mask) == mask`: every bit of `mask` is set in `m`. */
  predicate HasBits(m: nat, mask: nat)
    decreases mask
  {
    mask == 0 || ((mask % 2 == 1 ==> m % 2 == 1) && HasBits(m / 2, mask / 2))
  }

  /** `FileType($octMode)` without localisation. */
  function FileType(octMode: string): (t: string)
    ensures t == "directory" || t == "symlink" || t == "file" || t == "unknown"
  {
    var mode := OctDec(octMode);
    if HasBits(mode, 0x4000) then "directory"
    else if HasBits(mode, 0xA000) then "symlink"
    else if HasBits(mode, 0x8000) then "file"
    else "unknown"
  }

  lemma {:induction false} ShiftRightAdd(m: nat, a: nat, b: nat)
    ensures ShiftRight(m, a + b) == ShiftRight(ShiftRight(m, a), b)
    decreases a
  {
    if a > 0 {
      ShiftRightAdd(m / 2, a - 1, b);
    }
  }

  /** Testing a mask shifted left by `k` is testing the mask against `m >> k`. */
  lemma {:induction false} HasBitsShift(m: nat, mask: nat, k: nat)
    ensures HasBits(m, mask * Pow2(k)) == HasBits(ShiftRight(m, k), mask)
    decreases k
  {
    if k > 0 {
      var x := mask * Pow2(k - 1);
      assert mask * Pow2(k) == 2 * x;
      HasBitsShift(m / 2, mask, k - 1);
      if x == 0 {
        assert mask == 0;
      } else {
        assert (2 * x) / 2 == x && (2 * x) % 2 == 0;
      }
    }
  }

  /**
   * The kind follows the bits 14 (0x4000), 15 (0x8000) and 13 (0x2000) of
   * the decoded mode, with directory before symlink before file.
   */
  lemma FileTypeByBits(octMode: string)
    ensures var m := OctDec(octMode);
      && (FileType(octMode) == "directory" <==> Bit(m, 14))
      && (FileType(octMode) == "symlink" <==> !Bit(m, 14) && Bit(m, 15) && Bit(m, 13))
      && (FileType(octMode) == "file" <==> !Bit(m, 14) && Bit(m, 15) && !Bit(m, 13))
      && (FileType(octMode) == "unknown" <==> !Bit(m, 14) && !Bit(m, 15))
  {
    var m := OctDec(octMode);
    assert Pow2(13) == 0x2000;
    assert Pow2(14) == 0x4000;
    assert Pow2(15) == 0x8000;
    HasBitsShift(m, 1, 14);
    HasBitsShift(m, 1, 15);
    HasBitsShift(m, 5, 13);
    var r := ShiftRight(m, 13);
    assert HasBits(r, 5) == (r % 2 == 1 && (r / 2 / 2) % 2 == 1);
    ShiftRightAdd(m, 13, 2);
    assert ShiftRight(r, 2) == ShiftRight(r / 2, 1) == ShiftRight(r / 2 / 2, 0);
    assert ShiftRight(m, 15) == r / 2 / 2;
    assert HasBits(ShiftRight(m, 14), 1) == Bit(m, 14);
    assert HasBits(ShiftRight(m, 15), 1) == Bit(m, 15);
  }

  /** A tree entry (040000) is a directory. */
  lemma FileTypeOfTreeMode()
    ensures FileType("040000") == "directory"
  {
    assert "040000"[..5] == "04000";
    assert "04000"[..4] == "0400";
    assert "0400"[..3] == "040";
    assert "040"[..2] == "04";
    assert "04"[..1] == "0";
    assert "0"[..0] == "";
    assert OctDec("040000") == 16384;
    assert ShiftRight(16384, 13) == 2;
    ShiftRightAdd(16384, 13, 1);
    ShiftRightAdd(16384, 13, 2);
    assert ShiftRight(2, 1) == 1 && ShiftRight(2, 2) == 0;
    FileTypeByBits("040000");
  }

  /** A gitlink (160000) has bit 14 set and so reads as a directory. */
  lemma FileTypeOfGitlinkMode()
    ensures FileType("160000") == "directory"
  {
    assert "160000"[..5] == "16000";
    assert "16000"[..4] == "1600";
    assert "1600"[..3] == "160";
    assert "160"[..2] == "16";
    assert "16"[..1] == "1";
    assert "1"[..0] == "";
    assert OctDec("160000") == 57344;
    assert ShiftRight(57344, 13) == 7;
    ShiftRightAdd(57344, 13, 1);
    ShiftRightAdd(57344, 13, 2);
    assert ShiftRight(7, 1) == 3 && ShiftRight(7, 2) == 1;
    FileTypeByBits("160000");
  }

  /** A symbolic link (120000). */
  lemma FileTypeOfSymlinkMode()
    ensures FileType("120000") == "symlink"
  {
    assert "120000"[..5] == "12000";
    assert "12000"[..4] == "1200";
    assert "1200"[..3] == "120";
    assert "120"[..2] == "12";
    assert "12"[..1] == "1";
    assert "1"[..0] == "";
    assert OctDec("120000") == 40960;
    assert ShiftRight(40960, 13) == 5;
    ShiftRightAdd(40960, 13, 1);
    ShiftRightAdd(40960, 13, 2);
    assert ShiftRight(5, 1) == 2 && ShiftRight(5, 2) == 1;
    FileTypeByBits("120000");
  }

  /** A regular file (100644). */
  lemma FileTypeOfRegularMode()
    ensures FileType("100644") == "file"
  {
    assert "100644"[..5] == "10064";
    assert "10064"[..4] == "1006";
    assert "1006"[..3] == "100";
    assert "100"[..2] == "10";
    assert "10"[..1] == "1";
    assert "1"[..0] == "";
    assert OctDec("100644") == 33188;
    assert ShiftRight(33188, 13) == 4;
    ShiftRightAdd(33188, 13, 1);
    ShiftRightAdd(33188, 13, 2);
    assert ShiftRight(4, 1) == 2 && ShiftRight(4, 2) == 1;
    FileTypeByBits("100644");
  }

  // ---------------------------------------------------------------------
  // Cache key (GitPHP_Blob::CacheKey)
  // ---------------------------------------------------------------------

  function CacheKey(proj: string, hash: string): (k: string)
    ensures |k| == 14 + |proj| + |hash|
    ensures k[..8] == "project|" && k[|k| - |hash|..] == hash
    ensures k[8..8 + |proj|] == proj && k[8 + |proj|..14 + |proj|] == "|blob|"
  {
    "project|" + proj + "|blob|" + hash
  }

  /** Reads a blob cache key back into its project and hash. */
  function ParseCacheKey(key: string): Option<(string, string)> {
    if |key| < 8 || key[..8] != "project|" then None
    else
      var rest := key[8..];
      match StrPos(rest, '|')
      case None => None
      case Some(i) =>
        if |rest| - i >= 6 && rest[i..i + 6] == "|blob|" then Some((rest[..i], rest[i + 6..]))
        else None
  }

  /** For a project path without `|`, the key determines project and hash. */
  lemma CacheKeyRoundTrip(proj: string, hash: string)
    requires '|' !in proj
    ensures ParseCacheKey(CacheKey(proj, hash)) == Some((proj, hash))
  {
    var key := CacheKey(proj, hash);
    assert key[..8] == "project|";
    var rest := key[8..];
    assert rest == proj + "|blob|" + hash;
    assert rest[|proj|] == '|';
    assert forall j :: 0 <= j < |proj| ==> rest[j] == proj[j];
    assert StrPos(rest, '|') == Some(|proj|);
    assert rest[|proj|..|proj| + 6] == "|blob|";
    assert rest[..|proj|] == proj;
    assert rest[|proj| + 6..] == hash;
  }

  lemma CacheKeyInjective(p1: string, h1: string, p2: string, h2: string)
    requires '|' !in p1 && '|' !in p2
    requires CacheKey(p1, h1) == CacheKey(p2, h2)
    ensures p1 == p2 && h1 == h2
  {
    CacheKeyRoundTrip(p1, h1);
    CacheKeyRoundTrip(p2, h2);
  }

  /** Without that condition keys collide: the format does not escape `|`. */
  lemma CacheKeyCollision()
    ensures CacheKey("a|blob|b", "c") == CacheKey("a", "b|blob|c")
  {
  }

  // ---------------------------------------------------------------------
  // Binary test (the pure part of GitPHP_Blob::IsBinary)
  // ---------------------------------------------------------------------

  const BINARY_PREFIX := 8000

  /** `strlen($d) > 8000 ? substr($d, 0, 8000) : $d`. */
  function Prefix(d: Bytes, n: nat): (p: Bytes)
    ensures |p| == if |d| > n then n else |d|
    ensures forall i :: 0 <= i < |p| ==> p[i] == d[i]
  {
    if |d| > n then d[..n] else d
  }

  /** `strpos($prefix, chr(0)) !== false`. */
  function HasNulInPrefix(d: Bytes): (b: bool)
    ensures b <==> exists i :: 0 <= i < |d| && i < BINARY_PREFIX && d[i] == NUL
  {
    var p := Prefix(d, BINARY_PREFIX);
    var r := StrPos(p, NUL);
    assert r.None? ==> forall i :: 0 <= i < |d| && i < BINARY_PREFIX ==> p[i] != NUL;
    r.Some?
  }

  /** Bytes from index 8000 on never change the verdict. */
  lemma BinaryIgnoresTail(d: Bytes, tail: Bytes)
    requires |d| >= BINARY_PREFIX
    ensures HasNulInPrefix(d + tail) == HasNulInPrefix(d)
  {
    assert forall i :: 0 <= i < BINARY_PREFIX ==> (d + tail)[i] == d[i];
  }

  // ---------------------------------------------------------------------
  // MIME strategies (pure parts of FileMime and FileMime_*)
  // ---------------------------------------------------------------------

  /** The environment the MIME strategies run in; the tools are opaque. */
  datatype MimeTools = MimeTools(
    hasFinfo: bool,                             // function_exists('finfo_buffer')
    isWindows: bool,                            // GitPHP_Util::IsWindows()
    magicdb: Option<string>,                    // the 'magicdb' configuration value
    finfo: (string, Bytes) -> Option<string>,  // finfo_open with the db, then finfo_buffer; None for failure
    fileCommand: Bytes -> Option<string>)      // output of `file -b --mime -`; None when it cannot start

  /** The signature database passed to finfo_open. */
  function MagicDb(configured: Option<string>, isWindows: bool): (db: string)
    ensures !Empty(db)
    ensures configured.Some? && !Empty(configured.value) ==> db == configured.value
    ensures !(configured.Some? && !Empty(configured.value)) ==>
      db == if isWindows then "C:\\wamp\\php\\extras\\magic" else "/usr/share/misc/magic"
  {
    if configured.Some? && !Empty(configured.value) then configured.value
    else if isWindows then "C:\\wamp\\php\\extras\\magic"
    else "/usr/share/misc/magic"
  }

  /** `if (strpos($mime, ';')) $mime = strtok($mime, ';');` */
  function CutParameters(mime: string): (r: string)
    ensures r <= mime
    ensures FoundAfterStart(mime, ';') ==> ';' !in r && r == mime[..StrPos(mime, ';').value]
    ensures !FoundAfterStart(mime, ';') ==> r == mime
  {
    if FoundAfterStart(mime, ';') then
      StrTokCutsAtFirst(mime, ';');
      StrTokOrEmpty(mime, ';')
    else mime
  }

  /** What FileMime_Fileinfo returns for the output of finfo. */
  function FromFinfo(out: Option<string>): (r: string)
    ensures out.None? ==> r == ""
    ensures out.Some? ==> r <= out.value
    ensures out.Some? && !(Truthy(out.value) && FoundAfterStart(out.value, '/')) ==> r == out.value
    ensures out.Some? && Truthy(out.value) && FoundAfterStart(out.value, '/') ==> r == CutParameters(out.value)
  {
    match out
    case None => ""
    case Some(m) => if Truthy(m) && FoundAfterStart(m, '/') then CutParameters(m) else m
  }

  /** What FileMime_File returns for the output of the `file` command. */
  function FromFileCommand(out: Option<string>): (r: string)
    ensures r != "" ==> out.Some? && Truthy(out.value) && FoundAfterStart(out.value, '/')
    ensures r != "" ==> r <= out.value && (FoundAfterStart(out.value, ';') ==> ';' !in r)
    ensures out.Some? && Truthy(out.value) && FoundAfterStart(out.value, '/') ==> r == CutParameters(out.value)
  {
    match out
    case None => ""
    case Some(m) => if Truthy(m) && FoundAfterStart(m, '/') then CutParameters(m) else ""
  }

  predicate Truthy(s: string) {
    !Empty(s)
  }

  /** FileMime_Fileinfo on the blob's content. */
  function FileinfoStrategy(tools: MimeTools, data: Bytes): (r: string)
    ensures !tools.hasFinfo || FalsyBytes(data) ==> r == ""
    ensures tools.hasFinfo && !FalsyBytes(data) ==>
      r == FromFinfo(tools.finfo(MagicDb(tools.magicdb, tools.isWindows), data))
    ensures var out := tools.finfo(MagicDb(tools.magicdb, tools.isWindows), data);
      r != "" ==> tools.hasFinfo && !FalsyBytes(data) && out.Some? && r <= out.value
  {
    if !tools.hasFinfo then ""
    else if FalsyBytes(data) then ""
    else FromFinfo(tools.finfo(MagicDb(tools.magicdb, tools.isWindows), data))
  }

  /** FileMime_File on the blob's content. */
  function FileCommandStrategy(tools: MimeTools, data: Bytes): (r: string)
    ensures tools.isWindows || FalsyBytes(data) ==> r == ""
    ensures !tools.isWindows && !FalsyBytes(data) ==> r == FromFileCommand(tools.fileCommand(data))
    ensures var out := tools.fileCommand(data);
      r != "" ==> (!tools.isWindows && !FalsyBytes(data) && out.Some? && r <= out.value
        && FoundAfterStart(out.value, '/') && (FoundAfterStart(out.value, ';') ==> ';' !in r))
  {
    if tools.isWindows then ""
    else if FalsyBytes(data) then ""
    else FromFileCommand(tools.fileCommand(data))
  }

  /** The text after the last `.` of a name, or the whole name. */
  function Extension(name: string): (e: string)
    ensures '.' !in e
  {
    match StrRPos(name, '.')
    case None => name
    case Some(i) =>
      var e := name[i + 1..];
      assert forall j :: 0 <= j < |e| ==> e[j] == name[i + 1 + j];
      e
  }

  /** FileMime_Extension: the name's extension through a fixed table. */
  function ExtensionMime(name: string): (r: string)
    ensures r == "" || r == "image/jpeg" || r == "image/gif" || r == "image/png"
  {
    if Empty(name) then "" else MimeOfExtension(Extension(name))
  }

  predicate EndsWith(s: string, suffix: string) {
    |suffix| <= |s| && s[|s| - |suffix|..] == suffix
  }

  /** A name has extension `e` exactly when it is `e` or ends with `.e`. */
  lemma ExtensionIs(name: string, e: string)
    requires e != "" && '.' !in e
    ensures Extension(name) == e <==> name == e || EndsWith(name, "." + e)
  {
    if EndsWith(name, "." + e) {
      ExtensionOfSuffix(name, e);
    }
    if Extension(name) == e && name != e {
      SuffixOfExtension(name, e);
    }
  }

  lemma ExtensionOfSuffix(name: string, e: string)
    requires '.' !in e && EndsWith(name, "." + e)
    ensures Extension(name) == e
  {
    var d := |name| - |e| - 1;
    assert name[d..] == "." + e;
    assert name[d] == '.';
    assert forall j :: d < j < |name| ==> name[j] == e[j - d - 1];
    assert StrRPos(name, '.') == Some(d);
    assert name[d + 1..] == e;
  }

  lemma SuffixOfExtension(name: string, e: string)
    requires e != "" && Extension(name) == e && name != e
    ensures EndsWith(name, "." + e)
  {
    var i := StrRPos(name, '.').value;
    assert name[i + 1..] == e;
    assert name[i..] == "." + e;
  }

  /** The table behind FileMime_Extension. */
  function MimeOfExtension(ext: string): (r: string)
    ensures r == "" || r == "image/jpeg" || r == "image/gif" || r == "image/png"
    ensures r == "" <==> ext !in {"jpg", "jpeg", "jpe", "gif", "png"}
  {
    if ext == "jpg" || ext == "jpeg" || ext == "jpe" then "image/jpeg"
    else if ext == "gif" then "image/gif"
    else if ext == "png" then "image/png"
    else ""
  }

  lemma MimeOfExtensionJpeg(ext: string)
    ensures MimeOfExtension(ext) == "image/jpeg" <==> ext == "jpg" || ext == "jpeg" || ext == "jpe"
  {
    MimeLiteralsDistinct();
  }

  /** The extension table on names: `jpg`, `jpeg`, `jpe`, exact and case-sensitive. */
  lemma ExtensionMimeJpeg(name: string)
    ensures ExtensionMime(name) == "image/jpeg" <==>
      || name == "jpg" || EndsWith(name, ".jpg")
      || name == "jpeg" || EndsWith(name, ".jpeg")
      || name == "jpe" || EndsWith(name, ".jpe")
  {
    ExtensionIs(name, "jpg");
    ExtensionIs(name, "jpeg");
    ExtensionIs(name, "jpe");
    assert "." + "jpg" == ".jpg" && "." + "jpeg" == ".jpeg" && "." + "jpe" == ".jpe";
    MimeOfExtensionJpeg(Extension(name));
    if Empty(name) {
      assert |name| <= 1;
    }
  }

  lemma MimeOfExtensionGif(ext: string)
    ensures MimeOfExtension(ext) == "image/gif" <==> ext == "gif"
  {
    MimeLiteralsDistinct();
  }

  lemma ExtensionMimeGif(name: string)
    ensures ExtensionMime(name) == "image/gif" <==> name == "gif" || EndsWith(name, ".gif")
  {
    ExtensionIs(name, "gif");
    assert "." + "gif" == ".gif";
    MimeOfExtensionGif(Extension(name));
    if Empty(name) {
      assert |name| <= 1;
    }
  }

  lemma MimeOfExtensionPng(ext: string)
    ensures MimeOfExtension(ext) == "image/png" <==> ext == "png"
  {
    MimeLiteralsDistinct();
  }

  lemma ExtensionMimePng(name: string)
    ensures ExtensionMime(name) == "image/png" <==> name == "png" || EndsWith(name, ".png")
  {
    ExtensionIs(name, "png");
    assert "." + "png" == ".png";
    MimeOfExtensionPng(Extension(name));
    if Empty(name) {
      assert |name| <= 1;
    }
  }

  lemma MimeLiteralsDistinct()
    ensures "image/jpeg" != "image/gif" && "image/jpeg" != "image/png" && "image/gif" != "image/png"
    ensures "jpg" != "jpeg" && "jpg" != "jpe" && "jpeg" != "jpe"
  {
    assert "image/jpeg"[6] != "image/gif"[6] && "image/jpeg"[6] != "image/png"[6] && "image/gif"[6] != "image/png"[6];
    assert |"jpg"| != |"jpeg"| && "jpg"[2] != "jpe"[2] && |"jpeg"| != |"jpe"|;
  }

  /** Upper-case extensions are not in the table. */
  lemma ExtensionMimeIsCaseSensitive(base: string)
    ensures ExtensionMime(base + ".jpg") == "image/jpeg"
    ensures ExtensionMime(base + ".JPG") == ""
  {
    var lower, upper := base + ".jpg", base + ".JPG";
    assert EndsWith(lower, "." + "jpg") by {
      assert lower[|lower| - 4..] == ".jpg";
    }
    assert EndsWith(upper, "." + "JPG") by {
      assert upper[|upper| - 4..] == ".JPG";
    }
    ExtensionOfSuffix(lower, "jpg");
    ExtensionOfSuffix(upper, "JPG");
    assert !Empty(lower) && !Empty(upper);
    UpperCaseExtensionsUnknown();
  }

  lemma UpperCaseExtensionsUnknown()
    ensures MimeOfExtension("jpg") == "image/jpeg"
    ensures MimeOfExtension("JPG") == ""
  {
    assert "JPG"[0] != "jpg"[0] && "JPG"[0] != "gif"[0] && "JPG"[0] != "png"[0];
    assert "JPG"[0] != "jpeg"[0] && "JPG"[0] != "jpe"[0];
  }

  /** The first candidate that is not empty(), or the last one. */
  function FirstNonEmpty(candidates: seq<string>): (r: string)
    requires |candidates| >= 1
    ensures exists k :: (0 <= k < |candidates| && r == candidates[k] &&
      (forall j :: 0 <= j < k ==> Empty(candidates[j])) &&
      (Empty(r) ==> k == |candidates| - 1))
  {
    if !Empty(candidates[0]) || |candidates| == 1 then candidates[0]
    else
      var r := FirstNonEmpty(candidates[1..]);
      assert forall j :: 1 <= j < |candidates| ==> candidates[1..][j - 1] == candidates[j];
      r
  }

  /** `if (!empty($mime) && $short) $mime = strtok($mime, '/');` */
  function Shorten(mime: string, short: bool): (r: string)
    ensures !short || Empty(mime) ==> r == mime
    ensures short && !Empty(mime) ==> '/' !in r
    ensures short && !Empty(mime) && mime[0] != '/' ==>
      r == if '/' in mime then mime[..StrPos(mime, '/').value] else mime
    ensures short && !Empty(mime) ==> (r == "" <==> forall i :: 0 <= i < |mime| ==> mime[i] == '/')
    ensures short && !Empty(mime) && r != "" ==> FirstToken(mime, '/', r)
  {
    if !Empty(mime) && short then
      if mime[0] != '/' then
        StrTokCutsAtFirst(mime, '/');
        StrTokOrEmpty(mime, '/')
      else StrTokOrEmpty(mime, '/')
    else mime
  }

  /** A leading '/' is skipped: the short form of "/x/y" is "x". */
  lemma ShortenSkipsLeadingSlash(t: string, rest: string)
    requires t != "" && '/' !in t
    requires rest == "" || rest[0] == '/'
    ensures Shorten("/" + t + rest, true) == t
  {
    var mime := "/" + t + rest;
    assert mime[1..1 + |t|] == t;
    assert TokenAt(mime, '/', t, 1);
    assert mime[1] == t[0];
    var r := Shorten(mime, true);
    FirstTokenUnique(mime, '/', r, t);
  }

  /** FileMime($short): the three strategies in order, the first non-empty one wins. */
  function ChooseMime(fileinfo: string, fileCommand: string, extension: string, short: bool): (r: string)
    ensures var chosen := FirstNonEmpty([fileinfo, fileCommand, extension]);
      && (!short ==> r == chosen && (r == fileinfo || r == fileCommand || r == extension))
      && (short && !Empty(chosen) ==> '/' !in r)
  {
    Shorten(FirstNonEmpty([fileinfo, fileCommand, extension]), short)
  }

  /** The chain's outcome, case by case. */
  lemma ChooseMimeOrder(fileinfo: string, fileCommand: string, extension: string)
    ensures !Empty(fileinfo) ==> ChooseMime(fileinfo, fileCommand, extension, false) == fileinfo
    ensures Empty(fileinfo) && !Empty(fileCommand) ==>
      ChooseMime(fileinfo, fileCommand, extension, false) == fileCommand
    ensures Empty(fileinfo) && Empty(fileCommand) ==>
      ChooseMime(fileinfo, fileCommand, extension, false) == extension
  {
    var c := [fileinfo, fileCommand, extension];
    var r := FirstNonEmpty(c);
    var k :| 0 <= k < 3 && r == c[k] && (forall j :: 0 <= j < k ==> Empty(c[j])) && (Empty(r) ==> k == 2);
    assert c[0] == fileinfo && c[1] == fileCommand && c[2] == extension;
    if !Empty(fileinfo) {
      assert k == 0;
    } else if !Empty(fileCommand) {
      assert k == 1;
    }
  }

  // ---------------------------------------------------------------------
  // The blob object
  // ---------------------------------------------------------------------

  const GIT_CAT_FILE := "cat-file"

  /** The project's two read paths, opaque to the blob. */
  datatype Repository = Repository(
    path: string,                                     // GetProject()->GetPath()
    execute: (string, string, seq<string>) -> Bytes,  // GitPHP_GitExe::Execute(path, command, args)
    getObject: string -> Bytes)                       // GetObjectLoader()->GetObject(hash)

  /** The calls a blob makes outside itself. */
  datatype Event =
    | Execute(path: string, command: string, args: seq<string>)
    | GetObject(hash: string)
    | CacheSet(key: string, content: Bytes)

  /** The two results of GetData: the raw bytes, or the lines when exploding. */
  datatype BlobData = Raw(bytes: Bytes) | Lines(lines: seq<Bytes>)

  function BackendCalls(log: seq<Event>): nat {
    if log == [] then 0
    else (if log[0].CacheSet? then 0 else 1) + BackendCalls(log[1..])
  }

  function CacheSets(log: seq<Event>): nat {
    if log == [] then 0
    else (if log[0].CacheSet? then 1 else 0) + CacheSets(log[1..])
  }

  class Blob {
    const project: string
    const hash: string
    const name: string       // GetName()
    const compat: bool
    const repo: Repository
    const tools: MimeTools

    var data: Bytes
    var dataRead: bool
    var size: Option<nat>
    /** The external calls made so far, in order. */
    ghost var log: seq<Event>

    /** The one backend call a read makes. */
    function Backend(): Event {
      if compat then Execute(repo.path, GIT_CAT_FILE, ["blob", hash]) else GetObject(hash)
    }

    /** What the backend returns for this blob. */
    function Content(): Bytes {
      if compat then repo.execute(repo.path, GIT_CAT_FILE, ["blob", hash]) else repo.getObject(hash)
    }

    /** The blob's object-cache key; it reads back for a project path without `|`. */
    function GetCacheKey(): (k: string)
      ensures k == CacheKey(project, hash)
      ensures '|' !in project ==> ParseCacheKey(k) == Some((project, hash))
    {
      if '|' !in project then CacheKeyRoundTrip(project, hash); CacheKey(project, hash)
      else CacheKey(project, hash)
    }

    /** The calls of the one read: the backend, then the cache. */
    function ReadEvents(): seq<Event> {
      [Backend(), CacheSet(GetCacheKey(), Content())]
    }

    /** Unread: no calls yet. Read: the content is the backend's, and the read happened once. */
    ghost predicate Valid()
      reads this
    {
      && (dataRead ==> data == Content())
      && log == (if dataRead then ReadEvents() else [])
    }

    /** In every valid state there has been at most one read, with one cache write. */
    lemma ReadAtMostOnce()
      requires Valid()
      ensures BackendCalls(log) == (if dataRead then 1 else 0)
      ensures CacheSets(log) == (if dataRead then 1 else 0)
      ensures dataRead ==> log[0] == Backend() && log[|log| - 1] == CacheSet(CacheKey(project, hash), data)
    {
      if dataRead {
        var last := CacheSet(GetCacheKey(), Content());
        assert !Backend().CacheSet?;
        assert log[1..] == [last];
        assert BackendCalls([last]) == 0 && CacheSets([last]) == 1 by {
          assert [last][1..] == [];
        }
      }
    }

    constructor (project: string, hash: string, name: string, compat: bool, repo: Repository, tools: MimeTools)
      ensures Valid()
      ensures this.project == project && this.hash == hash && this.name == name
      ensures this.compat == compat && this.repo == repo && this.tools == tools
      ensures !dataRead && size == None && log == []
    {
      this.project := project;
      this.hash := hash;
      this.name := name;
      this.compat := compat;
      this.repo := repo;
      this.tools := tools;
      data := [];
      dataRead := false;
      size := None;
      log := [];
    }

    /** ReadData: only ever called when the data has not been read. */
    method ReadData()
      requires Valid() && !dataRead
      modifies this`data, this`dataRead, this`log
      ensures Valid() && dataRead && data == Content() && log == ReadEvents()
    {
      dataRead := true;
      if compat {
        var args := ["blob", hash];
        data := repo.execute(repo.path, GIT_CAT_FILE, args);
        log := log + [Execute(repo.path, GIT_CAT_FILE, args)];
      } else {
        data := repo.getObject(hash);
        log := log + [GetObject(hash)];
      }
      log := log + [CacheSet(GetCacheKey(), data)];
    }

    /** GetData($explode). */
    method GetData(explode: bool) returns (r: BlobData)
      requires Valid()
      modifies this`data, this`dataRead, this`log
      ensures Valid() && dataRead && data == Content() && log == ReadEvents()
      ensures !old(dataRead) || unchanged(this)
      ensures r == if explode then Lines(Explode(Content(), NEWLINE)) else Raw(Content())
    {
      if !dataRead {
        ReadData();
      }
      if explode {
        r := Lines(Explode(data, NEWLINE));
      } else {
        r := Raw(data);
      }
    }

    /** GetSize: a size set from outside wins and triggers no read. */
    method GetSize() returns (n: nat)
      requires Valid()
      modifies this`data, this`dataRead, this`log
      ensures Valid()
      ensures old(size).Some? ==> n == old(size).value && unchanged(this)
      ensures old(size).None? ==> n == |Content()| && dataRead && log == ReadEvents()
      ensures old(size).None? && old(dataRead) ==> unchanged(this)
    {
      if size.Some? {
        return size.value;
      }
      if !dataRead {
        ReadData();
      }
      n := |data|;
    }

    /** SetSize($size); `null` is None. */
    method SetSize(newSize: Option<nat>)
      requires Valid()
      modifies this`size
      ensures Valid() && size == newSize
    {
      size := newSize;
    }

    /** IsBinary: a NUL byte among the first 8000 bytes. */
    method IsBinary() returns (b: bool)
      requires Valid()
      modifies this`data, this`dataRead, this`log
      ensures Valid() && dataRead && log == ReadEvents()
      ensures !old(dataRead) || unchanged(this)
      ensures b <==> exists i :: 0 <= i < |Content()| && i < BINARY_PREFIX && Content()[i] == NUL
    {
      if !dataRead {
        ReadData();
      }
      var d := data;
      if |data| > BINARY_PREFIX {
        d := data[..BINARY_PREFIX];
      }
      b := StrPos(d, NUL).Some?;
      assert d == Prefix(data, BINARY_PREFIX);
      assert b == HasNulInPrefix(data);
    }

    /** FileMime_Fileinfo: reads the data only when finfo exists. */
    method FileMimeFileinfo() returns (mime: string)
      requires Valid()
      modifies this`data, this`dataRead, this`log
      ensures Valid() && mime == FileinfoStrategy(tools, Content())
      ensures dataRead == (old(dataRead) || tools.hasFinfo)
      ensures old(dataRead) || !tools.hasFinfo ==> unchanged(this)
    {
      if !tools.hasFinfo {
        return "";
      }
      if !dataRead {
        ReadData();
      }
      if FalsyBytes(data) {
        return "";
      }
      mime := "";
      var magicdb := MagicDb(tools.magicdb, tools.isWindows);
      var out := tools.finfo(magicdb, data);
      if out.Some? {
        mime := out.value;
        if Truthy(mime) && FoundAfterStart(mime, '/') {
          if FoundAfterStart(mime, ';') {
            mime := StrTokOrEmpty(mime, ';');
          }
        }
      }
    }

    /** FileMime_File: reads the data unless on Windows. */
    method FileMimeFile() returns (mime: string)
      requires Valid()
      modifies this`data, this`dataRead, this`log
      ensures Valid() && mime == FileCommandStrategy(tools, Content())
      ensures dataRead == (old(dataRead) || !tools.isWindows)
      ensures old(dataRead) || tools.isWindows ==> unchanged(this)
    {
      if tools.isWindows {
        return "";
      }
      if !dataRead {
        ReadData();
      }
      if FalsyBytes(data) {
        return "";
      }
      var out := tools.fileCommand(data);
      if out.Some? {
        mime := out.value;
        if Truthy(mime) && FoundAfterStart(mime, '/') {
          if FoundAfterStart(mime, ';') {
            mime := StrTokOrEmpty(mime, ';');
          }
          return mime;
        }
      }
      return "";
    }

    /** FileMime($short). */
    method FileMime(short: bool) returns (mime: string)
      requires Valid()
      modifies this`data, this`dataRead, this`log
      ensures Valid()
      ensures mime == ChooseMime(FileinfoStrategy(tools, Content()), FileCommandStrategy(tools, Content()),
                                 ExtensionMime(name), short)
      ensures dataRead == (old(dataRead) || tools.hasFinfo || !tools.isWindows)
      ensures old(dataRead) || (!tools.hasFinfo && tools.isWindows) ==> unchanged(this)
    {
      mime := FileMimeFileinfo();
      if Empty(mime) {
        mime := FileMimeFile();
      }
      if Empty(mime) {
        mime := ExtensionMime(name);
      }
      ChooseMimeOrder(FileinfoStrategy(tools, Content()), FileCommandStrategy(tools, Content()), ExtensionMime(name));
      if !Empty(mime) && short {
        mime := StrTokOrEmpty(mime, '/');
      }
    }
  }
}
