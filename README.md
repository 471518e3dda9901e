# gitphp blobs, snapshots and diffs in Dafny

This project models three parts of gitphp, the PHP git repository browser:

- **`GitPHP_Blob`** (`Blob.dfy`). A blob reads its content lazily and at most once from one of two
  backends: the `git cat-file blob <hash>` subprocess in compat mode, or the project's object loader
  otherwise. Every read also writes the blob into the object cache under the key
  `project|<project>|blob|<hash>`. On top of the content the blob computes:
  - its size, unless the size was set from outside;
  - whether it has a NUL byte among its first 8000 bytes;
  - the file kind of an octal mode string;
  - its MIME type, from a chain of three strategies: finfo, the `file` command, and the name's extension.

  The class keeps `data`, `dataRead` and `size` as fields. A ghost log records the calls the blob
  makes outside itself. The invariant `Valid()` ties that log to the read flag: before a read it is
  empty; after one it is exactly one backend call followed by one cache write.
- **`git_snapshot`** (`Snapshot.dfy`). The configured compression format and the availability of
  `bzcompress`/`gzencode` choose:
  - the content type;
  - the attachment's name, which is the project path with `/` turned into `-` and `.git` removed;
  - the container passed to `git archive`;
  - the compressor.

  The archive is built only when the template cache has no entry for `sha1(project)|hash`.
- **`git_diff`** (`Diff.dfy`). Each side that is given is written to `<gittmp>gitphp_<pid>_from`
  or `<gittmp>gitphp_<pid>_to`. A missing side is read from `/dev/null`. The diff program runs with
  `-u -p` and the two labels, the temporary files are unlinked, and the program's output is
  returned. The file system is a class whose methods update a map of files and log each write and
  unlink.

`Php.dfy` holds the PHP library functions the code relies on, with the PHP semantics that matter:
- `strpos` and `strrpos` return `false` when nothing is found, and `strpos` used as a condition is
  also false for a match at index 0;
- `strtok` skips leading delimiters;
- `explode` always returns at least one piece;
- `str_replace` scans left to right without overlaps;
- `empty()` is true of `""` and `"0"`.

What is proved, in short:
- the blob reads its backend at most once and caches what it read;
- `GetSize` prefers a size set from outside;
- the binary test depends only on the first 8000 bytes;
- the file kind of a mode is fixed by three bits, and tree, gitlink, symlink and regular-file modes
  are each classified as expected;
- the blob cache key round-trips for project paths without `|`, and collides without that condition;
- the MIME chain takes the first non-empty strategy, and the extension table is exact and case-sensitive;
- `explode` and `implode` are inverses, so the lines of a blob join back into its content;
- the snapshot's type, extension and compressor agree and fall back to plain tar, and its cache key
  ignores the format;
- the two temporary diff files never coincide and are never `/dev/null`, a side is read from
  `/dev/null` exactly when it is unset, the diff program sees both contents, and the files end as
  they began, less the temporary paths;
- when neither temporary path holds a space, the diff program receives the two files as its last two
  arguments.

## Model

| member | source | states |
|---|---|---|
| Php.StrPos | include/git/Blob.class.php:200 | `strpos` gives the first index holding the character, or false exactly when the character is absent |
| Php.StrRPos | include/git/Blob.class.php:332 | `strrpos` gives the last index holding the character, or false exactly when it is absent |
| Php.StrTok | include/git/Blob.class.php:264 | a first `strtok` call skips the leading delimiters and returns the run of non-delimiters that follows, up to the next delimiter or the end (non-empty and free of the delimiter), or false exactly when the text is all delimiters |
| Php.FirstTokenUnique | include/git/Blob.class.php:264 | that description fixes the token: two non-empty, delimiter-free first tokens of one text are equal |
| Php.StrTokCutsAtFirst | include/git/Blob.class.php:263-265 | when the text does not start with the delimiter, `strtok` returns the text before the first delimiter, or the whole text |
| Php.Explode | include/git/Blob.class.php:80 | `explode` returns at least one piece and no piece holds the separator |
| Php.ImplodeExplode | include/git/Blob.class.php:80 | joining the exploded lines with the separator gives back the content |
| Php.ExplodeImplode | include/git/Blob.class.php:80 | exploding a join of separator-free pieces gives back the pieces |
| Php.ExplodeJoin | include/gitutil.git_diff.php:29 | exploding at a separator splits into the pieces of the text before it and the pieces of the text after it |
| Php.StrReplace | include/display.git_snapshot.php:27 | a replacement as long as the needle keeps the length of the text |
| Php.StrReplaceAtFirst | include/display.git_snapshot.php:27 | the first occurrence of the needle, wherever it stands, is replaced, the text before it is kept, and replacement resumes right after it; with the previous row this fixes `str_replace` on every text, so `a.git/b` gives `a-b` |
| Php.StrReplaceWithoutOccurrence | include/display.git_snapshot.php:27 | text in which the needle never occurs comes back unchanged |
| Php.StrReplaceRemovesChar | include/display.git_snapshot.php:27 | replacing `/` by text without `/` leaves no `/` |
| Php.StrReplaceDeleteKeepsChars | include/display.git_snapshot.php:27 | deleting `.git` introduces no character the input did not have |
| Php.StrReplaceCharAppend | include/display.git_snapshot.php:27 | replacing a single character distributes over concatenation |
| Php.StrReplaceCharPointwise | include/display.git_snapshot.php:27 | replacing one character by another changes exactly the positions holding it and keeps the length |
| Php.StrReplaceDeletesSuffix | include/display.git_snapshot.php:27 | deleting a trailing needle whose first character occurs nowhere before it removes exactly that suffix |
| Php.NatToString | include/gitutil.git_diff.php:22 | PHP's decimal rendering of the pid is non-empty and made only of digits |
| Php.DecimalRoundTrip | include/gitutil.git_diff.php:22 | reading the decimal rendering back gives the number |
| Php.NatToStringInjective | include/gitutil.git_diff.php:22 | distinct pids render differently |
| Blob.OctDecSkipsNonOctal | include/git/Blob.class.php:122 | `octdec` ignores a character that is not an octal digit, wherever it stands |
| Blob.FileType | include/git/Blob.class.php:120-148 | the kind is one of directory, symlink, file and unknown |
| Blob.FileTypeByBits | include/git/Blob.class.php:120-148 | the kind is directory iff bit 14 is set; without it, symlink iff bits 15 and 13 are set, file iff bit 15 is set without bit 13, unknown iff bit 15 is clear |
| Blob.FileTypeOfTreeMode | include/git/Blob.class.php:122-128 | mode `040000` is a directory |
| Blob.FileTypeOfGitlinkMode | include/git/Blob.class.php:122-128 | mode `160000` (a submodule) is classified as a directory, since it has bit 14 set |
| Blob.FileTypeOfSymlinkMode | include/git/Blob.class.php:129-134 | mode `120000` is a symlink |
| Blob.FileTypeOfRegularMode | include/git/Blob.class.php:135-140 | mode `100644` is a file |
| Blob.CacheKey | include/git/Blob.class.php:391-394 | the key is `project|`, the project, `|blob|` and the hash, in that order |
| Blob.CacheKeyRoundTrip | include/git/Blob.class.php:391-394 | for a project without `|`, the key parses back into its project and hash |
| Blob.CacheKeyInjective | include/git/Blob.class.php:391-394 | for projects without `|`, equal keys mean equal project and hash |
| Blob.CacheKeyCollision | include/git/Blob.class.php:391-394 | the format does not escape `|`, so two different project/hash pairs can share a key |
| Blob.Prefix | include/git/Blob.class.php:197-198 | the prefix is the first 8000 bytes, or all of them when there are fewer |
| Blob.HasNulInPrefix | include/git/Blob.class.php:196-200 | the binary verdict is true iff a NUL byte sits at an index below 8000 |
| Blob.BinaryIgnoresTail | include/git/Blob.class.php:197-200 | bytes appended after the first 8000 never change the verdict |
| Blob.CutParameters | include/git/Blob.class.php:263-265 | parameters after a `;` that is not the first character are cut off, leaving a prefix free of `;` |
| Blob.MagicDb | include/git/Blob.class.php:250-257 | a non-empty configured database is used; otherwise the Windows or the Unix default; never empty |
| Blob.FromFinfo | include/git/Blob.class.php:259-270 | a finfo failure gives ""; truthy output with a `/` after the start has its parameters cut; any other output is returned unchanged |
| Blob.FromFileCommand | include/git/Blob.class.php:298-314 | a non-empty result comes only from truthy output with a `/` after the start, and is that output with its parameters cut |
| Blob.FileinfoStrategy | include/git/Blob.class.php:237-271 | "" without `finfo_buffer` or for falsy content; otherwise exactly what finfo's output gives under the configured database: "" when finfo fails, truthy output with a `/` after the start cut at its first `;` after the start, and any other output unchanged |
| Blob.FileCommandStrategy | include/git/Blob.class.php:281-315 | "" on Windows or for falsy content; otherwise exactly what the `file` command's output gives: truthy output with a `/` after the start cut at its first `;` after the start, and "" for anything else, including a command that cannot start |
| Blob.Extension | include/git/Blob.class.php:332-334 | the extension holds no `.` |
| Blob.ExtensionMime | include/git/Blob.class.php:325-350 | the extension strategy yields only "", image/jpeg, image/gif or image/png |
| Blob.ExtensionIs | include/git/Blob.class.php:332-334 | a name has extension `e` exactly when it is `e` or ends with `.e` |
| Blob.MimeOfExtension | include/git/Blob.class.php:335-349 | the table yields only "", image/jpeg, image/gif or image/png, and "" exactly for extensions outside jpg, jpeg, jpe, gif and png |
| Blob.MimeOfExtensionJpeg | include/git/Blob.class.php:335-339 | the table gives image/jpeg exactly for jpg, jpeg and jpe |
| Blob.ExtensionMimeJpeg | include/git/Blob.class.php:325-339 | a name gets image/jpeg exactly when it is, or ends in `.`, jpg, jpeg or jpe |
| Blob.MimeOfExtensionGif | include/git/Blob.class.php:341-342 | the table gives image/gif exactly for gif |
| Blob.ExtensionMimeGif | include/git/Blob.class.php:325-342 | a name gets image/gif exactly when it is `gif` or ends in `.gif` |
| Blob.MimeOfExtensionPng | include/git/Blob.class.php:344-345 | the table gives image/png exactly for png |
| Blob.ExtensionMimePng | include/git/Blob.class.php:325-345 | a name gets image/png exactly when it is `png` or ends in `.png` |
| Blob.ExtensionMimeIsCaseSensitive | include/git/Blob.class.php:335-349 | `x.jpg` is image/jpeg while `x.JPG` gets no type |
| Blob.FirstNonEmpty | include/git/Blob.class.php:214-220 | the chain's value is the first candidate that is not empty(), or the last candidate |
| Blob.Shorten | include/git/Blob.class.php:222-224 | without `$short`, or for an empty() type, the type is unchanged; with `$short`, leading `/` are skipped and the result is the text up to the next `/`, or "" (PHP's false) exactly when the type is all `/` |
| Blob.ShortenSkipsLeadingSlash | include/git/Blob.class.php:222-224 | a leading `/` is skipped, so `/x/y` shortens to `x` |
| Blob.ChooseMime | include/git/Blob.class.php:212-227 | without `$short` the result is the chain's choice, one of the three candidates; with `$short` and a choice that is not empty(), the result holds no `/` (Shorten gives it in full) |
| Blob.ChooseMimeOrder | include/git/Blob.class.php:212-227 | finfo wins when non-empty, then the `file` command, then the extension |
| Blob.Blob.ReadAtMostOnce | include/git/Blob.class.php:92-107 | in every valid state there has been one backend call and one cache write if the data was read, none otherwise; the last write stores the data under the blob's key |
| Blob.Blob.constructor | include/git/Blob.class.php:60-63 | a new blob is unread, has no size and has made no calls |
| Blob.Blob.GetCacheKey | include/git/Blob.class.php:375-378 | the blob's key is the blob cache key of its project and hash, and for a project without `|` it reads back into them |
| Blob.Blob.ReadData | include/git/Blob.class.php:92-107 | the data is the backend's content (`cat-file blob <hash>` in compat mode, the object loader otherwise), followed by a cache write of the blob under its key |
| Blob.Blob.GetData | include/git/Blob.class.php:74-83 | reads at most once; returns the content, or its lines split at `\n` |
| Blob.Blob.GetSize | include/git/Blob.class.php:158-168 | a size set from outside is returned with no read; otherwise the content's length, after at most one read |
| Blob.Blob.SetSize | include/git/Blob.class.php:178-181 | stores the size (null clears it), changing nothing else |
| Blob.Blob.IsBinary | include/git/Blob.class.php:191-201 | true iff the content has a NUL byte below index 8000 |
| Blob.Blob.FileMimeFileinfo | include/git/Blob.class.php:237-271 | the finfo strategy on the content; reads only when finfo exists |
| Blob.Blob.FileMimeFile | include/git/Blob.class.php:281-315 | the `file` command strategy on the content; reads only when not on Windows |
| Blob.Blob.FileMime | include/git/Blob.class.php:212-227 | the result is the chain over the three strategies, shortened on request; reads only when a strategy that needs the data runs |
| Snapshot.SelectOutput | include/display.git_snapshot.php:28-42 | at most one compressor is chosen, each exactly when its format is configured and available; zip gives application/x-zip and `.zip`, bzip2 application/x-bzip2 and `.tar.bz2`, gzip application/x-gzip and `.tar.gz`; plain tar (application/x-tar, `.tar`) exactly when neither zip nor a compressor is chosen |
| Snapshot.MissingCompressorFallsBackToTar | include/display.git_snapshot.php:31-41 | a requested compressor that is missing gives plain tar, uncompressed |
| Snapshot.DefaultHash | include/display.git_snapshot.php:17-18 | an unset hash is HEAD; a given hash is used as it is |
| Snapshot.SnapshotCacheKey | include/display.git_snapshot.php:20 | the key is the project's sha1, a `|` and the hash |
| Snapshot.Container | include/display.git_snapshot.php:46-47 | `git archive` gets zip exactly for the zip format, tar otherwise |
| Snapshot.RName | include/display.git_snapshot.php:27 | the attachment name holds no `/` |
| Snapshot.RNameOfRepositoryPath | include/display.git_snapshot.php:27 | for `p.git` with no other dot, the name is `p` with every `/` turned into `-` |
| Snapshot.BzLevel | include/display.git_snapshot.php:50 | the `compresslevel` setting, or 4 when it is not set |
| Snapshot.GzLevel | include/display.git_snapshot.php:52 | the `compresslevel` setting, or -1 when it is not set |
| Snapshot.BuildArchive | include/display.git_snapshot.php:46-53 | the archive is bzip2-compressed at level 4 by default, gzip-compressed at level -1 by default, or left as `git archive` made it |
| Snapshot.GitSnapshot | include/display.git_snapshot.php:13-57 | the headers follow the selection; the cache key is `sha1(project)|hash` with HEAD by default; the archive is built exactly on a cache miss, by `git archive` followed by exactly the selected compressor at its level, and nothing is called on a hit |
| Snapshot.ChooseHeaders | include/display.git_snapshot.php:28-42 | the if-chain's content type, file name and compressor flags are those of the selection |
| Snapshot.Compress | include/display.git_snapshot.php:49-53 | a chosen compressor is applied once at its level; otherwise the archive is left as it is and nothing is called |
| Snapshot.CacheKeyIgnoresFormat | include/display.git_snapshot.php:20 | requests that differ only in format share one cache entry |
| Diff.TmpDir | include/gitutil.git_diff.php:20 | the `gittmp` setting, or /tmp/gitphp/ when it is not set |
| Diff.DiffBin | include/gitutil.git_diff.php:29 | the `diffbin` setting, or `diff` when it is not set |
| Diff.TempPathShape | include/gitutil.git_diff.php:21-27 | a temporary path is the directory, `gitphp_`, the pid in decimal and `_from` or `_to` |
| Diff.Operand | include/gitutil.git_diff.php:14-28 | a set side is read from its temporary path, an unset side from `/dev/null` |
| Diff.DiffCommandShape | include/gitutil.git_diff.php:29 | the command starts with the program and ` -u -p -L '` and ends with a space, the from operand, a space and the to operand |
| Diff.FileSystem.Write | include/gitutil.git_diff.php:23 | writing stores the content at the path and logs the write |
| Diff.FileSystem.Unlink | include/gitutil.git_diff.php:31 | unlinking removes the path and logs the unlink |
| Diff.WriteOps | include/gitutil.git_diff.php:21-28 | one write entry per temporary file, in order |
| Diff.UnlinkOps | include/gitutil.git_diff.php:30-33 | one unlink entry per temporary file, in order |
| Diff.WriteSide | include/gitutil.git_diff.php:21-28 | a set side gets its temporary file, written with the object's content; an unset side is `/dev/null` and nothing is written |
| Diff.UnlinkSide | include/gitutil.git_diff.php:30-33 | a set side's file is unlinked; an unset side changes nothing |
| Diff.GitDiff | include/gitutil.git_diff.php:12-35 | returns the diff program's output on the command with both operands, run over the files holding both sides; the files end as they began, less the temporary paths, and exactly as they began when no temporary path existed before; the log is the writes, then the unlinks |
| Diff.CleanupRemovesTemps | include/gitutil.git_diff.php:21-33 | writing the sides and then unlinking them leaves the original files less the temporary paths |
| Diff.TempPathsDistinct | include/gitutil.git_diff.php:22-26 | the `_from` and `_to` files never coincide, whatever the two pids |
| Diff.TempPathNotDevNull | include/gitutil.git_diff.php:14-26 | no temporary path is `/dev/null` |
| Diff.OperandIsDevNull | include/gitutil.git_diff.php:14-28 | a side is read from `/dev/null` exactly when it is not set |
| Diff.TempPathInjective | include/gitutil.git_diff.php:16-26 | processes with different pids use different temporary files |
| Diff.TempFilesShape | include/gitutil.git_diff.php:21-28 | one distinct temporary file per side given, none of them `/dev/null` |
| Diff.DiffSeesBothSides | include/gitutil.git_diff.php:21-29 | when the diff program runs, each given side's operand holds that side's content |
| Diff.DiffInputsKeepOtherFiles | include/gitutil.git_diff.php:21-29 | files other than the temporary ones reach the diff program unchanged |
| Diff.UnlinksMatchWrites | include/gitutil.git_diff.php:21-33 | a path is unlinked exactly when it was written |
| Diff.DiffCommandEndsWithOperands | include/gitutil.git_diff.php:29 | when the paths hold no space, the last two words of the command are the two operands |

## Left out

- Backends and tools are opaque, deterministic functions passed in as parameters. This covers
  `git cat-file`, the object loader, `finfo_open`/`finfo_buffer`, the `file` command, `sha1`,
  `git archive`, `bzcompress`, `gzencode`, `git_cat_file` and `shell_exec`. Their failure modes
  are not distinguished from their outputs, except where the code tests them: a failed `finfo_open`,
  a `file` command that cannot start, and `shell_exec` returning null.
- Configuration and environment lookups are inputs:
  - the `magicdb`, `gittmp`, `diffbin`, `compressformat` and `compresslevel` settings;
  - whether the functions `finfo_buffer`, `bzcompress`, `gzencode` and `posix_getpid` exist;
  - whether the server runs on Windows.
- The default of `compressformat` (zip) is not modelled: the format is given directly.
- The pid is an input; the choice between `posix_getpid()` and `rand()` is not modelled.
- PHP's `false` from `strtok` and `finfo_buffer` is rendered as "". Inside the class every such
  value is only tested with `empty()`. One reaches outside: `FileMime($short)` returns `strtok`'s
  false for a type made only of `/`, and the model returns "" there. Its callers are not part of this
  model.
- HTTP headers are returned in the response rather than sent. The template's `display` and
  `assign` appear as the cache key and the optional archive of that response.
- Blob.FileType: the `$local` flag is not modelled, and neither are the localised names it selects.
  `octdec` is modelled on unbounded integers, with no overflow to float for very long inputs.
- Blob.Blob.ReadData: it requires the data to be unread, as every caller in the class ensures,
  rather than modelling a second read.
- The blob's `__sleep` serialisation hook is not modelled. Neither is the inherited name and project
  plumbing of `GitPHP_FilesystemObject`: name, project path and compat flag are constructor arguments.
- Shell quoting of the diff command is not modelled. Labels and paths are concatenated as the code
  does, without escaping.
- Concurrency is not modelled: two processes sharing a temporary directory, or a pid reused by `rand()`.
- `gitutil.git_cat_file.php`, `gitutil.git_archive.php` and the template engine are not part of this
  model.
- The model follows the code on these points:
  - extensions match case-sensitively, so `photo.JPG` gets no MIME type;
  - `.git` is removed wherever it occurs in the project path, not only at its end;
  - one `compresslevel` setting serves both compressors, with different defaults;
  - the snapshot cache stores the compressed archive under a key that does not include the format.
