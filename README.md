# Intellex filesystem, modelled in Dafny

A model of the PHP library `Intellex\Filesystem`: the `Path` base class, the `File` handle and the `Dir` handle, with proofs about what their operations do. The operating system's filesystem is replaced by an in-memory tree.

- **Tree.** A map from canonical locations to nodes, plus the order in which the OS enumerates directory entries. A canonical location is `""` for the root, or `/a/b` with no empty, `.` or `..` segment. A node is a file (bytes, readable, writable) or a directory (readable, writable).
- **Host.** Holds the tree and the library's own directory (`__DIR__`), where `realPath` anchors relative paths. Every OS call the library makes is a function from one tree to a success flag and the next tree: `file_exists`, `is_file`, `is_dir`, `is_readable`, `is_writable`, `touch`, `file_get_contents`, `file_put_contents`, `unlink`, `rmdir`, `mkdir -p`, `rename`, `copy` and `glob`.
- **Path lookup.** A path names a node when it is absolute and, once separator runs and trailing separators are dropped, it is a canonical location.

Modules:

- `Errors`: one constructor per exception class (NotAFile, NotADirectory, PathExists, PathNotReadable, PathNotWritable, InvalidArgument), each carrying its path. Also `Option`, `Result` and `Outcome`. A thrown exception is a `Fail` or `Err` result.
- `Text`: ASCII case folding, `stristr`, `implode`, `trim`/`ltrim`/`rtrim` on the separator, character search.
- `Paths`: the string half of `Path`.
  - `getOS`, `getRoot`, `realPath`, `isAbsolute`, `dirname`/`basename`/`pathinfo`, `getParent`, `join` and `joinAsAbsolute`;
  - `Dir::realPath` and `Dir::isRoot`.
- `Os`: the in-memory filesystem, its OS calls, and the `Host` class.
- `Dirs`: `Dir` is a value, because its path is set once when the handle is built. Its operations are methods on the host: `exists`, `isReadable`, `isWritable`, `touch`, `listDirectory` and `findRecursive`.
- `Files`: `File` is a class. `init` re-points the handle and drops six cached values; `load` fills the name parts lazily. Its operations are `read`, `putContents`/`write`/`append`, `touch`, `delete`, `copyTo`, `moveTo`, the name getters, `isWritable`, and the MIME helpers `validateMimeExtension` and the svg fix-up.
- `DirTree`: `Dir::delete`, `Dir::clear` and `Dir::write`, which go through `File` handles as well as `Dir` handles.

Each operation that changes the tree has three parts:

1. A function of the tree, `XOn(fs, …)`, that returns the outcome and the tree afterwards. It follows the PHP code branch by branch.
2. A method on the host, proved to produce exactly that function's result.
3. Lemmas about the function on canonical locations: the order of the checks, which error comes when, and what changes and what does not.

## Model

| member | source | states |
|---|---|---|
| Text.ContainsCIIff | src/Path.php:32 | The left-to-right scan standing for `stristr` finds the needle exactly when it occurs somewhere in the text, ignoring ASCII case |
| Paths.GetOSWinIff | src/Path.php:31-42 | getOS answers WIN exactly when "WIN" occurs in the host's OS name, ignoring case, and UNIX otherwise; the UnsupportedOS throw cannot be reached |
| Paths.GetOS | src/Path.php:31-42 | getOS as written: WIN when "WIN" occurs in the host's OS name ignoring case, UNIX otherwise; GetOSWinIff states it as a search for the needle |
| Paths.GetOSDarwin | src/Path.php:31-33 | As written, getOS takes macOS, which reports "Darwin", for Windows |
| Paths.OsFamilyRefinesGetOS | src/Path.php:31-33 | The corrected detection (the name begins with "WIN") calls a host Windows only when getOS does too |
| Paths.OsFamilyExamples | src/Path.php:31-38 | Under the corrected detection Darwin and Linux are Unix and WINNT is Windows |
| Paths.CollapseSeps | src/Path.php:158 | The separator-run replacement leaves no two separators in a row, never lengthens the path, and keeps its first character and a trailing separator |
| Paths.RealPath | src/Path.php:142-159 | realPath never returns a path with a trailing separator or with two separators in a row |
| Paths.RealPathSegments | src/Path.php:145-147 | An array is first imploded with the separator: realPath of the segments equals realPath of the joined string |
| Paths.RealPathCanonical | src/Path.php:142-159 | realPath returns a canonical absolute location unchanged, and Dir::realPath returns it with exactly one separator added |
| Paths.BackLinkDeleted | src/Path.php:155 | "/../" is deleted as text, not resolved: "/a/../b" becomes "/ab" |
| Paths.RealPathMayBeRelative | src/Path.php:150-158 | An absolute input can come out relative: "/../x" becomes "x" |
| Paths.RealPathNotIdempotent | src/Path.php:155 | The single scan of str_replace can put together a new "/../", so realPath of realPath differs: "/./.././x" gives "/../x", which gives "x" |
| Paths.CleanLength | src/Path.php:155-158 | The clean-up after the base is prefixed never lengthens the path |
| Paths.CleanKeepsHead | src/Path.php:155-158 | The clean-up keeps the first two characters of a path that starts with a separator followed by a name character |
| Paths.DirRealPath | src/Dir.php:17-19 | Dir::realPath is realPath's result followed by exactly one separator; a Dir path always ends in one separator and never has two in a row |
| Paths.RootPath | src/Dir.php:26-32 | The bare separator is the root: realPath turns it into "", Dir::realPath into "/", and isRoot holds of it |
| Paths.IsRoot | src/Dir.php:26-32 | Dir::isRoot on the Unix family: the Dir path is exactly the separator |
| Paths.IsAbsolute | src/Path.php:123-133 | isAbsolute on the Unix family: the first character is the separator; the empty path is relative |
| Paths.Basename | src/Path.php:89-92 | getName's basename never contains a separator |
| Paths.Dirname | src/Path.php:113 | PHP's dirname on Unix paths: "" stays "", separators only give "/", no separator gives ".", otherwise what precedes the last separator without its trailing separators, or "/" when nothing does; the Dirname lemmas below state its properties |
| Paths.DirnameOfAbsolute | src/Path.php:108-114 | dirname of an absolute path is absolute, and shorter than the path without its trailing separators unless it is "/" |
| Paths.DirnameOfRelative | src/Path.php:108-114 | dirname of a non-empty relative path is relative and non-empty |
| Paths.ParentOfAbsolute | src/Path.php:108-114 | getParent of a non-root absolute Dir path is "/" or a shorter path |
| Paths.DirParent | src/Path.php:108-114 | getParent of a Dir: none for the root, otherwise the Dir of dirname(path); ParentOfAbsolute and ParentOfCanonical state where it lands |
| Paths.ParentDirPathDecreases | src/Dir.php:124-137 | Each getParent step of isWritable's loop lowers a well-founded measure, so the walk ends |
| Paths.ParentOfCanonical | src/Path.php:108-114 | On a canonical location, getParent of the File, and of the non-root Dir, is the parent location with one separator, and getName is the last segment |
| Paths.DirnameOfCanonical | src/Path.php:108-114 | dirname of a canonical location, with or without a trailing separator, is its parent location ("/" for a top-level entry); basename is its name |
| Paths.PathInfoParts | src/File.php:238-242 | The name parts load stores: the basename; no extension exactly when the basename has no dot, and then the filename is the whole basename; otherwise filename, dot and an extension without dots make up the basename |
| Paths.PathInfo | src/File.php:238-242 | pathinfo's basename, filename and extension, split at the basename's last dot; PathInfoParts states how they make up the basename |
| Paths.PathInfoAt | src/File.php:238-242 | The parts are found from the last separator and the last dot after it |
| Paths.PathInfoWithExtension | src/File.php:238-242 | "/tmp/favicon.png" splits into "favicon.png", "favicon" and "png" |
| Paths.PathInfoOfDotFile | src/File.php:238-242 | ".empty" has an empty filename and the extension "empty" |
| Paths.RootOfAbsolute | src/Path.php:50-64 | When the library's own file path is absolute, getRoot is the Dir "/" |
| Paths.GetRoot | src/Path.php:50-64 | The character loop returns the Dir of the reference path up to and including its first separator, or none when it has none |
| Paths.Join | src/Path.php:190-192 | join's result neither starts nor ends with a separator |
| Paths.JoinKeepsInnerSeparators | src/Path.php:190-192 | join trims only the ends: ["/a/", "b/"] gives "a//b" |
| Paths.JoinAsAbsolute | src/Path.php:201-203 | joinAsAbsolute is the root's path followed by the imploded segments; with an absolute library path it is "/" followed by them |
| Dirs.IsWritable | src/Dir.php:119-139 | The while loop answers what the walk specifies: the writability of the first existing directory met through getParent, false once the root has no existing directory, NotADirectory when a file is met first |
| Dirs.Exists | src/Dir.php:97-100 | Dir::exists: NotADirectory when a file is at the path, otherwise whether a directory is there |
| Dirs.IsReadable | src/Dir.php:108-111 | Dir::isReadable: NotADirectory when a file is at the path, otherwise is_readable |
| Dirs.WalkWritable | src/Dir.php:119-139 | The ancestor walk of isWritable: NotADirectory at a non-directory, the flag of the first existing directory, false past the root; WalkWritableOnTree states it on the tree |
| Dirs.WalkAtExisting | src/Dir.php:127-129 | At an existing location the walk answers that directory's writability, or NotADirectory for a file |
| Dirs.WalkAtMissing | src/Dir.php:132-137 | At a missing location the walk answers what it answers for the parent |
| Dirs.WalkWritableOnTree | src/Dir.php:119-139 | From a canonical location, the walk over path strings gives the writability of the deepest existing location at or above it |
| Dirs.Touch | src/Dir.php:148-164 | Dir::touch leaves an existing directory alone and otherwise creates it with `mkdir -p` when isWritable holds, or fails with PathNotWritable; a failing mkdir goes unreported |
| Dirs.TouchOn | src/Dir.php:148-164 | Dir::touch on a tree: NotADirectory for a file, success for an existing directory, the walk's error or PathNotWritable, else mkdir -p with its result ignored; the Touch lemmas below state the outcome |
| Dirs.TouchKeeps | src/Dir.php:148-164 | touch keeps every node; the nodes it adds are readable, writable directories at or above the target |
| Dirs.TouchMakesDir | src/Dir.php:148-164 | Whenever touch succeeds, a directory is at the location afterwards |
| Dirs.TouchWritableDir | src/Dir.php:148-164 | When the walk up the tree finds a writable directory, touch succeeds and leaves a writable directory |
| Dirs.TouchCreatesDir | src/Dir.php:150-157 | A missing directory that isWritable allows is created readable and writable |
| Dirs.TouchExisting | src/Dir.php:148-149 | touch on an existing directory succeeds and changes nothing |
| Dirs.TouchIdempotent | src/Dir.php:148-164 | After a successful touch, a second touch succeeds and changes nothing |
| Dirs.Handles | src/Dir.php:53-63 | The foreach appends, in glob order, the handle for each globbed path |
| Dirs.ListDirectory | src/Dir.php:43-66 | listDirectory fails with NotADirectory when a file is at the path, with PathNotReadable when nothing readable is there, and otherwise returns the handles of the globbed paths |
| Dirs.ListOn | src/Dir.php:43-66 | listDirectory on a tree: NotADirectory, then PathNotReadable, else the handles of the globbed paths; ListOnTree states the listing on the tree |
| Dirs.EntryForCanonical | src/Dir.php:57-62 | The handle for an existing entry points back at it and has its kind |
| Dirs.ListOnTree | src/Dir.php:43-66 | A readable directory lists exactly its entries whose names the pattern accepts, in enumeration order, each as the File or Dir handle for it |
| Dirs.ListOnSucceeds | src/Dir.php:43-52 | A listing succeeds only for a readable directory, and is then the listing on the tree |
| Dirs.ChildrenSmaller | src/Dir.php:81-86 | Each subdirectory in a listing is an entry of the directory, and its subtree is smaller, so findRecursive's descent ends |
| Dirs.FindRecursive | src/Dir.php:77-89 | findRecursive returns the pattern's matches in this directory, then, for each subdirectory in listing order, its own findings (pre-order); the first failure is returned |
| Dirs.FindSpec | src/Dir.php:77-89 | findRecursive on a tree: the listing's error, else the matches followed by each subdirectory's findings in listing order; FindSound, FindComplete and FindOnce state what it returns |
| Dirs.FindInSubdirectories | src/Dir.php:81-86 | The loop over the children appends each subdirectory's findings in order, whether or not it matches the pattern |
| Dirs.ListingFound | src/Dir.php:43-66 | Every listed handle is one for an entry of the directory whose name the pattern accepts |
| Dirs.FindSound | src/Dir.php:77-89 | Everything findRecursive returns is the handle of a node strictly inside the directory whose name the pattern accepts |
| Dirs.FindComplete | src/Dir.php:77-89 | When findRecursive succeeds, the handle of every node strictly inside the directory whose name the pattern accepts is among its findings |
| Dirs.FindOnce | src/Dir.php:77-89 | findRecursive returns no node twice: its findings point at pairwise different locations |
| Files.ValidateMimeExtension | src/File.php:294-316 | The result is the extension the table gives for the MIME type, or the file's own extension when that is "svg" in any case |
| Files.ValidateKeepsSvg | src/File.php:294-316 | The file's own extension wins exactly when it is "svg" and the table's is "html", both compared ignoring case; otherwise the table's wins |
| Files.ValidateExamples | src/File.php:294-316 | "logo.SVG" sniffed as HTML keeps "SVG"; a .png sniffed as HTML gets "html" |
| Files.FixMimeSettles | src/File.php:272-276 | After the fix-up the type is never the bare "image/svg", and fixing twice changes nothing more |
| Files.FixMime | src/File.php:272-276 | The switch that turns a bare "image/svg" into "image/svg+xml" and keeps every other type; FixMimeSettles states it |
| Files.ParseMimeType | src/File.php:264-283 | parseMimeType: the content sniffer's answer, corrected by FixMime, when the host has one; otherwise the extension table's answer for the path |
| Files.IsWritableAt | src/File.php:418-421 | File::isWritable on a path is what FileWritable specifies |
| Files.FileWritableOnTree | src/File.php:418-421 | An existing file is writable exactly when its flag says so; a missing one exactly when the nearest existing directory above it is writable; a directory at the path is NotAFile |
| Files.FileExists | src/File.php:395-398 | File::exists: NotAFile when something other than a file is at the path, otherwise whether a file is there |
| Files.FileReadable | src/File.php:406-409 | File::isReadable: NotAFile when something other than a file is at the path, otherwise is_readable |
| Files.FileWritable | src/File.php:418-421 | File::isWritable: NotAFile as in exists; true for a writable node, false for a read-only file, otherwise Dir::isWritable of the parent; FileWritableOnTree states it on the tree |
| Files.DeleteAt | src/File.php:465-481 | Deleting through a path does what File::delete specifies |
| Files.File.constructor | src/Path.php:71-82 | new File(path) stores realPath(path) with an empty cache |
| Files.File.Init | src/File.php:37-47 | init re-points the handle at realPath(path) and drops all six cached values |
| Files.File.Load | src/File.php:235-243 | load fills the name parts from pathinfo unless all three are cached; the path, size and MIME caches are unchanged |
| Files.File.GetName | src/File.php:323-325 | getName is the basename of the path |
| Files.File.GetFilename | src/File.php:328-330 | getFilename is the basename without its last extension |
| Files.File.GetExtension | src/File.php:345-348 | getExtension is the text after the basename's last dot, or null when it has no dot |
| Files.File.IsWritable | src/File.php:418-421 | The handle's isWritable is FileWritable of its path |
| Files.File.Touch | src/File.php:431-456 | touch: NotAFile for a directory; PathNotWritable unless isWritable; then touch the parent (swallowing NotADirectory) and the file |
| Files.File.PutContents | src/File.php:86-101 | putContents: touch, then check isWritable, then write or append the data |
| Files.File.Write | src/File.php:112-114 | write is putContents without append |
| Files.File.Append | src/File.php:125-127 | append is putContents with append |
| Files.File.Delete | src/File.php:465-481 | The handle's delete has exactly the outcome and the tree that Files.DeleteOn gives for its path |
| Files.File.Destination | src/File.php:143-147 | The destination is new File(string), the File itself, or new File(dir . "/" . getName()) for a Dir; only the Dir case loads this handle's name parts |
| Files.File.CopyTo | src/File.php:142-176 | copyTo has exactly the outcome and the tree that Files.CopyToOn gives for the handle's path and the destination; on success the handle points at realPath of the destination with an empty cache; on failure it is unchanged except for the name parts a Dir target loads |
| Files.File.CopyFrom | src/File.php:149-171 | The checks and the write of copyTo, done on the destination handle |
| Files.File.MoveTo | src/File.php:190-228 | moveTo has exactly the outcome and the tree that Files.MoveToOn gives, and re-points the handle as copyTo does |
| Files.File.MoveFrom | src/File.php:199-223 | The checks and the rename of moveTo, done on the destination handle |
| Files.FileAt | src/Path.php:108-114 | A File at a canonical location resolves to it, and its parent Dir is the directory one level up |
| Files.TouchEffect | src/File.php:431-456 | touch keeps every node. Besides the file, the only new nodes are readable and writable directories at or above the file's directory (AddsOnlyFor). On success the file is there and writable, unchanged if it existed, and empty, readable and writable if it is new |
| Files.TouchOn | src/File.php:431-456 | File::touch on a tree: NotAFile, isWritable's error or PathNotWritable, Dir::touch of the parent with NotADirectory swallowed, then touch of the file, a failure being PathNotWritable |
| Files.TouchReadOnly | src/File.php:434-437 | touch on a read-only file fails with PathNotWritable and changes nothing |
| Files.TouchWritable | src/File.php:431-456 | touch on a writable file succeeds and changes nothing |
| Files.TouchCreates | src/File.php:431-456 | touch on a missing file under a writable directory succeeds |
| Files.TouchIdempotent | src/File.php:431-456 | A second touch after a successful one succeeds and changes nothing |
| Files.ReadOnTree | src/File.php:56-74 | read: the bytes of a readable file; PathNotReadable for a missing or unreadable one; NotAFile for a directory |
| Files.ReadOn | src/File.php:56-74 | read succeeds exactly for a readable file and then returns its bytes; otherwise NotAFile when something else is at the path, PathNotReadable when nothing readable is |
| Files.PutEffect | src/File.php:86-101 | putContents succeeds exactly when its touch does. The file then holds the data, after its old bytes when appending. Every other existing node is unchanged, and the only new nodes besides the file are the read-write directories at or above its directory that touch makes |
| Files.PutOn | src/File.php:86-101 | putContents on a tree: touch, isWritable again, then file_put_contents, a failure being PathNotWritable; PutEffect states the outcome |
| Files.PutWrites | src/File.php:86-101 | After a successful touch, putContents succeeds and replaces or extends the file, and every other node that existed before the touch is unchanged |
| Files.WriteThenRead | src/File.php:56-114 | Reading after a write returns exactly the data written |
| Files.AppendThenRead | src/File.php:56-127 | Reading after an append returns the old bytes followed by the new |
| Files.WriteTwice | src/File.php:86-114 | A second write replaces what the first wrote |
| Files.AssertKindOnTree | src/Path.php:166-181 | assertIsFile fails exactly when a directory is at the location, and always for a Dir handle. assertIsDir fails exactly when a file is there, and always for a File handle. Neither fails for a missing path |
| Files.DeleteOnTree | src/File.php:465-481 | delete: PathNotWritable for a missing or read-only file and when unlink fails on a read-only directory; NotAFile for a directory; otherwise exactly that file is removed |
| Files.DeleteShrinks | src/File.php:465-481 | delete removes at most the file at its own location |
| Files.DeleteOn | src/File.php:465-481 | File::delete on a tree: exists's error; PathNotWritable when the file is missing, not writable, or unlink fails; else unlink; DeleteOnTree states the outcome |
| Files.CopyCheckOrder | src/File.php:150-163 | copyTo checks in order: a missing source is NotAFile, an existing destination without overwrite is PathExists, an unreadable source is PathNotReadable; each leaves the tree unchanged |
| Files.CopyUnwritableDestination | src/File.php:165-169 | After its checks pass, copyTo fails with PathNotWritable on the destination when that is a read-only file, or is missing from a read-only directory |
| Files.CopySource | src/File.php:150-163 | copyTo's checks pass only for a readable source file |
| Files.CopyEffect | src/File.php:142-176 | After a successful copyTo the source was a readable file; the destination holds its bytes; every other existing node is unchanged, the source included; the only new nodes besides the destination are read-write directories at or above its directory |
| Files.CopyToOn | src/File.php:142-176 | copyTo on a tree: its checks, NotAFile, PathExists, PathNotReadable, each leaving the tree unchanged; then touch of the destination's directory, PathNotWritable, and a write of the source's bytes |
| Files.MoveCheckOrder | src/File.php:199-217 | moveTo checks in order: a missing source is NotAFile, an existing destination is PathExists even when it could be overwritten, then an unreadable source and then a read-only one; each leaves the tree unchanged |
| Files.MoveChecksPass | src/File.php:199-217 | A successful moveTo had a readable, writable source file and nothing at the destination |
| Files.MoveEffect | src/File.php:190-228 | After a successful moveTo no existing node other than the source changes, and the only new nodes besides the destination are read-write directories at or above its directory. When the source's directory is writable, the source is gone and the destination holds it, bytes and permissions. When it is not, moveTo still succeeds, but the source stays as it was and nothing is at the destination |
| Files.MoveToOn | src/File.php:190-228 | moveTo on a tree: NotAFile, PathExists even with overwrite, PathNotReadable, PathNotWritable for the source, each leaving the tree unchanged; then touch of the destination's directory, PathNotWritable, and rename with its result ignored |
| Files.RenameMoves | src/File.php:223 | rename into a writable directory changes no node but the source and the destination. It moves the node when the source's directory is writable too, and changes nothing when it is not |
| DirTree.DeleteOn | src/Dir.php:173-188 | Dir::delete only ever removes nodes and changes none it keeps |
| DirTree.ClearOn | src/Dir.php:198-211 | Clearing only ever removes nodes and changes none it keeps |
| DirTree.Delete | src/Dir.php:173-188 | Dir::delete: NotADirectory when no directory is there, PathNotWritable when it is read-only, then clear and rmdir, ignoring rmdir's result |
| DirTree.Clear | src/Dir.php:198-211 | Dir::clear as written deletes every listed entry in listing order, stopping at the first failure, whatever the exclude patterns say |
| DirTree.DeleteListed | src/Dir.php:200-210 | The foreach of clear as written: the inner loop's break leaves only that loop, so every entry is deleted |
| DirTree.ClearExcept | src/Dir.php:190-211 | Clearing as documented: every listed entry except those whose name a pattern accepts is deleted |
| DirTree.DeleteUnexcluded | src/Dir.php:200-210 | The foreach that skips the entries a pattern accepts |
| DirTree.Matches | src/Dir.php:203-207 | The inner loop finds a match exactly when one of the patterns accepts the name |
| DirTree.DeleteEntry | src/Dir.php:209 | `$path->delete()` on a listed handle is File::delete for a file and Dir::delete for a directory |
| DirTree.DeleteCheckOrder | src/Dir.php:173-184 | Dir::delete fails with NotADirectory when no directory is at the location, then with PathNotWritable when it is read-only, and changes nothing in either case |
| DirTree.DeleteFacts | src/Dir.php:173-188 | Dir::delete removes nothing outside the directory. On success the directory was writable and nothing is left inside it. It is itself gone exactly when it is not the root and its parent is writable |
| DirTree.ClearEffect | src/Dir.php:198-211 | clear as written keeps the directory and everything outside it. On success only empty subdirectories may be left inside, and only when the directory is read-only. A writable directory is left empty |
| DirTree.ClearLeavesEmpty | src/Dir.php:198-211 | After a successful clear of a writable directory, the directory lists nothing |
| DirTree.ClearFacts | src/Dir.php:190-211 | Clearing with patterns keeps everything outside the directory and everything at or inside an excluded entry. On success the directory was readable and only empty subdirectories of a read-only directory remain among the other entries |
| DirTree.ClearExceptKeeps | src/Dir.php:190-197 | Clearing as documented keeps every node at or inside an entry whose name a pattern accepts |
| DirTree.ClearDeletesExcluded | src/Dir.php:203-209 | clear as written removes a file whose name a pattern accepts whenever it succeeds; clearing as documented keeps it |
| DirTree.DeleteEachFacts | src/Dir.php:200-210 | The loop keeps every node no deleted entry covers. On success, each deleted entry has nothing left at or inside it, except an empty directory when the parent is read-only |
| DirTree.DeleteEntryFacts | src/Dir.php:209 | Deleting one listed entry removes nothing outside it. On success nothing is left of it, except an empty directory in a read-only parent |
| DirTree.Write | src/Dir.php:225-258 | Dir::write has exactly the outcome and the tree that DirTree.WriteOn gives for the item's payload; on success a File item is re-pointed at realPath(dir . "/" . name) with an empty cache; on failure it keeps its path |
| DirTree.WriteOn | src/Dir.php:225-258 | Dir::write on a tree: the walk's error or PathNotWritable; nothing for a Dir item; for a File item, touch, PathExists when the name is taken without overwrite, else copy with its result ignored |
| DirTree.ResolveJoined | src/Dir.php:237 | The destination write builds, a Dir path plus "/" plus the name, names the entry of that name in the directory |
| DirTree.WriteChecks | src/Dir.php:225-254 | write fails with NotADirectory when a file is at the directory, with PathNotWritable when the directory is read-only, and changes nothing in either case; a Dir item never changes the tree |
| DirTree.WriteRefusesTaken | src/Dir.php:236-240 | Without overwrite, a name already taken in the directory is PathExists on the destination, and nothing changes |
| DirTree.WriteCopies | src/Dir.php:233-246 | Into a writable directory, a readable source whose name is free, or names a writable file when overwrite is on, is copied. That entry then holds the source's bytes, no other node changes, and it is the only node that can be new |
| DirTree.WriteIgnoresFailedCopy | src/Dir.php:243-246 | copy's result is ignored: with overwrite on and a directory at the destination, write reports success and changes nothing |

## Left out

- **The operating system.** Real OS calls are replaced by functions on the in-memory tree. Permissions are two flags per node for the current user. Timestamps, sizes on disk, links, and `clearstatcache` are not modelled.
- **Windows.** Only the Unix family is modelled, with the separator `/`. The Windows branches of `isAbsolute` and `isRoot` are not modelled. The host's OS name is a parameter, and a host is required to be Unix under the corrected detection.
- Os.Host.constructor: a host named "Darwin" is admitted and runs the Unix branches of `isAbsolute` and `Dir::isRoot`, as the corrected detection decides. As written, getOS and the `stristr` at src/Dir.php:29 take Darwin's Windows branches, which are not modelled.
- Os.Host.constructor: the library's own directory must be a canonical location whose first segment does not start with a dot. This excludes `/` and an install under `/.opt/src`. The condition gives the termination measure of isWritable's walk over relative paths; such install locations are not modelled.
- **Path lookup.** A path with a `.` or `..` segment left after `realPath`, or a relative one, names no node. It is treated as missing and as impossible to create.
- **glob.** It is an oracle. It returns a directory's entries in the tree's enumeration order, filtered by a name predicate standing for the pattern. The default `*` accepts every name, dot files included. Brace and wildcard syntax are not modelled.
- **MIME detection.** `mime_content_type` and the MimeTypes table are function parameters. The size and MIME half of `File::load` reads the disk and swallows exceptions. Only its name-parts half is modelled, so `getSize`, `getMimeType` and `getExtension(true)` are not.
- **Timestamps.** `getLastAccessedTime` and `getLastModifiedTime` read the clock through `fileatime`/`filemtime`, which the model does not have.
- **Error handling.** `disableErrorHanding` and `restoreErrorHanding` are not part of this model. They only silence PHP warnings.
- **Exceptions.** Exception classes become one error datatype carrying the path. Message formatting is not modelled.
- **preg_match.** In `Dir::clear` it is a name predicate per pattern. Regular-expression syntax is not modelled.
- **Dir::write's item type.** The item is a File or a Dir by construction, so its InvalidArgument branch cannot be reached. The Dir branch is a no-op, as in the source.
- **Ignored results.** These are modelled exactly as written: the results of `rename` (moveTo), `copy` (Dir::write) and `rmdir` (Dir::delete) are not checked, and `Dir::touch` builds but never throws its exception when mkdir fails. So moveTo out of a read-only directory reports success while nothing moves (see Files.MoveEffect).
- **Concurrency.** The library has none.

## Findings

| source | as written | input that shows it | evidently intended | confidence | as-written member | corrected member |
|---|---|---|---|---|---|---|
| src/Path.php:31-33 | getOS answers WIN whenever "WIN" occurs anywhere in the OS name, ignoring case | macOS reports "Darwin", which contains "win", so getOS says WIN | Windows exactly when the name begins with "WIN" (WINNT, WIN32, Windows) | not executed | Paths.GetOSDarwin | Paths.OsFamilyRefinesGetOS |
| src/Dir.php:203-209 | The `break` on a matching pattern leaves only the inner loop, so `$path->delete()` runs for every entry | clear with a pattern accepting the name of a file in the directory; when clear succeeds the file is gone | Entries whose name a pattern accepts are skipped, as the doc comment says | not executed | DirTree.ClearDeletesExcluded | DirTree.ClearExceptKeeps |
