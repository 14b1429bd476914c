# image-viewer safety net, modelled in Dafny

image-viewer is a small local web server for browsing a directory of
pictures. Its one piece of real logic is a **safety net**: before a file is
deleted or renamed through the web interface, a copy of it is kept in a
hidden `.safety_net` directory next to it. `.safety_net/index.txt` lists,
one per line, the SHA-256 of every content already backed up there
(64 lowercase hexadecimal digits), so a content is normally copied only once. The
copy is named `<stem>_<first 8 hex digits>.<ext>`, or
`<stem>_<first 8 hex digits>.bak` when the file has no extension.

The model covers:

- the filesystem (`filesystem.dfy`): a `FileSystem` object holding a map
  from paths to bytes and a set of directories, with one method per
  standard-library call the server makes. Every call can fail, and which
  call fails is chosen nondeterministically, so everything proved holds
  whatever fails. The filesystem a request starts from is arbitrary: any
  files and directories, a path being a file or a directory but not both.
  A ghost log records, in order and with their outcome, the operations
  that create directories, open, read as text, copy, append to, remove or
  rename; the `exists`, `is_file` and `is_dir` probes, each chunk read,
  `fs::read` and `read_dir` are not logged;
- `calculate_file_hash` and `create_backup` (`backup.dfy`), specified by
  the sequence of operations a run performs and the files it leaves. The
  properties of every run are proved in `backup_facts.dfy`: the backup
  writes only inside the sidecar directory, the index only grows, the
  index is appended to only after a full copy, a listed hash is not
  copied again once the index has been read, and a second backup is a
  no-op when the index ended with a line break and is read. Both
  conditions matter: when the `exists` probe of the index fails, the
  index is not read and the content is copied again; and when an earlier
  append was cut short before its line break, the next hash is glued to
  that partial line, so it is not listed and a later backup copies again;
- the delete and rename handlers (`handlers.dfy`): they check the
  request first, then back up, and only then change the filesystem,
  whatever the backup's outcome; and the image-serving handler, which
  only reads the file;
- the directory listing (`listing.dfy`): which entries are shown and the
  in-place sort that orders them; and which extensions count as images
  and what content type a file is served with (`images.dfy`);
- the pieces of the standard library these rely on: `std::path`
  components, stem and extension (`paths.dfy`), lowercase hex
  (`hex.dfy`), UTF-8 decoding, `str::lines` and ASCII lower-casing
  (`text.dfy`).

SHA-256 is a parameter `sha` of type `seq<Byte> -> Digest` (any function
giving 32 bytes), so nothing depends on its internals.

The backup name follows src/main.rs:108, which tests the extension for
emptiness: a file whose extension is empty (a name ending in '.', such as
`notes.`) gets the `.bak` suffix just like a file with no extension.

## Model

| member | source | states |
|---|---|---|
| Text.AsciiBytesAppend | src/main.rs:125 | the bytes of two ASCII strings written one after the other are the bytes of their concatenation |
| Text.DecodeAscii | src/main.rs:92 | ASCII bytes read back as text give the same string |
| Text.DecodeAppend | src/main.rs:92 | reading as text a file made of two well-formed parts gives the two texts joined |
| Text.FirstNewline | src/main.rs:93 | the position found is the first '\n' of the text, and none means there is none |
| Text.LinesAppend | src/main.rs:93 | the lines of a text that ends with a line break followed by more text are the lines of each part |
| Text.LinesAppendLine | src/main.rs:93 | appending a line and '\n' to a text that ends with a line break adds exactly that line (without a trailing '\r') to its lines |
| Text.LinesOfOneLine | src/main.rs:93 | a line followed by '\n' is one line |
| Text.Decode | src/main.rs:92 | well-formed UTF-8 text has at most as many characters as bytes and at least a quarter as many |
| Text.Lines | src/main.rs:93 | no line holds a '\n', there are at most as many lines as characters, and only the empty text has no line |
| Text.Lower | src/main.rs:135 | lower-casing keeps the length, leaves no capital A-Z, turns each capital into its small letter and keeps every other character |
| Text.LowerIdempotent | src/main.rs:135 | lower-casing a lower-cased string changes nothing |
| Text.LexLeqTotal | src/main.rs:195 | of two strings one is lexicographically at most the other |
| Text.LexLeqTransitive | src/main.rs:195 | the lexicographic order of strings is transitive |
| Hex.HexDigit | src/main.rs:73 | each value below 16 has one lowercase hex digit that reads back as that value |
| Hex.ToHex | src/main.rs:73 | the lower-case hexadecimal formatting of bytes has two lowercase hex digits per byte |
| Hex.FromHexToHex | src/main.rs:73 | reading the hex back gives the bytes again |
| Hex.ToHexInjective | src/main.rs:73 | different digests give different hash strings, so comparing strings compares digests |
| Hex.FileHash | src/main.rs:60-74 | a file's hash is 64 lowercase hex digits, whatever its content, so its first 8 digits always exist |
| Hex.HexIsPlainText | src/main.rs:125 | a hash is ASCII and contains no line break, so its line in the index is exactly the hash |
| Paths.Path.Parent | src/main.rs:79-80 | only the root and the empty path have no parent; otherwise the parent is the path without its last component |
| Paths.Path.Child | src/main.rs:83 | joining a name gives a path whose parent is the base and whose last component is the name |
| Paths.Path.Join | src/main.rs:294 | an absolute argument replaces the base; a relative one gives a path that starts with the base's components and ends with its own, absolute when the base is |
| Paths.JoinName | src/main.rs:83 | joining a single relative name is taking a child: the base is the result's parent |
| Paths.Path.FileName | src/main.rs:168 | the file name is the last component, missing for the root, the empty path and names "." and ".."; a path with a file name is that name joined to its parent |
| Paths.ChildFileName | src/main.rs:168 | the file name of a child is the name it was made with, unless that is "." or ".." |
| Paths.Path.FileStem | src/main.rs:100-102 | a stem exists exactly when a file name does; it is the whole name without an extension, otherwise a non-empty part that with '.' and the extension gives the name back |
| Paths.Path.Extension | src/main.rs:104-106 | an extension exists only with a file name and has no '.'; a name without one has no '.' after its first character |
| Paths.LastDot | src/main.rs:100-106 | the index found holds the last '.' of the name, and none means the name has no '.' |
| Paths.SplitFileName | src/main.rs:100-106 | stem and extension joined by '.' give the name back and the extension has no '.'; no extension means the stem is the whole name and the name has no '.' after its first character (or is "..") |
| Paths.SplitFileNameJoin | src/main.rs:100-112 | a non-empty stem and a dot-free extension joined at a '.' split back into the same two, unless the name is ".." (stem ".", empty extension) |
| FileSystems.Ancestry | src/main.rs:84 | what `create_dir_all` may create: the directory itself and its non-empty prefixes |
| FileSystems.FileSystem.Exists | src/main.rs:91 | `exists` answers true only for an existing file or directory, never for the empty path (and may answer false when the metadata cannot be read) |
| FileSystems.FileSystem.IsFile | src/main.rs:262 | `is_file` answers true only for a regular file |
| FileSystems.FileSystem.IsDir | src/main.rs:174 | `is_dir` answers true only for a directory, never for the empty path |
| FileSystems.FileSystem.CreateDirAll | src/main.rs:84 | on success the directory and its ancestors exist; any outcome only adds directories among those, files untouched, the operation logged |
| FileSystems.FileSystem.Open | src/main.rs:61 | opening succeeds only for an existing file; the operation is logged |
| FileSystems.FileSystem.Read | src/main.rs:66 | a read puts the next bytes of the file in the buffer, returns 0 exactly at the end of the file, never more than the buffer holds |
| FileSystems.FileSystem.ReadDir | src/main.rs:158-159 | on success the directory exists and its entries are exactly the files and directories directly inside it |
| FileSystems.FileSystem.ReadAll | src/main.rs:228-229 | on success the bytes are the file's contents |
| FileSystems.FileSystem.ReadToString | src/main.rs:92 | on success the file's bytes are well-formed UTF-8 decoding to the text; the operation is logged |
| FileSystems.FileSystem.Copy | src/main.rs:117 | on success the destination holds the source's bytes (an existing file is overwritten); on failure nothing changed or the destination holds a prefix of them; logged |
| FileSystems.FileSystem.Append | src/main.rs:120-125 | on success the text's bytes follow the old contents (a missing file is created); on failure nothing changed or part of the text was written; logged |
| FileSystems.FileSystem.Remove | src/main.rs:272-273 | on success the file is gone and nothing else changed; on failure nothing changed; logged |
| FileSystems.FileSystem.Rename | src/main.rs:307-308 | on success the old path is gone and the new one holds its bytes, replacing any file there; on failure nothing changed; logged |
| SafetyNet.SidecarDir | src/main.rs:83 | the sidecar directory is a sibling of the file named `.safety_net` |
| SafetyNet.IndexPath | src/main.rs:90 | the index is the entry `index.txt` of the sidecar directory |
| SafetyNet.BackupPath | src/main.rs:114 | the copy is the entry of the sidecar directory named by the backup name, and never the index |
| SafetyNet.BackupFileName | src/main.rs:99-112 | the backup name is never the index's name |
| SafetyNet.BackupNameParts | src/main.rs:100-114 | the backup's stem is the original stem (or "file") + "_" + the first 8 hash digits, and its extension the original one, or "bak" when that is missing or empty |
| SafetyNet.CalculateFileHash | src/main.rs:60-74 | on success the hash is that of exactly the file's bytes, fed in order in chunks of 1 to 8192 bytes; only the open is logged |
| SafetyNet.AppendedHashIsIndexed | src/main.rs:119-125 | appending a hash line to a well-formed index makes the hash its new last line and keeps the index well-formed |
| SafetyNet.IndexLists | src/main.rs:89-97 | when the index is read and one of its lines is the hash, the answer is yes; when it is not seen or lists no such line, no; a failed read is an error |
| SafetyNet.CopyAndRecord | src/main.rs:114-125 | copy the file to its backup path, then append the hash and a line break to the index only if the copy succeeded; true exactly when the append succeeded; the files follow these operations |
| SafetyNet.StoreBackup | src/main.rs:89-127 | after hashing: stop on a read error or a listed hash, otherwise copy and then append the hash, only after a successful copy; the files follow these operations; success exactly when the hash was listed or the append succeeded |
| SafetyNet.HashAndStore | src/main.rs:86-127 | hash the file first: a failed open or read ends the run with only the open logged; otherwise go on as `StoreBackup` with the hash of the file's bytes |
| SafetyNet.CreateBackup | src/main.rs:77-128 | a path without a parent fails before any operation; otherwise the sidecar directory is created, then the file hashed, then the index checked, copy and append as above; each run stops at its first failure; the files follow the operations; directories only gain the sidecar and its ancestors, and once the sidecar was made (always, on success) it and its ancestors are directories |
| BackupFacts.FileIsNotInSidecar | src/main.rs:83 | the file backed up is not an entry of its own sidecar directory and is not the index |
| BackupFacts.SidecarEntries | src/main.rs:90-114 | the backup copy and the index are two different entries of the sidecar directory |
| BackupFacts.LastOfTrace | src/main.rs:89-125 | a run that ended with a copy copied the file to its backup path; one that ended with an append did so right after a successful copy and appended the file's hash; one that ended by reading the index found the hash listed |
| BackupFacts.LastOperation | src/main.rs:84-125 | a run that did not end with a copy or an append changed no file; one that did changed exactly the backup path, or the backup path and then the index, as those operations say |
| BackupFacts.WritesStayInSidecar | src/main.rs:84-125 | whatever fails, a backup changes nothing outside the sidecar directory; the original file keeps its bytes |
| BackupFacts.IndexOnlyGrows | src/main.rs:119-125 | the index is append-only: the old index is a prefix of the new one, it is never removed, and it is unchanged unless the run ended by appending |
| BackupFacts.AppendFollowsCopy | src/main.rs:114-125 | an append to the index comes right after a successful copy, appends the hash and a line break, and the backup then holds exactly the file's bytes |
| BackupFacts.FailedCopy | src/main.rs:117 | a failed copy leaves the index unchanged and at most a prefix of the file at the backup path, and the backup fails |
| BackupFacts.ListedHashIsNotCopied | src/main.rs:89-96 | when the index lists the hash and is read, the backup succeeds with no copy, no append and no change |
| BackupFacts.SuccessfulRun | src/main.rs:89-127 | a successful backup either found the hash listed and changed nothing, or copied the file to its backup path and appended the hash to the index |
| BackupFacts.SuccessListsHash | src/main.rs:114-125 | after a successful backup on a well-formed index, the index lists the hash of the unchanged file and stays well-formed |
| BackupFacts.SecondBackupIsNoOp | src/main.rs:89-125 | backing up unchanged content a second time, once the first succeeded on an index that ended with a line break, changes nothing and copies nothing as soon as the index is read |
| BackupFacts.FirstBackup | src/main.rs:114-125 | the first successful backup into a sidecar without an index leaves an index whose only line is the hash and a byte-identical copy |
| BackupFacts.PhotoBackupName | src/main.rs:99-112 | `photo.jpg` is backed up as `photo_<8 digits>.jpg` |
| BackupFacts.ReadmeBackupName | src/main.rs:99-112 | `README` is backed up as `README_<8 digits>.bak` |
| BackupFacts.TrailingDotBackupName | src/main.rs:99-112 | `notes.` (an empty extension) is backed up as `notes_<8 digits>.bak` |
| BackupFacts.DotFileBackupName | src/main.rs:99-112 | `.bashrc` (a leading dot starts no extension) is backed up as `.bashrc_<8 digits>.bak` |
| Images.IsImageFile | src/main.rs:131-139 | an image has an extension of three or four characters and a non-empty stem |
| Images.MediaType | src/main.rs:237-246 | every image extension gets an image type, and "tif" is the only extension given an image type without being an image extension |
| Images.ContentType | src/main.rs:232-247 | every type is `application/octet-stream` or starts with "image/"; every file the listing calls an image gets an image type; "tif" is the only image type for a file not listed as an image |
| Images.UpperCaseJpegIsImage | src/main.rs:131-139 | `photo.JPG` is an image (its lower-cased extension is listed), and the content-type match of lines 232-247 serves it as `image/jpeg` |
| Images.TifIsServedNotListed | src/main.rs:131-139 | `scan.TIF` is not an image ("tif" is not a listed extension), yet the content-type match of lines 232-247 serves it as `image/tiff` |
| Images.DotPngIsNoImage | src/main.rs:131-139 | `.png` has no extension, so it is not an image and the content-type match of lines 232-247 serves it as `application/octet-stream` |
| Handlers.ServeImageHandler | src/main.rs:220-253 | a path that is not a file gives NOT_FOUND; a successful answer carries the file's bytes and the content type of its extension; otherwise INTERNAL_SERVER_ERROR |
| Handlers.DeleteFileHandler | src/main.rs:256-276 | a missing file gives NOT_FOUND with nothing done; otherwise the backup runs, then the file is removed whatever the backup's outcome; OK exactly when the removal succeeded, which leaves the files the backup left minus the file; only the sidecar and its ancestors can become directories, and they are directories when no warning was given |
| Handlers.DeletedBytesRecoverable | src/main.rs:262-273 | after a delete whose backup succeeded on a well-formed index (absent, or text ending with a line break), the index lists the deleted content's hash, and a fresh copy holds exactly the deleted bytes |
| Handlers.RenameTarget | src/main.rs:289-294 | a relative new name is resolved in the old file's directory (a plain name stays in it), an absolute one is used as is |
| Handlers.RenameFileHandler | src/main.rs:279-311 | a missing source gives NOT_FOUND, and CONFLICT is given only for an existing target, in both cases with nothing done (a failing `exists` probe on an existing target lets the rename go on and replace it); otherwise backup then rename whatever the backup's outcome; OK exactly when the rename succeeded, the target then holding the source's original bytes; only the sidecar and its ancestors can become directories, and they are directories when no warning was given |
| Listing.CompareStrings | src/main.rs:195 | equal exactly for equal strings, not greater exactly when lexicographically at most |
| Listing.CompareEntries | src/main.rs:191-196 | equal exactly for entries of the same kind whose names differ only in case; less exactly for a directory before a file, or the same kind with the lower-cased name strictly first |
| Listing.InOrderMeaning | src/main.rs:191-196 | an entry may come first when it is a directory and the other is not, or both are of the same kind and its lower-cased name comes first |
| Listing.InOrderTotal | src/main.rs:191-196 | the comparator orders any two entries |
| Listing.InOrderTransitive | src/main.rs:191-196 | the comparator is transitive |
| Listing.SortedListing | src/main.rs:190-197 | in a sorted listing every directory comes before every file, and within each group the lower-cased names are non-decreasing |
| Listing.SwapStep | src/main.rs:191-197 | one step of insertion keeps both sorted halves |
| Listing.InsertionDone | src/main.rs:191-197 | an insertion that stops at a smaller neighbour leaves the prefix sorted |
| Listing.Insert | src/main.rs:191-197 | inserting the next entry sorts one more entry in place, a permutation that leaves the rest alone |
| Listing.SortEntries | src/main.rs:191-197 | the sort leaves the entries sorted and a permutation of what they were |
| Listing.SidecarNotShown | src/main.rs:167-172 | no entry the listing shows is named `.safety_net` |
| Listing.SelectEntries | src/main.rs:161-188 | every entry kept has a visible name, is a directory or an image, an image exactly when not a directory with an image extension; every visible image file is kept; a failing entry is an error |
| Listing.ListDirectory | src/main.rs:141-211 | a result is only given for a directory, names it and its parent, holds only shown entries, every visible image file, sorted; otherwise NOT_FOUND, BAD_REQUEST or INTERNAL_SERVER_ERROR |

## Left out

- The axum router, request extraction, JSON serialisation, the HTML page and `main` (server start-up, banners, opening a browser): HTTP plumbing and I/O with no logic of their own. A handler's request string is taken as an already parsed path.
- `AppState.current_directory`, written by the listing under a lock and never read: its only role is shared state between concurrent requests.
- Concurrency: requests are sequential in the model, so the race between two backups reading and appending the same index is not modelled.
- SHA-256 internals: the digest is any function from bytes to 32 bytes.
- Operating-system error kinds and messages: every failure is the same `IoError`, and the reason a call fails is not modelled (permissions, a full disk, a device error).
- `urlencoding::decode` and its BAD_REQUEST answer: the image handler starts from the decoded path.
- `to_str` and `to_string_lossy` on file names: names are sequences of Unicode scalar values, so they never fail to convert.
- Text.Lower: lower-cases only the ASCII letters A-Z, where `to_lowercase` covers all of Unicode. For extensions this is exact (the only non-ASCII letter that lowers to an ASCII letter is the Kelvin sign, and no image extension has a 'k'); listing order between names with non-ASCII capitals is not modelled.
- Paths are sequences of components as `std::path` splits them; parsing a string into components, "." and ".." resolution, symbolic links, the current directory and Windows prefixes are not modelled, and relative and absolute paths to the same file are different keys.
- Handlers.RenameFileHandler: the BAD_REQUEST answer for a source without a parent cannot happen, because a regular file always has a parent directory; the model shows this rather than modelling the branch. Renaming a directory is not modelled either, since the handler only renames regular files.
- FileSystems.FileSystem.CreateDirAll: does not say in which order the missing ancestors are created, only which may exist after a failure.
- FileSystems.FileSystem.Open: opening a directory fails in the model, where on Linux `File::open` succeeds and the first read fails; either way the hash ends in an error before any write, so only the logged outcome of the open differs.
- The `eprintln!` of a failed backup is modelled as the handler's returned warning, not as output.
- Listing.SortEntries: an insertion sort stands for the standard library's stable merge sort; that entries comparing equal keep their order is not stated.
- Listing.ListDirectory: a directory whose `is_dir` probe fails is treated as a file, as in the program, so directories are not promised to be listed; only image files are.
