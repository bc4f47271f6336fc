# Repository packer: a Dafny model

This project models `pack_repository` from `packer.py`, together with the parsing of the two comma-separated ignore fields that feed it. `pack_repository` walks a repository top-down and skips every subdirectory whose name is in the directory ignore list. For each file whose name does not end with an ignored extension, it reads the text and writes one block to a single output file:

```
"\n--- FILE: " + <path relative to the root, joined by "/"> + " ---\n" + <content> + "\n"
```

A file that cannot be read or decoded is skipped with a warning. A repository path that does not exist raises before the output file is opened.

The file system is replaced by an immutable tree:

- `FsTree.Node` is `File(name, content: Option<string>)` or `Dir(name, children)`. A `None` content stands for a file whose opening or UTF-8 decoding fails.
- `Walk.Visit` mirrors `os.walk`. At each directory it yields the directory's own files in listed order, then descends into the unpruned subdirectories in listed order. The root itself is never checked against the ignore list.
- `Packer.Pack` is the whole operation. It returns the text written to the output file, the returned output path, and the paths of the files warned about.
- `Packer.WriteFiles` is the per-file loop, written as a method that appends the header, the content and the newline in three writes, as the source does.

Each operation is tied to an independent description:

- The walk is tied to `FsTree.FileBelow`, a path-based statement of which files lie below the root outside ignored directories. The link holds in both directions.
- `Text.Split` is tied to `Text.Join`, with round trips both ways.
- `Text.Strip` is tied to `Text.IsStripOf`, the characterisation of stripping as the unique whitespace-bounded slice.
- `IgnoreRules.ParseList` is tied to `IgnoreRules.Display`, the `a, b, c` style the form's default values use.

`pack_repository` checks `os.path.exists`, not `os.path.isdir` (packer.py:30). A root that exists but is a regular file therefore passes the check, and `os.walk` yields nothing for it. The result is an empty output file and no error. The form itself calls `pack_repository` only after `os.path.isdir(repo_path)` holds (packer.py:103), so a file root reaches it only from other callers. The model follows `pack_repository` as written.

`Pack` is a function of its inputs, so running it twice on an unchanged tree gives identical output.

## Model

| member | source | states |
|---|---|---|
| Packer.Pack | packer.py:17-60 | Fails with `RepositoryNotFound(repoPath)` exactly when nothing exists at the root path, and then produces no output. Otherwise it returns the given output path. A root that is a regular file yields an empty document and no warnings. |
| Packer.WriteFiles | packer.py:41-58 | The loop over walked files writes exactly the concatenation of the blocks of the readable, non-excluded files, in walk order. It warns exactly about the unreadable, non-excluded files. |
| Packer.PackedExactly | packer.py:37-56 | A record (path, name, content) is packed iff three things hold. The tree holds that readable file below the root. No directory on its path is ignored. Its name ends with no ignored extension. Other files' readability plays no part. |
| Packer.WarnedExactly | packer.py:49-58 | A warning is issued for a path iff an unreadable file sits there, outside ignored directories, with a non-excluded name. |
| Packer.ExcludedNeverPacked | packer.py:45-46 | No packed file's name ends with any ignored extension. |
| Packer.IgnoredDirsNeverEntered | packer.py:37-39 | No packed file has an ignored directory name anywhere on its directory path, at any depth. |
| Packer.RootNeverPruned | packer.py:37-39 | A readable, non-excluded file directly in the root is packed even when the root's own name is in the directory ignore list. |
| Packer.NoFiltersPackEverything | packer.py:33-34 | With both ignore lists missing or empty, the packed records are exactly the readable files of the whole tree. |
| Packer.EmptyExtensionFieldPacksNothing | packer.py:98-105 | An empty extension field parses to `[""]`. It then excludes every file: the output document is empty and no warning is issued, whatever the tree and directory list. |
| Packer.PackedTopDown | packer.py:37-41 | In a well-formed tree, no block follows a block that lies in a subdirectory of its own directory. A directory's files therefore come before anything below it. |
| Packer.PackedOnce | packer.py:41-54 | In a well-formed tree, no relative path is written twice. |
| Packer.RelPathInjective | packer.py:53 | Relative paths built from `/`-free components determine the directory path and the file name. |
| Packer.RelPathSplits | packer.py:53 | `RelPath` joins the directory names and the file name with `/`. Splitting the result at `/` gives them back when no component holds a `/`. |
| Packer.BlockLayout | packer.py:54-56 | A file's block (which `Packer.ThreeWrites` shows is exactly what the three writes append) opens with `\n--- FILE: ` on a fresh line and ends with the file's content followed by exactly one newline. |
| Packer.RenderEmpty | packer.py:41-56 | `Render` concatenates the blocks. The output document is empty exactly when no file is packed. |
| Packer.RenderAppend | packer.py:54-56 | The document for two runs of records is the first run's document followed by the second's. Blocks are written back to back, with no separator and no trailer. |
| Packer.WarnedOnce | packer.py:49-58 | In a well-formed tree no path is warned about twice, so each unreadable, non-excluded file draws exactly one warning. |
| Packer.PackedListedOrder | packer.py:37-56 | In any directory the walk enters, at any depth, two packed files from that directory's `files` list get their blocks in the listed order. |
| Walk.Visit | packer.py:37-41 | The walk: a directory's own files in listed order, then the walk below each subdirectory not in the ignore list, in listed order. A root that is a file yields nothing. `Walk.VisitMember` ties it to `FileBelow`. |
| Walk.VisitMember | packer.py:37-42 | The walk reaches a file iff `FileBelow` holds for it: the file lies below the root and every directory on the way down is unpruned. |
| Walk.NothingBelowIgnoredDir | packer.py:39 | No reached file lies beneath a directory whose name is exactly an entry of the ignore list. |
| Walk.VisitTopDown | packer.py:37-41 | In a well-formed tree the walk is top-down at every depth: a directory's files precede everything in its subdirectories. |
| Walk.VisitDistinct | packer.py:37-42 | In a well-formed tree each file is reached exactly once. |
| Walk.OwnFilesListedOrder | packer.py:41 | Within one directory's `files` list, two files keep their listed order. |
| Walk.VisitListedOrder | packer.py:37-41 | In a directory the walk enters at path `dir`, at any depth, two listed files are reached in their listed order. |
| IgnoreRules.ParseList | packer.py:98-99 | There is one entry per comma-separated segment. Each entry is that segment with its surrounding whitespace removed. |
| IgnoreRules.ParseListShape | packer.py:98-99 | A parsed list has one more entry than the text has commas. No entry contains a comma, and every entry is already stripped. |
| IgnoreRules.ParseEmptyText | packer.py:98-99 | Parsing the empty string gives `[""]`, not an empty list. |
| IgnoreRules.ParseDisplay | packer.py:88-99 | A list written as `a, b, c` parses back to exactly its entries. |
| IgnoreRules.OrEmpty | packer.py:33-34 | `x or []`: the list in use is empty exactly when the caller passed none or an empty one. A non-empty list is used as given. |
| IgnoreRules.ExcludedExactly | packer.py:45 | `Excluded`, the test `any(file.endswith(ext) ...)`, holds exactly when the name is some stem followed by one of the listed extensions. |
| IgnoreRules.EmptyEntryExcludesEverything | packer.py:45 | An extension list containing `""` excludes every file name, because every string ends with `""`. |
| Text.SplitLength | packer.py:98-99 | The number of pieces is the number of separators plus one. |
| Text.SplitPiecesHaveNoSeparator | packer.py:98-99 | No piece contains the separator. |
| Text.JoinSplit | packer.py:98-99 | Joining the pieces with the separator restores the text. |
| Text.SplitJoin | packer.py:98-99 | Splitting a join of separator-free pieces gives the pieces back. |
| Text.LStrip | packer.py:98-99 | The result is a suffix of the input. Only whitespace was dropped, and the result does not start with whitespace. |
| Text.RStrip | packer.py:98-99 | The result is a prefix of the input. Only whitespace was dropped, and the result does not end with whitespace. |
| Text.Strip | packer.py:98-99 | The result is a slice with only whitespace outside it and no whitespace at either end. Whitespace follows Python's `str.isspace`. |
| Text.StripUnique | packer.py:98-99 | Any string meeting that description equals `Strip` of the input. |
| Text.StripIdempotent | packer.py:98-99 | Stripping twice is the same as stripping once. |
| Scenarios.DefaultExtensions | packer.py:88-98 | The default extension field parses to `.exe`, `.png`, `.jpg`, `.pdf`, `.zip`, `.tar`. |
| Scenarios.DefaultDirectories | packer.py:92-99 | The default directory field parses to `.git`, `node_modules`, `__pycache__`. |
| Scenarios.ExamplePack | packer.py:17-60 | The example tree holds `a.txt` ("hello"), an unreadable `b.png` and `.git/config`. With `.png` and `.git` ignored, the whole output is the `a.txt` block and there are no warnings. |

## Left out

- The Streamlit interface and session state (packer.py:62-110) are left out. They are UI plumbing, and only the list parsing at lines 98-99 is modelled.
- `select_folder` (packer.py:6-15) is left out. It wraps the native tkinter folder dialog.
- The real file system is replaced by the `Node` tree. Sibling order is taken as the given children order, because the operating system decides it.
- Symbolic links are not modelled. `os.walk` lists a link to a directory among the directories without descending into it.
- A subdirectory whose listing fails is not modelled. `os.walk` silently skips it.
- Text decoding is reduced to `Option` content. This covers UTF-8 decoding and universal-newline translation on read.
- The output file is not modelled as a member of the tree being walked. If it lies inside the repository, the walk can meet it half-written.
- Failing to open the output file is not modelled. It happens before the walk and would propagate as an exception.
- Errors from `os.path.relpath` and from the three writes are not modelled. Those calls sit inside the `try` (packer.py:49-56), so such an error is caught at line 57 and becomes a skip warning, and the walk continues. The model assumes that `relpath` and every write succeed, and that every name is plain Unicode text. A name that is not valid UTF-8 on disk reaches the source as a surrogate-escaped string. Opening and reading the file succeed, but the header write then fails to encode, so the source warns and writes no block, while the model packs the file. A write that fails part-way can also leave part of a block behind, which the model does not represent.
- The output is modelled as on POSIX. Paths are joined with `/`, as `os.path.relpath` spells them there; the Windows separator `\` is not modelled. The output file is opened in text mode with default newline handling (packer.py:36), so on Windows every `\n` written, including the three in each block's header and end, becomes `\r\n`. The model writes `\n`, as on POSIX, where the translation does nothing.
- Packer.WarnedExactly: warnings are modelled as paths relative to the root. The source's message holds the path joined onto the repository path plus the exception text, and the exception text is not available to the model.
- Packer.PackedExactly: holds under the assumption above that `relpath` and the writes never fail. A file whose header cannot be encoded is warned about by the source instead of packed.
- Packer.WarnedExactly: counts only failures to open or decode a file, for the same reason.
- Packer.PackedOnce: stated only for well-formed trees, where sibling names are distinct and are single non-empty path components. A real directory always has that shape.
- Packer.PackedTopDown: stated only for well-formed trees, for the same reason.
- Walk.VisitTopDown: stated only for well-formed trees, for the same reason.
- Walk.VisitDistinct: stated only for well-formed trees, for the same reason.
- Packer.WarnedOnce: stated only for well-formed trees, for the same reason.
