# compress_epub in Dafny

A model of `compress_epub.py`, the converter that turns the unpacked
`.epub` folders of Apple Books into standard EPUB archives. Two parts are
modelled. The first is `compress_epub_folder`, which does four things:
- it derives the book name from the folder name;
- it looks for a cover image beside the folder;
- it fills a staging directory with the folder's contents, the missing cover and a synthesised `mimetype`;
- it writes the ZIP entries, stored `mimetype` first, then every other file deflated.

The second part is the driver in `main`. It picks the `*.epub`
sub-directories of the input directory, fails with status 1 when there are
none, and converts them one after another into `compressed_epubs`.

The filesystem is a value: a `Tree` maps paths (sequences of names) to
`File(content)` or `Dir`. It is closed under prefixes (`ValidTree`), so
`.exists()` is membership and empty directories can be shown. The input
directory is one tree. The publication folder is the subtree under its name,
and the cover candidates are top-level names of the input. The ZIP archive
is the sequence of entries written, each a name, a compression method and
the bytes.

Things the code does not fix are parameters, and the proofs hold for every
choice:
- `glob.glob` lists the input directory in some order (`listing`);
- `os.walk` lists the directories of the staging tree in some order (`walkOf`).

From there:
- `ListsOnlyFiles` states what all operations assume of `os.walk`: it reports only files of the tree.
- `WalksEveryTree` adds that it reports each file exactly once. The completeness and order lemmas require it.

Modules, in dependency order:
- `Wrappers`: `Option`, `Result`, `Distinct`.
- `Paths`: names, paths, `/`-joined archive names, injectivity of joining.
- `FileTree`: trees, subtrees.
- `Container`: `mimetype` and its marker bytes, as in section 3.3 of the EPUB Open Container Format 3.0.1.
- `BookName`: the book name and the output file name.
- `Staging`: cover search, the staging copy, the cover and `mimetype` steps.
- `Archive`: the ZIP writing loops and their properties.
- `CompressEpub`: the whole conversion and the driver.

Three behaviours of the code are easy to misread, and the model follows the
code in each:
- **Book name.** `folder_name.replace('.epub', '')` removes every occurrence in one left-to-right pass, not only a trailing suffix. `BookNameOf` models that pass. `InnerOccurrenceDeleted` and `DeletionCanFormNewOccurrence` show where it differs from stripping a suffix, and `BookNameOfPlainFolder` shows the usual case.
- **Marker.** `application/epub+zip` is 20 bytes, written with no line terminator. `Marker` is those 20 bytes.
- **Failures.** There is no exception handler: the first exception ends the run with status 1, and the archives already written stay. `Crashed` models this, with `ConvertAllCrashes` and `ExitStatus`.

Two error paths of the code are modelled. The first: a cover candidate
that is a directory makes `shutil.copy2` raise. This is
`CoverIsDirectory`, and it happens only when the folder has nothing under
that name. The second: a file named `compressed_epubs` in the input makes
`os.makedirs` raise. This is `OutputDirIsFile`.

A top-level `mimetype` directory in the folder suppresses the synthesised
file. `zipfile` then writes a stored directory entry `mimetype/` first.
`FirstEntry` and `CompressedFirstEntry` state this case.

## Model

| member | source | states |
|---|---|---|
| `BookName.DeleteAll` | compress_epub.py:18 | defines `str.replace(pat, '')`: one pass from left to right that deletes each occurrence it meets and resumes after it; the lemmas below state its properties |
| `BookName.DeleteAllShrinks` | compress_epub.py:18 | the replacement never lengthens the text |
| `BookName.BookNameOf` | compress_epub.py:17-18 | the book name is the folder name with every `.epub` deleted, and is never longer than the folder name |
| `BookName.OutputFileName` | compress_epub.py:20 | the output file name is the book name followed by `.epub`, five characters longer |
| `BookName.DeleteEpubBetween` | compress_epub.py:18 | an occurrence of `.epub` anywhere in the name is removed, whatever precedes it: deleting over `a + ".epub" + b` is deleting over `a` and over `b` |
| `BookName.DeleteAllWithoutOccurrence` | compress_epub.py:18 | a name without `.epub` passes through the replacement unchanged |
| `BookName.DeleteAllKeepsCharacters` | compress_epub.py:18 | the replacement introduces no character that the folder name lacks |
| `BookName.BookNameOfPlainFolder` | compress_epub.py:17-20 | for a folder `<stem>.epub` whose stem holds no `.epub`, the book name is the stem and the output file is `<stem>.epub` |
| `BookName.BookNameHasNoSeparator` | compress_epub.py:18 | a book name derived from a path component contains no `/` |
| `BookName.InnerOccurrenceDeleted` | compress_epub.py:18 | `Vol.epub.One.epub` gives the book name `Vol.One`: inner occurrences go too |
| `BookName.DeletionCanFormNewOccurrence` | compress_epub.py:18 | `A.e.epubpub.epub` gives `A.epub`: text joined by a deletion is not scanned again |
| `Staging.SelectCover` | compress_epub.py:23-28 | no cover exactly when none of `<book>.jpg`, `.jpeg`, `.png`, `.gif` exists beside the folder; otherwise the first existing one in that order |
| `Staging.Children` | compress_epub.py:33 | `glob('*')` of the folder yields exactly its top-level names |
| `Staging.FirstExisting` | compress_epub.py:24-28 | no cover exactly when no candidate exists; otherwise the chosen name is a candidate that exists, and every earlier extension's candidate does not |
| `Staging.FindCover` | compress_epub.py:23-28 | the search loop, with its early exit, returns the first existing candidate in the order jpg, jpeg, png, gif |
| `Staging.SelectedCoverIsPlainName` | compress_epub.py:25-26 | the chosen cover is an existing top-level name, contains no `/`, and is never `mimetype` |
| `Staging.CopyChildren` | compress_epub.py:33-38 | copying each top-level child (a directory tree or a file) in any order rebuilds the folder exactly |
| `Staging.AddCover` | compress_epub.py:40-41 | no cover, or an existing name: unchanged; a directory cover: the copy error; otherwise exactly one new top-level file with the cover's content, and everything else unchanged |
| `Staging.EnsureMimetype` | compress_epub.py:44-47 | afterwards `mimetype` exists; an existing one is kept; otherwise it is a file holding the marker bytes; nothing else changes |
| `Staging.Stage` | compress_epub.py:30-47 | the staging steps, done in place, produce the staging area the copy, cover and marker rules describe |
| `Staging.StageFailsOnlyOnDirectoryCover` | compress_epub.py:40-41 | staging fails exactly when the cover must be copied and is a directory |
| `Staging.StagedContents` | compress_epub.py:33-47 | the staging area holds every item of the folder unchanged, with at most the cover and `mimetype` added, and gives their content |
| `Staging.StagedTreeValid` | compress_epub.py:33-47 | the staging area of a real directory is a real directory tree |
| `FileTree.Subtree` | compress_epub.py:33 | the contents of a top-level directory, relative to it: exactly the paths below it, with their items |
| `Paths.JoinInjective` | compress_epub.py:60 | distinct relative paths get distinct archive names |
| `Paths.JoinIsName` | compress_epub.py:60 | the only path whose archive name is a plain name is that one-segment path |
| `Container.AsciiBytes` | compress_epub.py:46-47 | a text-mode write of an ASCII string produces one byte per character, with the same code |
| `Archive.FirstEntry` | compress_epub.py:49-54 | the first entry is stored; it is `mimetype` with the file's content, or the empty directory entry `mimetype/` |
| `Archive.WriteDirectory` | compress_epub.py:57-65 | the inner loop appends, in order, the deflated entries of one directory's files not named `mimetype` |
| `Archive.WriteArchive` | compress_epub.py:49-65 | the writer produces the first entry followed by the entries of every walked file not named `mimetype`, in walk order |
| `Archive.FileEntries` | compress_epub.py:56-65 | defines the walk loop's output: for each listed path in order, a deflated entry with the `/`-joined relative name and the file's content, skipping base name `mimetype`; never more entries than paths |
| `Archive.ArchiveSpec` | compress_epub.py:49-65 | defines the archive: the first entry, then the walk loop's entries; at least one entry, at most one more than the files walked |
| `Archive.FileEntriesSound` | compress_epub.py:56-65 | each entry of the walk loop is the entry of a listed file whose base name is not `mimetype` |
| `Archive.FileEntriesComplete` | compress_epub.py:56-65 | each listed file whose base name is not `mimetype` gets its entry |
| `Archive.FileEntriesNamesDistinct` | compress_epub.py:56-60 | distinct files give distinct entry names |
| `Archive.FileEntriesNeverMimetype` | compress_epub.py:58-60 | no entry of the walk loop is named `mimetype`, at any depth |
| `Archive.FileEntriesPermutation` | compress_epub.py:56-57 | the entries depend only on which files are listed, not on their order |
| `Archive.ArchiveEntriesAreStagedFiles` | compress_epub.py:56-65 | every entry after the first is deflated, not named `mimetype`, and is the relative path and content of a staged file |
| `Archive.ArchiveHasEveryStagedFile` | compress_epub.py:56-65 | every staged file whose base name is not `mimetype` appears after the first entry, with its content |
| `Archive.ArchiveNamesUnique` | compress_epub.py:49-65 | no two later entries share a name; with a `mimetype` file, exactly the first entry has that name |
| `Archive.ArchiveOrderIrrelevant` | compress_epub.py:56 | two walk orders give the same first entry and the same entries, each as often |
| `CompressEpub.OutputDirBlocked` | compress_epub.py:15 | `os.makedirs(..., exist_ok=True)` raises exactly when the name `compressed_epubs` exists and is not a directory |
| `CompressEpub.Compress` | compress_epub.py:11-68 | fails exactly when the output directory is blocked by a file or the cover is a directory that must be copied; otherwise the archive is named `<book>.epub` and is not empty |
| `CompressEpub.CompressEpubFolder` | compress_epub.py:11-68 | the conversion, run step by step, gives the archive or the error `Compress` describes |
| `CompressEpub.CompressedFirstEntry` | compress_epub.py:44-54 | the archive starts with stored `mimetype`: the folder's own content, or the marker when the folder has none, or `mimetype/` when it is a directory |
| `CompressEpub.CompressedEntriesFromFolder` | compress_epub.py:33-65 | every later entry is deflated, is not `mimetype`, and is a file of the folder (relative path, content) or the external cover the folder lacked |
| `CompressEpub.CompressedKeepsEveryFile` | compress_epub.py:33-65 | every file of the folder not named `mimetype`, and the added cover, appears after the first entry |
| `CompressEpub.CompressedNamesUnique` | compress_epub.py:49-65 | no two later entries share a name; without a `mimetype` directory, only the first entry is named `mimetype` |
| `CompressEpub.CompressOrderIrrelevant` | compress_epub.py:56-65 | the walk order changes neither success, nor the file name, nor the first entry, nor the entries after it |
| `CompressEpub.MatchesEpubGlob` | compress_epub.py:77 | defines the `*.epub` pattern: the name ends in `.epub` and does not start with a dot; a matching name's book name is strictly shorter than the name |
| `CompressEpub.SelectedBookNameNonEmpty` | compress_epub.py:18 | a folder the pattern selects yields a non-empty book name beginning with the folder's first character |
| `CompressEpub.SelectFolders` | compress_epub.py:77-78 | a name is selected exactly when it is listed, matches `*.epub` and not a dot name, and is a directory; no repeats |
| `CompressEpub.SelectFoldersAppend` | compress_epub.py:77-78 | selection keeps the listing's order |
| `CompressEpub.ConvertAll` | compress_epub.py:84-85 | defines the loop: stop at the first conversion that raises, otherwise write each archive over any earlier one of the same name; the outcome is finished or crashed, names written stay written, and a crash names a listed folder whose conversion raised that failure |
| `CompressEpub.RunSpec` | compress_epub.py:75-87 | defines the driver: no folders exactly when the selection is empty; a crash names a selected folder whose conversion raised that failure |
| `CompressEpub.ExitStatus` | compress_epub.py:80-82 | status 0 exactly for a run that converted every selected folder, 1 otherwise |
| `CompressEpub.Run` | compress_epub.py:75-87 | the driver loop gives the outcome the run obeys, and the status for that outcome |
| `CompressEpub.NoFoldersExactly` | compress_epub.py:80-82 | the run stops with status 1 and no archive exactly when no directory of the input matches `*.epub` |
| `CompressEpub.ConvertAllFinishes` | compress_epub.py:84-85 | the loop finishes exactly when no folder's conversion raises |
| `CompressEpub.ConvertAllWritten` | compress_epub.py:84-85 | a finished loop holds one archive per output name; it is the last folder's under that name; other names are untouched |
| `CompressEpub.ConvertAllCrashes` | compress_epub.py:84-85 | a loop that raises stops at the first failing folder and reports it; the folders before it have their archives written |
| `CompressEpub.RunFinished` | compress_epub.py:84-87 | a finished run has status 0 and at least one folder; every conversion succeeded; the archives are exactly the selected folders' output names |
| `CompressEpub.SharedOutputName` | compress_epub.py:18-20 | `A.epub` and `A.epub.epub` write the same output file `A.epub` |

## Left out

- Argument check: the usage message and `sys.exit(1)` on a wrong argument count are not modelled. The input directory is a parameter.
- Printing: all messages on standard output are left out.
- Temporary staging directory: its creation and removal are not modelled. The staging area is a new tree value, so nothing of it can persist.
- Output directory: its creation is not modelled; only its failure when a file is in the way is. The archives written form the `written` map of the outcome.
- Prior contents of `compressed_epubs`: files there before the run are not modelled, and neither is a directory standing where an output file goes.
- Input as a snapshot: the input is one tree for the whole run, and the model ignores the archives the run adds under `compressed_epubs`. That directory never matches `*.epub` and is never a cover candidate, so selection, cover search and folder contents do not see the difference.
- ZIP byte format: local headers, CRCs, timestamps and the deflate algorithm are not modelled. An entry is its name, its method and its uncompressed bytes.
- Metadata copied by `shutil.copy2` and `copytree`: permissions and modification times are not modelled. This also leaves out an exception: the copies keep each file's time, and `zipfile`, with its default `strict_timestamps`, raises `ValueError` on a time before 1980. That happens part-way through writing and leaves a partial output file.
- Symbolic links: not modelled. `is_dir`, `isdir`, `exists` and `os.walk` see plain files and directories only.
- Other I/O errors: unreadable files, permissions and a full disk are not modelled.
- Byte-level names: names are Dafny strings. The glob is matched case-sensitively, as on POSIX, and the archive separator is `/`.
- Walk and listing order: the orders of `os.walk` and `glob.glob` are parameters, not computed. The lemmas that need `os.walk` to report every file once require `WalksEveryTree`.
