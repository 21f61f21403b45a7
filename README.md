# Sorting files into extension buckets: a Dafny model

`tasks/task01.py` copies every regular file below a source folder into an
output folder. Each file goes into a subfolder (its *bucket*) named after
its lower-cased extension. Files without an extension go into the bucket
`no_extension`. The script walks the tree with `read_folder`. For every
listed file it appends a `copy_file` coroutine, and for every listed folder
a nested `read_folder` coroutine, to a task list (other entries get no task), and then gathers the list. Errors
are caught per file and per folder, logged, and never passed upward.

This project models the part of that script that decides what gets copied
where:

- `path_names.dfy` (module `PathNames`): names and paths, plus the pieces
  of Python that the bucket rule relies on. These are `str.lower` (as ASCII
  case folding), `str.rfind`, `str.lstrip` and pathlib's `PurePath.suffix`.
- `buckets.dfy` (module `Buckets`): the bucket of a file name, its
  destination `output / bucket / name`, and the effect of one `copy_file`
  call.
- `walk.dfy` (module `Walk`): the filesystem as a finite tree of entries.
  `File` carries a flag saying that its copy raises. `Dir` carries a flag
  saying whether `iterdir()` succeeds. `Other` is neither a file nor a
  directory. `Unclassifiable` is an entry whose `is_file()`/`is_dir()` check
  itself raises. `Visit`/`FolderPlan`/`Gather` are the reference definition
  of the copies a walk performs. The method `ReadFolder` follows the
  source's shape: a loop that appends one task per listed entry, then a
  second loop that runs the tasks in order. It is proved to perform exactly
  the reference copies.
- `walk_proofs.dfy` (module `WalkProofs`): every reachable file is copied
  exactly once. A copy's destination depends only on the file's name. A
  failing copy or an unlistable folder removes only the copies below it.
  An entry whose type check raises removes every copy of its containing
  folder. Copies outside that folder are unaffected.
- `startup.dfy` (module `Startup`): the startup guard of `main` and the
  whole run.

The copies of a run are a sequence in listing order. The source runs them
concurrently in no fixed order, so the properties are stated as counts in
the multiset of copies, or as "everything before and after is unchanged".

One might expect an entry whose type check raises to be skipped on its
own. In the code, a raising `is_file()`/`is_dir()` (lines
16/18) leaves the loop, and the `except` at line 21 catches it. So
`gather` never runs for that folder, and the folder loses **all** of its
copies, not just that entry's. `WalkProofs.UnclassifiableEntryDropsFolder`
states this. On CPython 3.8 to 3.13, `is_file()` re-raises a
`PermissionError` from `stat`. That happens, for example, when a folder
can be read but not searched.

## Model

| member | source | states |
|---|---|---|
| PathNames.Lower | tasks/task01.py:27 | `str.lower()` as ASCII case folding, character by character; its properties are stated by LowerFacts and LowerIdempotent |
| PathNames.LowerIdempotent | tasks/task01.py:27 | lower-casing twice is lower-casing once |
| PathNames.LowerFacts | tasks/task01.py:27 | lowercasing keeps the length, leaves no upper-case letter, and keeps dots exactly where they were |
| PathNames.RFind | tasks/task01.py:27 | the index of the last occurrence of the character, or -1; no occurrence after it |
| PathNames.LStrip | tasks/task01.py:27 | the result is a suffix of the input, does not start with the stripped character, and only that character was removed |
| PathNames.Suffix | tasks/task01.py:27 | pathlib's suffix is empty, or a dot plus at least one dot-free character that ends the name after a non-empty stem |
| PathNames.SuffixOfSplit | tasks/task01.py:27 | for a non-empty stem, a dot and a dot-free extension, the suffix is exactly that dot and extension (only the final suffix counts) |
| PathNames.SuffixEmptyIff | tasks/task01.py:27 | the suffix is empty iff the name is empty, ends in a dot, or has no dot after its first character (`README`, `.gitignore`) |
| PathNames.SuffixLower | tasks/task01.py:27 | the suffix of the lower-cased name is the lower-cased suffix |
| Buckets.Bucket | tasks/task01.py:27 | a bucket is never empty, never starts with a dot, contains no dot and has no upper-case letter |
| Buckets.LStripOfSuffix | tasks/task01.py:27 | `lstrip('.')` removes exactly the one leading dot of a suffix and leaves no dot |
| Buckets.Destination | tasks/task01.py:28-33 | `output / extension / file.name`; DestinationsCollideIffSameName, PlanShape and SortFilesDestinations state its properties |
| Buckets.CopyFile | tasks/task01.py:25-37 | a failing copy produces nothing; otherwise exactly one copy of the file to `output / Bucket(name) / name`, keeping the original name |
| Buckets.BucketOfExtension | tasks/task01.py:27 | `stem.ext` with a non-empty stem and dot-free `ext` goes to the lower-cased `ext` |
| Buckets.BucketWithoutSuffix | tasks/task01.py:27 | a name with no dot after its first character, or ending in a dot, goes to `no_extension` |
| Buckets.BucketIsSentinelIff | tasks/task01.py:27 | a name goes to `no_extension` iff its suffix is empty or its extension, lower-cased, is `no_extension` itself |
| Buckets.BucketIgnoresCase | tasks/task01.py:27 | lower-casing the name does not change its bucket |
| Buckets.DestinationsCollideIffSameName | tasks/task01.py:28-33 | under one output root, two destinations are equal iff the names are equal |
| Buckets.BucketOfReportPdf | tasks/task01.py:27 | `Report.PDF` goes to `pdf` |
| Buckets.BucketOfTarGz | tasks/task01.py:27 | `archive.tar.gz` goes to `gz`, not `tar.gz` |
| Buckets.BucketOfSuffixlessNames | tasks/task01.py:27 | `README`, `.gitignore` and `notes.` go to `no_extension` |
| Buckets.SentinelSharedWithExtension | tasks/task01.py:27 | `notes.NO_EXTENSION` also goes to `no_extension` |
| Walk.Visit | tasks/task01.py:15-19 | what one listed entry contributes: a file its copy, a directory its nested walk, anything else nothing; VisitCount states exactly which copies |
| Walk.FolderPlan | tasks/task01.py:11-22 | the reference walk of `read_folder`: no copies when listing or classifying raises, otherwise the gathered walk of the entries; PlanCount, PlanShape and PlanLocality state its properties |
| Walk.Gather | tasks/task01.py:15-20 | the walks of the entries in listing order; GatherCount states its counts |
| Walk.RunTask | tasks/task01.py:17-20 | awaiting one appended coroutine: a `copy_file` or a nested `read_folder`; ClassifyThenGather states what running them yields |
| Walk.RunAll | tasks/task01.py:20 | `asyncio.gather(*tasks)` as running the tasks one after another in list order; ClassifyThenGather ties it to Gather |
| Walk.Classify | tasks/task01.py:13-21 | building the task list fails (the loop is left) iff some entry cannot be classified |
| Walk.ClassifyTasks | tasks/task01.py:15-19 | every file and directory among the entries has its task, for its path below the folder, and every task comes from one of them |
| Walk.ClassifyCopyCount | tasks/task01.py:16-17 | a copy task for `source / n` occurs exactly as often as the file `n` occurs among the entries |
| Walk.ClassifyFolderCount | tasks/task01.py:18-19 | a folder task for a directory occurs exactly as often as that directory occurs among the entries |
| Walk.ClassifyThenGather | tasks/task01.py:13-20 | running the task list in order performs exactly the copies of the reference walk of those entries |
| Walk.ReadFolder | tasks/task01.py:11-22 | the list-then-gather method performs exactly `FolderPlan`: nothing when listing or classifying raises, otherwise the copies of every listed entry |
| WalkProofs.VisitCount | tasks/task01.py:15-19 | one listed entry causes a given copy once if the copy is of a reachable, non-failing file below that entry, and never otherwise |
| WalkProofs.GatherCount | tasks/task01.py:15-20 | in a folder with distinct names, a copy occurs once if one entry causes it and never otherwise |
| WalkProofs.CopiesIffSomeChild | tasks/task01.py:15-19 | in a listed folder, a copy belongs to the walk iff it belongs to the walk of one of its entries |
| WalkProofs.PlanCount | tasks/task01.py:11-22 | exactly once: a copy occurs once if it copies a reachable, non-failing file to `output / bucket / name`, and zero times otherwise |
| WalkProofs.PlanShape | tasks/task01.py:17-34 | every copy's source lies below the walked folder, and its destination is `output / Bucket(name) / name` for the file's own name |
| WalkProofs.AtName | tasks/task01.py:15-19 | the entry reached along a path carries that path's last name |
| WalkProofs.PlanLocality | tasks/task01.py:11-22 | the walk is the copies before an entry, then that entry's copies, then the copies after it; replacing the entry changes only the middle |
| WalkProofs.FileFailureIsolated | tasks/task01.py:25-37 | making one file's copy raise removes exactly its one copy; all other copies stay, in order |
| WalkProofs.UnlistableFolderIsolated | tasks/task01.py:12-22 | a folder whose listing raises loses exactly its own subtree's copies; siblings and ancestors are unchanged |
| WalkProofs.UnclassifiableEntryDropsFolder | tasks/task01.py:15-22 | an entry whose type check raises makes its whole folder lose its copies, and nothing outside that folder is affected |
| Startup.SortFiles | tasks/task01.py:49-51 | a source that does not exist or is not a directory yields no copies and no walk |
| Startup.SortFilesCopiesEachFileOnce | tasks/task01.py:49-56 | a run performs each copy of a reachable, non-failing file exactly once and no other copy |
| Startup.SortFilesDestinations | tasks/task01.py:27-34 | every copy of a run lands at `output / Bucket(name) / name`, whatever the depth of the file below the source |
| Startup.SortFilesCollisions | tasks/task01.py:33-34 | two copies of a run share a destination iff the two files share a name |

## Left out

- Concurrency. `asyncio.gather` and `asyncio.to_thread` (lines 14, 20, 31, 34, 54) are not modelled. Copies come out in listing order, and the properties are stated as counts or as unchanged surroundings.
- Buckets.DestinationsCollideIffSameName: paths compare exactly, name by name, as on a case-sensitive POSIX filesystem. On a case-insensitive filesystem (the Windows and macOS defaults) names that differ only in case, such as `IMG.JPG` and `img.jpg`, also collide, so the "only if" direction does not hold there.
- Startup.SortFilesCollisions: the same exact, case-sensitive comparison of paths; on a case-insensitive filesystem two files whose names differ only in case also share a destination, and the later copy overwrites the earlier one.
- Last writer wins. When two same-named files collide (line 33), which copy lands last depends on scheduling and is not modelled. `Startup.SortFilesCollisions` only states when two copies collide.
- Creating folders. `mkdir` of the bucket (lines 30-31) and of the output (lines 53-54), and the races between creators, are filesystem I/O and are not modelled.
- Failure causes. A failing `mkdir` and a failing `shutil.copy` are merged into one `fails` flag per file. A half-written destination file is not modelled.
- What `shutil.copy` does with contents and metadata (line 34) is not modelled.
- Logging (lines 8, 22, 35, 37, 50), argument parsing and `Path.resolve` (lines 41-47) are not modelled.
- `PathNames.Lower`: folds ASCII letters only, not full Unicode `str.lower()`.
- `PathNames.Suffix`: follows pathlib up to Python 3.13. From 3.14 a trailing dot is itself a suffix. That does not change any bucket, since `lstrip('.')` then leaves nothing.
- Symbolic links. `is_file()` and `is_dir()` follow links, so a link to a file or folder appears in the tree as that file or folder. Link cycles cannot be expressed in a finite tree and are not modelled.
- The source folder's own checks. A `main` whose `exists()`/`is_dir()` call raises would end with an uncaught error. The model treats such a source like one that is not a directory.
- Exceptions that are not `Exception` (cancellation, `KeyboardInterrupt`) are not modelled.
