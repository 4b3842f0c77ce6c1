# multinode_esmfold in Dafny

A model of the work-distribution driver of `multinode_esmfold` and its
clean-up script. The driver folds protein sequences with ESMFold on a
cluster. Every accelerator runs its own copy of `run_polaris.py`. Each copy
does the same steps:

- It reads the candidate records from one FASTA file, or from the first
  record of every FASTA file a glob matches in a directory.
- It stages each record as `out_dir/tmp_fasta/<tag>.fasta`.
- It keeps the records whose output directory `out_dir/<tag>` does not exist
  yet.
- It takes its own contiguous shard of that pending list. The shard comes
  from `NODE_RANK`, `PMI_LOCAL_RANK` and `NRANKS`, with four devices per node.
- It runs the folding program once per record of the shard. A failure is
  logged, and the copy moves on to the next record.

In test mode the folding program is not started. Instead a marker file
`test_out.out` is written into the output directory. The clean-up script
`scripts/remove_bad_folders.py` then deletes every directory that holds a
`.out` file but no `.pdb` and no `.fasta` file.

The project has six files:

- `wrappers.dfy` holds `Option` and `Result`.
- `pystr.dfy` holds the Python `str` operations the reader uses: `split`,
  `split(sep, 1)`, `strip()` with the exact `str.isspace` set, and
  `replace(c, "")`. It also holds the universal-newline translation that
  `Path.read_text()` applies to a file's contents.
- `fasta.dfy` holds `read_fasta` and `write_fasta`. The substitution
  `re.sub(">$", "", text, flags=re.M)` is modelled exactly. So are the
  list comprehension, the `[::2]` and `[1::2]` slices, and `zip`.
- `partition.dfy` holds `find_workfiles`, with Python's clamping slice
  semantics.
- `polaris.dfy` holds `main` and `run_esmfold`. The output directory is a
  map from entry names to the names inside each entry. The folding program
  is a `Launcher` value: the exit status it returns for a tag, and what it
  leaves in `out_dir/<tag>`.
- `cleanup.dfy` holds the selection and deletion of `remove_bad_folders.py`.

Some behaviour of the code is stated as lemmas:

- With no rank variables set, `NRANKS` defaults to 1, so there are four
  workers. The process then handles only the first quarter of the pending
  list (`DefaultEnvTakesFirstQuarter`).
- A rank at or beyond the worker count is not rejected. Its slice falls
  inside the last rank's shard (`OutOfRangeRankRepeatsLastShard`).
- The staging directory is itself an entry of `out_dir`. So a record tagged
  `tmp_fasta` always counts as done (`StagingDirShadowsTag`).
- A header line with no sequence line after it shifts the tag/sequence
  pairing of the reader, and a record is lost (`EmptyBodyShiftsPairing`).
- `read_fasta` reads its file with `read_text()`, which turns `"\r\n"` and
  a lone `"\r"` into `"\n"`. A well-formed record is written and read
  back unchanged if its tag and sequence hold no carriage return
  (`FileRoundTrip`).
  A tag ending in `"\r"` comes back without it: `Sequence(sequence="ACGT",
  tag="a\r")` is written as `">a\r\nACGT\n"` and read back with tag `"a"`
  (`CarriageReturnLeavesTag`).
- The records tagged `.` and `..` are never pending. Their staged files
  have the stems `.` and `..`, and `out_dir / "."` and `out_dir / ".."`
  always exist (`DotTagsNeverPending`).

Three more behaviours of the code, which the model follows:

- Rank values are not validated. Python's slicing clamps the bounds.
- An existing staged file is not reused. The code opens it in mode `"w"`
  and overwrites it (`StageLastWins`).
- In directory mode, a matched file without records makes
  `read_fasta(file)[0]` raise `IndexError`. This is modelled as the failure
  `EmptyFastaFile`. A single file without records gives an empty pending
  list.

## Model

| member | source | states |
|---|---|---|
| PyStr.Split | run_polaris.py:28 | `text.split(">")` yields one more piece than the text has separators; no piece contains the separator; joining the pieces with it gives the text back |
| PyStr.SplitOnce | run_polaris.py:29 | `split("\n", 1)` yields one piece exactly when there is no newline, and then it is the whole text; otherwise a newline-free head and the rest, which reassemble to the text |
| PyStr.LStrip | run_polaris.py:29 | the leading part `strip()` removes is all white space in the `str.isspace` sense, what remains is a suffix of the text and does not start with white space |
| PyStr.RStrip | run_polaris.py:29 | the trailing part removed is all white space, what remains is a prefix and does not end with white space |
| PyStr.StripKeeps | run_polaris.py:29 | `strip()` returns a text that neither starts nor ends with white space unchanged even when white space follows it |
| PyStr.RemoveAll | run_polaris.py:27 | `replace("\n", "")` removes every newline and nothing else: the length drops by the number of newlines and every other character occurs as often as before |
| PyStr.JoinThenRemove | run_polaris.py:27-29 | lines joined by newlines and then stripped of newlines give the lines concatenated |
| Fasta.DropCounts | run_polaris.py:25 | the `>$` substitution only deletes `>` characters: it never adds one and keeps every other character as often as the text holds it |
| Fasta.DropKeepsMarkFree | run_polaris.py:25 | a prefix without `>` passes through the substitution unchanged, and the rest is substituted on its own |
| Fasta.DropKeepsWritten | run_polaris.py:25 | text produced by `write_fasta` for readable records has no `>` at the end of a line, so the substitution leaves it unchanged |
| Fasta.SplitWritten | run_polaris.py:28 | splitting written records at `>` gives the piece before the first record followed by one chunk per record, in order |
| Fasta.PartsOfBody | run_polaris.py:29 | the chunk of one written record contributes exactly its tag and its sequence with newlines removed |
| Fasta.ChunkParts | run_polaris.py:29 | every chunk contributes one or two parts to the comprehension |
| Fasta.AllParts | run_polaris.py:26-30 | the comprehension yields between one and two parts per chunk |
| Fasta.Evens | run_polaris.py:31 | `lines[::2]` has ceil(n/2) elements and its k-th element is element 2k |
| Fasta.Odds | run_polaris.py:31 | `lines[1::2]` has floor(n/2) elements and its k-th element is element 2k+1 |
| Fasta.Zip | run_polaris.py:33 | `zip` stops at the shorter list, and record k pairs the k-th sequence with the k-th tag |
| Fasta.ReadAfterWrite | run_polaris.py:25-42 | parsing the text written for readable records gives back the same records, in the same order, with the newlines inside each sequence deleted |
| Fasta.RoundTrip | run_polaris.py:25-42 | for well-formed records (non-empty single-line tag and sequence, no `>`, the tag not starting and the sequence not ending with white space) parsing the text `write_fasta` wrote gives exactly the list written |
| PyStr.UniversalNewlines | run_polaris.py:24 | `read_text()` leaves no carriage return, keeps the count of every other character except the newline, and yields at least as many newlines as the file had newlines, and as carriage returns, and at most their sum |
| PyStr.UniversalNewlinesPlain | run_polaris.py:24 | contents without a carriage return are read unchanged |
| PyStr.UniversalNewlinesCrLf | run_polaris.py:24 | a `"\r\n"` between carriage-return-free texts is read as one newline |
| Fasta.WrittenWithoutCarriageReturn | run_polaris.py:36-42 | the writer adds no carriage return of its own |
| Fasta.FileRoundTrip | run_polaris.py:22-42 | for well-formed records without carriage returns, `read_fasta` of the file `write_fasta` wrote is exactly the list written |
| Fasta.CarriageReturnLeavesTag | run_polaris.py:22-42 | a well-formed record written with `"\r"` appended to its tag is read back from the file without it |
| Fasta.ReadEmpty | run_polaris.py:22-33 | an empty file holds no records |
| Fasta.ReadCountBound | run_polaris.py:22-33 | the reader never returns more records than the text has `>` characters |
| Fasta.ReadMultiLine | run_polaris.py:22-33 | a record whose sequence spans several lines is read as one record whose sequence is the lines concatenated |
| Fasta.EmptyBodyShiftsPairing | run_polaris.py:26-33 | a header with no sequence line followed by a record is read as a single record whose tag is the first header and whose sequence is the second header; the real sequence is dropped |
| Partition.BoundsInRange | run_polaris.py:52-56 | for a rank inside the worker count, start and end satisfy 0 <= start <= end <= N, and start plus the chunk size stays within N |
| Partition.PySlice | run_polaris.py:61 | Python's `in_files[start:end]`: length and elements as given by the clamped, end-relative bounds, and the plain slice when both bounds are in range |
| Partition.FindShard | run_polaris.py:51-63 | with at most one worker the whole list; otherwise an in-range rank gets the slice from rank*(N/W) to the next rank's start, or to N for the last rank |
| Partition.ShardIsPySlice | run_polaris.py:52-61 | for every rank, in range or not, the shard is exactly Python's slice between the computed bounds |
| Partition.ShardSizes | run_polaris.py:52-56 | every rank but the last gets N/W items, the last gets N-(W-1)*(N/W); with fewer items than workers only the last rank has work |
| Partition.ShardMember | run_polaris.py:61 | whatever the rank, a shard only holds items of the list |
| Partition.OutOfRangeRankRepeatsLastShard | run_polaris.py:47-61 | a rank at or beyond the worker count gets only items of the last rank's shard |
| Partition.FindWorkfiles | run_polaris.py:45-65 | the shard depends on the environment only through the global rank `NODE_RANK*4 + PMI_LOCAL_RANK` and the worker count `NRANKS*4`; a non-positive `NRANKS` gives the whole list |
| Partition.ShardsBelowArePrefix | run_polaris.py:52-61 | the shards of ranks 0..k-1, concatenated, are the prefix of the list up to rank k's start |
| Partition.ShardsPartition | run_polaris.py:52-61 | the shards of all ranks, concatenated in rank order, are exactly the list: nothing is lost or duplicated |
| Partition.ShardOwnership | run_polaris.py:52-61 | an index lies in the slice of a rank if and only if that rank is its owner, so each item is handled by exactly one rank |
| Partition.DefaultEnvTakesFirstQuarter | run_polaris.py:47-61 | with no rank variables set the process handles exactly the first quarter (`N // 4` items) of the list |
| Polaris.FirstRecords | run_polaris.py:99-102 | directory mode yields the first record of each file in glob order, and fails exactly when some file has no record, naming the first such file |
| Polaris.ParseAll | run_polaris.py:101-102 | one parsed record list per matched file |
| Polaris.TempNameInjective | run_polaris.py:93 | different tags get different staged file names |
| Polaris.Stage | run_polaris.py:92-94 | after staging, the staging directory holds what it held before plus the staged name of every record |
| Polaris.StageLastWins | run_polaris.py:93-94 | mode `"w"` overwrites: a staged file holds the last record written under its name |
| Polaris.StageKeepsOthers | run_polaris.py:93-94 | files of the staging directory that no record is written to are left alone |
| Polaris.StagedFileReadsBack | run_polaris.py:93-94 | a staged well-formed record without carriage returns, read back from its file, is the one-record list holding it |
| Polaris.StageMatchesPrepare | run_polaris.py:87-94 | when the staged files start as the contents of `tmp_fasta`, the staged names afterwards are exactly the names recorded for `tmp_fasta` in the output directory |
| Polaris.Prepare | run_polaris.py:86-88 | creating `tmp_fasta` adds that entry to the output directory and changes no other entry |
| Polaris.Pending | run_polaris.py:93-97 | a record is pending if and only if it is a candidate, no entry of the output directory is named after its tag, and the tag is neither `.` nor `..` |
| Polaris.DotTagsNeverPending | run_polaris.py:93-97 | a record tagged `.` or `..` is never pending |
| Polaris.PendingAppend | run_polaris.py:92-106 | the pending filter keeps discovery order |
| Polaris.RunEsmfold | run_polaris.py:68-82 | test mode reports status 0; otherwise the status is the program's exit code; this is the status each loop record keeps |
| Polaris.RunEsmfoldOutputs | run_polaris.py:74-82 | one call only creates or changes the entry named after the tag; test mode always leaves it holding the marker file; a real run creates it exactly when the program leaves output |
| Polaris.FailedTags | run_polaris.py:114-115 | a tag is logged as failed if and only if some record with that tag has a non-zero status |
| Polaris.StepExtends | run_polaris.py:110-115 | one more pass of the loop body extends the loop's record, error log and output directory by the next unit |
| Polaris.RunUnits | run_polaris.py:110-115 | the loop runs every unit of the shard exactly once and in order, whatever the earlier statuses; record k belongs to unit k; the error log is the failed units; the output directory is the result of the runs in order |
| Polaris.LoopOutputs | run_polaris.py:110-113 | the loop keeps every entry of the output directory and only adds or changes entries named after units it ran |
| Polaris.RealLoopKeys | run_polaris.py:81-82 | outside test mode the loop adds an entry exactly for the units whose program run left its output directory, whatever the status |
| Polaris.TestLoopKeys | run_polaris.py:74-79 | in test mode the loop adds an entry for every unit it ran and no other |
| Polaris.TestLoopMarkers | run_polaris.py:75-77 | in test mode every entry the loop creates holds just the marker file |
| Polaris.ExecuteShard | run_polaris.py:110-115 | the imperative loop computes exactly the run of every unit of the shard |
| Polaris.FailedAreRunUnits | run_polaris.py:113-115 | only units of the shard are ever logged as failed |
| Polaris.Run | run_polaris.py:85-117 | `main` fails exactly when the catalog fails; otherwise it stages the catalog, filters it against the output directory, shards the pending list and runs the shard, and no pending record is named `tmp_fasta`, `.` or `..` or has an existing entry |
| Polaris.ShardUnitsArePending | run_polaris.py:96-108 | every unit of a worker's shard is a candidate whose output directory does not exist: a completed unit is never run again |
| Polaris.ResumeAfterRealPass | run_polaris.py:81-97 | after a real pass over a shard, a record is pending if and only if it was pending before and it is not a shard unit whose run left its output directory: a unit without output is retried, and a failed unit that left output is never run again |
| Polaris.ResumeAfterTestPass | run_polaris.py:96-113 | after a test-mode pass over a shard, a record stays pending if and only if it was pending before and its tag is not the tag of a unit of that shard |
| Polaris.TestPassCompletesShard | run_polaris.py:96-113 | after a test-mode pass nothing of the shard is pending any more |
| Polaris.StagingDirShadowsTag | run_polaris.py:87-97 | a record tagged `tmp_fasta` is never pending, because the staging directory exists |
| Polaris.NothingPending | run_polaris.py:96-97 | when every record has an output entry, the pending list is empty |
| Cleanup.CountPositive | scripts/remove_bad_folders.py:9-11 | `len(list(dir.glob("*" + suffix))) > 0` holds exactly when some name in the entry ends with the suffix |
| Cleanup.IsBadIff | scripts/remove_bad_folders.py:9-12 | an entry is selected if and only if it is a directory holding some `.out` name and no `.pdb` or `.fasta` name |
| Cleanup.NeverSelected | scripts/remove_bad_folders.py:12 | a plain file, an entry holding a `.pdb` name, and an entry without `.out` names are never selected |
| Cleanup.Select | scripts/remove_bad_folders.py:7-13 | an entry is collected if and only if it is in the listing and selected |
| Cleanup.SelectAppend | scripts/remove_bad_folders.py:8-13 | collection keeps listing order |
| Cleanup.CollectBad | scripts/remove_bad_folders.py:7-13 | the scan collects exactly the selected entries, in order |
| Cleanup.Without | scripts/remove_bad_folders.py:15-16 | after deleting a set of names, an entry remains if and only if its name is not among them |
| Cleanup.Kept | scripts/remove_bad_folders.py:6-16 | the entries left are exactly the unselected ones |
| Cleanup.WithoutSelected | scripts/remove_bad_folders.py:15-16 | with distinct names, deleting the names of the collected entries removes exactly the selected entries |
| Cleanup.RemoveBadFolders | scripts/remove_bad_folders.py:6-16 | the script collects the selected entries first and deletes them afterwards, leaving exactly the unselected ones |
| Cleanup.TestOutputSelected | scripts/remove_bad_folders.py:12 | a directory holding only the test marker is always selected |
| Cleanup.StagingDirNotSelected | scripts/remove_bad_folders.py:12 | the staging directory, which holds only `.fasta` files, is never selected |
| Cleanup.TestPassOutputsSelected | scripts/remove_bad_folders.py:12 | after a test-mode pass, the entry of every unit that had no output before is selected for deletion |

## Left out

- File and directory I/O is not modelled as such. A FASTA file is its
  contents, and reading it applies the universal-newline translation of
  `read_text()` (`UniversalNewlines`). Text mode writes `"\n"` unchanged, as
  on POSIX systems. File contents are taken as text already decoded: the
  locale encoding that `read_text()` and `open(..., "w")` apply, and the
  `UnicodeDecodeError` or `UnicodeEncodeError` they raise on text they
  cannot convert, are not modelled. The output directory is a map of names.
  `mkdir`, `print`, `argparse` and the pydantic validation of `Sequence` are
  left out.
- The regular expression engine is not modelled in general. Only the one
  pattern used, `>$` under `re.M`, is modelled.
- `write_fasta` is modelled only with mode `"w"`, the only mode `main` uses.
- Path.stem: a staged file's stem is taken to be the tag. This holds for
  the tags `.` and `..` too, which the pending filter treats as existing.
  A tag that holds `/` would give a different path, and the empty tag
  gives the stem `.fasta`; neither is modelled.
- `(out_dir / stem).exists()` is modelled as membership in the output map.
  Symbolic links and permissions are left out.
- Glob order is not modelled. The matched files come as a sequence in the
  order the glob gave them.
- Concurrency between worker processes is left out. Each worker is modelled
  on its own, and the partition lemmas relate the shards of all ranks.
  `ShardsPartition` and `ShardOwnership` assume that every rank cuts the
  same pending list. Each worker filters against the shared `out_dir` when
  it starts (run_polaris.py lines 96 and 105). A worker that starts after
  another has created output entries computes a shorter list, and the
  shards can then overlap or leave gaps. Test mode creates its entries at
  once, so this happens readily there.
- The command line that `run_esmfold` builds, the child process and its
  blocking are left out. The program is represented by its exit status and
  the output it leaves.
- `remove_bad_folders.py` passes `rm -rf` to a child process. This is
  modelled as removing the entry from the listing; the printed result is
  left out.
- Partition.FindWorkfiles: the environment values are integers already.
  `int()` raising `ValueError` on a non-numeric variable is not modelled.
- Polaris.RunEsmfold: the exit status and output depend only on the tag,
  not on the staged file's contents. The model assumes the program receives
  the staged file and `out_dir/<tag>` as its two paths and writes only into
  `out_dir/<tag>`; `RunEsmfoldOutputs`, `RealLoopKeys` and
  `ResumeAfterRealPass` rest on this. The code does not ensure it: it builds
  one command string and runs `command.split()` (run_polaris.py lines
  69-73 and 81), which cuts the arguments at white space. For a tag holding
  white space, such as `sp|P1|X Hemoglobin`, or an `out_dir` whose path
  holds a space, the program gets truncated paths and stray arguments
  instead of `out_dir/<tag>`, and may write elsewhere or nowhere.
- Polaris.RunUnits: only failures reported as a non-zero exit status are
  isolated. The `Launcher` is total, so the model has no exception. In the
  code an exception inside `run_esmfold` ends the loop and the process: an
  `OSError` from `subprocess.run` when `python` cannot be started, or one
  from `mkdir` or `open` in test mode.
- Polaris.Run: on the `EmptyFastaFile` failure, the staging already done for
  earlier files is not reported.
- Cleanup.RemoveBadFolders: it requires distinct entry names, which a
  directory listing always has.
