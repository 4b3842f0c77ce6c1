/**
  The driver `main` of `run_polaris.py`: build the catalog of records,
  stage each one as `tmp_fasta/<tag>.fasta`, keep the records whose output
  directory `out_dir/<tag>` does not exist yet, take this worker's shard
  and run the folding program once per record of the shard, logging and
  skipping failures.

  The output directory is a map from entry names to the names inside each
  entry; the folding program is a `Launcher`, a pure description of what
  it returns and leaves behind for a tag.
 */
module Polaris {
  import opened Wrappers
  import opened Fasta
  import Partition

  /** The entries of `out_dir`: each entry's name and the names inside it. */
  type OutputRoot = map<string, set<string>>

  /** The directory, inside `out_dir`, where records are staged. */
  const TempDir: string := "tmp_fasta"

  /** The file test mode writes in place of a real run. */
  const TestMarker: string := "test_out.out"

  /** Where the records come from: the contents of one FASTA file, or the
      contents of the files a glob matched in a directory, in the order it
      gave them. */
  datatype Source = FastaFile(contents: string) | FastaDir(files: seq<string>)

  /** `read_fasta(file)[0]` on a file without records raises `IndexError`. */
  datatype CatalogError = EmptyFastaFile(index: nat)

  /** The folding program as the loop sees it: the exit status it returns
      for a tag and what it leaves in `out_dir/<tag>` (`None` if it does not
      create that directory). */
  datatype Launcher = Launcher(exitCode: string -> int, leaves: string -> Option<set<string>>)

  /** What one call of `run_esmfold` returned and left behind. */
  datatype Launch = Launch(status: int, root: OutputRoot)

  /** One pass of the loop body. */
  datatype ExecutionRecord = ExecutionRecord(tag: string, input: string, output: string, status: int)

  /** The state of the loop: records so far, tags logged as failed, and the
      output directory. */
  datatype Progress = Progress(records: seq<ExecutionRecord>, failed: seq<string>, root: OutputRoot)

  // ---------------------------------------------------------------------
  // Catalog

  /** The first record of every parsed file, in glob order, or the position
      of the first file that has none. */
  function FirstRecords(parsed: seq<seq<Sequence>>): (r: Result<seq<Sequence>, CatalogError>)
    ensures r.Success? <==> forall i :: 0 <= i < |parsed| ==> |parsed[i]| > 0
    ensures r.Success? ==>
      && |r.value| == |parsed|
      && forall i :: 0 <= i < |parsed| ==> r.value[i] == parsed[i][0]
    ensures r.Failure? ==>
      && r.error.index < |parsed|
      && parsed[r.error.index] == []
      && forall j :: 0 <= j < r.error.index ==> |parsed[j]| > 0
  {
    if |parsed| == 0 then Success([])
    else if |parsed[0]| == 0 then Failure(EmptyFastaFile(0))
    else
      var rest := FirstRecords(parsed[1..]);
      assert forall i :: 1 <= i < |parsed| ==> parsed[1..][i - 1] == parsed[i];
      match rest
      case Success(firsts) => Success([parsed[0][0]] + firsts)
      case Failure(EmptyFastaFile(i)) => Failure(EmptyFastaFile(i + 1))
  }

  /** `read_fasta` on each file of a directory, in glob order. */
  function ParseAll(files: seq<string>): (parsed: seq<seq<Sequence>>)
    ensures |parsed| == |files|
  {
    seq(|files|, i requires 0 <= i < |files| => ReadFastaFile(files[i]))
  }

  /** Every candidate unit, in discovery order: all records of a single file,
      or the first record of each matched file of a directory. */
  function Catalog(src: Source): Result<seq<Sequence>, CatalogError>
  {
    match src
    case FastaFile(contents) => Success(ReadFastaFile(contents))
    case FastaDir(files) => FirstRecords(ParseAll(files))
  }

  // ---------------------------------------------------------------------
  // Staging

  /** The staged file name of a record. */
  function TempName(tag: string): string
  {
    tag + ".fasta"
  }

  lemma TempNameInjective(a: string, b: string)
    requires TempName(a) == TempName(b)
    ensures a == b
  {
    assert a == TempName(a)[..|a|];
    assert b == TempName(b)[..|b|];
  }

  /** The staged file names of `units`. */
  function TempNames(units: seq<Sequence>): set<string>
  {
    set u | u in units :: TempName(u.tag)
  }

  lemma TempNamesSnoc(units: seq<Sequence>)
    requires |units| > 0
    ensures TempNames(units) == TempNames(units[..|units| - 1]) + {TempName(units[|units| - 1].tag)}
  {
    assert units == units[..|units| - 1] + [units[|units| - 1]];
  }

  lemma TempNameDiffers(a: string, b: string)
    requires a != b
    ensures TempName(a) != TempName(b)
  {
    if TempName(a) == TempName(b) {
      TempNameInjective(a, b);
    }
  }

  /** The contents of `tmp_fasta` after each record is written, in order,
      to its own staged file in mode "w"; `staged` is what was there before. */
  function Stage(units: seq<Sequence>, staged: map<string, string>): (r: map<string, string>)
    ensures r.Keys == staged.Keys + TempNames(units)
  {
    if |units| == 0 then
      assert TempNames(units) == {};
      staged
    else
      var n := |units| - 1;
      TempNamesSnoc(units);
      Stage(units[..n], staged)[TempName(units[n].tag) := WriteFasta([units[n]])]
  }

  /** Each staged file holds the last record written under its name. */
  lemma {:induction false} StageLastWins(units: seq<Sequence>, staged: map<string, string>, i: int)
    requires 0 <= i < |units|
    requires forall j :: i < j < |units| ==> units[j].tag != units[i].tag
    ensures Stage(units, staged)[TempName(units[i].tag)] == WriteFasta([units[i]])
    decreases |units|
  {
    var n := |units| - 1;
    var before := Stage(units[..n], staged);
    var written := WriteFasta([units[n]]);
    assert Stage(units, staged) == before[TempName(units[n].tag) := written];
    if i < n {
      assert units[..n][i] == units[i];
      StageLastWins(units[..n], staged, i);
      assert units[n].tag != units[i].tag;
      TempNameDiffers(units[i].tag, units[n].tag);
    }
  }

  /** Files of `tmp_fasta` that no record is written to are left alone. */
  lemma {:induction false} StageKeepsOthers(units: seq<Sequence>, staged: map<string, string>, name: string)
    requires name in staged && name !in TempNames(units)
    ensures Stage(units, staged)[name] == staged[name]
    decreases |units|
  {
    if |units| > 0 {
      TempNamesSnoc(units);
      StageKeepsOthers(units[..|units| - 1], staged, name);
    }
  }

  /** A staged file reads back as the one record last written to it. */
  lemma StagedFileReadsBack(units: seq<Sequence>, staged: map<string, string>, i: int)
    requires 0 <= i < |units| && WellFormed(units[i]) && NoCarriageReturn(units[i])
    requires forall j :: i < j < |units| ==> units[j].tag != units[i].tag
    ensures ReadFastaFile(Stage(units, staged)[TempName(units[i].tag)]) == [units[i]]
  {
    StageLastWins(units, staged, i);
    FileRoundTrip([units[i]]);
  }

  /** `out_dir` once `tmp_fasta` exists and holds the staged names. */
  function Prepare(root: OutputRoot, units: seq<Sequence>): (r: OutputRoot)
    ensures r.Keys == root.Keys + {TempDir}
    ensures forall name :: name in root && name != TempDir ==> r[name] == root[name]
  {
    var existing := if TempDir in root then root[TempDir] else {};
    root[TempDir := existing + TempNames(units)]
  }

  /** When `staged` holds exactly the files `tmp_fasta` had before, the
      staged files afterwards are exactly the names `Prepare` records for
      `tmp_fasta`. */
  lemma StageMatchesPrepare(units: seq<Sequence>, staged: map<string, string>, root: OutputRoot)
    requires staged.Keys == (if TempDir in root then root[TempDir] else {})
    ensures Stage(units, staged).Keys == Prepare(root, units)[TempDir]
  {
  }

  // ---------------------------------------------------------------------
  // Completion and the pending list

  /** `(out_dir / stem).exists()` for the staged file of `tag`: an entry of
      `out_dir` with that name exists, or the tag is `.` or `..`, whose
      staged files `..fasta` and `...fasta` have the stems `.` and `..`;
      `out_dir / "."` is `out_dir` itself and `out_dir / ".."` its parent,
      which both exist. */
  predicate OutputExists(tag: string, root: OutputRoot)
  {
    tag in root || tag == "." || tag == ".."
  }

  /** The records whose output directory `out_dir/<tag>` does not exist,
      in catalog order. */
  function Pending(units: seq<Sequence>, root: OutputRoot): (r: seq<Sequence>)
    ensures |r| <= |units|
    ensures forall u :: u in r <==> u in units && !OutputExists(u.tag, root)
  {
    if |units| == 0 then []
    else
      var rest := Pending(units[1..], root);
      assert forall u :: u in units <==> u == units[0] || u in units[1..] by {
        assert units == [units[0]] + units[1..];
      }
      if OutputExists(units[0].tag, root) then rest else [units[0]] + rest
  }

  /** The filter keeps catalog order: it distributes over concatenation. */
  lemma {:induction false} PendingAppend(a: seq<Sequence>, b: seq<Sequence>, root: OutputRoot)
    ensures Pending(a + b, root) == Pending(a, root) + Pending(b, root)
    decreases |a|
  {
    if |a| == 0 {
      assert a + b == b;
    } else {
      assert (a + b)[0] == a[0] && (a + b)[1..] == a[1..] + b;
      PendingAppend(a[1..], b, root);
    }
  }

  // ---------------------------------------------------------------------
  // The loop

  /** `out_dir/<name>` created if needed, with `files` written into it. */
  function AddFiles(root: OutputRoot, name: string, files: set<string>): OutputRoot
  {
    root[name := (if name in root then root[name] else {}) + files]
  }

  /** `run_esmfold` on one staged record. In test mode it writes the marker
      file into `out_dir/<tag>` and returns 0; otherwise it returns the
      program's exit status and the program's output is added. */
  function RunEsmfold(tag: string, test: bool, launcher: Launcher, root: OutputRoot): (l: Launch)
    ensures test ==> l.status == 0
    ensures !test ==> l.status == launcher.exitCode(tag)
    ensures l.status == StatusOf(tag, test, launcher)
  {
    if test then Launch(0, AddFiles(root, tag, {TestMarker}))
    else
      match launcher.leaves(tag)
      case None => Launch(launcher.exitCode(tag), root)
      case Some(files) => Launch(launcher.exitCode(tag), AddFiles(root, tag, files))
  }

  /** What one call of `run_esmfold` does to `out_dir`: only the entry named
      after the tag may appear or change; test mode always creates it with
      the marker file inside; a real run creates it exactly when the program
      leaves output. */
  lemma RunEsmfoldOutputs(tag: string, test: bool, launcher: Launcher, root: OutputRoot)
    ensures var after := RunEsmfold(tag, test, launcher, root).root;
      && after.Keys >= root.Keys
      && (forall name :: name in root && name != tag ==> after[name] == root[name])
      && (forall name :: name in after && name != tag ==> name in root)
      && (test ==> tag in after && TestMarker in after[tag])
      && (test && tag !in root ==> after[tag] == {TestMarker})
      && (!test ==> (tag in after <==> tag in root || launcher.leaves(tag).Some?))
  {
  }

  /** The status `run_esmfold` reports for a tag. */
  function StatusOf(tag: string, test: bool, launcher: Launcher): int
  {
    if test then 0 else launcher.exitCode(tag)
  }

  /** The record the loop keeps of one unit: its staged input, its output
      directory and its status. */
  function RecordOf(tag: string, test: bool, launcher: Launcher): ExecutionRecord
  {
    ExecutionRecord(tag, TempDir + "/" + TempName(tag), tag, StatusOf(tag, test, launcher))
  }

  /** The tags of the records with a non-zero status, in order: the error
      log lines. */
  function FailedTags(records: seq<ExecutionRecord>): (r: seq<string>)
    ensures |r| <= |records|
    ensures forall t :: t in r <==> exists k :: 0 <= k < |records| && records[k].tag == t && records[k].status != 0
  {
    if |records| == 0 then []
    else
      var n := |records| - 1;
      var before := FailedTags(records[..n]);
      assert forall k :: 0 <= k < n ==> records[..n][k] == records[k];
      before + (if records[n].status != 0 then [records[n].tag] else [])
  }

  function TagsOf(units: seq<Sequence>): set<string>
  {
    set u | u in units :: u.tag
  }

  /** `out_dir` after `run_esmfold` has run on every unit, in order. */
  function OutputsAfter(units: seq<Sequence>, test: bool, launcher: Launcher, root: OutputRoot): OutputRoot
  {
    if |units| == 0 then root
    else
      var n := |units| - 1;
      RunEsmfold(units[n].tag, test, launcher, OutputsAfter(units[..n], test, launcher, root)).root
  }

  /** The loop over a shard, one unit after the other: every unit is run
      exactly once, in order, whatever the statuses of the units before it,
      and the error log lists the units whose status is not zero. */
  function RunUnits(units: seq<Sequence>, test: bool, launcher: Launcher, root: OutputRoot): (p: Progress)
    ensures |p.records| == |units|
    ensures forall k :: 0 <= k < |units| ==> p.records[k] == RecordOf(units[k].tag, test, launcher)
    ensures p.failed == FailedTags(p.records)
    ensures p.root == OutputsAfter(units, test, launcher, root)
  {
    if |units| == 0 then Progress([], [], root)
    else
      var n := |units| - 1;
      var p := RunUnits(units[..n], test, launcher, root);
      StepExtends(units, p, test, launcher, root);
      Step(p, units[n], test, launcher)
  }

  /** One pass of the loop body on unit `u`. */
  function Step(p: Progress, u: Sequence, test: bool, launcher: Launcher): Progress
  {
    var l := RunEsmfold(u.tag, test, launcher, p.root);
    Progress(p.records + [RecordOf(u.tag, test, launcher)],
             if l.status != 0 then p.failed + [u.tag] else p.failed,
             l.root)
  }

  /** One more pass of the loop body extends what the loop over the units
      before the last one established to all of `units`. */
  lemma StepExtends(units: seq<Sequence>, p: Progress, test: bool, launcher: Launcher, root: OutputRoot)
    requires |units| > 0
    requires |p.records| == |units| - 1
    requires forall k :: 0 <= k < |units| - 1 ==>
      p.records[k] == RecordOf(units[..|units| - 1][k].tag, test, launcher)
    requires p.failed == FailedTags(p.records)
    requires p.root == OutputsAfter(units[..|units| - 1], test, launcher, root)
    ensures var r := Step(p, units[|units| - 1], test, launcher);
      && |r.records| == |units|
      && (forall k :: 0 <= k < |units| ==> r.records[k] == RecordOf(units[k].tag, test, launcher))
      && r.failed == FailedTags(r.records)
      && r.root == OutputsAfter(units, test, launcher, root)
  {
    var n := |units| - 1;
    var rec := RecordOf(units[n].tag, test, launcher);
    var r := Step(p, units[n], test, launcher);
    StepFacts(p, units[n], test, launcher);
    FailedTagsSnoc(p.records, rec);
    assert r.records[..n] == p.records && r.records[n] == rec;
    assert forall k :: 0 <= k < n ==> units[..n][k] == units[k];
  }

  lemma StepFacts(p: Progress, u: Sequence, test: bool, launcher: Launcher)
    ensures var r := Step(p, u, test, launcher);
      && r.records == p.records + [RecordOf(u.tag, test, launcher)]
      && r.failed == p.failed + (if StatusOf(u.tag, test, launcher) != 0 then [u.tag] else [])
      && r.root == RunEsmfold(u.tag, test, launcher, p.root).root
  {
  }

  lemma FailedTagsSnoc(records: seq<ExecutionRecord>, rec: ExecutionRecord)
    ensures FailedTags(records + [rec]) == FailedTags(records) + (if rec.status != 0 then [rec.tag] else [])
  {
    assert (records + [rec])[..|records|] == records;
  }

  lemma RunUnitsPrefix(units: seq<Sequence>, i: int, test: bool, launcher: Launcher, root: OutputRoot)
    requires 0 <= i < |units|
    ensures RunUnits(units[..i + 1], test, launcher, root)
         == Step(RunUnits(units[..i], test, launcher, root), units[i], test, launcher)
  {
    assert units[..i + 1][..i] == units[..i];
  }

  lemma TagsOfSnoc(units: seq<Sequence>)
    requires |units| > 0
    ensures TagsOf(units) == TagsOf(units[..|units| - 1]) + {units[|units| - 1].tag}
  {
    assert units == units[..|units| - 1] + [units[|units| - 1]];
  }

  /** What the loop does to `out_dir`: it only adds entries named after the
      units it ran and leaves every other entry as it was. */
  lemma {:induction false} LoopOutputs(units: seq<Sequence>, test: bool, launcher: Launcher, root: OutputRoot)
    ensures var after := OutputsAfter(units, test, launcher, root);
      && after.Keys >= root.Keys
      && (forall name :: name in after && name !in root ==> name in TagsOf(units))
      && (forall name :: name in root && name !in TagsOf(units) ==> after[name] == root[name])
    decreases |units|
  {
    if |units| > 0 {
      var n := |units| - 1;
      LoopOutputs(units[..n], test, launcher, root);
      RunEsmfoldOutputs(units[n].tag, test, launcher, OutputsAfter(units[..n], test, launcher, root));
      TagsOfSnoc(units);
    }
  }

  /** In test mode the loop adds an entry for every unit it ran. */
  lemma {:induction false} TestLoopKeys(units: seq<Sequence>, launcher: Launcher, root: OutputRoot)
    ensures OutputsAfter(units, true, launcher, root).Keys == root.Keys + TagsOf(units)
    decreases |units|
  {
    if |units| > 0 {
      var n := |units| - 1;
      TestLoopKeys(units[..n], launcher, root);
      RunEsmfoldOutputs(units[n].tag, true, launcher, OutputsAfter(units[..n], true, launcher, root));
      TagsOfSnoc(units);
    } else {
      assert TagsOf(units) == {};
    }
  }

  /** The tags of the units whose program run leaves `out_dir/<tag>`. */
  function LeftOutput(units: seq<Sequence>, launcher: Launcher): set<string>
  {
    set u | u in units && launcher.leaves(u.tag).Some? :: u.tag
  }

  lemma LeftOutputSnoc(units: seq<Sequence>, launcher: Launcher)
    requires |units| > 0
    ensures var n := |units| - 1;
      LeftOutput(units, launcher) == LeftOutput(units[..n], launcher)
        + (if launcher.leaves(units[n].tag).Some? then {units[n].tag} else {})
  {
    assert units == units[..|units| - 1] + [units[|units| - 1]];
  }

  /** Outside test mode the loop adds an entry exactly for the units whose
      program run leaves its output directory, whatever their status. */
  lemma {:induction false} RealLoopKeys(units: seq<Sequence>, launcher: Launcher, root: OutputRoot)
    ensures OutputsAfter(units, false, launcher, root).Keys == root.Keys + LeftOutput(units, launcher)
    decreases |units|
  {
    if |units| > 0 {
      var n := |units| - 1;
      RealLoopKeys(units[..n], launcher, root);
      RunEsmfoldOutputs(units[n].tag, false, launcher, OutputsAfter(units[..n], false, launcher, root));
      LeftOutputSnoc(units, launcher);
    } else {
      assert LeftOutput(units, launcher) == {};
    }
  }

  /** In test mode every entry the loop creates holds just the marker file. */
  lemma {:induction false} TestLoopMarkers(units: seq<Sequence>, launcher: Launcher, root: OutputRoot)
    ensures var after := OutputsAfter(units, true, launcher, root);
      forall name :: name in after && name !in root ==> after[name] == {TestMarker}
    decreases |units|
  {
    if |units| > 0 {
      var n := |units| - 1;
      var prev := OutputsAfter(units[..n], true, launcher, root);
      TestLoopMarkers(units[..n], launcher, root);
      RunEsmfoldOutputs(units[n].tag, true, launcher, prev);
      forall name | name in OutputsAfter(units, true, launcher, root) && name !in root
        ensures OutputsAfter(units, true, launcher, root)[name] == {TestMarker}
      {
        if name != units[n].tag {
          assert name in prev;
        }
      }
    }
  }

  /** The loop of `main`: `run_esmfold` once per unit of the shard, in shard
      order; a non-zero status only adds the unit's tag to the error log. */
  method ExecuteShard(shard: seq<Sequence>, test: bool, launcher: Launcher, root: OutputRoot)
    returns (p: Progress)
    ensures p == RunUnits(shard, test, launcher, root)
  {
    p := Progress([], [], root);
    var i := 0;
    assert shard[..i] == [];
    while i < |shard|
      invariant 0 <= i <= |shard|
      invariant p == RunUnits(shard[..i], test, launcher, root)
    {
      var u := shard[i];
      var launch := RunEsmfold(u.tag, test, launcher, p.root);
      var failed := p.failed;
      if launch.status != 0 {
        failed := failed + [u.tag];
      }
      RunUnitsPrefix(shard, i, test, launcher, root);
      p := Progress(p.records + [RecordOf(u.tag, test, launcher)], failed, launch.root);
      i := i + 1;
    }
    assert shard[..i] == shard;
  }

  /** Only units of the shard are ever logged as failed. */
  lemma FailedAreRunUnits(units: seq<Sequence>, test: bool, launcher: Launcher, root: OutputRoot)
    ensures forall t :: t in RunUnits(units, test, launcher, root).failed ==> t in TagsOf(units)
  {
    var p := RunUnits(units, test, launcher, root);
    FailedAreRun(p.records, units, test, launcher);
  }

  lemma FailedAreRun(records: seq<ExecutionRecord>, shard: seq<Sequence>, test: bool, launcher: Launcher)
    requires |records| == |shard|
    requires forall k :: 0 <= k < |shard| ==> records[k].tag == shard[k].tag
    ensures forall t :: t in FailedTags(records) ==> t in TagsOf(shard)
  {
  }

  /** The outcome of one invocation of `main`. */
  datatype Report = Report(
    units: seq<Sequence>,
    staged: map<string, string>,
    pending: seq<Sequence>,
    shard: seq<Sequence>,
    progress: Progress)

  /** `main`: catalog, stage, filter, shard and run. `staged` holds the files
      already in `tmp_fasta`; `env` the rank variables of the process. */
  method Run(src: Source, root: OutputRoot, staged: map<string, string>,
             env: Partition.Env, test: bool, launcher: Launcher)
    returns (r: Result<Report, CatalogError>)
    ensures r.Failure? <==> Catalog(src).Failure?
    ensures r.Failure? ==> r.error == Catalog(src).error
    ensures r.Success? ==>
      var units := Catalog(src).value;
      var root1 := Prepare(root, units);
      && r.value.units == units
      && r.value.staged == Stage(units, staged)
      && r.value.pending == Pending(units, root1)
      && r.value.shard == Partition.FindWorkfiles(r.value.pending, env)
      && r.value.progress == RunUnits(r.value.shard, test, launcher, root1)
    ensures r.Success? ==> forall u :: u in r.value.pending ==> u.tag != TempDir && !OutputExists(u.tag, root)
  {
    var units :- Catalog(src);
    var staged' := Stage(units, staged);
    var root1 := Prepare(root, units);
    var pending := Pending(units, root1);
    var shard := Partition.FindWorkfiles(pending, env);
    var progress := ExecuteShard(shard, test, launcher, root1);
    return Success(Report(units, staged', pending, shard, progress));
  }

  // ---------------------------------------------------------------------
  // Resume semantics

  /** Every unit of a worker's shard is pending: a unit whose output
      directory exists is never run again. */
  lemma ShardUnitsArePending(units: seq<Sequence>, root: OutputRoot, env: Partition.Env, u: Sequence)
    requires u in Partition.FindWorkfiles(Pending(units, root), env)
    ensures u in units && !OutputExists(u.tag, root)
  {
    var rk := Partition.RankFromEnv(env);
    Partition.ShardMember(Pending(units, root), rk.GlobalRank(), rk.WorkerCount(), u);
  }

  /** After a test-mode pass over a shard the pending filter excludes
      exactly the units of that shard in addition to what it excluded
      before. */
  lemma ResumeAfterTestPass(units: seq<Sequence>, shard: seq<Sequence>, launcher: Launcher, root: OutputRoot)
    ensures var after := RunUnits(shard, true, launcher, root).root;
      forall u :: u in Pending(units, after) <==> u in Pending(units, root) && u.tag !in TagsOf(shard)
  {
    TestLoopKeys(shard, launcher, root);
  }

  /** After a real pass over a shard, a record is pending exactly when it was
      pending before and the program run on its tag left no output
      directory: a unit without output is retried on the next run, and a
      unit whose run left its directory is never run again, even if its
      status was not zero. */
  lemma ResumeAfterRealPass(units: seq<Sequence>, shard: seq<Sequence>, launcher: Launcher, root: OutputRoot)
    ensures var after := RunUnits(shard, false, launcher, root).root;
      forall u :: u in Pending(units, after) <==>
        u in Pending(units, root) && !(u.tag in TagsOf(shard) && launcher.leaves(u.tag).Some?)
  {
    RealLoopKeys(shard, launcher, root);
    assert forall t :: t in LeftOutput(shard, launcher) <==> t in TagsOf(shard) && launcher.leaves(t).Some?;
  }

  /** Re-running the filter after a test-mode pass leaves nothing of the
      shard pending. */
  lemma TestPassCompletesShard(shard: seq<Sequence>, launcher: Launcher, root: OutputRoot)
    ensures Pending(shard, RunUnits(shard, true, launcher, root).root) == []
  {
    var after := RunUnits(shard, true, launcher, root).root;
    TestLoopKeys(shard, launcher, root);
    assert forall u :: u in shard ==> u.tag in TagsOf(shard);
    NothingPending(shard, after);
  }

  /** The staging directory is an entry of `out_dir`, so a unit whose tag
      is `tmp_fasta` is always taken to be complete and is never run. */
  lemma StagingDirShadowsTag(units: seq<Sequence>, root: OutputRoot, u: Sequence)
    requires u in units && u.tag == TempDir
    ensures u !in Pending(units, Prepare(root, units))
  {
  }

  /** The tags `.` and `..` name directories that always exist, so their
      records are never run. */
  lemma DotTagsNeverPending(units: seq<Sequence>, root: OutputRoot, u: Sequence)
    requires u in units && (u.tag == "." || u.tag == "..")
    ensures u !in Pending(units, root)
  {
  }

  lemma {:induction false} NothingPending(units: seq<Sequence>, root: OutputRoot)
    requires forall u :: u in units ==> u.tag in root
    ensures Pending(units, root) == []
    decreases |units|
  {
    if |units| > 0 {
      assert units[0] in units;
      assert forall u :: u in units[1..] ==> u in units;
      NothingPending(units[1..], root);
    }
  }
}
