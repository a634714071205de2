/**
 Several migration runners at work on one database: each `RunUp` is a sequence of
 separate database calls, so runners interleave between them, read the version
 table before they act on it, and may fail or be cut off at any point.

 The database gives two guarantees: a transaction takes effect at its commit as
 a whole or not at all, and `version` is a primary key, so that an insert fails on
 a committed duplicate and waits for an uncommitted one.
 */
module MigrationProtocol {
  import opened Domain
  import opened MigrationFiles
  import opened Text

  /** A migration directory with its namespace, files sorted. */
  datatype Directory = Directory(namespace: string, files: seq<string>)

  /** What the runners of a directory see: the versions of its files, in order. */
  datatype Source = Source(files: seq<string>)

  /** File `file` of source `source`. */
  datatype Script = Script(source: nat, file: nat)

  /** Where a runner is: the number is the file its loop has reached. */
  datatype Phase =
    | Idle
    | Looking(file: nat)    // about to ask whether the file is applied
    | Missing(file: nat)    // was told it is not
    | Executed(file: nat)   // transaction open, script executed
    | Recorded(file: nat)   // version row inserted, not committed
    | Done
    | Failed

  datatype Runner = Runner(source: nat, phase: Phase)

  /** `table` holds the committed version rows, `log` the committed scripts in commit order. */
  datatype State = State(table: set<string>, log: seq<Script>, runners: seq<Runner>)

  datatype Step =
    | Start(runner: nat)
    | Ask(runner: nat)
    | Execute(runner: nat)
    | Record(runner: nat)
    | Commit(runner: nat)
    | CommitUnheard(runner: nat)  // committed, but the answer never arrived
    | Fail(runner: nat)

  predicate Has(sources: seq<Source>, s: Script) {
    s.source < |sources| && s.file < |sources[s.source].files|
  }

  function VersionOf(sources: seq<Source>, s: Script): string
    requires Has(sources, s)
  {
    sources[s.source].files[s.file]
  }

  /** Versions identify scripts. */
  ghost predicate ValidSources(sources: seq<Source>) {
    forall a, b | Has(sources, a) && Has(sources, b) && VersionOf(sources, a) == VersionOf(sources, b) :: a == b
  }

  predicate ValidRunner(sources: seq<Source>, r: Runner) {
    r.source < |sources| &&
    match r.phase
    case Looking(f) => f <= |sources[r.source].files|
    case Missing(f) => f < |sources[r.source].files|
    case Executed(f) => f < |sources[r.source].files|
    case Recorded(f) => f < |sources[r.source].files|
    case _ => true
  }

  /** Another runner has inserted the version and not yet committed. */
  ghost predicate HeldByOther(sources: seq<Source>, st: State, r: nat, version: string) {
    exists k | 0 <= k < |st.runners| ::
      k != r && ValidRunner(sources, st.runners[k]) && st.runners[k].phase.Recorded? &&
      VersionOf(sources, Script(st.runners[k].source, st.runners[k].phase.file)) == version
  }

  function Enter(st: State, r: nat, phase: Phase): State
    requires r < |st.runners|
  {
    st.(runners := st.runners[r := st.runners[r].(phase := phase)])
  }

  /** One database call of one runner; `None` when the step is not possible now. */
  ghost function After(sources: seq<Source>, st: State, step: Step): Option<State> {
    var r := step.runner;
    if r >= |st.runners| || !ValidRunner(sources, st.runners[r]) then None
    else
      var src, phase := st.runners[r].source, st.runners[r].phase;
      match step
      case Start(_) =>
        if phase.Idle? || phase.Done? || phase.Failed? then Some(Enter(st, r, Looking(0))) else None
      case Ask(_) =>
        if !phase.Looking? then None
        else if phase.file == |sources[src].files| then Some(Enter(st, r, Done))
        else if VersionOf(sources, Script(src, phase.file)) in st.table
        then Some(Enter(st, r, Looking(phase.file + 1)))
        else Some(Enter(st, r, Missing(phase.file)))
      case Execute(_) =>
        if phase.Missing? then Some(Enter(st, r, Executed(phase.file))) else None
      case Record(_) =>
        if !phase.Executed? then None
        else
          var v := VersionOf(sources, Script(src, phase.file));
          if v in st.table then Some(Enter(st, r, Failed))
          else if HeldByOther(sources, st, r, v) then None
          else Some(Enter(st, r, Recorded(phase.file)))
      case Commit(_) =>
        if phase.Recorded?
        then Some(Committed(sources, Enter(st, r, Looking(phase.file + 1)), Script(src, phase.file)))
        else None
      case CommitUnheard(_) =>
        if phase.Recorded?
        then Some(Committed(sources, Enter(st, r, Failed), Script(src, phase.file)))
        else None
      case Fail(_) => Some(Enter(st, r, Failed))
  }

  function Committed(sources: seq<Source>, st: State, s: Script): State
    requires Has(sources, s)
  {
    st.(table := st.table + {VersionOf(sources, s)}, log := st.log + [s])
  }

  ghost function Run(sources: seq<Source>, st: State, steps: seq<Step>): Option<State> {
    if steps == [] then Some(st)
    else
      var before := Run(sources, st, steps[..|steps| - 1]);
      if before.None? then None else After(sources, before.value, steps[|steps| - 1])
  }

  // --------------------------------------------------------------- the invariant

  /** The files of a source in the log, in order. */
  ghost function FilesOf(log: seq<Script>, source: nat): seq<nat> {
    if log == [] then []
    else
      var before, last := FilesOf(log[..|log| - 1], source), log[|log| - 1];
      if last.source == source then before + [last.file] else before
  }

  ghost function FirstNumbers(n: nat): seq<nat> { seq(n, i => i) }

  /** How many files of the source are committed. */
  ghost function Applied(st: State, source: nat): nat { |FilesOf(st.log, source)| }

  ghost predicate Prefixes(sources: seq<Source>, st: State) {
    forall s | 0 <= s < |sources| ::
      Applied(st, s) <= |sources[s].files| && FilesOf(st.log, s) == FirstNumbers(Applied(st, s))
  }

  /** A runner never gets ahead: all files before the one it has reached are committed. */
  ghost predicate NotAhead(sources: seq<Source>, st: State, r: Runner) {
    ValidRunner(sources, r) &&
    match r.phase
    case Looking(f) => f <= Applied(st, r.source)
    case Missing(f) => f <= Applied(st, r.source)
    case Executed(f) => f <= Applied(st, r.source)
    case Recorded(f) => f == Applied(st, r.source)
    case Done => Applied(st, r.source) == |sources[r.source].files|
    case _ => true
  }

  /** The rows of the version table are exactly the versions of the committed scripts. */
  ghost predicate TableMatchesLog(sources: seq<Source>, st: State) {
    && (forall k | 0 <= k < |st.log| :: Has(sources, st.log[k]))
    && (forall k | 0 <= k < |st.log| :: VersionOf(sources, st.log[k]) in st.table)
    && (forall v | v in st.table :: exists k | 0 <= k < |st.log| :: VersionOf(sources, st.log[k]) == v)
  }

  /** An uncommitted row is held by one runner only. */
  ghost predicate RowsHeldOnce(st: State) {
    forall i, j | 0 <= i < j < |st.runners| ::
      st.runners[i].phase.Recorded? && st.runners[j].phase.Recorded? ==>
      st.runners[i].source != st.runners[j].source
  }

  ghost predicate Safe(sources: seq<Source>, st: State) {
    && TableMatchesLog(sources, st)
    && Prefixes(sources, st)
    && (forall r | r in st.runners :: NotAhead(sources, st, r))
    && RowsHeldOnce(st)
  }

  /** An empty version table and any number of idle runners. */
  ghost predicate Initial(sources: seq<Source>, st: State) {
    st.table == {} && st.log == [] &&
    forall r | r in st.runners :: r.source < |sources| && r.phase.Idle?
  }

  lemma InitialIsSafe(sources: seq<Source>, st: State)
    requires Initial(sources, st)
    ensures Safe(sources, st)
  {
  }

  function SourceOf(d: Directory): Source {
    Source(seq(|d.files|, i requires 0 <= i < |d.files| => Version(d.files[i], d.namespace)))
  }

  /** The files of every directory, as `migrationFiles` reads them, have versions that identify
      their scripts, when the namespaces are different. */
  lemma DirectoriesAreValid(dirs: seq<Directory>, listings: seq<seq<Entry>>, sources: seq<Source>)
    requires |listings| == |dirs| && forall i | 0 <= i < |dirs| ::
      IsDirectory(listings[i]) && ReadFrom(dirs[i].files, listings[i], UP_SUFFIX)
    requires forall i, j | 0 <= i < j < |dirs| :: TrimSpace(dirs[i].namespace) != TrimSpace(dirs[j].namespace)
    requires |sources| == |dirs| && forall i | 0 <= i < |dirs| :: sources[i] == SourceOf(dirs[i])
    ensures ValidSources(sources)
  {
    forall i | 0 <= i < |dirs| ensures Different(dirs[i].files) && forall f | f in dirs[i].files :: FileName(f) {
      ReadFilesAreFileNames(dirs[i].files, listings[i]);
    }
    forall a, b | Has(sources, a) && Has(sources, b) && VersionOf(sources, a) == VersionOf(sources, b)
      ensures a == b
    {
      var f, g := dirs[a.source].files[a.file], dirs[b.source].files[b.file];
      assert f in dirs[a.source].files && g in dirs[b.source].files;
      VersionInjective(f, dirs[a.source].namespace, g, dirs[b.source].namespace);
    }
  }

  lemma {:induction false} FilesOfHas(log: seq<Script>, k: nat)
    requires k < |log|
    ensures log[k].file in FilesOf(log, log[k].source)
  {
    if k < |log| - 1 {
      FilesOfHas(log[..|log| - 1], k);
    }
  }

  lemma {:induction false} FilesOfFrom(log: seq<Script>, source: nat, file: nat) returns (k: nat)
    requires file in FilesOf(log, source)
    ensures k < |log| && log[k] == Script(source, file)
  {
    var last := log[|log| - 1];
    if last == Script(source, file) {
      k := |log| - 1;
    } else {
      k := FilesOfFrom(log[..|log| - 1], source, file);
    }
  }

  /** A version row is there exactly when its file is among the committed first ones. */
  lemma RowIffApplied(sources: seq<Source>, st: State, s: Script)
    requires ValidSources(sources) && TableMatchesLog(sources, st) && Prefixes(sources, st)
    requires Has(sources, s)
    ensures VersionOf(sources, s) in st.table <==> s.file < Applied(st, s.source)
  {
    if VersionOf(sources, s) in st.table {
      var k :| 0 <= k < |st.log| && VersionOf(sources, st.log[k]) == VersionOf(sources, s);
      assert st.log[k] == s;
      FilesOfHas(st.log, k);
    }
    if s.file < Applied(st, s.source) {
      assert FirstNumbers(Applied(st, s.source))[s.file] == s.file;
      var k := FilesOfFrom(st.log, s.source, s.file);
    }
  }

  lemma FilesOfCommit(log: seq<Script>, s: Script, source: nat)
    ensures FilesOf(log + [s], source) ==
      if s.source == source then FilesOf(log, source) + [s.file] else FilesOf(log, source)
  {
    assert (log + [s])[..|log|] == log;
  }

  lemma AppliedAfterCommit(sources: seq<Source>, st: State, s: Script)
    requires Has(sources, s)
    ensures forall x: nat :: Applied(Committed(sources, st, s), x) == Applied(st, x) + if x == s.source then 1 else 0
  {
    forall x: nat ensures Applied(Committed(sources, st, s), x) == Applied(st, x) + if x == s.source then 1 else 0 {
      FilesOfCommit(st.log, s, x);
    }
  }

  lemma PrefixesGrow(sources: seq<Source>, st: State, s: Script)
    requires Prefixes(sources, st) && Has(sources, s) && s.file == Applied(st, s.source)
    ensures Prefixes(sources, Committed(sources, st, s))
  {
    var st' := Committed(sources, st, s);
    AppliedAfterCommit(sources, st, s);
    forall x | 0 <= x < |sources|
      ensures Applied(st', x) <= |sources[x].files| && FilesOf(st'.log, x) == FirstNumbers(Applied(st', x))
    {
      FilesOfCommit(st.log, s, x);
      assert FirstNumbers(s.file + 1) == FirstNumbers(s.file) + [s.file];
    }
  }

  /** Committing the next file of a source keeps table and log in step. */
  lemma CommitKeepsPrefixes(sources: seq<Source>, st: State, s: Script)
    requires TableMatchesLog(sources, st) && Prefixes(sources, st)
    requires Has(sources, s) && s.file == Applied(st, s.source)
    ensures var st' := Committed(sources, st, s);
      && TableMatchesLog(sources, st') && Prefixes(sources, st')
      && Applied(st', s.source) == s.file + 1
      && forall x: nat | x != s.source :: Applied(st', x) == Applied(st, x)
  {
    AppliedAfterCommit(sources, st, s);
    PrefixesGrow(sources, st, s);
    TableGrows(sources, st, s);
  }

  lemma TableGrows(sources: seq<Source>, st: State, s: Script)
    requires TableMatchesLog(sources, st) && Has(sources, s)
    ensures TableMatchesLog(sources, Committed(sources, st, s))
  {
    var st' := Committed(sources, st, s);
    assert st'.log[|st.log|] == s;
    forall v | v in st'.table ensures exists k | 0 <= k < |st'.log| :: VersionOf(sources, st'.log[k]) == v {
      if v in st.table {
        var k :| 0 <= k < |st.log| && VersionOf(sources, st.log[k]) == v;
        assert st'.log[k] == st.log[k];
      }
    }
  }

  // ------------------------------------------------------------ every step is safe

  /** A runner moves without a commit. */
  lemma EnterIsSafe(sources: seq<Source>, st: State, r: nat, phase: Phase)
    requires Safe(sources, st) && r < |st.runners|
    requires NotAhead(sources, st, st.runners[r].(phase := phase))
    requires phase.Recorded? ==> forall k | 0 <= k < |st.runners| && k != r ::
      st.runners[k].phase.Recorded? ==> st.runners[k].source != st.runners[r].source
    ensures Safe(sources, Enter(st, r, phase))
  {
    var st' := Enter(st, r, phase);
    forall x | x in st'.runners ensures NotAhead(sources, st', x) {
      var k :| 0 <= k < |st'.runners| && st'.runners[k] == x;
      assert k != r ==> st.runners[k] in st.runners;
    }
    assert forall x: nat :: Applied(st', x) == Applied(st, x);
  }

  lemma RecordIsSafe(sources: seq<Source>, st: State, r: nat)
    requires ValidSources(sources) && Safe(sources, st)
    requires After(sources, st, Record(r)).Some?
    ensures Safe(sources, After(sources, st, Record(r)).value)
  {
    var me := st.runners[r];
    assert me in st.runners;
    var s := Script(me.source, me.phase.file);
    RowIffApplied(sources, st, s);
    if VersionOf(sources, s) in st.table {
      EnterIsSafe(sources, st, r, Failed);
    } else {
      forall k | 0 <= k < |st.runners| && k != r && st.runners[k].phase.Recorded?
        ensures st.runners[k].source != me.source
      {
        assert st.runners[k] in st.runners;
      }
      EnterIsSafe(sources, st, r, Recorded(s.file));
    }
  }

  lemma CommitIsSafe(sources: seq<Source>, st: State, r: nat, phase: Phase)
    requires ValidSources(sources) && Safe(sources, st)
    requires r < |st.runners| && st.runners[r].phase.Recorded? && ValidRunner(sources, st.runners[r])
    requires phase == Failed || phase == Looking(st.runners[r].phase.file + 1)
    ensures var s := Script(st.runners[r].source, st.runners[r].phase.file);
      Safe(sources, Committed(sources, Enter(st, r, phase), s))
  {
    var me := st.runners[r];
    assert me in st.runners;
    var s := Script(me.source, me.phase.file);
    CommitKeepsPrefixes(sources, st, s);
    var st' := Committed(sources, Enter(st, r, phase), s);
    var db := Committed(sources, st, s);
    assert st'.log == db.log && st'.table == db.table;
    assert forall x: nat :: Applied(st', x) == Applied(db, x);
    NobodyAheadAfterCommit(sources, st, r, phase);
  }

  lemma NobodyAheadAfterCommit(sources: seq<Source>, st: State, r: nat, phase: Phase)
    requires ValidSources(sources) && Safe(sources, st)
    requires r < |st.runners| && st.runners[r].phase.Recorded? && ValidRunner(sources, st.runners[r])
    requires phase == Failed || phase == Looking(st.runners[r].phase.file + 1)
    ensures var s := Script(st.runners[r].source, st.runners[r].phase.file);
      var st' := Committed(sources, Enter(st, r, phase), s);
      forall x | x in st'.runners :: NotAhead(sources, st', x)
  {
    var me := st.runners[r];
    assert me in st.runners;
    var s := Script(me.source, me.phase.file);
    var st' := Committed(sources, Enter(st, r, phase), s);
    AppliedAfterCommit(sources, Enter(st, r, phase), s);
    forall x | x in st'.runners ensures NotAhead(sources, st', x) {
      var k :| 0 <= k < |st'.runners| && st'.runners[k] == x;
      if k != r {
        assert st.runners[k] in st.runners;
        assert st.runners[k].phase.Recorded? ==> st.runners[k].source != me.source;
      }
    }
  }

  lemma StepIsSafe(sources: seq<Source>, st: State, step: Step)
    requires ValidSources(sources) && Safe(sources, st)
    requires After(sources, st, step).Some?
    ensures Safe(sources, After(sources, st, step).value)
  {
    var r := step.runner;
    var me := st.runners[r];
    assert me in st.runners;
    match step
    case Start(_) => EnterIsSafe(sources, st, r, Looking(0));
    case Ask(_) =>
      if me.phase.file < |sources[me.source].files| {
        RowIffApplied(sources, st, Script(me.source, me.phase.file));
      }
      EnterIsSafe(sources, st, r, After(sources, st, step).value.runners[r].phase);
    case Execute(_) => EnterIsSafe(sources, st, r, Executed(me.phase.file));
    case Record(_) => RecordIsSafe(sources, st, r);
    case Commit(_) => CommitIsSafe(sources, st, r, Looking(me.phase.file + 1));
    case CommitUnheard(_) => CommitIsSafe(sources, st, r, Failed);
    case Fail(_) => EnterIsSafe(sources, st, r, Failed);
  }

  /** Every run of any number of runners, with failures and restarts at any step, keeps the
      committed scripts of every source the first files of its sorted list, each once, and
      the version table equal to them. */
  lemma {:induction false} EveryRunIsSafe(sources: seq<Source>, st: State, steps: seq<Step>)
    requires ValidSources(sources) && Initial(sources, st)
    requires Run(sources, st, steps).Some?
    ensures Safe(sources, Run(sources, st, steps).value)
    decreases |steps|
  {
    InitialIsSafe(sources, st);
    RunIsSafe(sources, st, steps);
  }

  /** No script is committed twice, and none before all earlier ones of its source. */
  ghost predicate InOrderOnce(log: seq<Script>) {
    && (forall i, j | 0 <= i < j < |log| :: log[i] != log[j])
    && (forall k, f | 0 <= k < |log| && 0 <= f < log[k].file :: Script(log[k].source, f) in log[..k])
  }

  lemma {:induction false} FilesOfPrefix(log: seq<Script>, k: nat, source: nat)
    requires k <= |log|
    ensures FilesOf(log[..k], source) <= FilesOf(log, source)
    decreases |log| - k
  {
    if k < |log| {
      FilesOfPrefix(log, k + 1, source);
      assert log[..k + 1] == log[..k] + [log[k]];
      FilesOfCommit(log[..k], log[k], source);
    } else {
      assert log[..k] == log;
    }
  }

  /** The file of a log entry is the number of files of its source committed before it. */
  lemma EntryIsNext(log: seq<Script>, k: nat, n: nat)
    requires k < |log| && FilesOf(log, log[k].source) == FirstNumbers(n)
    ensures var m := log[k].file; FilesOf(log[..k], log[k].source) == FirstNumbers(m)
  {
    var source := log[k].source;
    var before := FilesOf(log[..k], source);
    FilesOfPrefix(log, k + 1, source);
    assert log[..k + 1] == log[..k] + [log[k]];
    FilesOfCommit(log[..k], log[k], source);
    var with := before + [log[k].file];
    assert with <= FirstNumbers(n) && with[|before|] == log[k].file;
    assert forall i | 0 <= i < |before| :: before[i] == with[i] == i;
  }

  lemma PrefixesInOrder(sources: seq<Source>, st: State)
    requires TableMatchesLog(sources, st) && Prefixes(sources, st)
    ensures InOrderOnce(st.log)
  {
    var log := st.log;
    forall k | 0 <= k < |log| ensures FilesOf(log[..k], log[k].source) == FirstNumbers(log[k].file) {
      assert Has(sources, log[k]);
      EntryIsNext(log, k, Applied(st, log[k].source));
    }
    forall i, j | 0 <= i < j < |log| ensures log[i] != log[j] {
      assert log[..j][i] == log[i];
      FilesOfHas(log[..j], i);
    }
    forall k, f | 0 <= k < |log| && 0 <= f < log[k].file ensures Script(log[k].source, f) in log[..k] {
      assert FirstNumbers(log[k].file)[f] == f;
      var j := FilesOfFrom(log[..k], log[k].source, f);
    }
  }

  /** In every run, whatever the interleaving and the failures: each script is committed at most
      once and after all earlier ones of its source, and the version table holds exactly the
      versions of what was committed. */
  lemma EveryRunInOrderOnce(sources: seq<Source>, st: State, steps: seq<Step>)
    requires ValidSources(sources) && Initial(sources, st)
    requires Run(sources, st, steps).Some?
    ensures var end := Run(sources, st, steps).value;
      && InOrderOnce(end.log)
      && (forall k | 0 <= k < |end.log| :: Has(sources, end.log[k]))
      && (forall v :: v in end.table <==>
          exists k | 0 <= k < |end.log| :: sources[end.log[k].source].files[end.log[k].file] == v)
  {
    EveryRunIsSafe(sources, st, steps);
    var end := Run(sources, st, steps).value;
    PrefixesInOrder(sources, end);
    assert forall k | 0 <= k < |end.log| ::
      VersionOf(sources, end.log[k]) == sources[end.log[k].source].files[end.log[k].file];
  }

  /** A runner that returned without an error leaves its whole list committed. */
  lemma DoneMeansComplete(sources: seq<Source>, st: State, steps: seq<Step>, r: nat, file: nat)
    requires ValidSources(sources) && Initial(sources, st)
    requires Run(sources, st, steps).Some?
    requires var end := Run(sources, st, steps).value;
      r < |end.runners| && end.runners[r].phase == Done && end.runners[r].source < |sources| &&
      file < |sources[end.runners[r].source].files|
    ensures var end := Run(sources, st, steps).value;
      VersionOf(sources, Script(end.runners[r].source, file)) in end.table
  {
    EveryRunIsSafe(sources, st, steps);
    var end := Run(sources, st, steps).value;
    assert end.runners[r] in end.runners;
    RowIffApplied(sources, end, Script(end.runners[r].source, file));
  }

  /** Once a source is complete no step of a runner of that source changes the database. */
  lemma CompleteIsStable(sources: seq<Source>, st: State, step: Step)
    requires ValidSources(sources) && Safe(sources, st) && After(sources, st, step).Some?
    requires var src := st.runners[step.runner].source; Applied(st, src) == |sources[src].files|
    ensures After(sources, st, step).value.table == st.table
    ensures After(sources, st, step).value.log == st.log
  {
    assert st.runners[step.runner] in st.runners;
  }

  // -------------------------------------------------- a runner left alone completes

  /** No other runner holds an uncommitted row of the source. */
  ghost predicate Unblocked(st: State, r: nat) {
    r < |st.runners| && forall k | 0 <= k < |st.runners| && k != r ::
      st.runners[k].phase.Recorded? ==> st.runners[k].source != st.runners[r].source
  }

  lemma RunOneMore(sources: seq<Source>, st: State, steps: seq<Step>, step: Step)
    requires Run(sources, st, steps).Some?
    ensures Run(sources, st, steps + [step]) == After(sources, Run(sources, st, steps).value, step)
  {
    assert (steps + [step])[..|steps|] == steps;
  }

  /** What a solo run keeps: it is safe and unblocked, and the runner has reached `phase`. */
  ghost predicate SoloAt(sources: seq<Source>, st: State, steps: seq<Step>, r: nat, src: nat, phase: Phase) {
    Run(sources, st, steps).Some? &&
    var end := Run(sources, st, steps).value;
    Safe(sources, end) && Unblocked(end, r) && end.runners[r] == Runner(src, phase) &&
    forall x | x in steps :: x.runner == r && !x.Fail? && !x.CommitUnheard?
  }

  /** A step moves its own runner and no other. */
  lemma OthersStay(sources: seq<Source>, st: State, step: Step)
    requires After(sources, st, step).Some?
    ensures var st' := After(sources, st, step).value; var r := step.runner;
      && r < |st.runners| == |st'.runners| && st'.runners[r].source == st.runners[r].source
      && forall k | 0 <= k < |st.runners| && k != r :: st'.runners[k] == st.runners[k]
  {
  }

  lemma StaysUnblocked(sources: seq<Source>, st: State, step: Step)
    requires Unblocked(st, step.runner) && After(sources, st, step).Some?
    ensures Unblocked(After(sources, st, step).value, step.runner)
  {
    OthersStay(sources, st, step);
  }

  /** A step of the lone runner. */
  lemma SoloStep(sources: seq<Source>, st: State, steps: seq<Step>, r: nat, src: nat, phase: Phase, step: Step,
                 phase': Phase)
    requires ValidSources(sources) && SoloAt(sources, st, steps, r, src, phase)
    requires step.runner == r && !step.Fail? && !step.CommitUnheard?
    requires var next := After(sources, Run(sources, st, steps).value, step);
      next.Some? && next.value.runners[r].phase == phase'
    ensures SoloAt(sources, st, steps + [step], r, src, phase')
  {
    var end := Run(sources, st, steps).value;
    RunOneMore(sources, st, steps, step);
    StepIsSafe(sources, end, step);
    StaysUnblocked(sources, end, step);
    OthersStay(sources, end, step);
  }

  /** From `st` to `st'` the script is skipped when its version is there, and committed otherwise. */
  ghost predicate Applies(sources: seq<Source>, st: State, st': State, s: Script) {
    Has(sources, s) &&
    if VersionOf(sources, s) in st.table then st'.table == st.table && st'.log == st.log
    else st'.table == st.table + {VersionOf(sources, s)} && st'.log == st.log + [s]
  }

  lemma SoloStart(sources: seq<Source>, st: State, r: nat)
    requires ValidSources(sources) && Safe(sources, st) && Unblocked(st, r)
    requires st.runners[r].phase.Idle? || st.runners[r].phase.Done? || st.runners[r].phase.Failed?
    ensures SoloAt(sources, st, [Start(r)], r, st.runners[r].source, Looking(0))
    ensures Run(sources, st, [Start(r)]).value.table == st.table && Run(sources, st, [Start(r)]).value.log == st.log
  {
    assert st.runners[r] in st.runners;
    assert Run(sources, st, []) == Some(st);
    RunOneMore(sources, st, [], Start(r));
    assert [] + [Start(r)] == [Start(r)];
    StepIsSafe(sources, st, Start(r));
  }

  /** One turn of the loop: the file is skipped or applied. */
  lemma SoloFile(sources: seq<Source>, st: State, steps: seq<Step>, r: nat, src: nat, file: nat)
    returns (steps': seq<Step>)
    requires ValidSources(sources) && SoloAt(sources, st, steps, r, src, Looking(file))
    requires src < |sources| && file < |sources[src].files|
    ensures SoloAt(sources, st, steps', r, src, Looking(file + 1))
    ensures Applies(sources, Run(sources, st, steps).value, Run(sources, st, steps').value, Script(src, file))
  {
    var end := Run(sources, st, steps).value;
    assert end.runners[r] in end.runners;
    RunOneMore(sources, st, steps, Ask(r));
    steps' := steps + [Ask(r)];
    if VersionOf(sources, Script(src, file)) in end.table {
      SoloStep(sources, st, steps, r, src, Looking(file), Ask(r), Looking(file + 1));
    } else {
      SoloStep(sources, st, steps, r, src, Looking(file), Ask(r), Missing(file));
      steps' := SoloApply(sources, st, steps', r, src, file);
    }
  }

  lemma SoloApply(sources: seq<Source>, st: State, steps: seq<Step>, r: nat, src: nat, file: nat)
    returns (steps': seq<Step>)
    requires ValidSources(sources) && SoloAt(sources, st, steps, r, src, Missing(file))
    requires src < |sources| && file < |sources[src].files|
    requires VersionOf(sources, Script(src, file)) !in Run(sources, st, steps).value.table
    ensures SoloAt(sources, st, steps', r, src, Looking(file + 1))
    ensures Applies(sources, Run(sources, st, steps).value, Run(sources, st, steps').value, Script(src, file))
  {
    var recorded := SoloHold(sources, st, steps, r, src, file);
    steps' := SoloCommit(sources, st, recorded, r, src, file);
  }

  /** Up to the commit, which is still to come. */
  lemma SoloHold(sources: seq<Source>, st: State, steps: seq<Step>, r: nat, src: nat, file: nat)
    returns (steps': seq<Step>)
    requires ValidSources(sources) && SoloAt(sources, st, steps, r, src, Missing(file))
    requires src < |sources| && file < |sources[src].files|
    requires VersionOf(sources, Script(src, file)) !in Run(sources, st, steps).value.table
    ensures SoloAt(sources, st, steps', r, src, Recorded(file))
    ensures Run(sources, st, steps').value.table == Run(sources, st, steps).value.table
    ensures Run(sources, st, steps').value.log == Run(sources, st, steps).value.log
  {
    assert Run(sources, st, steps).value.runners[r] in Run(sources, st, steps).value.runners;
    RunOneMore(sources, st, steps, Execute(r));
    SoloStep(sources, st, steps, r, src, Missing(file), Execute(r), Executed(file));
    SoloRecord(sources, st, steps + [Execute(r)], r, src, file);
    steps' := steps + [Execute(r)] + [Record(r)];
  }

  /** The commit takes effect, and the runner does not hear of it. */
  lemma SoloUnheard(sources: seq<Source>, st: State, steps: seq<Step>, r: nat, src: nat, file: nat)
    returns (steps': seq<Step>)
    requires ValidSources(sources) && SoloAt(sources, st, steps, r, src, Looking(file))
    requires src < |sources| && file < |sources[src].files|
    requires VersionOf(sources, Script(src, file)) !in Run(sources, st, steps).value.table
    ensures Run(sources, st, steps').Some? && r < |Run(sources, st, steps').value.runners|
    ensures Run(sources, st, steps').value.runners[r].phase == Failed && forall x | x in steps' :: x.runner == r
    ensures Applies(sources, Run(sources, st, steps).value, Run(sources, st, steps').value, Script(src, file))
  {
    var end := Run(sources, st, steps).value;
    assert end.runners[r] in end.runners;
    RunOneMore(sources, st, steps, Ask(r));
    SoloStep(sources, st, steps, r, src, Looking(file), Ask(r), Missing(file));
    var recorded := SoloHold(sources, st, steps + [Ask(r)], r, src, file);
    UnheardCommits(sources, Run(sources, st, recorded).value, r, Script(src, file));
    RunOneMore(sources, st, recorded, CommitUnheard(r));
    steps' := recorded + [CommitUnheard(r)];
  }

  lemma UnheardCommits(sources: seq<Source>, st: State, r: nat, s: Script)
    requires r < |st.runners| && st.runners[r] == Runner(s.source, Recorded(s.file)) && Has(sources, s)
    ensures var next := After(sources, st, CommitUnheard(r));
      next.Some? && |next.value.runners| == |st.runners| && next.value.runners[r].phase == Failed &&
      next.value.table == st.table + {VersionOf(sources, s)} && next.value.log == st.log + [s]
  {
  }

  lemma SoloCommit(sources: seq<Source>, st: State, steps: seq<Step>, r: nat, src: nat, file: nat)
    returns (steps': seq<Step>)
    requires ValidSources(sources) && SoloAt(sources, st, steps, r, src, Recorded(file))
    requires Has(sources, Script(src, file))
    ensures SoloAt(sources, st, steps', r, src, Looking(file + 1))
    ensures var end, s := Run(sources, st, steps).value, Script(src, file);
      Run(sources, st, steps').value.table == end.table + {VersionOf(sources, s)} &&
      Run(sources, st, steps').value.log == end.log + [s]
  {
    var end := Run(sources, st, steps).value;
    assert end.runners[r] in end.runners;
    RunOneMore(sources, st, steps, Commit(r));
    SoloStep(sources, st, steps, r, src, Recorded(file), Commit(r), Looking(file + 1));
    steps' := steps + [Commit(r)];
  }

  lemma SoloRecord(sources: seq<Source>, st: State, steps: seq<Step>, r: nat, src: nat, file: nat)
    requires ValidSources(sources) && SoloAt(sources, st, steps, r, src, Executed(file))
    requires src < |sources| && file < |sources[src].files|
    requires VersionOf(sources, Script(src, file)) !in Run(sources, st, steps).value.table
    ensures SoloAt(sources, st, steps + [Record(r)], r, src, Recorded(file))
    ensures var end := Run(sources, st, steps).value;
      Run(sources, st, steps + [Record(r)]).value.table == end.table &&
      Run(sources, st, steps + [Record(r)]).value.log == end.log
  {
    var end := Run(sources, st, steps).value;
    assert end.runners[r] in end.runners;
    RunOneMore(sources, st, steps, Record(r));
    var v := VersionOf(sources, Script(src, file));
    assert !HeldByOther(sources, end, r, v);
    SoloStep(sources, st, steps, r, src, Executed(file), Record(r), Recorded(file));
  }

  /** From every safe state a runner that is left alone and meets no failure returns, with
      its whole list committed. */
  lemma {:induction false} SoloCompletes(sources: seq<Source>, st: State, steps: seq<Step>, r: nat, src: nat, file: nat)
    returns (steps': seq<Step>)
    requires ValidSources(sources) && SoloAt(sources, st, steps, r, src, Looking(file))
    requires src < |sources| && file <= |sources[src].files|
    ensures SoloAt(sources, st, steps', r, src, Done)
    ensures Applied(Run(sources, st, steps').value, src) == |sources[src].files|
    decreases |sources[src].files| - file
  {
    if file == |sources[src].files| {
      SoloStep(sources, st, steps, r, src, Looking(file), Ask(r), Done);
      steps' := steps + [Ask(r)];
      var end := Run(sources, st, steps').value;
      assert end.runners[r] in end.runners;
    } else {
      var next := SoloFile(sources, st, steps, r, src, file);
      steps' := SoloCompletes(sources, st, next, r, src, file + 1);
    }
  }

  /** So a runner can always be restarted and complete, whatever failures came before. */
  lemma RestartCompletes(sources: seq<Source>, st: State, r: nat) returns (steps: seq<Step>)
    requires ValidSources(sources) && Safe(sources, st) && Unblocked(st, r)
    requires st.runners[r].phase.Idle? || st.runners[r].phase.Done? || st.runners[r].phase.Failed?
    ensures Run(sources, st, steps).Some?
    ensures forall x | x in steps :: x.runner == r && !x.Fail? && !x.CommitUnheard?
    ensures var end := Run(sources, st, steps).value; var src := st.runners[r].source;
      src < |sources| && end.runners[r] == Runner(src, Done) && Applied(end, src) == |sources[src].files|
  {
    var src := st.runners[r].source;
    assert st.runners[r] in st.runners;
    SoloStart(sources, st, r);
    steps := SoloCompletes(sources, st, [Start(r)], r, src, 0);
  }

  // ------------------------------------------------------------ a runner overtaken

  /** A runner is told that a file is missing exactly when nobody has committed it. */
  lemma AskFindsExactly(sources: seq<Source>, st: State, r: nat)
    requires ValidSources(sources) && Safe(sources, st)
    requires r < |st.runners| && st.runners[r].phase.Looking? && Has(sources, ScriptAt(st, r))
    ensures var f := st.runners[r].phase.file; var next := After(sources, st, Ask(r));
      next.Some? && next.value.runners[r].phase == if ScriptAt(st, r) in st.log then Looking(f + 1) else Missing(f)
  {
    assert st.runners[r] in st.runners;
    RowIffCommitted(sources, st, ScriptAt(st, r));
  }

  /** Its insert fails exactly when somebody has committed the file by then. */
  lemma RecordFailsExactly(sources: seq<Source>, st: State, r: nat)
    requires ValidSources(sources) && Safe(sources, st)
    requires r < |st.runners| && st.runners[r].phase.Executed? && After(sources, st, Record(r)).Some?
    ensures After(sources, st, Record(r)).value.runners[r].phase == Failed <==> ScriptAt(st, r) in st.log
  {
    assert st.runners[r] in st.runners;
    RowIffCommitted(sources, st, ScriptAt(st, r));
  }

  /** The file the runner has reached. */
  function ScriptAt(st: State, r: nat): Script
    requires r < |st.runners|
  {
    match st.runners[r].phase
    case Looking(f) => Script(st.runners[r].source, f)
    case Missing(f) => Script(st.runners[r].source, f)
    case Executed(f) => Script(st.runners[r].source, f)
    case Recorded(f) => Script(st.runners[r].source, f)
    case _ => Script(st.runners[r].source, 0)
  }

  lemma RowIffCommitted(sources: seq<Source>, st: State, s: Script)
    requires ValidSources(sources) && TableMatchesLog(sources, st) && Has(sources, s)
    ensures VersionOf(sources, s) in st.table <==> s in st.log
  {
    if VersionOf(sources, s) in st.table {
      var k :| 0 <= k < |st.log| && VersionOf(sources, st.log[k]) == VersionOf(sources, s);
      assert st.log[k] == s;
    }
  }

  /** The step commits the script. */
  ghost predicate Commits(st: State, step: Step, s: Script) {
    (step.Commit? || step.CommitUnheard?) && step.runner < |st.runners| &&
    st.runners[step.runner] == Runner(s.source, Recorded(s.file))
  }

  /** Step `k` of the run commits the script. */
  ghost predicate CommitsAt(sources: seq<Source>, st: State, steps: seq<Step>, s: Script, k: nat)
    requires k < |steps|
  {
    Run(sources, st, steps[..k]).Some? && Commits(Run(sources, st, steps[..k]).value, steps[k], s)
  }

  ghost predicate SomebodyCommits(sources: seq<Source>, st: State, steps: seq<Step>, s: Script) {
    exists k | 0 <= k < |steps| :: CommitsAt(sources, st, steps, s, k)
  }

  /** Scripts enter the log by commits only. */
  lemma {:induction false} LoggedByCommit(sources: seq<Source>, st: State, steps: seq<Step>, s: Script)
    requires Run(sources, st, steps).Some?
    ensures s in Run(sources, st, steps).value.log <==> s in st.log || SomebodyCommits(sources, st, steps, s)
    decreases |steps|
  {
    if steps != [] {
      var n := |steps| - 1;
      LoggedByCommit(sources, st, steps[..n], s);
      OneMoreCommits(sources, st, steps, s);
      LogStep(sources, Run(sources, st, steps[..n]).value, steps[n], s);
    }
  }

  lemma OneMoreCommits(sources: seq<Source>, st: State, steps: seq<Step>, s: Script)
    requires steps != []
    ensures var n := |steps| - 1;
      SomebodyCommits(sources, st, steps, s) <==>
      SomebodyCommits(sources, st, steps[..n], s) || CommitsAt(sources, st, steps, s, n)
  {
    var n := |steps| - 1;
    forall k | 0 <= k < n ensures CommitsAt(sources, st, steps[..n], s, k) <==> CommitsAt(sources, st, steps, s, k) {
      assert steps[..n][..k] == steps[..k];
    }
  }

  lemma LogStep(sources: seq<Source>, st: State, step: Step, s: Script)
    requires After(sources, st, step).Some?
    ensures s in After(sources, st, step).value.log <==> s in st.log || Commits(st, step, s)
  {
  }

  /** A runner to which nothing else happens fails at a file it was told is missing exactly when
      somebody else commits that file after it asked and before it inserts the version. */
  lemma OvertakenExactly(sources: seq<Source>, st: State, r: nat, steps: seq<Step>)
    requires ValidSources(sources) && Safe(sources, st)
    requires r < |st.runners| && st.runners[r].phase.Looking? && Has(sources, ScriptAt(st, r))
    requires ScriptAt(st, r) !in st.log
    requires Run(sources, st, steps).Some? && forall x | x in steps && x.runner == r :: x == Ask(r) || x == Execute(r)
    requires var end := Run(sources, st, steps).value;
      r < |end.runners| && end.runners[r] == Runner(st.runners[r].source, Executed(st.runners[r].phase.file)) &&
      After(sources, end, Record(r)).Some?
    ensures After(sources, Run(sources, st, steps).value, Record(r)).value.runners[r].phase == Failed <==>
      SomebodyCommits(sources, st, steps, ScriptAt(st, r))
  {
    RunIsSafe(sources, st, steps);
    LoggedByCommit(sources, st, steps, ScriptAt(st, r));
    RecordFailsExactly(sources, Run(sources, st, steps).value, r);
  }

  lemma {:induction false} RunIsSafe(sources: seq<Source>, st: State, steps: seq<Step>)
    requires ValidSources(sources) && Safe(sources, st) && Run(sources, st, steps).Some?
    ensures Safe(sources, Run(sources, st, steps).value)
    decreases |steps|
  {
    if steps != [] {
      RunIsSafe(sources, st, steps[..|steps| - 1]);
      StepIsSafe(sources, Run(sources, st, steps[..|steps| - 1]).value, steps[|steps| - 1]);
    }
  }

  // Two runners of one file: the second asks before the first commits.
  const ONE_FILE := [Source(["1"])]
  const TWO_RUNNERS := State({}, [], [Runner(0, Idle), Runner(0, Idle)])
  const OVERTAKING := [Start(0), Start(1), Ask(0), Ask(1), Execute(0), Record(0), Commit(0), Execute(1), Record(1)]

  /** The state after the first `k` steps. */
  ghost predicate OvertakingLeadsTo(k: nat, st: State)
    requires k <= |OVERTAKING|
  {
    Run(ONE_FILE, TWO_RUNNERS, OVERTAKING[..k]) == Some(st)
  }

  lemma OvertakingStep(k: nat, before: State, after: State)
    requires k < |OVERTAKING| && OvertakingLeadsTo(k, before)
    requires After(ONE_FILE, before, OVERTAKING[k]) == Some(after)
    ensures OvertakingLeadsTo(k + 1, after)
  {
    RunOneMore(ONE_FILE, TWO_RUNNERS, OVERTAKING[..k], OVERTAKING[k]);
    assert OVERTAKING[..k] + [OVERTAKING[k]] == OVERTAKING[..k + 1];
  }

  /** The version table, and where the two runners are. */
  ghost predicate BothAt(st: State, table: set<string>, first: Phase, second: Phase) {
    st.table == table && |st.runners| == 2 && st.runners[0] == Runner(0, first) && st.runners[1] == Runner(0, second)
  }

  lemma BothAskFirst() returns (st: State)
    ensures OvertakingLeadsTo(4, st) && BothAt(st, {}, Missing(0), Missing(0))
  {
    var s1 := Enter(TWO_RUNNERS, 0, Looking(0));
    var s2 := Enter(s1, 1, Looking(0));
    var s3 := Enter(s2, 0, Missing(0));
    st := Enter(s3, 1, Missing(0));
    OvertakingStep(0, TWO_RUNNERS, s1);
    OvertakingStep(1, s1, s2);
    OvertakingStep(2, s2, s3);
    OvertakingStep(3, s3, st);
  }

  lemma FirstCommits(s4: State) returns (st: State)
    requires OvertakingLeadsTo(4, s4) && BothAt(s4, {}, Missing(0), Missing(0))
    ensures OvertakingLeadsTo(7, st) && BothAt(st, {"1"}, Looking(1), Missing(0))
  {
    var s5 := Enter(s4, 0, Executed(0));
    var s6 := Enter(s5, 0, Recorded(0));
    st := Committed(ONE_FILE, Enter(s6, 0, Looking(1)), Script(0, 0));
    OvertakingStep(4, s4, s5);
    assert !HeldByOther(ONE_FILE, s5, 0, "1");
    OvertakingStep(5, s5, s6);
    OvertakingStep(6, s6, st);
  }

  /** No call fails by itself, and yet the run of the second runner does. */
  lemma OvertakenRunnerFails()
    ensures Initial(ONE_FILE, TWO_RUNNERS) && Run(ONE_FILE, TWO_RUNNERS, OVERTAKING).Some?
    ensures BothAt(Run(ONE_FILE, TWO_RUNNERS, OVERTAKING).value, {"1"}, Looking(1), Failed)
    ensures forall x | x in OVERTAKING :: !x.Fail? && !x.CommitUnheard?
  {
    var s4 := BothAskFirst();
    var s7 := FirstCommits(s4);
    var s8 := Enter(s7, 1, Executed(0));
    OvertakingStep(7, s7, s8);
    OvertakingStep(8, s8, Enter(s8, 1, Failed));
    assert OVERTAKING[..9] == OVERTAKING;
  }
}
