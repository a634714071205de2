/**
 The loop of `RunUp` is one runner of the protocol: what it does to a database that
 nobody else changes, the runner does in a run of its own steps.
 */
module MigrationRefinement {
  import opened MigrationProtocol
  import R = MigrationRunner

  /** The numbers of the pending files among the first `n`, as scripts. */
  function PendingScripts(src: nat, files: seq<R.File>, rows: R.Rows, n: nat): seq<Script>
    requires n <= |files|
  {
    if n == 0 then []
    else
      var before := PendingScripts(src, files, rows, n - 1);
      if files[n - 1].version in rows then before else before + [Script(src, n - 1)]
  }

  /** They are the pending files. */
  lemma {:induction false} PendingScriptsArePending(src: nat, files: seq<R.File>, rows: R.Rows, n: nat)
    requires n <= |files|
    ensures |PendingScripts(src, files, rows, n)| == |R.Pending(files, rows, n)|
    ensures forall k | 0 <= k < |PendingScripts(src, files, rows, n)| ::
      var s := PendingScripts(src, files, rows, n)[k];
      s.source == src && s.file < n && files[s.file] == R.Pending(files, rows, n)[k]
  {
    if n > 0 {
      PendingScriptsArePending(src, files, rows, n - 1);
    }
  }

  /** The source of the runner is made of these files, and the table of the protocol holds the
      keys of `rows`. */
  ghost predicate Matches(sources: seq<Source>, st: State, src: nat, files: seq<R.File>, rows: R.Rows) {
    src < |sources| && |sources[src].files| == |files| &&
    (forall i | 0 <= i < |files| :: sources[src].files[i] == files[i].version) && st.table == rows.Keys
  }

  /** After `n` files the lone runner has done what the loop has done. */
  ghost predicate InStep(sources: seq<Source>, st: State, steps: seq<Step>, src: nat, files: seq<R.File>,
                         rows: R.Rows, n: nat)
    requires n <= |files| && Run(sources, st, steps).Some?
  {
    var end := Run(sources, st, steps).value;
    Matches(sources, end, src, files, R.Recorded(files, rows, n)) &&
    end.log == st.log + PendingScripts(src, files, rows, n)
  }

  lemma VersionsAreDifferent(sources: seq<Source>, st: State, src: nat, files: seq<R.File>, rows: R.Rows)
    requires ValidSources(sources) && Matches(sources, st, src, files, rows)
    ensures R.VersionsDiffer(files)
  {
    forall i, j | 0 <= i < j < |files| ensures files[i].version != files[j].version {
      assert VersionOf(sources, Script(src, i)) == files[i].version;
      assert VersionOf(sources, Script(src, j)) == files[j].version;
    }
  }

  /** What one turn of the runner does is what one turn of the loop does. */
  lemma AppliesAsRecorded(sources: seq<Source>, end: State, end': State, src: nat, files: seq<R.File>,
                          rows: R.Rows, n: nat)
    requires n < |files| && R.VersionsDiffer(files)
    requires Matches(sources, end, src, files, R.Recorded(files, rows, n))
    requires Applies(sources, end, end', Script(src, n))
    ensures Matches(sources, end', src, files, R.Recorded(files, rows, n + 1))
    ensures end'.log == end.log + if files[n].version in rows then [] else [Script(src, n)]
  {
    R.RecordedKeys(files, rows, n, files[n].version);
    assert VersionOf(sources, Script(src, n)) == files[n].version;
    assert files[n].version in R.Recorded(files, rows, n) <==> files[n].version in rows;
  }

  lemma TurnInStep(sources: seq<Source>, st: State, steps: seq<Step>, r: nat, src: nat, files: seq<R.File>,
                   rows: R.Rows, n: nat) returns (steps': seq<Step>)
    requires ValidSources(sources) && n < |files| && SoloAt(sources, st, steps, r, src, Looking(n))
    requires InStep(sources, st, steps, src, files, rows, n) && R.VersionsDiffer(files)
    ensures SoloAt(sources, st, steps', r, src, Looking(n + 1))
    ensures InStep(sources, st, steps', src, files, rows, n + 1)
  {
    steps' := SoloFile(sources, st, steps, r, src, n);
    AppliesAsRecorded(sources, Run(sources, st, steps).value, Run(sources, st, steps').value, src, files, rows, n);
  }

  lemma LoopInStep(sources: seq<Source>, st: State, r: nat, src: nat, files: seq<R.File>, rows: R.Rows, n: nat)
    returns (steps: seq<Step>)
    requires ValidSources(sources) && n <= |files|
    requires SoloAt(sources, st, [Start(r)], r, src, Looking(0))
    requires InStep(sources, st, [Start(r)], src, files, rows, 0) && R.VersionsDiffer(files)
    ensures SoloAt(sources, st, steps, r, src, Looking(n)) && InStep(sources, st, steps, src, files, rows, n)
  {
    steps := [Start(r)];
    for k := 0 to n
      invariant SoloAt(sources, st, steps, r, src, Looking(k)) && InStep(sources, st, steps, src, files, rows, k)
    {
      steps := TurnInStep(sources, st, steps, r, src, files, rows, k);
    }
  }

  /** A run of the loop that ends at file `stop` is a run of the runner alone: the same rows, the
      same scripts in the same order, and success or failure alike. */
  lemma RunUpIsASoloRun(sources: seq<Source>, st: State, r: nat, files: seq<R.File>, rows: R.Rows,
                        faults: nat -> R.Fault, stop: nat) returns (steps: seq<Step>)
    requires ValidSources(sources) && Safe(sources, st) && Unblocked(st, r)
    requires st.runners[r].phase.Idle? || st.runners[r].phase.Done? || st.runners[r].phase.Failed?
    requires Matches(sources, st, st.runners[r].source, files, rows) && R.EndsAt(files, rows, faults, stop)
    ensures forall x | x in steps :: x.runner == r
    ensures var done := R.Reached(faults, stop, |files|);
      done <= |files| && Run(sources, st, steps).Some? &&
      InStep(sources, st, steps, st.runners[r].source, files, rows, done)
    ensures r < |Run(sources, st, steps).value.runners|
    ensures Run(sources, st, steps).value.runners[r].phase == if stop == |files| then Done else Failed
  {
    var src := st.runners[r].source;
    VersionsAreDifferent(sources, st, src, files, rows);
    StartInStep(sources, st, r, files, rows);
    var before := LoopInStep(sources, st, r, src, files, rows, stop);
    R.UnheardIsPending(files, rows, faults, stop);
    if R.Reached(faults, stop, |files|) == stop {
      steps := EndInStep(sources, st, before, r, src, files, rows, stop);
    } else {
      steps := UnheardInStep(sources, st, before, r, src, files, rows, stop);
    }
  }

  lemma UnheardInStep(sources: seq<Source>, st: State, before: seq<Step>, r: nat, src: nat, files: seq<R.File>,
                      rows: R.Rows, stop: nat) returns (steps: seq<Step>)
    requires ValidSources(sources) && stop < |files| && SoloAt(sources, st, before, r, src, Looking(stop))
    requires InStep(sources, st, before, src, files, rows, stop) && R.VersionsDiffer(files)
    requires files[stop].version !in rows
    ensures forall x | x in steps :: x.runner == r
    ensures Run(sources, st, steps).Some? && InStep(sources, st, steps, src, files, rows, stop + 1)
    ensures r < |Run(sources, st, steps).value.runners|
    ensures Run(sources, st, steps).value.runners[r].phase == Failed
  {
    var end := Run(sources, st, before).value;
    R.RecordedKeys(files, rows, stop, files[stop].version);
    assert VersionOf(sources, Script(src, stop)) == files[stop].version;
    steps := SoloUnheard(sources, st, before, r, src, stop);
    AppliesAsRecorded(sources, end, Run(sources, st, steps).value, src, files, rows, stop);
  }

  lemma StartInStep(sources: seq<Source>, st: State, r: nat, files: seq<R.File>, rows: R.Rows)
    requires ValidSources(sources) && Safe(sources, st) && Unblocked(st, r)
    requires st.runners[r].phase.Idle? || st.runners[r].phase.Done? || st.runners[r].phase.Failed?
    requires Matches(sources, st, st.runners[r].source, files, rows)
    ensures SoloAt(sources, st, [Start(r)], r, st.runners[r].source, Looking(0))
    ensures InStep(sources, st, [Start(r)], st.runners[r].source, files, rows, 0)
  {
    SoloStart(sources, st, r);
  }

  lemma EndInStep(sources: seq<Source>, st: State, before: seq<Step>, r: nat, src: nat, files: seq<R.File>,
                  rows: R.Rows, stop: nat) returns (steps: seq<Step>)
    requires stop <= |files| && SoloAt(sources, st, before, r, src, Looking(stop))
    requires InStep(sources, st, before, src, files, rows, stop)
    ensures forall x | x in steps :: x.runner == r
    ensures Run(sources, st, steps).Some? && InStep(sources, st, steps, src, files, rows, stop)
    ensures r < |Run(sources, st, steps).value.runners|
    ensures Run(sources, st, steps).value.runners[r].phase == if stop == |files| then Done else Failed
  {
    var last := if stop == |files| then Ask(r) else Fail(r);
    var end := Run(sources, st, before).value;
    RunOneMore(sources, st, before, last);
    assert end.runners[r] in end.runners;
    LastStep(sources, end, r, last);
    steps := before + [last];
  }

  lemma LastStep(sources: seq<Source>, end: State, r: nat, last: Step)
    requires r < |end.runners| && ValidRunner(sources, end.runners[r]) && end.runners[r].phase.Looking?
    requires last == if end.runners[r].phase.file == |sources[end.runners[r].source].files| then Ask(r) else Fail(r)
    ensures var next := After(sources, end, last);
      next.Some? && next.value.table == end.table && next.value.log == end.log &&
      |next.value.runners| == |end.runners| && next.value.runners[r].phase == if last == Ask(r) then Done else Failed
  {
  }
}
