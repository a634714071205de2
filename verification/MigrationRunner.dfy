/**
 `Runner.RunUp` as one runner executes it, over a database that nobody else
 changes meanwhile. Which calls fail is a parameter.
 */
module MigrationRunner {
  import opened MigrationFiles

  /** The call that fails while a file is handled. A commit fails in one of two ways: it is rolled
      back, or it takes effect and the answer never arrives. */
  datatype Fault =
    NoFault | CheckFails | ReadFails | BeginFails | ExecuteFails | RecordFails | CommitFails | CommitUnheard

  type Rows = map<string, string>

  /** The sorted files of a directory, each with the version it is recorded under. */
  datatype File = File(name: string, version: string)

  function Versioned(names: seq<string>, namespace: string): (r: seq<File>)
    ensures |r| == |names|
    ensures forall i | 0 <= i < |names| :: r[i].name == names[i]
  {
    seq(|names|, i requires 0 <= i < |names| => File(names[i], Version(names[i], namespace)))
  }

  /** The files among the first `n` that are not recorded in `rows`. */
  function Pending(files: seq<File>, rows: Rows, n: nat): seq<File>
    requires n <= |files|
  {
    if n == 0 then []
    else
      var before := Pending(files, rows, n - 1);
      if files[n - 1].version in rows then before else before + [files[n - 1]]
  }

  /** The rows after the pending ones of the first `n` files are recorded. */
  function Recorded(files: seq<File>, rows: Rows, n: nat): Rows
    requires n <= |files|
  {
    if n == 0 then rows
    else
      var before := Recorded(files, rows, n - 1);
      var f := files[n - 1];
      if f.version in rows then before else before[f.version := f.name]
  }

  /** The fault of a file stops the run: a failing check always, any other only when the file
      is still to be applied. */
  predicate Stops(files: seq<File>, rows: Rows, faults: nat -> Fault, i: nat)
    requires i < |files|
  {
    faults(i) == CheckFails || (faults(i) != NoFault && files[i].version !in rows)
  }

  /** How many files a run that ends at file `stop` of `n` has dealt with. */
  function Reached(faults: nat -> Fault, stop: nat, n: nat): nat {
    if stop < n && faults(stop) == CommitUnheard then stop + 1 else stop
  }

  /** The run ends at file `stop`: at the first fault that stops it, or after the last file. */
  ghost predicate EndsAt(files: seq<File>, rows: Rows, faults: nat -> Fault, stop: nat) {
    && stop <= |files|
    && (forall i | 0 <= i < stop :: !Stops(files, rows, faults, i))
    && (stop < |files| ==> Stops(files, rows, faults, stop))
  }

  lemma UnheardIsPending(files: seq<File>, rows: Rows, faults: nat -> Fault, stop: nat)
    requires EndsAt(files, rows, faults, stop)
    ensures Reached(faults, stop, |files|) <= |files|
    ensures Reached(faults, stop, |files|) != stop ==> files[stop].version !in rows
  {
  }

  ghost predicate VersionsDiffer(files: seq<File>) {
    forall i, j | 0 <= i < j < |files| :: files[i].version != files[j].version
  }

  lemma FilesHaveDifferentVersions(names: seq<string>, namespace: string)
    requires Different(names) && forall f | f in names :: FileName(f)
    ensures VersionsDiffer(Versioned(names, namespace))
  {
    forall i, j | 0 <= i < j < |names| ensures Version(names[i], namespace) != Version(names[j], namespace) {
      assert names[i] in names && names[j] in names;
      if Version(names[i], namespace) == Version(names[j], namespace) {
        VersionInjective(names[i], namespace, names[j], namespace);
      }
    }
  }

  /** What is recorded after `n` files: what was, and the versions of those files. */
  lemma {:induction false} RecordedKeys(files: seq<File>, rows: Rows, n: nat, v: string)
    requires n <= |files|
    ensures v in Recorded(files, rows, n) <==> v in rows || exists i | 0 <= i < n :: files[i].version == v
    ensures v in rows ==> Recorded(files, rows, n)[v] == rows[v]
  {
    if n > 0 {
      RecordedKeys(files, rows, n - 1, v);
    }
  }

  function VersionsOf(files: seq<File>): seq<string> {
    seq(|files|, i requires 0 <= i < |files| => files[i].version)
  }

  /** The scripts stand in the order of the files. */
  ghost predicate InFileOrder(files: seq<File>, scripts: seq<File>) {
    forall i, j | 0 <= i < j < |scripts| ::
      exists a, b | 0 <= a < b < |files| :: scripts[i] == files[a] && scripts[j] == files[b]
  }

  /** Exactly the scripts are recorded in addition, each under its version and with its name. */
  ghost predicate RecordsExactly(files: seq<File>, rows: Rows, scripts: seq<File>, rows': Rows) {
    && (forall f | f in scripts :: f in files && f.version !in rows && f.version in rows' && rows'[f.version] == f.name)
    && (forall v | v in rows :: v in rows' && rows'[v] == rows[v])
    && (forall v | v in rows' && v !in rows :: exists f | f in scripts :: f.version == v)
  }

  lemma {:induction false} PendingAt(files: seq<File>, rows: Rows, n: nat, i: nat) returns (a: nat)
    requires n <= |files| && i < |Pending(files, rows, n)|
    ensures a < n && Pending(files, rows, n)[i] == files[a] && files[a].version !in rows
  {
    if i < |Pending(files, rows, n - 1)| {
      a := PendingAt(files, rows, n - 1, i);
    } else {
      a := n - 1;
    }
  }

  lemma {:induction false} PendingInOrder(files: seq<File>, rows: Rows, n: nat, i: nat, j: nat)
    returns (a: nat, b: nat)
    requires n <= |files| && i < j < |Pending(files, rows, n)|
    ensures a < b < n && Pending(files, rows, n)[i] == files[a] && Pending(files, rows, n)[j] == files[b]
  {
    if j < |Pending(files, rows, n - 1)| {
      a, b := PendingInOrder(files, rows, n - 1, i, j);
    } else {
      a := PendingAt(files, rows, n - 1, i);
      b := n - 1;
    }
  }

  lemma PendingInFileOrder(files: seq<File>, rows: Rows, n: nat)
    requires n <= |files|
    ensures InFileOrder(files, Pending(files, rows, n))
  {
    var p := Pending(files, rows, n);
    forall i, j | 0 <= i < j < |p| ensures exists a, b | 0 <= a < b < |files| :: p[i] == files[a] && p[j] == files[b] {
      var a, b := PendingInOrder(files, rows, n, i, j);
      assert a < b < |files| && p[i] == files[a] && p[j] == files[b];
    }
  }

  lemma OneMoreRecorded(files: seq<File>, rows: Rows, scripts: seq<File>, rows': Rows, f: File)
    requires RecordsExactly(files, rows, scripts, rows') && f in files && f.version !in rows'
    ensures RecordsExactly(files, rows, scripts + [f], rows'[f.version := f.name])
  {
    assert forall g | g in scripts :: g in scripts + [f];
    assert f in scripts + [f];
  }

  lemma {:induction false} PendingRecorded(files: seq<File>, rows: Rows, n: nat)
    requires n <= |files| && VersionsDiffer(files)
    ensures RecordsExactly(files, rows, Pending(files, rows, n), Recorded(files, rows, n))
  {
    if n > 0 {
      var k := n - 1;
      PendingRecorded(files, rows, k);
      RecordedKeys(files, rows, k, files[k].version);
      if files[k].version !in rows {
        OneMoreRecorded(files, rows, Pending(files, rows, k), Recorded(files, rows, k), files[k]);
      }
    }
  }

  /** The scripts stem from migration files of the directory, each comes before the next by name,
      and each has the version of its name. */
  ghost predicate ScriptsOf(entries: seq<Entry>, namespace: string, scripts: seq<File>) {
    && (forall i, j | 0 <= i < j < |scripts| :: ComesBefore(scripts[i].name, scripts[j].name))
    && (forall f | f in scripts :: f.version == Version(f.name, namespace))
    && (forall f | f in scripts :: exists e | e in entries :: IsFileEndingIn(e, ".up.sql") && e.name == f.name)
  }

  lemma PendingAreScripts(names: seq<string>, entries: seq<Entry>, namespace: string, rows: Rows, n: nat)
    requires ReadFrom(names, entries, UP_SUFFIX) && n <= |names|
    ensures ScriptsOf(entries, namespace, Pending(Versioned(names, namespace), rows, n))
  {
    var files := Versioned(names, namespace);
    var p := Pending(files, rows, n);
    ReadMeaning(names, entries, UP_SUFFIX);
    forall i, j | 0 <= i < j < |p| ensures ComesBefore(p[i].name, p[j].name) {
      var a, b := PendingInOrder(files, rows, n, i, j);
      assert files[a].name == names[a] && files[b].name == names[b];
    }
    forall f | f in p ensures f.version == Version(f.name, namespace) && f.name in names {
      var i :| 0 <= i < |p| && p[i] == f;
      var a := PendingAt(files, rows, n, i);
    }
  }

  /** Every migration file of the directory is recorded. */
  ghost predicate AllRecorded(entries: seq<Entry>, namespace: string, rows: Rows) {
    forall e | e in entries && IsFileEndingIn(e, ".up.sql") :: Version(e.name, namespace) in rows
  }

  lemma CompleteRunRecordsAll(names: seq<string>, entries: seq<Entry>, namespace: string, rows: Rows)
    requires ReadFrom(names, entries, UP_SUFFIX)
    ensures AllRecorded(entries, namespace, Recorded(Versioned(names, namespace), rows, |names|))
  {
    var files := Versioned(names, namespace);
    ReadMeaning(names, entries, UP_SUFFIX);
    forall e | e in entries && IsFileEndingIn(e, ".up.sql")
      ensures Version(e.name, namespace) in Recorded(files, rows, |names|)
    {
      assert IsFileEndingIn(e, UP_SUFFIX);
      assert e.name in names;
      var i :| 0 <= i < |names| && names[i] == e.name;
      assert files[i].version == Version(e.name, namespace);
      RecordedKeys(files, rows, |names|, files[i].version);
    }
  }

  class Database {
    var rows: Rows          // committed rows of the version table
    var executed: seq<File> // committed scripts

    /** `RunUp` over a directory. On an error the scripts committed so far stay; `applied` lists
        what this run committed when it returns normally. `names` is what was read, and `stop`
        the file at which the run ended. */
    method RunUp(entries: seq<Entry>, namespace: string, faults: nat -> Fault)
      returns (ok: bool, applied: seq<string>, ghost names: seq<string>, ghost stop: nat)
      requires IsDirectory(entries)
      modifies this
      ensures ReadFrom(names, entries, UP_SUFFIX)
      ensures var files := Versioned(names, namespace);
        EndsAt(files, old(rows), faults, stop) && ok == (stop == |files|) &&
        var done := Reached(faults, stop, |files|);
        && done <= |files|
        && executed == old(executed) + Pending(files, old(rows), done)
        && rows == Recorded(files, old(rows), done)
        && applied == if ok then VersionsOf(Pending(files, old(rows), done)) else []
      ensures |old(executed)| <= |executed| && executed[..|old(executed)|] == old(executed)
      ensures var scripts := executed[|old(executed)|..];
        ScriptsOf(entries, namespace, scripts) &&
        RecordsExactly(Versioned(names, namespace), old(rows), scripts, rows)
      ensures ok ==> AllRecorded(entries, namespace, rows)
    {
      var sorted := Files(entries, UP_SUFFIX);
      names := sorted;
      ReadFilesAreFileNames(sorted, entries);
      FilesHaveDifferentVersions(sorted, namespace);
      var files := Versioned(sorted, namespace);
      ok, applied, stop := RunFiles(files, faults);
      ghost var done := Reached(faults, stop, |files|);
      PendingAreScripts(names, entries, namespace, old(rows), done);
      PendingRecorded(files, old(rows), done);
      CompleteRunRecordsAll(names, entries, namespace, old(rows));
      assert executed[|old(executed)|..] == Pending(files, old(rows), done);
    }

    /** The loop of `RunUp`. */
    method RunFiles(files: seq<File>, faults: nat -> Fault)
      returns (ok: bool, applied: seq<string>, ghost stop: nat)
      requires VersionsDiffer(files)
      modifies this
      ensures EndsAt(files, old(rows), faults, stop) && ok == (stop == |files|)
      ensures var done := Reached(faults, stop, |files|);
        && done <= |files|
        && executed == old(executed) + Pending(files, old(rows), done)
        && rows == Recorded(files, old(rows), done)
        && applied == if ok then VersionsOf(Pending(files, old(rows), done)) else []
    {
      applied := [];
      for i := 0 to |files|
        invariant forall k | 0 <= k < i :: !Stops(files, old(rows), faults, k)
        invariant executed == old(executed) + Pending(files, old(rows), i)
        invariant rows == Recorded(files, old(rows), i)
        invariant applied == VersionsOf(Pending(files, old(rows), i))
      {
        var file := files[i];
        RecordedKeys(files, old(rows), i, file.version);
        if faults(i) == CheckFails {
          return false, [], i;
        }
        if file.version in rows {
          continue;
        }
        if faults(i) != NoFault && faults(i) != CommitUnheard {
          // reading, beginning, executing, recording or committing failed; rolled back
          return false, [], i;
        }
        rows := rows[file.version := file.name];
        executed := executed + [file];
        if faults(i) == CommitUnheard {
          return false, [], i;
        }
        applied := applied + [file.version];
      }
      return true, applied, |files|;
    }
  }

  // ------------------------------------------------------------------ consequences

  /** Exactly the first `k` files are recorded. */
  ghost predicate PrefixRecorded(files: seq<File>, rows: Rows, k: nat) {
    k <= |files| && forall i | 0 <= i < |files| :: files[i].version in rows <==> i < k
  }

  lemma {:induction false} PendingFromPrefix(files: seq<File>, rows: Rows, k: nat, n: nat)
    requires PrefixRecorded(files, rows, k) && n <= |files|
    ensures Pending(files, rows, n) == if n <= k then [] else files[k..n]
  {
    if n > 0 {
      PendingFromPrefix(files, rows, k, n - 1);
    }
  }

  /** A run that gets as far as `n` from a recorded prefix executes exactly the files from
      there on and leaves a recorded prefix. */
  lemma PrefixContinues(files: seq<File>, rows: Rows, k: nat, n: nat)
    requires VersionsDiffer(files) && PrefixRecorded(files, rows, k) && n <= |files|
    ensures Pending(files, rows, n) == if n <= k then [] else files[k..n]
    ensures PrefixRecorded(files, Recorded(files, rows, n), if n <= k then k else n)
  {
    PendingFromPrefix(files, rows, k, n);
    forall i | 0 <= i < |files| ensures files[i].version in Recorded(files, rows, n) <==> i < k || i < n {
      RecordedKeys(files, rows, n, files[i].version);
    }
  }

  /** After a run through the whole list nothing is pending: the next run applies nothing. */
  lemma {:induction false} NothingPendingAfter(files: seq<File>, rows: Rows, n: nat)
    requires n <= |files|
    ensures Pending(files, Recorded(files, rows, |files|), n) == []
  {
    if n > 0 {
      NothingPendingAfter(files, rows, n - 1);
      RecordedKeys(files, rows, |files|, files[n - 1].version);
    }
  }
}
