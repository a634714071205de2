/** The files of a migration directory, and the version each is recorded under. */
module MigrationFiles {
  import opened Sorting
  import opened Text

  const UP_SUFFIX := ".up.sql"

  datatype Entry = Entry(name: string, isDir: bool)

  predicate HasSuffix(s: string, suffix: string) {
    |suffix| <= |s| && s[|s| - |suffix|..] == suffix
  }

  function TrimSuffix(s: string, suffix: string): string {
    if HasSuffix(s, suffix) then s[..|s| - |suffix|] else s
  }

  predicate Wanted(e: Entry, suffix: string) {
    && !e.isDir && HasSuffix(e.name, suffix)
    && !(suffix == ".sql" && (HasSuffix(e.name, ".up.sql") || HasSuffix(e.name, ".down.sql")))
  }

  /** String comparison, character by character. */
  predicate Less(a: string, b: string) {
    b != [] && (a == [] || a[0] < b[0] || (a[0] == b[0] && Less(a[1..], b[1..])))
  }

  lemma {:induction false} LessTotal(a: string, b: string)
    ensures Less(a, b) || Less(b, a) || a == b
    ensures !(Less(a, b) && Less(b, a))
    ensures !Less(a, a)
  {
    if a != [] && b != [] {
      LessTotal(a[1..], b[1..]);
      if a[0] == b[0] && a[1..] == b[1..] {
        assert a == [a[0]] + a[1..] && b == [b[0]] + b[1..];
      }
    }
    if a != [] {
      LessTotal(a[1..], a[1..]);
    }
  }

  lemma {:induction false} LessTransitive(a: string, b: string, c: string)
    requires Less(a, b) && Less(b, c)
    ensures Less(a, c)
  {
    if a != [] && a[0] == b[0] == c[0] {
      LessTransitive(a[1..], b[1..], c[1..]);
    }
  }

  /** `a` comes before `b`: it is a proper beginning of `b`, or it has the lower character where
      the two first differ. */
  ghost predicate ComesBefore(a: string, b: string) {
    || (|a| < |b| && b[..|a|] == a)
    || exists k | 0 <= k < |a| && k < |b| :: a[..k] == b[..k] && a[k] < b[k]
  }

  lemma ComesBeforeStep(a: string, b: string)
    requires a != [] && b != [] && a[0] == b[0]
    ensures ComesBefore(a, b) <==> ComesBefore(a[1..], b[1..])
  {
    var x, y := a[1..], b[1..];
    forall k | 0 <= k <= |x| && k <= |y| ensures a[..k + 1] == b[..k + 1] <==> x[..k] == y[..k] {
      assert a[..k + 1] == [a[0]] + x[..k] && b[..k + 1] == [b[0]] + y[..k];
    }
    if k :| 0 <= k < |a| && k < |b| && a[..k] == b[..k] && a[k] < b[k] {
      assert x[..k - 1] == y[..k - 1] && x[k - 1] < y[k - 1];
    }
    if k :| 0 <= k < |x| && k < |y| && x[..k] == y[..k] && x[k] < y[k] {
      assert a[..k + 1] == b[..k + 1] && a[k + 1] < b[k + 1];
    }
    if |x| < |y| {
      assert a[..|x| + 1] == a && b[..|x| + 1] == b[..|a|] && x[..|x|] == x;
    }
  }

  lemma {:induction false} LessMeaning(a: string, b: string)
    ensures Less(a, b) <==> ComesBefore(a, b)
  {
    if a != [] && b != [] {
      if a[0] == b[0] {
        LessMeaning(a[1..], b[1..]);
        ComesBeforeStep(a, b);
      } else if a[0] < b[0] {
        assert a[..0] == b[..0];
      } else if k :| 0 <= k < |a| && k < |b| && a[..k] == b[..k] && a[k] < b[k] {
        assert k > 0 ==> a[..k][0] == b[..k][0];
      }
    }
  }

  const LESS := (a: string, b: string) => Less(a, b)

  lemma LessIsAnOrder()
    ensures WeakOrder(LESS)
  {
    forall a, b ensures Less(a, b) ==> !Less(b, a) {
      LessTotal(a, b);
    }
    forall a, b, c | !Less(a, b) && !Less(b, c) ensures !Less(a, c) {
      LessTotal(a, b);
      if Less(a, c) && Less(b, a) {
        LessTransitive(b, a, c);
      }
    }
  }

  ghost predicate Ascending(names: seq<string>) {
    Strict(names, LESS)
  }

  ghost predicate Different(names: seq<string>) {
    forall i, j | 0 <= i < j < |names| :: names[i] != names[j]
  }

  /** `sort.Slice` by name leaves one order only. */
  lemma SortAscending(names: seq<string>)
    requires Different(names)
    ensures Ascending(Sort(names, LESS))
  {
    forall i, j | 0 <= i < j < |names| ensures Less(names[i], names[j]) || Less(names[j], names[i]) {
      LessTotal(names[i], names[j]);
    }
    LessIsAnOrder();
    SortStrict(names, LESS);
  }

  /** A listing of a directory: no name occurs twice, and none holds a slash. */
  ghost predicate IsDirectory(entries: seq<Entry>) {
    && (forall i, j | 0 <= i < j < |entries| :: entries[i].name != entries[j].name)
    && (forall e | e in entries :: '/' !in e.name)
  }

  /** The wanted names of a directory and no others, in ascending order. */
  ghost predicate ReadFrom(files: seq<string>, entries: seq<Entry>, suffix: string) {
    && Ascending(files)
    && (forall name :: name in files <==> exists e | e in entries :: Wanted(e, suffix) && e.name == name)
  }

  /** The entry is a file whose name ends in the suffix; plain `.sql` leaves migrations out. */
  ghost predicate IsFileEndingIn(e: Entry, suffix: string) {
    && !e.isDir
    && (exists stem :: e.name == stem + suffix)
    && (suffix == ".sql" ==> forall stem :: e.name != stem + ".up.sql" && e.name != stem + ".down.sql")
  }

  lemma SuffixMeaning(s: string, suffix: string)
    ensures HasSuffix(s, suffix) <==> exists stem :: s == stem + suffix
  {
    if HasSuffix(s, suffix) {
      assert s == s[..|s| - |suffix|] + suffix;
    }
  }

  lemma WantedMeaning(e: Entry, suffix: string)
    ensures Wanted(e, suffix) <==> IsFileEndingIn(e, suffix)
  {
    SuffixMeaning(e.name, suffix);
    SuffixMeaning(e.name, ".up.sql");
    SuffixMeaning(e.name, ".down.sql");
  }

  /** What was read are the names of exactly those files, each before the ones after it. */
  lemma ReadMeaning(files: seq<string>, entries: seq<Entry>, suffix: string)
    requires ReadFrom(files, entries, suffix)
    ensures forall i, j | 0 <= i < j < |files| :: ComesBefore(files[i], files[j])
    ensures forall name :: name in files <==> exists e | e in entries :: IsFileEndingIn(e, suffix) && e.name == name
  {
    forall i, j | 0 <= i < j < |files| ensures ComesBefore(files[i], files[j]) {
      assert LESS(files[i], files[j]);
      LessMeaning(files[i], files[j]);
    }
    forall e | e in entries ensures Wanted(e, suffix) <==> IsFileEndingIn(e, suffix) {
      WantedMeaning(e, suffix);
    }
  }

  /** `migrationFiles`. */
  method Files(entries: seq<Entry>, suffix: string) returns (files: seq<string>)
    requires IsDirectory(entries)
    ensures ReadFrom(files, entries, suffix)
    ensures forall i, j | 0 <= i < j < |files| :: ComesBefore(files[i], files[j])
    ensures forall name :: name in files <==> exists e | e in entries :: IsFileEndingIn(e, suffix) && e.name == name
  {
    files := [];
    for i := 0 to |entries|
      invariant forall name :: name in files <==>
        exists k | 0 <= k < i :: Wanted(entries[k], suffix) && entries[k].name == name
      invariant Different(files)
    {
      if !Wanted(entries[i], suffix) {
        continue;
      }
      assert entries[i].name !in files;
      files := files + [entries[i].name];
    }
    SortAscending(files);
    SortMembers(files, LESS);
    files := Sort(files, LESS);
    ReadMeaning(files, entries, suffix);
  }

  /** `migrationVersionForNamespace`. */
  function Version(name: string, namespace: string): string {
    var version := TrimSuffix(name, UP_SUFFIX);
    var ns := TrimSpace(namespace);
    if ns == "" then version else ns + "/" + version
  }

  /** A file `stem.up.sql` is recorded as its stem, under the trimmed namespace if there is one. */
  lemma VersionMeaning(stem: string, namespace: string)
    ensures (forall c | c in namespace :: IsSpace(c)) ==> Version(stem + ".up.sql", namespace) == stem
    ensures (exists c | c in namespace :: !IsSpace(c)) ==>
      Version(stem + ".up.sql", namespace) == TrimSpace(namespace) + "/" + stem
  {
    var name := stem + ".up.sql";
    assert name[..|name| - 7] == stem && name[|name| - 7..] == ".up.sql";
    TrimSpaceBlank(namespace);
  }

  predicate FileName(name: string) {
    HasSuffix(name, UP_SUFFIX) && '/' !in name
  }

  /** What is read from a directory are names of migration files, each once. */
  lemma ReadFilesAreFileNames(files: seq<string>, entries: seq<Entry>)
    requires IsDirectory(entries) && ReadFrom(files, entries, UP_SUFFIX)
    ensures Different(files) && forall f | f in files :: FileName(f)
  {
    forall i, j | 0 <= i < j < |files| ensures files[i] != files[j] {
      assert Less(files[i], files[j]);
      LessTotal(files[i], files[j]);
    }
  }

  lemma SplitAtLastSlash(a: string, b: string, c: string, d: string)
    requires a + "/" + b == c + "/" + d && '/' !in b && '/' !in d
    ensures a == c && b == d
  {
    var s := a + "/" + b;
    assert s[|a|] == '/' && s[|c|] == '/';
    if |a| != |c| {
      assert false;
    }
    assert s[..|a|] == a && s[..|c|] == c;
    assert s[|a| + 1..] == b && s[|c| + 1..] == d;
  }

  /** No two files are recorded under one version, not even in different namespaces. */
  lemma VersionInjective(name: string, ns: string, name': string, ns': string)
    requires FileName(name) && FileName(name')
    requires Version(name, ns) == Version(name', ns')
    ensures name == name' && TrimSpace(ns) == TrimSpace(ns')
  {
    var v, v' := TrimSuffix(name, UP_SUFFIX), TrimSuffix(name', UP_SUFFIX);
    assert name == v + UP_SUFFIX && name' == v' + UP_SUFFIX;
    assert forall c | c in v :: c in name;
    assert forall c | c in v' :: c in name';
    var t, t' := TrimSpace(ns), TrimSpace(ns');
    assert (t + "/" + v)[|t|] == '/' && (t' + "/" + v')[|t'|] == '/';
    if t != "" && t' != "" {
      SplitAtLastSlash(t, v, t', v');
    }
  }
}
