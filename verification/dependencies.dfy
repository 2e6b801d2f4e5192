/**
  The dependency query `getModulesDependencies`: modules are sorted by name,
  and each becomes an `OutputModule` whose dependency list holds every
  recorded dependency name once, in ascending order.

  tsviz sorts modules with `localeCompare` and dependency names with
  the default code-unit comparison; both are `Lex.Le` here.
 */
module Dependencies {
  import opened Lex
  import opened Sorting
  import opened Elements

  /** The keys of the object `getModulesDependencies` fills with one entry per
      dependency: each name once. They are listed here in the order of first
      occurrence; `Object.keys` lists integer-like keys first, in ascending
      numeric order. The order does not reach the answer, which sorts the
      keys (see `DependenciesCanonical`). */
  function RecordedKeys(deps: seq<Dependency>): (keys: seq<string>)
    ensures Distinct(keys)
    ensures forall n :: n in keys <==> Mentions(deps, n)
  {
    if |deps| == 0 then []
    else
      var earlier := deps[..|deps| - 1];
      var last := deps[|deps| - 1];
      assert deps == earlier + [last];
      var keys := RecordedKeys(earlier);
      assert forall n :: Mentions(deps, n) <==> Mentions(earlier, n) || last.name == n;
      if last.name in keys then keys else keys + [last.name]
  }

  /** One module's entry in the query's answer. */
  function Summarize(m: Module): (out: OutputModule)
    ensures out.name == m.name
    ensures StrictlySorted(out.dependencies)
    ensures forall n :: n in out.dependencies <==> Mentions(m.dependencies, n)
  {
    var keys := RecordedKeys(m.dependencies);
    SortDistinctStrict(keys);
    OutputModule(m.name, SortBy(keys, Itself))
  }

  /** The entries of `ms`, in the order of `ms`. */
  function Summaries(ms: seq<Module>): seq<OutputModule>
  {
    if |ms| == 0 then [] else [Summarize(ms[0])] + Summaries(ms[1..])
  }

  /** The query: one entry per module, the entries ordered by module name. */
  function ModulesDependencies(ms: seq<Module>): (r: seq<OutputModule>)
    ensures |r| == |ms|
    ensures multiset(r) == multiset(Summaries(ms))
    ensures forall i, j :: 0 <= i < j < |r| ==> Le(r[i].name, r[j].name)
    ensures forall i :: 0 <= i < |r| ==> StrictlySorted(r[i].dependencies)
  {
    SortedSummaries(ms);
    Summaries(SortBy(ms, NameOf))
  }

  lemma SortedSummaries(ms: seq<Module>)
    ensures |Summaries(SortBy(ms, NameOf))| == |ms|
    ensures multiset(Summaries(SortBy(ms, NameOf))) == multiset(Summaries(ms))
    ensures var r := Summaries(SortBy(ms, NameOf));
      forall i, j :: 0 <= i < j < |r| ==> Le(r[i].name, r[j].name)
    ensures var r := Summaries(SortBy(ms, NameOf));
      forall i :: 0 <= i < |r| ==> StrictlySorted(r[i].dependencies)
  {
    var sorted := SortBy(ms, NameOf);
    var r := Summaries(sorted);
    SummariesPermutation(ms);
    SummariesPointwise(sorted);
    assert |multiset(sorted)| == |multiset(ms)|;
    forall i, j | 0 <= i < j < |r|
      ensures Le(r[i].name, r[j].name)
    {
      assert r[i] == Summarize(sorted[i]) && r[j] == Summarize(sorted[j]);
      assert Le(NameOf(sorted[i]), NameOf(sorted[j]));
    }
    forall i | 0 <= i < |r|
      ensures StrictlySorted(r[i].dependencies)
    {
      assert r[i] == Summarize(sorted[i]);
    }
  }

  lemma {:induction false} SummariesPointwise(ms: seq<Module>)
    ensures |Summaries(ms)| == |ms|
    ensures forall i :: 0 <= i < |ms| ==> Summaries(ms)[i] == Summarize(ms[i])
  {
    if |ms| > 0 {
      SummariesPointwise(ms[1..]);
    }
  }

  lemma {:induction false} SummariesInsert(x: Module, s: seq<Module>)
    ensures multiset(Summaries(Insert(x, s, NameOf)))
         == multiset(Summaries(s)) + multiset{Summarize(x)}
  {
    if |s| == 0 {
    } else if Le(x.name, s[0].name) {
      assert ([x] + s)[1..] == s;
    } else {
      var rest := Insert(x, s[1..], NameOf);
      assert ([s[0]] + rest)[1..] == rest;
      SummariesInsert(x, s[1..]);
    }
  }

  /** Sorting the modules only reorders their entries. */
  lemma {:induction false} SummariesPermutation(ms: seq<Module>)
    ensures multiset(Summaries(SortBy(ms, NameOf))) == multiset(Summaries(ms))
  {
    if |ms| > 0 {
      SummariesPermutation(ms[1..]);
      SummariesInsert(ms[0], SortBy(ms[1..], NameOf));
    }
  }

  /** Every entry of the answer is the entry of some input module, and every
      input module has an entry. */
  lemma EntriesAreModules(ms: seq<Module>)
    ensures forall o :: o in ModulesDependencies(ms) ==> exists m :: m in ms && o == Summarize(m)
    ensures forall m :: m in ms ==> Summarize(m) in ModulesDependencies(ms)
  {
    var r := ModulesDependencies(ms);
    SummariesPointwise(ms);
    forall o | o in r
      ensures exists m :: m in ms && o == Summarize(m)
    {
      assert o in multiset(Summaries(ms));
      var i :| 0 <= i < |ms| && Summaries(ms)[i] == o;
      assert ms[i] in ms;
    }
    forall m | m in ms
      ensures Summarize(m) in r
    {
      var i :| 0 <= i < |ms| && ms[i] == m;
      assert Summaries(ms)[i] == Summarize(m);
      assert Summarize(m) in multiset(Summaries(ms));
    }
  }

  lemma {:induction false} SummariesWithKey(ms: seq<Module>, n: string)
    ensures WithKey(Summaries(ms), EntryName, n) == Summaries(WithKey(ms, NameOf, n))
  {
    if |ms| > 0 {
      var rest := ms[1..];
      var s := Summaries(ms);
      assert s[0] == Summarize(ms[0]) && s[1..] == Summaries(rest);
      SummariesWithKey(rest, n);
      var w := WithKey(rest, NameOf, n);
      if ms[0].name == n {
        assert WithKey(s, EntryName, n) == [s[0]] + WithKey(Summaries(rest), EntryName, n);
        assert WithKey(ms, NameOf, n) == [ms[0]] + w;
        assert ([ms[0]] + w)[0] == ms[0] && ([ms[0]] + w)[1..] == w;
      } else {
        assert WithKey(s, EntryName, n) == [] + WithKey(Summaries(rest), EntryName, n);
        assert WithKey(ms, NameOf, n) == [] + w;
        assert [] + w == w;
        assert [] + WithKey(Summaries(rest), EntryName, n) == WithKey(Summaries(rest), EntryName, n);
      }
    }
  }

  /** Modules with the same name keep their input order in the answer. */
  lemma SameNameKeepsOrder(ms: seq<Module>, n: string)
    ensures WithKey(ModulesDependencies(ms), EntryName, n) == Summaries(WithKey(ms, NameOf, n))
  {
    SummariesWithKey(SortBy(ms, NameOf), n);
    SortByStable(ms, NameOf, n);
  }

  /** An entry's dependency list is the one strictly increasing list of the
      names the module mentions, so it does not depend on the order in which
      that object happens to list its keys. */
  lemma DependenciesCanonical(m: Module, d: seq<string>)
    requires StrictlySorted(d)
    requires forall n :: n in d <==> Mentions(m.dependencies, n)
    ensures Summarize(m).dependencies == d
  {
    StrictlySortedUnique(Summarize(m).dependencies, d);
  }

  /** Reordering or repeating a module's dependencies does not change its entry. */
  lemma SummaryIgnoresOrderAndRepeats(m1: Module, m2: Module)
    requires m1.name == m2.name
    requires forall n :: Mentions(m1.dependencies, n) <==> Mentions(m2.dependencies, n)
    ensures Summarize(m1) == Summarize(m2)
  {
    DependenciesCanonical(m2, Summarize(m1).dependencies);
  }

  /** Two modules where `A` refers to `B` twice and `B` refers to nothing,
      given in reverse name order. */
  lemma TwoModuleExample()
    ensures ModulesDependencies([Module("B", [], []), Module("A", [], [Dependency("B"), Dependency("B")])])
         == [OutputModule("A", ["B"]), OutputModule("B", [])]
  {
    var a := Module("A", [], [Dependency("B"), Dependency("B")]);
    var b := Module("B", [], []);
    ExampleOrder(a, b);
    ExampleEntry(a);
    assert Summarize(b) == OutputModule("B", []);
    assert Summaries([a, b]) == [Summarize(a)] + Summaries([b]);
  }

  lemma ExampleOrder(a: Module, b: Module)
    requires a.name == "A" && b.name == "B"
    ensures SortBy([b, a], NameOf) == [a, b]
  {
    assert Le("A", "B") && !Le("B", "A");
    assert [b, a][1..] == [a];
    assert SortBy([a], NameOf) == [a];
    assert Insert(b, [a], NameOf) == [a] + Insert(b, [], NameOf);
  }

  lemma ExampleEntry(a: Module)
    requires a == Module("A", [], [Dependency("B"), Dependency("B")])
    ensures Summarize(a) == OutputModule("A", ["B"])
  {
    assert a.dependencies[..1] == [Dependency("B")];
    assert RecordedKeys(a.dependencies) == ["B"];
    assert SortBy(["B"], Itself) == ["B"];
  }
}
