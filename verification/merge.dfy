/**
  Merge mode of `createGraph`: the module list is replaced by the
  concatenation, in input order, of each module's nested modules. Only one
  level is removed, and the top-level modules themselves are dropped.
 */
module Merge {
  import opened Elements

  /** The `reduce` in `createGraph`: the accumulator grows by each module's
      nested modules, from the first module to the last. */
  function Flatten(ms: seq<Module>): (r: seq<Module>)
    ensures forall x :: x in r <==> exists m :: m in ms && x in m.modules
  {
    if |ms| == 0 then []
    else
      var earlier := ms[..|ms| - 1];
      var last := ms[|ms| - 1];
      assert ms == earlier + [last];
      Flatten(earlier) + last.modules
  }

  /** The total number of nested modules one level down. */
  function NestedCount(ms: seq<Module>): nat
  {
    if |ms| == 0 then 0 else |ms[0].modules| + NestedCount(ms[1..])
  }

  /** Flattening maps the empty list to the empty list, a single module to
      its nested modules, and a concatenation to a concatenation. */
  lemma {:induction false} FlattenHomomorphism(a: seq<Module>, b: seq<Module>)
    ensures Flatten([]) == []
    ensures |a| == 1 ==> Flatten(a) == a[0].modules
    ensures Flatten(a + b) == Flatten(a) + Flatten(b)
    decreases |b|
  {
    if |a| == 1 {
      assert a[..0] == [];
    }
    if |b| == 0 {
      assert a + b == a;
    } else {
      var earlier := b[..|b| - 1];
      assert (a + b)[..|a + b| - 1] == a + earlier;
      assert (a + b)[|a + b| - 1] == b[|b| - 1];
      FlattenHomomorphism(a, earlier);
    }
  }

  /** The merged list is as long as all nested lists together. */
  lemma {:induction false} FlattenLength(ms: seq<Module>)
    ensures |Flatten(ms)| == NestedCount(ms)
  {
    if |ms| > 0 {
      FlattenHomomorphism([ms[0]], ms[1..]);
      assert ms == [ms[0]] + ms[1..];
      FlattenLength(ms[1..]);
    }
  }

  /** A top-level module survives the merge only if some input module has it
      as a nested module. */
  lemma TopLevelDropped(ms: seq<Module>, m: Module)
    requires forall p :: p in ms ==> m !in p.modules
    ensures m !in Flatten(ms)
  {
  }

  /** A module is never among its own nested modules, so merging a single
      module always drops it. */
  lemma SingleModuleDropped(m: Module)
    ensures m !in Flatten([m])
  {
    FlattenHomomorphism([m], []);
  }

  /** Only one level is removed: merging twice can differ from merging once. */
  lemma MergeNotIdempotent()
    ensures exists ms :: Flatten(Flatten(ms)) != Flatten(ms)
  {
    var c := Module("c", [], []);
    var b := Module("b", [c], []);
    var a := Module("a", [b], []);
    FlattenHomomorphism([a], []);
    FlattenHomomorphism([b], []);
    assert Flatten(Flatten([a])) == [c] != [b] == Flatten([a]);
  }

  /** The module list `createGraph` hands to the renderers. */
  method Assemble(ms: seq<Module>, merge: bool) returns (acc: seq<Module>)
    ensures merge ==> acc == Flatten(ms)
    ensures !merge ==> acc == ms
  {
    if !merge {
      return ms;
    }
    acc := [];
    var i := 0;
    while i < |ms|
      invariant 0 <= i <= |ms|
      invariant acc == Flatten(ms[..i])
    {
      assert ms[..i + 1][..i] == ms[..i];
      acc := acc + ms[i].modules;
      i := i + 1;
    }
    assert ms[..|ms|] == ms;
  }
}
