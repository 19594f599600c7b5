/**
 How the encoder sees a Lua table, in terms of its keys alone: as an array, as an object, or
 as an array with too many holes.
 */
module JsonTables {
  import opened JsonSyntax
  import opened JsonEncoding

  ghost predicate DistinctKeys(es: seq<Entry>) {
    forall i, j :: 0 <= i < j < |es| ==> es[i].key != es[j].key
  }

  predicate PositiveKeys(es: seq<Entry>) {
    forall i :: 0 <= i < |es| ==> es[i].key.IntKey? && es[i].key.i >= 1
  }

  /** Some index is beyond the safe ones and beyond the ratio of indices to entries. */
  predicate IsSparse(es: seq<Entry>, cfg: Config) {
    && cfg.sparseRatio > 0 && PositiveKeys(es)
    && exists i :: 0 <= i < |es| && es[i].key.i > cfg.sparseRatio * |es| && es[i].key.i > cfg.sparseSafe
  }

  predicate RefusedAsSparse(es: seq<Entry>, cfg: Config) {
    IsSparse(es, cfg) && !cfg.sparseConvert
  }

  /** The keys are 1 to n, in any order. */
  predicate IsDense(es: seq<Entry>) {
    es != [] && forall i :: 0 <= i < |es| ==> es[i].key.IntKey? && 1 <= es[i].key.i <= |es|
  }

  lemma {:induction false} MaxIndexBounds(es: seq<Entry>)
    requires AllIndices(es)
    ensures forall i :: 0 <= i < |es| ==> es[i].key.IntKey? && 1 <= es[i].key.i <= MaxIndex(es)
    ensures es != [] ==> exists i :: 0 <= i < |es| && es[i].key.IntKey? && es[i].key.i == MaxIndex(es)
    ensures es == [] <==> MaxIndex(es) == 0
  {
    if es != [] {
      var front, last := es[..|es| - 1], es[|es| - 1].key;
      assert IsIndex(last);
      MaxIndexBounds(front);
      if front != [] && last.i <= MaxIndex(front) {
        var i :| 0 <= i < |front| && front[i].key.IntKey? && front[i].key.i == MaxIndex(front);
        assert es[i].key.i == MaxIndex(es);
      } else {
        assert es[|es| - 1].key.i == MaxIndex(es);
      }
      forall i | 0 <= i < |es| ensures es[i].key.IntKey? && 1 <= es[i].key.i <= MaxIndex(es) {
        if i < |front| {
          assert es[i] == front[i];
        }
      }
    }
  }

  /**
   A table is refused exactly if it is sparse and not to be converted; it is an array exactly
   if all its keys are positive integers and it is not sparse, and then its length is the
   largest key.
   */
  lemma ShapeIs(es: seq<Entry>, cfg: Config)
    ensures ShapeOf(es, cfg).TooSparse? <==> RefusedAsSparse(es, cfg)
    ensures ShapeOf(es, cfg).ArrayOf? <==> PositiveKeys(es) && !IsSparse(es, cfg)
    ensures ShapeOf(es, cfg).ArrayOf? ==>
      var n := ShapeOf(es, cfg).n;
      && (forall i :: 0 <= i < |es| ==> es[i].key.i <= n)
      && if es == [] then n == 0 else exists i :: 0 <= i < |es| && es[i].key.i == n
  {
    assert AllIndices(es) <==> PositiveKeys(es) by {
      assert forall i :: 0 <= i < |es| ==> (IsIndex(es[i].key) <==> es[i].key.IntKey? && es[i].key.i >= 1);
    }
    if AllIndices(es) {
      MaxIndexBounds(es);
      var max, limit := MaxIndex(es), |es| * cfg.sparseRatio;
      if max > limit && max > cfg.sparseSafe {
        var i :| 0 <= i < |es| && es[i].key.IntKey? && es[i].key.i == max;
        assert es[i].key.i > limit && es[i].key.i > cfg.sparseSafe;
      }
    }
  }

  // ----- Tables without holes -----

  function Range(n: nat): (r: set<int>)
    ensures forall x :: x in r <==> 1 <= x <= n
  {
    if n == 0 then {} else Range(n - 1) + {n}
  }

  lemma {:induction false} RangeSize(n: nat)
    ensures |Range(n)| == n
  {
    if n > 0 {
      RangeSize(n - 1);
    }
  }

  /** The indices among the keys. */
  function Indices(es: seq<Entry>): set<int> {
    set i | 0 <= i < |es| && es[i].key.IntKey? :: es[i].key.i
  }

  lemma {:induction false} IndicesSize(es: seq<Entry>)
    ensures |Indices(es)| <= |es|
    ensures DistinctKeys(es) && PositiveKeys(es) ==> |Indices(es)| == |es|
  {
    if es != [] {
      var front, last := es[..|es| - 1], es[|es| - 1].key;
      IndicesSize(front);
      var more := if last.IntKey? then {last.i} else {};
      forall x ensures x in Indices(es) <==> x in Indices(front) + more {
        if x in Indices(es) {
          var i :| 0 <= i < |es| && es[i].key.IntKey? && es[i].key.i == x;
          assert i < |front| ==> front[i] == es[i];
        }
        if x in Indices(front) {
          var i :| 0 <= i < |front| && front[i].key.IntKey? && front[i].key.i == x;
          assert front[i] == es[i];
        }
        if x in more {
          assert es[|es| - 1].key.i == x;
        }
      }
      assert Indices(es) == Indices(front) + more;
    }
  }

  lemma {:induction false} Subset(a: set<int>, b: set<int>)
    requires a <= b
    ensures |a| <= |b| && (|a| == |b| ==> a == b)
  {
    if a != {} {
      assert exists x :: x in a by {
        assert (forall x :: x !in a) ==> a == {};
      }
      var x :| x in a;
      Subset(a - {x}, b - {x});
      assert a == (a - {x}) + {x} && b == (b - {x}) + {x};
    }
  }

  /** If each of 1 to m is among the keys there are at least m entries. */
  lemma EnoughEntries(es: seq<Entry>, m: nat)
    requires forall x :: 1 <= x <= m ==> Find(es, x) >= 0
    ensures m <= |es|
  {
    RangeSize(m);
    IndicesSize(es);
    forall x | x in Range(m) ensures x in Indices(es) {
      assert es[Find(es, x)].key == IntKey(x);
    }
    Subset(Range(m), Indices(es));
  }

  lemma {:induction false} Filled(es: seq<Entry>, x: int)
    requires IsDense(es) && DistinctKeys(es) && 1 <= x <= |es|
    ensures Find(es, x) >= 0
  {
    RangeSize(|es|);
    IndicesSize(es);
    Subset(Indices(es), Range(|es|));
    assert x in Indices(es);
  }

  /** A table with the keys 1 to n is an array of n elements under every configuration. */
  lemma DenseIsArray(es: seq<Entry>, cfg: Config)
    requires IsDense(es) && DistinctKeys(es)
    ensures ShapeOf(es, cfg) == ArrayOf(|es|)
  {
    ShapeIs(es, cfg);
    Filled(es, |es|);
    assert es[Find(es, |es|)].key == IntKey(|es|);
    if cfg.sparseRatio >= 1 {
      assert cfg.sparseRatio * |es| >= |es|;
    }
  }

  predicate Gapless(es: seq<Entry>, n: int) {
    forall i :: 1 <= i <= n ==> Find(es, i) >= 0
  }

  /** An array without holes is one whose keys are 1 to n. */
  lemma GaplessIsDense(es: seq<Entry>, cfg: Config)
    requires DistinctKeys(es) && ShapeOf(es, cfg).ArrayOf? && es != []
    ensures Gapless(es, ShapeOf(es, cfg).n) <==> IsDense(es)
  {
    ShapeIs(es, cfg);
    var n := ShapeOf(es, cfg).n;
    if IsDense(es) {
      DenseIsArray(es, cfg);
      forall i | 1 <= i <= n ensures Find(es, i) >= 0 {
        Filled(es, i);
      }
    }
    if Gapless(es, n) {
      EnoughEntries(es, n);
      assert PositiveKeys(es);
    }
  }
}
