/** Counting: sums of natural weights over finite sets, and the sizes of sets and sequences. */
module Sums {

  ghost function Total<K(!new)>(ids: set<K>, weight: map<K, nat>): nat
    requires ids <= weight.Keys
  {
    if ids == {} then 0 else
      var id :| id in ids;
      weight[id] + Total(ids - {id}, weight)
  }

  lemma {:induction false} TotalSplit<K(!new)>(ids: set<K>, weight: map<K, nat>, id: K)
    requires ids <= weight.Keys
    requires id in ids
    ensures Total(ids, weight) == weight[id] + Total(ids - {id}, weight)
  {
    var pick :| pick in ids && Total(ids, weight) == weight[pick] + Total(ids - {pick}, weight);
    if pick != id {
      TotalSplit(ids - {pick}, weight, id);
      TotalSplit(ids - {id}, weight, pick);
      assert ids - {pick} - {id} == ids - {id} - {pick};
    }
  }

  lemma {:induction false} TotalAgrees<K(!new)>(ids: set<K>, weight: map<K, nat>, weight': map<K, nat>)
    requires ids <= weight.Keys && ids <= weight'.Keys
    requires forall id | id in ids :: weight[id] == weight'[id]
    ensures Total(ids, weight) == Total(ids, weight')
  {
    if ids != {} {
      var id :| id in ids;
      TotalAgrees(ids - {id}, weight, weight');
      TotalSplit(ids, weight, id);
      TotalSplit(ids, weight', id);
    }
  }

  lemma {:induction false} TotalMonotone<K(!new)>(ids: set<K>, more: set<K>, weight: map<K, nat>)
    requires ids <= more <= weight.Keys
    ensures Total(ids, weight) <= Total(more, weight)
  {
    if ids != {} {
      var id :| id in ids;
      TotalSplit(ids, weight, id);
      TotalSplit(more, weight, id);
      TotalMonotone(ids - {id}, more - {id}, weight);
    }
  }

  // Changing one weight changes the total by the same amount.
  lemma TotalUpdate<K(!new)>(weight: map<K, nat>, weight': map<K, nat>, id: K)
    requires weight'.Keys == weight.Keys + {id}
    requires forall k | k in weight && k != id :: weight'[k] == weight[k]
    ensures Total(weight'.Keys, weight')
         == Total(weight.Keys, weight) - (if id in weight then weight[id] else 0) + weight'[id]
  {
    TotalSplit(weight'.Keys, weight', id);
    var rest := weight.Keys - {id};
    assert weight'.Keys - {id} == rest;
    TotalAgrees(rest, weight, weight');
    if id in weight {
      TotalSplit(weight.Keys, weight, id);
    } else {
      assert rest == weight.Keys;
    }
  }

  lemma TotalRemove<K(!new)>(weight: map<K, nat>, id: K)
    requires id in weight
    ensures Total((weight - {id}).Keys, weight - {id}) == Total(weight.Keys, weight) - weight[id]
  {
    TotalSplit(weight.Keys, weight, id);
    assert (weight - {id}).Keys == weight.Keys - {id};
    TotalAgrees(weight.Keys - {id}, weight, weight - {id});
  }

  lemma {:induction false} SubsetCount<T>(a: set<T>, b: set<T>)
    requires a <= b
    ensures |a| <= |b|
  {
    if a != {} {
      var x :| x in a;
      SubsetCount(a - {x}, b - {x});
    }
  }

  // Pigeonhole: a sequence without repeats is no longer than a set it is drawn from.
  lemma {:induction false} DistinctCount<T>(xs: seq<T>, all: set<T>)
    requires forall i, j | 0 <= i < j < |xs| :: xs[i] != xs[j]
    requires forall x | x in xs :: x in all
    ensures |xs| <= |all|
    ensures |xs| == |all| ==> forall x | x in all :: x in xs
  {
    if xs != [] {
      var front, last := xs[..|xs| - 1], xs[|xs| - 1];
      assert last in xs;
      forall x | x in front ensures x in all - {last} {
        assert x in xs;
      }
      DistinctCount(front, all - {last});
      assert xs == front + [last];
    }
  }

  // ... and a set larger than the sequence has a member the sequence lacks.
  lemma {:induction false} SomethingIsMissing<T>(xs: seq<T>, all: set<T>) returns (x: T)
    requires |xs| < |all|
    ensures x in all && x !in xs
  {
    if xs == [] {
      x :| x in all;
    } else {
      var front, last := xs[..|xs| - 1], xs[|xs| - 1];
      x := SomethingIsMissing(front, all - {last});
      assert xs == front + [last];
    }
  }

  function Below(n: nat): (all: set<nat>)
    ensures forall i: nat :: i in all <==> i < n
    ensures |all| == n
  {
    if n == 0 then {} else Below(n - 1) + {n - 1}
  }
}
