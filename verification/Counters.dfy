// The grow-only counter (crates/loom-core/src/event_sourcing.rs, GCounter).

module Counters {
  import opened Words

  type Counts = map<string, U64>

  function At(c: Counts, node: string): U64 {
    if node in c then c[node] else 0
  }

  function Bump(c: Counts, node: string, amount: U64): Counts {
    c[node := SaturatingAdd(At(c, node), amount)]
  }

  function Larger(a: U64, b: U64): U64 {
    if a < b then b else a
  }

  function Join(a: Counts, b: Counts): Counts {
    map n | n in a.Keys + b.Keys :: Larger(At(a, n), At(b, n))
  }

  /** The order in which counters grow. */
  ghost predicate Below(a: Counts, b: Counts) {
    forall n | n in a :: n in b && a[n] <= b[n]
  }

  /** Merging is the least upper bound of the growth order. */
  lemma JoinIsLeastUpperBound(a: Counts, b: Counts, c: Counts)
    ensures Below(a, Join(a, b)) && Below(b, Join(a, b))
    ensures Below(a, c) && Below(b, c) <==> Below(Join(a, b), c)
  {
    var j := Join(a, b);
    assert forall n | n in a :: n in j && a[n] <= j[n];
    assert forall n | n in b :: n in j && b[n] <= j[n];
    if Below(j, c) {
      forall n | n in a ensures n in c && a[n] <= c[n] { assert n in j; }
      forall n | n in b ensures n in c && b[n] <= c[n] { assert n in j; }
    }
  }

  lemma BelowAntisymmetric(a: Counts, b: Counts)
    requires Below(a, b) && Below(b, a)
    ensures a == b
  {
    assert a.Keys == b.Keys;
  }

  lemma JoinCommutative(a: Counts, b: Counts)
    ensures Join(a, b) == Join(b, a)
  {
  }

  lemma JoinIdempotent(a: Counts)
    ensures Join(a, a) == a
  {
  }

  lemma JoinAssociative(a: Counts, b: Counts, c: Counts)
    ensures Join(a, Join(b, c)) == Join(Join(a, b), c)
  {
    var left, right := Join(a, Join(b, c)), Join(Join(a, b), c);
    JoinIsLeastUpperBound(b, c, right);
    JoinIsLeastUpperBound(a, Join(b, c), right);
    JoinIsLeastUpperBound(a, b, left);
    JoinIsLeastUpperBound(Join(a, b), c, left);
    JoinIsLeastUpperBound(a, b, Join(a, b));
    JoinIsLeastUpperBound(b, c, Join(b, c));
    BelowTransitive(a, Join(a, b), right);
    BelowTransitive(b, Join(a, b), right);
    BelowTransitive(b, Join(b, c), left);
    BelowTransitive(c, Join(b, c), left);
    BelowAntisymmetric(left, right);
  }

  lemma BelowTransitive(a: Counts, b: Counts, c: Counts)
    requires Below(a, b) && Below(b, c)
    ensures Below(a, c)
  {
  }

  lemma JoinOneMore(a: Counts, b: Counts, todo: set<string>, key: string)
    requires key in todo && todo <= b.Keys
    ensures Join(a, b - (todo - {key}))
            == Join(a, b - todo)[key := Larger(At(Join(a, b - todo), key), b[key])]
  {
    var left := Join(a, b - (todo - {key}));
    var right := Join(a, b - todo)[key := Larger(At(Join(a, b - todo), key), b[key])];
    assert left.Keys == right.Keys;
    forall n | n in left ensures left[n] == right[n] {}
  }

  /** An increment only grows the counter. */
  lemma BumpGrows(a: Counts, node: string, amount: U64)
    ensures Below(a, Bump(a, node, amount))
  {
  }

  /** The sum over all nodes. */
  ghost function Total(c: Counts): nat {
    MapSum(c)
  }

  class GCounter {
    var counters: Counts

    constructor ()
      ensures counters == map[]
    {
      counters := map[];
    }

    method Increment(nodeId: string, amount: U64)
      modifies this
      ensures counters == Bump(old(counters), nodeId, amount)
    {
      if nodeId !in counters {
        counters := counters[nodeId := 0];
      }
      counters := counters[nodeId := SaturatingAdd(counters[nodeId], amount)];
    }

    /** The sum of all nodes' counts, wrapped around at the end of the u64 range. */
    method Value() returns (v: U64)
      ensures v == Wrap(Total(counters))
    {
      var sum: U64, rest := 0, counters;
      while rest != map[]
        invariant Wrap(sum + Total(rest)) == Wrap(Total(counters))
        decreases |rest|
      {
        var n :| n in rest;
        MapSumRemove(rest, n);
        WrapAdd(sum + rest[n], Total(rest - {n}));
        sum, rest := Wrap(sum + rest[n]), rest - {n};
      }
      WrapSmall(sum);
      return sum;
    }

    method Merge(other: GCounter) returns (m: GCounter)
      ensures fresh(m) && m.counters == Join(counters, other.counters)
    {
      var merged, theirs := counters, other.counters;
      var todo := theirs.Keys;
      assert Join(counters, theirs - todo) == counters;
      while todo != {}
        invariant todo <= theirs.Keys
        invariant merged == Join(counters, theirs - todo)
        decreases |todo|
      {
        var key :| key in todo;
        JoinOneMore(counters, theirs, todo, key);
        merged := merged[key := Larger(At(merged, key), theirs[key])];
        todo := todo - {key};
      }
      assert theirs - todo == theirs;
      m := new GCounter();
      m.counters := merged;
    }
  }
}
