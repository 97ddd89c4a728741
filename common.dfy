/** Values and sequence helpers shared by the other modules: an optional value,
    and the "push only if absent" / "Array.from(new Set(xs))" idioms of the CLI. */
module Common {

  datatype Option<+T> = None | Some(value: T)

  /** No element occurs twice. */
  predicate NoDuplicates<T(==)>(xs: seq<T>) {
    forall i, j :: 0 <= i < j < |xs| ==> xs[i] != xs[j]
  }

  /** `if (!xs.includes(x)) xs.push(x)`: append `x` unless it is already there. */
  function AddUnique<T(==)>(xs: seq<T>, x: T): (r: seq<T>)
    ensures x in r
    ensures NoDuplicates(xs) ==> NoDuplicates(r)
    ensures x in xs ==> r == xs
    ensures x !in xs ==> r == xs + [x]
  {
    if x in xs then xs else xs + [x]
  }

  /** `Array.from(new Set(xs))`: the distinct elements of `xs`, each kept at its
      first occurrence. */
  function Distinct<T(==)>(xs: seq<T>): (r: seq<T>)
  {
    DistinctAfter([], xs)
  }

  /** Distinct elements of `xs` not already in `seen`, appended to `seen`. */
  function DistinctAfter<T(==)>(seen: seq<T>, xs: seq<T>): (r: seq<T>)
    decreases |xs|
  {
    if xs == [] then seen else DistinctAfter(AddUnique(seen, xs[0]), xs[1..])
  }

  /** Index of the first occurrence of `x` in `xs`. */
  function FirstIndex<T(==)>(xs: seq<T>, x: T): (k: nat)
    requires x in xs
    ensures k < |xs| && xs[k] == x
    ensures forall j :: 0 <= j < k ==> xs[j] != x
  {
    if xs[0] == x then 0 else 1 + FirstIndex(xs[1..], x)
  }

  lemma {:induction false} DistinctAfterProps<T(!new)>(seen: seq<T>, xs: seq<T>)
    requires NoDuplicates(seen)
    ensures NoDuplicates(DistinctAfter(seen, xs))
    ensures forall y :: y in DistinctAfter(seen, xs) <==> y in seen || y in xs
    ensures |DistinctAfter(seen, xs)| >= |seen| && DistinctAfter(seen, xs)[..|seen|] == seen
    decreases |xs|
  {
    if xs != [] {
      var s' := AddUnique(seen, xs[0]);
      DistinctAfterProps(s', xs[1..]);
      assert s'[..|seen|] == seen;
      assert forall y :: y in xs <==> y == xs[0] || y in xs[1..];
      assert DistinctAfter(seen, xs)[..|seen|] == DistinctAfter(seen, xs)[..|s'|][..|seen|];
    }
  }

  /** The deduplicated list has no duplicates and holds exactly the input's elements. */
  lemma DistinctProps<T(!new)>(xs: seq<T>)
    ensures NoDuplicates(Distinct(xs))
    ensures forall y :: y in Distinct(xs) <==> y in xs
    ensures |Distinct(xs)| <= |xs|
  {
    DistinctAfterProps([], xs);
    DistinctLength([], xs);
  }

  lemma {:induction false} DistinctLength<T(!new)>(seen: seq<T>, xs: seq<T>)
    ensures |DistinctAfter(seen, xs)| <= |seen| + |xs|
    decreases |xs|
  {
    if xs != [] {
      DistinctLength(AddUnique(seen, xs[0]), xs[1..]);
    }
  }

  /** A list without duplicates is its own deduplication. */
  lemma {:induction false} DistinctOfNoDuplicates<T(!new)>(xs: seq<T>)
    requires NoDuplicates(xs)
    ensures Distinct(xs) == xs
  {
    var k := 0;
    while k < |xs|
      invariant 0 <= k <= |xs|
      invariant DistinctAfter([], xs) == DistinctAfter(xs[..k], xs[k..])
    {
      var seen, rest := xs[..k], xs[k..];
      assert rest[0] == xs[k] && rest[1..] == xs[k + 1..];
      assert DistinctAfter(seen, rest) == DistinctAfter(AddUnique(seen, xs[k]), xs[k + 1..]);
      assert xs[k] !in seen by {
        forall i | 0 <= i < k
          ensures seen[i] != xs[k]
        {
          assert seen[i] == xs[i];
        }
      }
      assert seen + [xs[k]] == xs[..k + 1];
      k := k + 1;
    }
    assert xs[..|xs|] == xs;
  }

  /** Scanning one more element appends it exactly when it is met for the first time. */
  lemma {:induction false} DistinctSnoc<T(!new)>(xs: seq<T>, x: T)
    ensures Distinct(xs + [x]) == AddUnique(Distinct(xs), x)
  {
    DistinctAfterSnoc([], xs, x);
  }

  lemma {:induction false} DistinctAfterSnoc<T(!new)>(seen: seq<T>, xs: seq<T>, x: T)
    ensures DistinctAfter(seen, xs + [x]) == AddUnique(DistinctAfter(seen, xs), x)
    decreases |xs|
  {
    if xs == [] {
      assert xs + [x] == [x];
      assert [x][1..] == [];
    } else {
      assert (xs + [x])[0] == xs[0];
      assert (xs + [x])[1..] == xs[1..] + [x];
      DistinctAfterSnoc(AddUnique(seen, xs[0]), xs[1..], x);
    }
  }

  lemma FirstIndexSnoc<T(!new)>(xs: seq<T>, x: T, y: T)
    requires y in xs
    ensures y in xs + [x] && FirstIndex(xs + [x], y) == FirstIndex(xs, y)
  {
    var k := FirstIndex(xs, y);
    var k' := FirstIndex(xs + [x], y);
    assert (xs + [x])[k] == y;
    assert xs[k'] == y by { assert k' <= k; }
  }

  /** First-occurrence order: the deduplicated elements appear in the order in
      which each is first met in the input. */
  lemma {:induction false} DistinctKeepsFirstOccurrenceOrder<T(!new)>(xs: seq<T>, i: nat, j: nat)
    requires i < j < |Distinct(xs)|
    ensures Distinct(xs)[i] in xs && Distinct(xs)[j] in xs
    ensures FirstIndex(xs, Distinct(xs)[i]) < FirstIndex(xs, Distinct(xs)[j])
    decreases |xs|
  {
    DistinctProps(xs);
    if xs == [] {
      assert false;
    }
    var ys, x := xs[..|xs| - 1], xs[|xs| - 1];
    assert xs == ys + [x];
    DistinctSnoc(ys, x);
    DistinctProps(ys);
    var d := Distinct(ys);
    if j < |d| {
      DistinctKeepsFirstOccurrenceOrder(ys, i, j);
      FirstIndexSnoc(ys, x, d[i]);
      FirstIndexSnoc(ys, x, d[j]);
    } else {
      assert Distinct(xs) == d + [x] && x !in ys;
      assert i < |d| && d[i] in Distinct(ys);
      assert d[i] in ys;
      assert Distinct(xs)[i] == d[i] && d[i] in ys;
      FirstIndexSnoc(ys, x, d[i]);
      assert FirstIndex(xs, x) == |ys| by {
        assert forall k :: 0 <= k < |ys| ==> xs[k] == ys[k];
      }
    }
  }

  /** Apply `f` to every element. */
  function Map<A, B>(f: A -> B, xs: seq<A>): (r: seq<B>)
    ensures |r| == |xs|
    ensures forall i :: 0 <= i < |xs| ==> r[i] == f(xs[i])
  {
    if xs == [] then [] else [f(xs[0])] + Map(f, xs[1..])
  }

}
