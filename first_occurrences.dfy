/**
 * Order-preserving de-duplication, the shape shared by a Python dict filled in a
 * loop (`groups[key]`, `uniq[pn]`) and by the `seen`-set loop: the distinct elements
 * in the order of their first occurrence.
 */
module FirstOccurrences {

  predicate NoDuplicates<T(==)>(s: seq<T>) {
    forall i, j :: 0 <= i < j < |s| ==> s[i] != s[j]
  }

  /** The distinct elements of `xs`, each placed where it first occurs. */
  function Distinct<T(==)>(xs: seq<T>): (r: seq<T>)
    ensures NoDuplicates(r)
    ensures forall i :: 0 <= i < |r| ==> r[i] in xs
    ensures |r| <= |xs|
    decreases |xs|
  {
    if xs == [] then []
    else
      var r := Distinct(xs[..|xs| - 1]);
      assert forall i :: 0 <= i < |xs| - 1 ==> xs[i] == xs[..|xs| - 1][i];
      if xs[|xs| - 1] in r then r else r + [xs[|xs| - 1]]
  }

  /** Every element of `xs` survives the de-duplication. */
  lemma {:induction false} DistinctCovers<T>(xs: seq<T>)
    ensures forall i :: 0 <= i < |xs| ==> xs[i] in Distinct(xs)
    decreases |xs|
  {
    if xs != [] {
      var p := xs[..|xs| - 1];
      DistinctCovers(p);
      assert forall i :: 0 <= i < |p| ==> xs[i] == p[i];
    }
  }

  /** A list that repeats one element, however often, keeps it once. */
  lemma {:induction false} DistinctOfConstant<T>(xs: seq<T>, x: T)
    requires forall i :: 0 <= i < |xs| ==> xs[i] == x
    ensures Distinct(xs) == if xs == [] then [] else [x]
    decreases |xs|
  {
    if xs != [] {
      var p := xs[..|xs| - 1];
      DistinctOfConstant(p, x);
    }
  }

  lemma DistinctHas<T>(xs: seq<T>, x: T)
    requires x in xs
    ensures x in Distinct(xs)
  {
    DistinctCovers(xs);
  }

  /** Appending an element adds it to the de-duplication exactly when it is new. */
  lemma DistinctSnoc<T>(xs: seq<T>, x: T)
    ensures Distinct(xs + [x]) == if x in Distinct(xs) then Distinct(xs) else Distinct(xs) + [x]
  {
    assert (xs + [x])[..|xs|] == xs;
  }

  /** Extending a prefix by one element; stated once so callers need no extensionality. */
  lemma PrefixSnoc<T>(s: seq<T>, j: nat)
    requires j < |s|
    ensures s[..j + 1] == s[..j] + [s[j]]
  {
  }

  /** The position of the first occurrence of `x` in `xs`. */
  function IndexOf<T(==)>(xs: seq<T>, x: T): (i: nat)
    requires x in xs
    ensures i < |xs| && xs[i] == x && x !in xs[..i]
    decreases |xs|
  {
    if xs[0] == x then 0
    else
      var i := 1 + IndexOf(xs[1..], x);
      assert xs[..i] == [xs[0]] + xs[1..][..i - 1];
      i
  }

  /** The first occurrence is the only position with `x` and no earlier `x`. */
  lemma {:induction false} IndexOfUnique<T>(xs: seq<T>, x: T, i: nat)
    requires i < |xs| && xs[i] == x && x !in xs[..i]
    ensures IndexOf(xs, x) == i
    decreases i
  {
    if i > 0 {
      assert xs[..i][0] == xs[0];
      assert xs[1..][..i - 1] == xs[..i][1..];
      IndexOfUnique(xs[1..], x, i - 1);
    }
  }

  lemma IndexOfPrefix<T>(xs: seq<T>, n: nat, x: T)
    requires n <= |xs| && x in xs[..n]
    ensures x in xs && IndexOf(xs, x) == IndexOf(xs[..n], x)
  {
    var i := IndexOf(xs[..n], x);
    assert xs[..n][..i] == xs[..i];
    IndexOfUnique(xs, x, i);
  }

  /** The elements of Distinct(xs) appear in the order of their first occurrence in `xs`. */
  lemma {:induction false} DistinctKeepsFirstOccurrenceOrder<T>(xs: seq<T>, i: nat, j: nat)
    requires i < j < |Distinct(xs)|
    ensures Distinct(xs)[i] in xs && Distinct(xs)[j] in xs
    ensures IndexOf(xs, Distinct(xs)[i]) < IndexOf(xs, Distinct(xs)[j])
    decreases |xs|
  {
    var n := |xs| - 1;
    var p := xs[..n];
    var r := Distinct(p);
    var a, b := Distinct(xs)[i], Distinct(xs)[j];
    assert a in xs && b in xs;
    assert Distinct(xs) == if xs[n] in r then r else r + [xs[n]];
    if j < |r| {
      assert a == r[i] && b == r[j];
      DistinctKeepsFirstOccurrenceOrder(p, i, j);
      IndexOfPrefix(xs, n, a);
      IndexOfPrefix(xs, n, b);
    } else {
      // b is the last element, new in xs[n]
      assert xs[n] !in r && b == xs[n];
      if b in p {
        DistinctHas(p, b);
      }
      assert a in p;
      IndexOfPrefix(xs, n, a);
      IndexOfUnique(xs, b, n);
    }
  }

  /** A sequence without duplicates is its own de-duplication. */
  lemma {:induction false} DistinctOfNoDuplicates<T>(xs: seq<T>)
    requires NoDuplicates(xs)
    ensures Distinct(xs) == xs
    decreases |xs|
  {
    if xs != [] {
      var p := xs[..|xs| - 1];
      assert NoDuplicates(p);
      DistinctOfNoDuplicates(p);
      assert xs[|xs| - 1] !in p;
      assert p + [xs[|xs| - 1]] == xs;
    }
  }
}
