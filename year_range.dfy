/**
 * Choosing the model years to query for a product (`years_for_same_product`,
 * `pick_years_for_product`): the digit years of every catalog record with the same
 * (brand, model, modelType, ngtdModelId) key, newest first, at most `cap` of them.
 */
module YearRange {
  import opened PyText
  import opened JsonValue
  import opened ProductMerge

  /** The cap `pick_years_for_product` passes by default. */
  const DefaultCap := 12

  /** The year of `p` counts when it is an int or a digit string (`str(y).isdigit()`). */
  predicate HasDigitYear(p: Product) {
    IsDigitValue(p.year)
  }

  /** The list `years` after the loop: the digit years of the records with key `k`, in input order. */
  function SiblingYears(k: Key, ps: seq<Product>): (ys: seq<nat>)
    ensures |ys| <= |ps|
    decreases |ps|
  {
    if ps == [] then []
    else
      var ys := SiblingYears(k, ps[..|ps| - 1]);
      var p := ps[|ps| - 1];
      if KeyOf(p) == k && HasDigitYear(p) then ys + [DigitValueOf(p.year)] else ys
  }

  /** Every collected year is the digit year of a record with the key, and every such year is collected. */
  lemma {:induction false} SiblingYearsExact(k: Key, ps: seq<Product>)
    ensures forall i :: 0 <= i < |SiblingYears(k, ps)| ==>
              exists j :: 0 <= j < |ps| && KeyOf(ps[j]) == k && HasDigitYear(ps[j]) && DigitValueOf(ps[j].year) == SiblingYears(k, ps)[i]
    ensures forall j :: 0 <= j < |ps| && KeyOf(ps[j]) == k && HasDigitYear(ps[j]) ==> DigitValueOf(ps[j].year) in SiblingYears(k, ps)
    decreases |ps|
  {
    if ps != [] {
      var n := |ps| - 1;
      var pre := ps[..n];
      SiblingYearsExact(k, pre);
      var old_, ys := SiblingYears(k, pre), SiblingYears(k, ps);
      assert forall j :: 0 <= j < n ==> pre[j] == ps[j];
      forall i | 0 <= i < |ys|
        ensures exists j :: 0 <= j < |ps| && KeyOf(ps[j]) == k && HasDigitYear(ps[j]) && DigitValueOf(ps[j].year) == ys[i]
      {
        if i < |old_| {
          assert old_[i] in old_;
          var j :| 0 <= j < n && KeyOf(pre[j]) == k && HasDigitYear(pre[j]) && DigitValueOf(pre[j].year) == old_[i];
          assert ys[i] == old_[i] && ps[j] == pre[j];
        } else {
          assert KeyOf(ps[n]) == k && HasDigitYear(ps[n]) && ys[i] == DigitValueOf(ps[n].year);
        }
      }
      forall j | 0 <= j < |ps| && KeyOf(ps[j]) == k && HasDigitYear(ps[j])
        ensures DigitValueOf(ps[j].year) in ys
      {
        if j < n {
          assert pre[j] == ps[j];
          assert DigitValueOf(ps[j].year) in old_;
        }
      }
    } else {
      assert SiblingYears(k, ps) == [];
    }
  }

  // ---------------------------------------------------------------- sorted(set(years), reverse=True)

  predicate StrictlyDescending(s: seq<nat>) {
    forall i, j :: 0 <= i < j < |s| ==> s[i] > s[j]
  }

  /** Adds `y` to a strictly descending list unless it is already there. */
  function InsertDescending(s: seq<nat>, y: nat): (r: seq<nat>)
    requires StrictlyDescending(s)
    ensures StrictlyDescending(r)
    ensures forall z :: z in r <==> z in s || z == y
    decreases |s|
  {
    if s == [] then [y]
    else if y > s[0] then [y] + s
    else if y == s[0] then s
    else
      var t := InsertDescending(s[1..], y);
      assert forall z :: z in s <==> z == s[0] || z in s[1..];
      BelowHead(s, y, t);
      [s[0]] + t
  }

  /** Whatever lists only the tail of `s` and a value below its head stays below its head. */
  lemma BelowHead(s: seq<nat>, y: nat, t: seq<nat>)
    requires StrictlyDescending(s) && s != [] && y < s[0]
    requires forall z :: z in t <==> z in s[1..] || z == y
    ensures forall i :: 0 <= i < |t| ==> t[i] < s[0]
  {
    forall i | 0 <= i < |t|
      ensures t[i] < s[0]
    {
      assert t[i] in t;
      if t[i] != y {
        var m :| 0 <= m < |s| - 1 && s[1..][m] == t[i];
        assert s[m + 1] == t[i];
      }
    }
  }

  /** `sorted(set(xs), reverse=True)`: the distinct values of `xs`, largest first. */
  function SortedSetDescending(xs: seq<nat>): (r: seq<nat>)
    ensures StrictlyDescending(r)
    ensures forall z :: z in r <==> z in xs
    decreases |xs|
  {
    if xs == [] then []
    else
      var r := SortedSetDescending(xs[..|xs| - 1]);
      assert forall z :: z in xs <==> z in xs[..|xs| - 1] || z == xs[|xs| - 1];
      InsertDescending(r, xs[|xs| - 1])
  }

  /**
   * A set has exactly one strictly descending listing, so the result above is the one
   * Python's sort produces whatever the order in which the years were collected.
   */
  lemma {:induction false} DescendingListingUnique(a: seq<nat>, b: seq<nat>)
    requires StrictlyDescending(a) && StrictlyDescending(b)
    requires forall z :: z in a <==> z in b
    ensures a == b
    decreases |a|
  {
    assert a != [] ==> a[0] in a;
    assert b != [] ==> b[0] in b;
    if a != [] && b != [] {
      TailsAgree(a, b);
      DescendingListingUnique(a[1..], b[1..]);
      assert a == [a[0]] + a[1..] && b == [b[0]] + b[1..];
    }
  }

  /** Two strictly descending listings of one set start alike and list the same rest. */
  lemma TailsAgree(a: seq<nat>, b: seq<nat>)
    requires StrictlyDescending(a) && StrictlyDescending(b) && a != [] && b != []
    requires forall z :: z in a <==> z in b
    ensures a[0] == b[0]
    ensures StrictlyDescending(a[1..]) && StrictlyDescending(b[1..])
    ensures forall z :: z in a[1..] <==> z in b[1..]
  {
    assert a[0] in a && b[0] in b;
    var ka :| 0 <= ka < |a| && a[ka] == b[0];
    var kb :| 0 <= kb < |b| && b[kb] == a[0];
    assert a[0] >= a[ka] && b[0] >= b[kb];
    forall z
      ensures z in a[1..] <==> z in b[1..]
    {
      assert z in a[1..] <==> z in a && z != a[0];
      assert z in b[1..] <==> z in b && z != b[0];
    }
  }

  /** `[str(y) for y in ys]`. */
  function YearStrings(ys: seq<nat>): (r: seq<string>)
    ensures |r| == |ys|
    ensures forall i :: 0 <= i < |ys| ==> r[i] == NatToString(ys[i])
    decreases |ys|
  {
    if ys == [] then [] else [NatToString(ys[0])] + YearStrings(ys[1..])
  }

  /** What `years_for_same_product(prod, all_products, cap)` returns for `k == KeyOf(prod)`. */
  function YearsFor(k: Key, all: seq<Product>, cap: int): seq<string> {
    YearStrings(SliceTo(SortedSetDescending(SiblingYears(k, all)), cap))
  }

  /** The year list as numbers: `int(s)` of each string, which undoes `str`. */
  lemma YearsForValues(k: Key, all: seq<Product>, cap: int)
    ensures var r, ys := YearsFor(k, all, cap), SliceTo(SortedSetDescending(SiblingYears(k, all)), cap);
            forall i :: 0 <= i < |r| ==> IsDigits(r[i]) && DecimalValue(r[i]) == ys[i]
  {
    var ys := SliceTo(SortedSetDescending(SiblingYears(k, all)), cap);
    forall i | 0 <= i < |ys|
      ensures DecimalValue(NatToString(ys[i])) == ys[i]
    {
      DecimalOfNatToString(ys[i]);
    }
  }

  /**
   * The properties `years_for_same_product` promises: digit strings for distinct years,
   * newest first, at most `cap` of them, each the year of a record with the same key,
   * and every year of such a record either listed or older than all listed ones.
   */
  lemma YearsForSameProductSpec(k: Key, all: seq<Product>, cap: int)
    ensures var r := YearsFor(k, all, cap);
            && (cap >= 0 ==> |r| <= cap)
            && (forall i :: 0 <= i < |r| ==> IsDigits(r[i]))
            && (forall i, j :: 0 <= i < j < |r| ==> DecimalValue(r[i]) > DecimalValue(r[j]))
            && (forall i :: 0 <= i < |r| ==>
                  exists j :: 0 <= j < |all| && KeyOf(all[j]) == k && HasDigitYear(all[j]) && DigitValueOf(all[j].year) == DecimalValue(r[i]))
  {
    var s := SortedSetDescending(SiblingYears(k, all));
    var ys := SliceTo(s, cap);
    var r := YearsFor(k, all, cap);
    YearsForValues(k, all, cap);
    SiblingYearsExact(k, all);
    forall i | 0 <= i < |r|
      ensures exists j :: 0 <= j < |all| && KeyOf(all[j]) == k && HasDigitYear(all[j]) && DigitValueOf(all[j].year) == DecimalValue(r[i])
    {
      assert ys[i] == s[i] && s[i] in SiblingYears(k, all);
    }
  }

  /** The cap keeps the newest years: a sibling year left out is older than every listed one. */
  lemma YearsForKeepsNewest(k: Key, all: seq<Product>, cap: int, j: nat)
    requires j < |all| && KeyOf(all[j]) == k && HasDigitYear(all[j])
    ensures var r := YearsFor(k, all, cap);
            (exists i :: 0 <= i < |r| && DecimalValue(r[i]) == DigitValueOf(all[j].year))
            || (forall i :: 0 <= i < |r| ==> DecimalValue(r[i]) > DigitValueOf(all[j].year))
  {
    var s := SortedSetDescending(SiblingYears(k, all));
    var ys := SliceTo(s, cap);
    var r := YearsFor(k, all, cap);
    var y := DigitValueOf(all[j].year);
    YearsForValues(k, all, cap);
    SiblingYearsExact(k, all);
    assert y in s;
    var m :| 0 <= m < |s| && s[m] == y;
    if m < |ys| {
      assert DecimalValue(r[m]) == y;
    } else {
      forall i | 0 <= i < |r|
        ensures DecimalValue(r[i]) > y
      {
        assert ys[i] == s[i];
      }
    }
  }

  /** Below the cap nothing is left out: every sibling year is listed. */
  lemma YearsForUnderCap(k: Key, all: seq<Product>, cap: int, j: nat)
    requires j < |all| && KeyOf(all[j]) == k && HasDigitYear(all[j])
    requires 0 <= |YearsFor(k, all, cap)| < cap
    ensures exists i :: 0 <= i < |YearsFor(k, all, cap)| && DecimalValue(YearsFor(k, all, cap)[i]) == DigitValueOf(all[j].year)
  {
    var s := SortedSetDescending(SiblingYears(k, all));
    var r := YearsFor(k, all, cap);
    var y := DigitValueOf(all[j].year);
    YearsForValues(k, all, cap);
    SiblingYearsExact(k, all);
    assert y in s;
    var m :| 0 <= m < |s| && s[m] == y;
    assert DecimalValue(r[m]) == y;
  }

  /** With a positive cap the list is empty exactly when no record with the key has a digit year. */
  lemma YearsForEmpty(k: Key, all: seq<Product>, cap: int)
    requires cap > 0
    ensures YearsFor(k, all, cap) == [] <==>
              forall j :: 0 <= j < |all| && KeyOf(all[j]) == k ==> !HasDigitYear(all[j])
  {
    SiblingYearsExact(k, all);
    var sib := SiblingYears(k, all);
    var s := SortedSetDescending(sib);
    if YearsFor(k, all, cap) == [] {
      assert s == [];
    } else {
      assert s[0] in sib;
      var t :| 0 <= t < |sib| && sib[t] == s[0];
      var j :| 0 <= j < |all| && KeyOf(all[j]) == k && HasDigitYear(all[j]) && DigitValueOf(all[j].year) == sib[t];
      assert KeyOf(all[j]) == k && HasDigitYear(all[j]);
    }
  }

  /** `years_for_same_product`: a loop collects the sibling years, then they are sorted, capped and printed. */
  method YearsForSameProduct(prod: Product, all: seq<Product>, cap: int) returns (r: seq<string>)
    ensures r == YearsFor(KeyOf(prod), all, cap)
  {
    var key := KeyOf(prod);
    var years: seq<nat> := [];
    for i := 0 to |all|
      invariant years == SiblingYears(key, all[..i])
    {
      var p := all[i];
      assert all[..i + 1][..i] == all[..i];
      if KeyOf(p) == key && HasDigitYear(p) {
        years := years + [DigitValueOf(p.year)];
      }
    }
    assert all[..|all|] == all;
    r := YearStrings(SliceTo(SortedSetDescending(years), cap));
  }

  // ---------------------------------------------------------------- pick_years_for_product

  /** `year_from_prod(p)`: the record's own year, printed back from its value, or nothing. */
  function OwnYear(p: Product): (r: seq<string>)
    ensures |r| <= 1
    ensures r != [] <==> HasDigitYear(p)
    ensures r != [] ==> IsDigits(r[0]) && DecimalValue(r[0]) == DigitValueOf(p.year)
  {
    if HasDigitYear(p) then
      DecimalOfNatToString(DigitValueOf(p.year));
      [NatToString(DigitValueOf(p.year))]
    else []
  }

  /** What `pick_years_for_product` returns (sibling years are in use). */
  function PickYears(prod: Product, all: seq<Product>): seq<string> {
    var years := YearsFor(KeyOf(prod), all, DefaultCap);
    if years != [] then years else OwnYear(prod)
  }

  /** `pick_years_for_product`. */
  method PickYearsForProduct(prod: Product, all: seq<Product>) returns (r: seq<string>)
    ensures r == PickYears(prod, all)
  {
    var years := YearsForSameProduct(prod, all, DefaultCap);
    if years != [] {
      r := years;
    } else {
      r := OwnYear(prod);
    }
  }

  /**
   * The picked list is the sibling list when that has a year; otherwise it is the
   * product's own year, or empty when that is not a digit year either.
   */
  lemma PickYearsFallback(prod: Product, all: seq<Product>)
    ensures |PickYears(prod, all)| <= DefaultCap
    ensures PickYears(prod, all) == [] <==>
              !HasDigitYear(prod) && forall j :: 0 <= j < |all| && KeyOf(all[j]) == KeyOf(prod) ==> !HasDigitYear(all[j])
    ensures (forall j :: 0 <= j < |all| && KeyOf(all[j]) == KeyOf(prod) ==> !HasDigitYear(all[j])) ==>
              PickYears(prod, all) == OwnYear(prod)
  {
    YearsForSameProductSpec(KeyOf(prod), all, DefaultCap);
    YearsForEmpty(KeyOf(prod), all, DefaultCap);
  }

  /** For a product taken from the catalog the fallback never changes the answer. */
  lemma PickYearsOfListedProduct(prod: Product, all: seq<Product>)
    requires prod in all
    ensures PickYears(prod, all) == YearsFor(KeyOf(prod), all, DefaultCap)
  {
    YearsForEmpty(KeyOf(prod), all, DefaultCap);
    var j :| 0 <= j < |all| && all[j] == prod;
    if HasDigitYear(prod) {
      assert KeyOf(all[j]) == KeyOf(prod) && HasDigitYear(all[j]);
    }
  }
}
