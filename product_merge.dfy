/**
 * Collapsing the vendor catalog to one product per logical vehicle
 * (`_parse_iso_date`, `_rank_for_merge`, `merge_products_latest`).
 */
module ProductMerge {
  import opened Wrappers
  import opened PyText
  import opened JsonValue
  import opened FirstOccurrences

  /** A catalog record; a key the vendor left out reads as None, as `dict.get` does. */
  datatype Product = Product(
    brand: Scalar,
    model: Scalar,
    modelType: Scalar,
    ngtdModelId: Scalar,
    year: Scalar,
    lineOffDate: Scalar)

  /** The identity of a logical vehicle: (brand, model, modelType, ngtdModelId). */
  datatype Key = Key(brand: Scalar, model: Scalar, modelType: Scalar, ngtdModelId: Scalar)

  function KeyOf(p: Product): Key {
    Key(p.brand, p.model, p.modelType, p.ngtdModelId)
  }

  // ---------------------------------------------------------------- dates

  /** A proleptic Gregorian date, as Python's `datetime.date`. */
  datatype Date = Date(year: int, month: int, day: int)

  /** `date.min`. */
  const MinDate := Date(1, 1, 1)

  predicate IsLeapYear(y: int) {
    y % 4 == 0 && (y % 100 != 0 || y % 400 == 0)
  }

  function DaysInMonth(y: int, m: int): int {
    if m == 2 then (if IsLeapYear(y) then 29 else 28)
    else if m == 4 || m == 6 || m == 9 || m == 11 then 30
    else 31
  }

  /** The dates `datetime.date` can represent (years 1 to 9999). */
  predicate ValidDate(d: Date) {
    1 <= d.year <= 9999 && 1 <= d.month <= 12 && 1 <= d.day <= DaysInMonth(d.year, d.month)
  }

  /** Chronological order: year, then month, then day. */
  predicate DateLess(a: Date, b: Date) {
    a.year < b.year
    || (a.year == b.year && a.month < b.month)
    || (a.year == b.year && a.month == b.month && a.day < b.day)
  }

  /** `date.min` precedes every other date Python can represent. */
  lemma MinDateIsLeast(d: Date)
    requires ValidDate(d) && d != MinDate
    ensures DateLess(MinDate, d)
  {
  }

  function Pad2(n: nat): (s: string)
    requires n < 100
    ensures |s| == 2 && AllDigits(s)
  {
    [DigitChar(n / 10), DigitChar(n % 10)]
  }

  function Pad4(n: nat): (s: string)
    requires n < 10000
    ensures |s| == 4 && AllDigits(s)
  {
    [DigitChar(n / 1000), DigitChar(n / 100 % 10), DigitChar(n / 10 % 10), DigitChar(n % 10)]
  }

  /** `d.isoformat()`: the calendar date in the extended format YYYY-MM-DD of ISO 8601, section 5.2.1.1. */
  function FormatDate(d: Date): (s: string)
    requires ValidDate(d)
    ensures |s| == 10
  {
    Pad4(d.year) + "-" + Pad2(d.month) + "-" + Pad2(d.day)
  }

  lemma Decimal1(s: string)
    requires |s| == 1 && AllDigits(s)
    ensures DecimalValue(s) == DigitValue(s[0])
  {
    assert s[..0] == [];
  }

  lemma Decimal2(s: string)
    requires |s| == 2 && AllDigits(s)
    ensures DecimalValue(s) == 10 * DigitValue(s[0]) + DigitValue(s[1])
  {
    Decimal1(s[..1]);
  }

  lemma Decimal3(s: string)
    requires |s| == 3 && AllDigits(s)
    ensures DecimalValue(s) == 100 * DigitValue(s[0]) + 10 * DigitValue(s[1]) + DigitValue(s[2])
  {
    Decimal2(s[..2]);
  }

  lemma Decimal4(s: string)
    requires |s| == 4 && AllDigits(s)
    ensures DecimalValue(s) == 1000 * DigitValue(s[0]) + 100 * DigitValue(s[1]) + 10 * DigitValue(s[2]) + DigitValue(s[3])
  {
    Decimal3(s[..3]);
  }

  lemma DivModUnique(n: int, d: int, q: int, r: int)
    requires d == 10 || d == 100 || d == 1000
    requires n == q * d + r && 0 <= r < d
    ensures n / d == q && n % d == r
  {
    if d == 10 {
      assert n == q * 10 + r;
    } else if d == 100 {
      assert n == q * 100 + r;
    } else {
      assert n == q * 1000 + r;
    }
  }

  lemma PadDecimal2(s: string)
    requires |s| == 2 && AllDigits(s)
    ensures DecimalValue(s) < 100 && Pad2(DecimalValue(s)) == s
  {
    Decimal2(s);
    var a, b := DigitValue(s[0]), DigitValue(s[1]);
    DivModUnique(10 * a + b, 10, a, b);
  }

  lemma PadDecimal4(s: string)
    requires |s| == 4 && AllDigits(s)
    ensures DecimalValue(s) < 10000 && Pad4(DecimalValue(s)) == s
  {
    Decimal4(s);
    var a, b, c, e := DigitValue(s[0]), DigitValue(s[1]), DigitValue(s[2]), DigitValue(s[3]);
    var n := 1000 * a + 100 * b + 10 * c + e;
    DivModUnique(n, 1000, a, 100 * b + 10 * c + e);
    DivModUnique(n, 100, 10 * a + b, 10 * c + e);
    DivModUnique(10 * a + b, 10, a, b);
    DivModUnique(n, 10, 100 * a + 10 * b + c, e);
    DivModUnique(100 * a + 10 * b + c, 10, 10 * a + b, c);
    assert n / 1000 == a && n / 100 % 10 == b && n / 10 % 10 == c && n % 10 == e;
    DigitCharOfValue(s[0]);
    DigitCharOfValue(s[1]);
    DigitCharOfValue(s[2]);
    DigitCharOfValue(s[3]);
    assert Pad4(n) == [s[0], s[1], s[2], s[3]];
  }

  lemma DecimalPad2(n: nat)
    requires n < 100
    ensures DecimalValue(Pad2(n)) == n
  {
    Decimal2(Pad2(n));
  }

  lemma DecimalPad4(n: nat)
    requires n < 10000
    ensures DecimalValue(Pad4(n)) == n
  {
    var e, q1 := n % 10, n / 10;
    var c, q2 := q1 % 10, q1 / 10;
    var b, a := q2 % 10, q2 / 10;
    DivModUnique(n, 100, q2, 10 * c + e);
    DivModUnique(n, 1000, a, 100 * b + 10 * c + e);
    assert Pad4(n) == [DigitChar(a), DigitChar(b), DigitChar(c), DigitChar(e)];
    Decimal4(Pad4(n));
  }

  /**
   * `datetime.fromisoformat(s).date()` for a string without a time part: a date for
   * exactly the YYYY-MM-DD strings naming a real date, None where Python raises.
   */
  function ParseCalendarDate(s: string): (r: Option<Date>)
    ensures r.Some? ==> ValidDate(r.value)
  {
    if |s| == 10 && s[4] == '-' && s[7] == '-'
       && AllDigits(s[..4]) && AllDigits(s[5..7]) && AllDigits(s[8..])
    then
      var d := Date(DecimalValue(s[..4]), DecimalValue(s[5..7]), DecimalValue(s[8..]));
      if ValidDate(d) then Some(d) else None
    else None
  }

  /** Only the canonical ISO form of a date parses: formatting a parsed date gives back the input. */
  lemma ParsedDateFormatsBack(s: string)
    requires ParseCalendarDate(s).Some?
    ensures FormatDate(ParseCalendarDate(s).value) == s
  {
    PadDecimal4(s[..4]);
    PadDecimal2(s[5..7]);
    PadDecimal2(s[8..]);
  }

  /** Every representable date is read back from its ISO form. */
  lemma ParseFormatRoundTrip(d: Date)
    requires ValidDate(d)
    ensures ParseCalendarDate(FormatDate(d)) == Some(d)
  {
    var s := FormatDate(d);
    assert s[..4] == Pad4(d.year) && s[5..7] == Pad2(d.month) && s[8..] == Pad2(d.day);
    DecimalPad4(d.year);
    DecimalPad2(d.month);
    DecimalPad2(d.day);
  }

  /**
   * `_parse_iso_date(d)`: the date before the first "T" of a line-off date; `date.min`
   * when the value is falsy, is not a string, or does not parse.
   */
  function ParseIsoDate(d: Scalar): (r: Date)
    ensures ValidDate(r)
    ensures !Truthy(d) || !d.JStr? ==> r == MinDate
    ensures d.JStr? && ParseCalendarDate(BeforeFirst(d.s, 'T')).Some? ==> r == ParseCalendarDate(BeforeFirst(d.s, 'T')).value
    ensures d.JStr? && ParseCalendarDate(BeforeFirst(d.s, 'T')).None? ==> r == MinDate
  {
    if !Truthy(d) then MinDate
    else match d
      case JStr(s) =>
        (match ParseCalendarDate(BeforeFirst(s, 'T'))
         case Some(date) => date
         case None => MinDate)
      case _ => MinDate  // `.split` on a non-string raises, and the handler returns date.min
  }

  // ---------------------------------------------------------------- ranking

  /** The `(date, year)` tuple `_rank_for_merge` returns. */
  datatype Rank = Rank(date: Date, year: int)

  /** The year half of the rank: the year as a number when it is all digits, else -1. */
  function YearRank(y: Scalar): (r: int)
    ensures r >= -1
    ensures r == -1 <==> !IsDigitValue(y)
  {
    if IsDigitValue(y) then DigitValueOf(y) else -1
  }

  /** `_rank_for_merge(p)`. */
  function RankOf(p: Product): Rank {
    Rank(ParseIsoDate(p.lineOffDate), YearRank(p.year))
  }

  /** Python's `<` on the rank tuples: the date dominates, the year breaks ties. */
  predicate RankLess(a: Rank, b: Rank) {
    DateLess(a.date, b.date) || (a.date == b.date && a.year < b.year)
  }

  lemma RankLessTransitive(a: Rank, b: Rank, c: Rank)
    requires RankLess(a, b) && RankLess(b, c)
    ensures RankLess(a, c)
  {
  }

  lemma RankTotal(a: Rank, b: Rank)
    ensures a == b || RankLess(a, b) || RankLess(b, a)
  {
  }

  // ---------------------------------------------------------------- max with a key

  /** The keys `max(items, key=rank)` compares, one per item. */
  function Ranks(items: seq<Product>, rank: Product -> Rank): (rs: seq<Rank>)
    ensures |rs| == |items|
    decreases |items|
  {
    if items == [] then [] else Ranks(items[..|items| - 1], rank) + [rank(items[|items| - 1])]
  }

  lemma {:induction false} RanksAt(items: seq<Product>, rank: Product -> Rank)
    ensures forall i :: 0 <= i < |items| ==> Ranks(items, rank)[i] == rank(items[i])
    decreases |items|
  {
    if items != [] {
      RanksAt(items[..|items| - 1], rank);
    }
  }

  /**
   * The index `max` holds after scanning the first `n` keys: a later item replaces
   * the best so far only when its key is strictly greater.
   */
  function MaxIndexUpTo(rs: seq<Rank>, n: nat): (r: nat)
    requires 0 < n <= |rs|
    ensures r < n
    decreases n
  {
    if n == 1 then 0
    else
      var best := MaxIndexUpTo(rs, n - 1);
      if RankLess(rs[best], rs[n - 1]) then n - 1 else best
  }

  function MaxIndex(rs: seq<Rank>): (r: nat)
    requires |rs| > 0
    ensures r < |rs|
  {
    MaxIndexUpTo(rs, |rs|)
  }

  /** `max(items, key=rank)`. */
  function BestOf(items: seq<Product>, rank: Product -> Rank): Product
    requires |items| > 0
  {
    items[MaxIndex(Ranks(items, rank))]
  }

  /** `best` ranks at least as high as everything before `i`, and strictly higher than everything before `best`. */
  predicate FirstMaximumUpTo(rs: seq<Rank>, best: nat, i: nat)
    requires best < i <= |rs|
  {
    && (forall j :: 0 <= j < i ==> !RankLess(rs[best], rs[j]))
    && (forall j :: 0 <= j < best ==> RankLess(rs[j], rs[best]))
  }

  lemma {:induction false} MaxIndexUpToIsFirstMaximum(rs: seq<Rank>, n: nat)
    requires 0 < n <= |rs|
    ensures FirstMaximumUpTo(rs, MaxIndexUpTo(rs, n), n)
    decreases n
  {
    if n > 1 {
      MaxIndexUpToIsFirstMaximum(rs, n - 1);
      var a, b := rs[MaxIndexUpTo(rs, n - 1)], rs[n - 1];
      if RankLess(a, b) {
        forall j | 0 <= j < n - 1
          ensures RankLess(rs[j], b)
        {
          RankTotal(rs[j], a);
          if RankLess(rs[j], a) {
            RankLessTransitive(rs[j], a, b);
          }
        }
      } else {
        RankTotal(a, b);
      }
    }
  }

  /**
   * Python's `max` with a key: the result ranks highest among the items, and every
   * item before it ranks strictly lower (the earliest maximum wins).
   */
  lemma BestOfIsFirstMaximum(items: seq<Product>, rank: Product -> Rank)
    requires |items| > 0
    ensures BestOf(items, rank) == items[MaxIndex(Ranks(items, rank))]
    ensures forall j :: 0 <= j < |items| ==> !RankLess(rank(BestOf(items, rank)), rank(items[j]))
    ensures forall j :: 0 <= j < MaxIndex(Ranks(items, rank)) ==> RankLess(rank(items[j]), rank(BestOf(items, rank)))
  {
    MaxIndexUpToIsFirstMaximum(Ranks(items, rank), |items|);
    RanksAt(items, rank);
  }

  // ---------------------------------------------------------------- merge

  function Keys(ps: seq<Product>): (ks: seq<Key>)
    ensures |ks| == |ps|
    ensures forall i :: 0 <= i < |ps| ==> ks[i] == KeyOf(ps[i])
    decreases |ps|
  {
    if ps == [] then [] else Keys(ps[..|ps| - 1]) + [KeyOf(ps[|ps| - 1])]
  }

  /** `groups[k]` after the grouping loop: the products with key `k`, in input order. */
  function Group(ps: seq<Product>, k: Key): (g: seq<Product>)
    ensures forall j :: 0 <= j < |g| ==> KeyOf(g[j]) == k
    ensures k in Keys(ps) ==> |g| > 0
    decreases |ps|
  {
    if ps == [] then []
    else
      var g := Group(ps[..|ps| - 1], k);
      assert k in Keys(ps) && KeyOf(ps[|ps| - 1]) != k ==> k in Keys(ps[..|ps| - 1]);
      if KeyOf(ps[|ps| - 1]) == k then g + [ps[|ps| - 1]] else g
  }

  /** The `max` of each listed key's group, in the order of `keys`. */
  function Representatives(all: seq<Product>, keys: seq<Key>, rank: Product -> Rank): (r: seq<Product>)
    requires forall i :: 0 <= i < |keys| ==> |Group(all, keys[i])| > 0
    ensures |r| == |keys|
    decreases |keys|
  {
    if keys == [] then []
    else
      var n := |keys| - 1;
      assert forall i :: 0 <= i < n ==> keys[..n][i] == keys[i];
      Representatives(all, keys[..n], rank) + [BestOf(Group(all, keys[n]), rank)]
  }

  lemma {:induction false} RepresentativesAt(all: seq<Product>, keys: seq<Key>, rank: Product -> Rank, i: nat)
    requires forall i :: 0 <= i < |keys| ==> |Group(all, keys[i])| > 0
    requires i < |keys|
    ensures Representatives(all, keys, rank)[i] == BestOf(Group(all, keys[i]), rank)
    decreases |keys|
  {
    var n := |keys| - 1;
    if i < n {
      assert forall t :: 0 <= t < n ==> keys[..n][t] == keys[t];
      RepresentativesAt(all, keys[..n], rank, i);
    }
  }

  /**
   * Grouping by KeyOf and keeping each group's `max` under `rank`: one product per
   * key, in the order in which the keys first occur.
   */
  function MergedBy(all: seq<Product>, rank: Product -> Rank): (r: seq<Product>)
    ensures |r| == |Distinct(Keys(all))|
  {
    var d := Distinct(Keys(all));
    assert forall i :: 0 <= i < |d| ==> d[i] in Keys(all);
    Representatives(all, d, rank)
  }

  /** What `merge_products_latest` returns: the merge under `_rank_for_merge`. */
  function Merged(all: seq<Product>): seq<Product> {
    MergedBy(all, RankOf)
  }

  /** The i-th product of the merge is the `max` of the i-th key's group. */
  lemma MergedAt(all: seq<Product>, rank: Product -> Rank, i: nat)
    requires i < |MergedBy(all, rank)|
    ensures Distinct(Keys(all))[i] in Keys(all)
    ensures |Group(all, Distinct(Keys(all))[i])| > 0
    ensures MergedBy(all, rank)[i] == BestOf(Group(all, Distinct(Keys(all))[i]), rank)
  {
    var d := Distinct(Keys(all));
    assert forall t :: 0 <= t < |d| ==> d[t] in Keys(all);
    RepresentativesAt(all, d, rank, i);
  }

  /**
   * The dict `groups` after the grouping loop has seen `ps`: each product is appended
   * to the list under its key, a new key starting a new list.
   */
  function GroupMap(ps: seq<Product>): (m: map<Key, seq<Product>>)
    decreases |ps|
  {
    if ps == [] then map[]
    else
      var m := GroupMap(ps[..|ps| - 1]);
      var p := ps[|ps| - 1];
      if KeyOf(p) in m then m[KeyOf(p) := m[KeyOf(p)] + [p]] else m[KeyOf(p) := [p]]
  }

  /** The dict has exactly the keys of `ps`, and under each the group of that key. */
  lemma {:induction false} GroupMapIsGroups(ps: seq<Product>)
    ensures forall k :: k in GroupMap(ps) <==> k in Keys(ps)
    ensures forall k :: k in GroupMap(ps) ==> GroupMap(ps)[k] == Group(ps, k)
    decreases |ps|
  {
    if ps != [] {
      var n := |ps| - 1;
      var pre := ps[..n];
      GroupMapIsGroups(pre);
      assert Keys(ps) == Keys(pre) + [KeyOf(ps[n])];
      forall k | k !in Keys(pre) ensures Group(pre, k) == [] {
        GroupAbsent(pre, k);
      }
    }
  }

  /** How one more product changes the keys and their order of first occurrence. */
  lemma KeysStep(all: seq<Product>, i: nat)
    requires i < |all|
    ensures Keys(all[..i + 1]) == Keys(all[..i]) + [KeyOf(all[i])]
    ensures Distinct(Keys(all[..i + 1])) ==
              if KeyOf(all[i]) in Distinct(Keys(all[..i])) then Distinct(Keys(all[..i]))
              else Distinct(Keys(all[..i])) + [KeyOf(all[i])]
  {
    PrefixSnoc(all, i);
    assert (all[..i] + [all[i]])[..i] == all[..i];
    DistinctSnoc(Keys(all[..i]), KeyOf(all[i]));
  }

  /** What one more iteration of the grouping loop does to the dict. */
  lemma GroupMapStep(all: seq<Product>, i: nat)
    requires i < |all|
    ensures var m, p := GroupMap(all[..i]), all[i];
            GroupMap(all[..i + 1]) == if KeyOf(p) in m then m[KeyOf(p) := m[KeyOf(p)] + [p]] else m[KeyOf(p) := [p]]
  {
    assert all[..i + 1][..i] == all[..i];
  }

  /** A key is in the dict exactly when it is among the keys listed so far. */
  lemma GroupMapDomain(ps: seq<Product>, k: Key)
    ensures k in GroupMap(ps) <==> k in Distinct(Keys(ps))
  {
    GroupMapIsGroups(ps);
    DistinctCovers(Keys(ps));
  }

  lemma GroupMapAt(ps: seq<Product>, k: Key)
    requires k in Keys(ps)
    ensures k in GroupMap(ps) && GroupMap(ps)[k] == Group(ps, k)
  {
    GroupMapIsGroups(ps);
  }

  /**
   * The grouping loop of `merge_products_latest`: a dict of lists keyed by KeyOf,
   * together with the dict's insertion order.
   */
  method GroupByKey(all: seq<Product>) returns (groups: map<Key, seq<Product>>, order: seq<Key>)
    ensures groups == GroupMap(all)
    ensures order == Distinct(Keys(all))
  {
    groups := map[];
    order := [];
    for i := 0 to |all|
      invariant groups == GroupMap(all[..i])
      invariant order == Distinct(Keys(all[..i]))
    {
      var key := KeyOf(all[i]);
      KeysStep(all, i);
      GroupMapStep(all, i);
      GroupMapDomain(all[..i], key);
      if key in groups {
        groups := groups[key := groups[key] + [all[i]]];
      } else {
        order := order + [key];
        groups := groups[key := [all[i]]];
      }
    }
    assert all[..|all|] == all;
  }

  /** `merge_products_latest`: group by key, then take each group's `max` in key order. */
  method MergeProductsLatest(all: seq<Product>) returns (merged: seq<Product>)
    ensures merged == Merged(all)
  {
    var groups, order := GroupByKey(all);
    merged := [];
    for j := 0 to |order|
      invariant merged == MergedBy(all, RankOf)[..j]
    {
      var key := order[j];
      MergedAt(all, RankOf, j);
      GroupMapAt(all, key);
      PrefixSnoc(MergedBy(all, RankOf), j);
      merged := merged + [BestOf(groups[key], RankOf)];
    }
    assert MergedBy(all, RankOf)[..|order|] == MergedBy(all, RankOf);
  }

  // ---------------------------------------------------------------- properties

  /**
   * The merge emits exactly one product per distinct key, in the order in which the
   * keys first occur in the input.
   */
  lemma MergedOnePerKey(all: seq<Product>, rank: Product -> Rank)
    ensures Keys(MergedBy(all, rank)) == Distinct(Keys(all))
    ensures NoDuplicates(Keys(MergedBy(all, rank)))
    ensures forall p :: p in all ==> KeyOf(p) in Keys(MergedBy(all, rank))
  {
    var km, d := Keys(MergedBy(all, rank)), Distinct(Keys(all));
    forall i | 0 <= i < |km|
      ensures km[i] == d[i]
    {
      MergedKeyAt(all, rank, i);
    }
    assert km == d;
    DistinctCovers(Keys(all));
    forall p | p in all
      ensures KeyOf(p) in km
    {
      var i :| 0 <= i < |all| && all[i] == p;
      assert Keys(all)[i] == KeyOf(p);
    }
  }

  /** The i-th representative carries the i-th distinct key. */
  lemma MergedKeyAt(all: seq<Product>, rank: Product -> Rank, i: nat)
    requires i < |MergedBy(all, rank)|
    ensures KeyOf(MergedBy(all, rank)[i]) == Distinct(Keys(all))[i]
  {
    MergedAt(all, rank, i);
    var g := Group(all, Distinct(Keys(all))[i]);
    assert g[MaxIndex(Ranks(g, rank))] == MergedBy(all, rank)[i];
  }

  /**
   * Each representative comes from the input, ranks at least as high as every product
   * with its key, and strictly higher than every such product listed before it.
   */
  lemma MergedPicksLatest(all: seq<Product>, rank: Product -> Rank, i: nat)
    requires i < |MergedBy(all, rank)|
    ensures MergedBy(all, rank)[i] in all
    ensures forall q :: q in all && KeyOf(q) == KeyOf(MergedBy(all, rank)[i]) ==>
                          !RankLess(rank(MergedBy(all, rank)[i]), rank(q))
    ensures var g := Group(all, KeyOf(MergedBy(all, rank)[i]));
            exists b :: 0 <= b < |g| && g[b] == MergedBy(all, rank)[i]
                        && forall j :: 0 <= j < b ==> RankLess(rank(g[j]), rank(g[b]))
  {
    MergedAt(all, rank, i);
    BestOfGroup(all, Distinct(Keys(all))[i], rank);
  }

  /** The `max` of a key's group is a product with that key that ranks highest among them. */
  lemma BestOfGroup(all: seq<Product>, k: Key, rank: Product -> Rank)
    requires |Group(all, k)| > 0
    ensures BestOf(Group(all, k), rank) in all && KeyOf(BestOf(Group(all, k), rank)) == k
    ensures forall q :: q in all && KeyOf(q) == k ==> !RankLess(rank(BestOf(Group(all, k), rank)), rank(q))
    ensures var g := Group(all, k);
            exists b :: 0 <= b < |g| && g[b] == BestOf(g, rank)
                        && forall j :: 0 <= j < b ==> RankLess(rank(g[j]), rank(g[b]))
  {
    var g := Group(all, k);
    BestOfIsFirstMaximum(g, rank);
    var b := MaxIndex(Ranks(g, rank));
    assert g[b] == BestOf(g, rank);
    GroupWithin(all, k);
    forall q | q in all && KeyOf(q) == k
      ensures !RankLess(rank(g[b]), rank(q))
    {
      GroupContains(all, q);
      var j :| 0 <= j < |g| && g[j] == q;
    }
  }

  /** A group holds only products of the input. */
  lemma {:induction false} GroupWithin(ps: seq<Product>, k: Key)
    ensures forall j :: 0 <= j < |Group(ps, k)| ==> Group(ps, k)[j] in ps
    decreases |ps|
  {
    if ps != [] {
      var n := |ps| - 1;
      GroupWithin(ps[..n], k);
      assert forall q :: q in ps[..n] ==> q in ps;
    }
  }

  /** Every product is in the group of its own key. */
  lemma {:induction false} GroupContains(ps: seq<Product>, q: Product)
    requires q in ps
    ensures q in Group(ps, KeyOf(q))
    decreases |ps|
  {
    var n := |ps| - 1;
    if ps[n] != q {
      assert q in ps[..n];
      GroupContains(ps[..n], q);
    }
  }

  /** In a list whose keys are pairwise distinct, each product is alone in its group. */
  lemma {:induction false} GroupOfDistinct(ps: seq<Product>, i: nat)
    requires NoDuplicates(Keys(ps)) && i < |ps|
    ensures Group(ps, KeyOf(ps[i])) == [ps[i]]
    decreases |ps|
  {
    var n := |ps| - 1;
    var p := ps[..n];
    assert Keys(p) == Keys(ps)[..n];
    if i < n {
      assert p[i] == ps[i];
      GroupOfDistinct(p, i);
      assert Keys(ps)[i] != Keys(ps)[n];
    } else {
      GroupAbsent(p, KeyOf(ps[n]));
    }
  }

  lemma {:induction false} GroupAbsent(ps: seq<Product>, k: Key)
    requires k !in Keys(ps)
    ensures Group(ps, k) == []
    decreases |ps|
  {
    if ps != [] {
      var n := |ps| - 1;
      assert Keys(ps[..n]) == Keys(ps)[..n];
      assert Keys(ps)[n] == KeyOf(ps[n]);
      GroupAbsent(ps[..n], k);
    }
  }

  /** A list with pairwise distinct keys is left unchanged by the merge. */
  lemma MergeFixesDistinctKeys(ps: seq<Product>, rank: Product -> Rank)
    requires NoDuplicates(Keys(ps))
    ensures MergedBy(ps, rank) == ps
  {
    DistinctOfNoDuplicates(Keys(ps));
    forall i | 0 <= i < |ps|
      ensures MergedBy(ps, rank)[i] == ps[i]
    {
      MergedAt(ps, rank, i);
      GroupOfDistinct(ps, i);
      assert MaxIndex(Ranks([ps[i]], rank)) == 0;
    }
  }

  /** `merge(merge(L)) == merge(L)`. */
  lemma MergeIdempotent(all: seq<Product>, rank: Product -> Rank)
    ensures MergedBy(MergedBy(all, rank), rank) == MergedBy(all, rank)
  {
    MergedOnePerKey(all, rank);
    MergeFixesDistinctKeys(MergedBy(all, rank), rank);
  }
}
