/**
 * Choosing the owner's manual to download from a product's publications
 * (`pick_latest_en_om`), and the checks `get_pdf_link` makes on the chosen
 * publication before it asks the portal for a PDF link.
 *
 * Candidates are the publications of type "OM" whose language is a string starting
 * with "en" in any case. They are sorted by the date part of `lineOffDate`, newest
 * first, with Python's stable sort, and the first is taken.
 */
module OmSelector {
  import opened Wrappers
  import opened PyText
  import opened JsonValue
  import opened CollectPublications

  // ---------------------------------------------------------------- filtering

  /** `p.get("publicationType") == "OM"` and an English `language` string. */
  predicate IsEnglishOm(p: Publication) {
    p.publicationType == JStr("OM") && p.language.JStr? && StartsWithIgnoringCase(p.language.s, "en")
  }

  /** The list comprehension: the English owner's manuals, in input order. */
  function Candidates(pubs: seq<Publication>): (r: seq<Publication>)
    ensures forall k :: 0 <= k < |r| ==> IsEnglishOm(r[k]) && r[k] in pubs
    ensures forall k :: 0 <= k < |pubs| && IsEnglishOm(pubs[k]) ==> pubs[k] in r
    decreases |pubs|
  {
    if pubs == [] then []
    else
      var rest := Candidates(pubs[1..]);
      assert forall k :: 1 <= k < |pubs| ==> pubs[k] == pubs[1..][k - 1];
      if IsEnglishOm(pubs[0]) then [pubs[0]] + rest else rest
  }

  // ---------------------------------------------------------------- sort key

  /**
   * `norm_date(p.get("lineOffDate") or "")` can be computed: the value is falsy or a
   * string. Any other truthy value has no `split` and raises AttributeError.
   */
  predicate DateIsString(p: Publication) {
    !Truthy(p.lineOffDate) || p.lineOffDate.JStr?
  }

  /** The sort key: the part of `lineOffDate` before the first "T", or "" when it is falsy. */
  function DateKey(p: Publication): (r: string)
    ensures !Truthy(p.lineOffDate) ==> r == ""
    ensures p.lineOffDate.JStr? ==> StartsWith(p.lineOffDate.s, r) && 'T' !in r
    ensures p.lineOffDate.JStr? && |r| < |p.lineOffDate.s| ==> p.lineOffDate.s[|r|] == 'T'
  {
    match Or(p.lineOffDate, JStr(""))
    case JStr(s) => BeforeFirst(s, 'T')
    case _ => ""
  }

  // ---------------------------------------------------------------- stable descending sort

  /** Non-increasing under `key`: what `sort(key=..., reverse=True)` produces. */
  predicate Descending<T>(s: seq<T>, key: T -> string) {
    forall i, j :: 0 <= i < j < |s| ==> !StrLess(key(s[i]), key(s[j]))
  }

  /**
   * Inserts `x` into a descending list in front of every element whose key is not
   * greater: an element that came earlier in the input stays ahead of equal keys.
   */
  function Insert<T>(x: T, s: seq<T>, key: T -> string): (r: seq<T>)
    ensures multiset(r) == multiset(s) + multiset{x}
    ensures |r| == |s| + 1
    decreases |s|
  {
    if s == [] || !StrLess(key(x), key(s[0])) then [x] + s
    else
      var t := Insert(x, s[1..], key);
      assert s == [s[0]] + s[1..];
      [s[0]] + t
  }

  /** The first element after an insertion: `x` unless the old head has a greater key. */
  lemma InsertHead<T>(x: T, s: seq<T>, key: T -> string)
    ensures Insert(x, s, key)[0] == if s == [] || !StrLess(key(x), key(s[0])) then x else s[0]
  {
  }

  /** Python's stable `sort(key=key, reverse=True)`, as an insertion sort from the back. */
  function SortDescending<T>(xs: seq<T>, key: T -> string): (r: seq<T>)
    ensures multiset(r) == multiset(xs)
    ensures |r| == |xs|
    decreases |xs|
  {
    if xs == [] then []
    else
      var t := SortDescending(xs[1..], key);
      assert xs == [xs[0]] + xs[1..];
      Insert(xs[0], t, key)
  }

  /** "Not less" is transitive on Python strings. */
  lemma NotLessTransitive(a: string, b: string, c: string)
    requires !StrLess(a, b) && !StrLess(b, c)
    ensures !StrLess(a, c)
  {
    StrLessTotal(a, b);
    StrLessTotal(b, c);
    if StrLess(b, a) && StrLess(c, b) {
      StrLessTransitive(c, b, a);
      StrLessAsymmetric(c, a);
    }
  }

  lemma {:induction false} InsertKeepsDescending<T>(x: T, s: seq<T>, key: T -> string)
    requires Descending(s, key)
    ensures Descending(Insert(x, s, key), key)
    decreases |s|
  {
    var r := Insert(x, s, key);
    if s == [] || !StrLess(key(x), key(s[0])) {
      forall j | 1 <= j < |r|
        ensures !StrLess(key(r[0]), key(r[j]))
      {
        if j > 1 {
          NotLessTransitive(key(x), key(s[0]), key(s[j - 1]));
        }
      }
    } else {
      var t := Insert(x, s[1..], key);
      InsertKeepsDescending(x, s[1..], key);
      assert r == [s[0]] + t;
      forall j | 0 <= j < |t|
        ensures !StrLess(key(s[0]), key(t[j]))
      {
        assert t[j] in multiset(s[1..]) + multiset{x};
        if t[j] == x {
          StrLessAsymmetric(key(x), key(s[0]));
        } else {
          assert t[j] in s[1..];
        }
      }
    }
  }

  lemma {:induction false} SortIsDescending<T>(xs: seq<T>, key: T -> string)
    ensures Descending(SortDescending(xs, key), key)
    decreases |xs|
  {
    if xs != [] {
      SortIsDescending(xs[1..], key);
      InsertKeepsDescending(xs[0], SortDescending(xs[1..], key), key);
    }
  }

  /**
   * `pubs[i]` is an English owner's manual whose key is greatest among the candidates,
   * and every candidate before it has a strictly smaller key.
   */
  predicate FirstLatestAt(pubs: seq<Publication>, i: int, key: Publication -> string) {
    0 <= i < |pubs| && IsEnglishOm(pubs[i])
    && (forall j :: 0 <= j < |pubs| && IsEnglishOm(pubs[j]) ==> StrLessEq(key(pubs[j]), key(pubs[i])))
    && (forall j :: 0 <= j < i && IsEnglishOm(pubs[j]) ==> StrLess(key(pubs[j]), key(pubs[i])))
  }

  /** A non-candidate in front does not change which element is the first latest. */
  lemma FirstLatestSkip(pubs: seq<Publication>, i: nat, key: Publication -> string)
    requires pubs != [] && !IsEnglishOm(pubs[0]) && FirstLatestAt(pubs[1..], i, key)
    ensures FirstLatestAt(pubs, i + 1, key) && pubs[i + 1] == pubs[1..][i]
  {
    assert forall k :: 1 <= k < |pubs| ==> pubs[k] == pubs[1..][k - 1];
  }

  /** A candidate in front with a smaller key does not change it either. */
  lemma FirstLatestBehind(pubs: seq<Publication>, i: nat, key: Publication -> string)
    requires pubs != [] && FirstLatestAt(pubs[1..], i, key)
    requires StrLess(key(pubs[0]), key(pubs[1..][i]))
    ensures FirstLatestAt(pubs, i + 1, key) && pubs[i + 1] == pubs[1..][i]
  {
    assert forall k :: 1 <= k < |pubs| ==> pubs[k] == pubs[1..][k - 1];
  }

  /** A candidate in front whose key is not smaller than the rest's latest takes over. */
  lemma FirstLatestFront(pubs: seq<Publication>, i: nat, key: Publication -> string)
    requires pubs != [] && IsEnglishOm(pubs[0]) && FirstLatestAt(pubs[1..], i, key)
    requires !StrLess(key(pubs[0]), key(pubs[1..][i]))
    ensures FirstLatestAt(pubs, 0, key)
  {
    var tail := pubs[1..];
    var kh := key(tail[i]);
    forall j | 1 <= j < |pubs| && IsEnglishOm(pubs[j])
      ensures StrLessEq(key(pubs[j]), key(pubs[0]))
    {
      assert pubs[j] == tail[j - 1];
      assert StrLessEq(key(pubs[j]), kh);
      StrLessTotal(key(pubs[0]), kh);
      if StrLess(key(pubs[j]), kh) && StrLess(kh, key(pubs[0])) {
        StrLessTransitive(key(pubs[j]), kh, key(pubs[0]));
      }
    }
  }

  /** A lone candidate in front is the first latest. */
  lemma FirstLatestAlone(pubs: seq<Publication>, key: Publication -> string)
    requires pubs != [] && IsEnglishOm(pubs[0]) && Candidates(pubs[1..]) == []
    ensures FirstLatestAt(pubs, 0, key)
  {
    forall j | 1 <= j < |pubs|
      ensures !IsEnglishOm(pubs[j])
    {
      assert pubs[j] == pubs[1..][j - 1];
    }
  }

  /**
   * The head of the sorted candidates is the first of the candidates with the
   * greatest key: ties go to the earliest, as Python's stable sort keeps them.
   */
  lemma {:induction false} SortedHeadIsFirstLatest(pubs: seq<Publication>, key: Publication -> string)
    returns (i: nat)
    requires Candidates(pubs) != []
    ensures FirstLatestAt(pubs, i, key) && pubs[i] == SortDescending(Candidates(pubs), key)[0]
    decreases |pubs|
  {
    if !IsEnglishOm(pubs[0]) {
      var k := SortedHeadIsFirstLatest(pubs[1..], key);
      i := SortedHeadSkip(pubs, key, k);
    } else if Candidates(pubs[1..]) == [] {
      SortedHeadAlone(pubs, key);
      i := 0;
    } else {
      var k := SortedHeadIsFirstLatest(pubs[1..], key);
      i := SortedHeadInsert(pubs, key, k);
    }
  }

  lemma SortedHeadSkip(pubs: seq<Publication>, key: Publication -> string, k: nat) returns (i: nat)
    requires pubs != [] && !IsEnglishOm(pubs[0]) && Candidates(pubs[1..]) != []
    requires FirstLatestAt(pubs[1..], k, key) && pubs[1..][k] == SortDescending(Candidates(pubs[1..]), key)[0]
    ensures FirstLatestAt(pubs, i, key) && pubs[i] == SortDescending(Candidates(pubs), key)[0]
  {
    assert Candidates(pubs) == Candidates(pubs[1..]);
    FirstLatestSkip(pubs, k, key);
    i := k + 1;
  }

  lemma SortedHeadAlone(pubs: seq<Publication>, key: Publication -> string)
    requires pubs != [] && IsEnglishOm(pubs[0]) && Candidates(pubs[1..]) == []
    ensures FirstLatestAt(pubs, 0, key) && pubs[0] == SortDescending(Candidates(pubs), key)[0]
  {
    var x := pubs[0];
    assert Candidates(pubs) == [x];
    assert SortDescending([x], key) == Insert(x, [], key);
    InsertHead(x, [], key);
    FirstLatestAlone(pubs, key);
  }

  lemma SortedHeadInsert(pubs: seq<Publication>, key: Publication -> string, k: nat) returns (i: nat)
    requires pubs != [] && IsEnglishOm(pubs[0]) && Candidates(pubs[1..]) != []
    requires FirstLatestAt(pubs[1..], k, key) && pubs[1..][k] == SortDescending(Candidates(pubs[1..]), key)[0]
    ensures FirstLatestAt(pubs, i, key) && pubs[i] == SortDescending(Candidates(pubs), key)[0]
  {
    var x := pubs[0];
    var c := Candidates(pubs);
    var ct := Candidates(pubs[1..]);
    var st := SortDescending(ct, key);
    assert c == [x] + ct;
    assert c[1..] == ct;
    assert SortDescending(c, key) == Insert(x, st, key);
    InsertHead(x, st, key);
    if !StrLess(key(x), key(st[0])) {
      FirstLatestFront(pubs, k, key);
      i := 0;
    } else {
      FirstLatestBehind(pubs, k, key);
      i := k + 1;
    }
  }

  // ---------------------------------------------------------------- the pick

  /**
   * `pick_latest_en_om`: None when there is no candidate; AttributeError when a
   * candidate's `lineOffDate` is truthy but not a string (every key is computed before
   * sorting); otherwise the head of the sorted candidates.
   */
  function PickLatestEnOm(pubs: seq<Publication>): (r: Result<Option<Publication>, PyError>)
    ensures r.Ok? && r.value.Some? ==> r.value.value in Candidates(pubs)
  {
    var oms := Candidates(pubs);
    if oms == [] then Ok(None)
    else if exists k | 0 <= k < |oms| :: !DateIsString(oms[k]) then Err(AttributeError)
    else
      var sorted := SortDescending(oms, DateKey);
      assert sorted[0] in multiset(oms);
      Ok(Some(sorted[0]))
  }

  /** None exactly when no publication is an English owner's manual. */
  lemma PickNoneIff(pubs: seq<Publication>)
    ensures PickLatestEnOm(pubs) == Ok(None) <==> forall k :: 0 <= k < |pubs| ==> !IsEnglishOm(pubs[k])
  {
    var oms := Candidates(pubs);
    if oms != [] {
      assert oms[0] in pubs;
    }
  }

  /** The error case: some English owner's manual has a truthy non-string `lineOffDate`. */
  lemma PickErrorIff(pubs: seq<Publication>)
    ensures PickLatestEnOm(pubs).Err? <==>
              exists k :: 0 <= k < |pubs| && IsEnglishOm(pubs[k]) && !DateIsString(pubs[k])
    ensures PickLatestEnOm(pubs).Err? ==> PickLatestEnOm(pubs).error == AttributeError
  {
    var oms := Candidates(pubs);
    if exists k :: 0 <= k < |pubs| && IsEnglishOm(pubs[k]) && !DateIsString(pubs[k]) {
      var k :| 0 <= k < |pubs| && IsEnglishOm(pubs[k]) && !DateIsString(pubs[k]);
      assert pubs[k] in oms;
    }
  }

  /**
   * A chosen publication is an English owner's manual of the input whose date part is
   * the greatest, and no earlier candidate has the same date part.
   */
  lemma PickIsFirstLatest(pubs: seq<Publication>)
    requires PickLatestEnOm(pubs).Ok? && PickLatestEnOm(pubs).value.Some?
    ensures var p := PickLatestEnOm(pubs).value.value;
            exists i :: 0 <= i < |pubs| && pubs[i] == p && IsEnglishOm(p)
              && (forall j :: 0 <= j < |pubs| && IsEnglishOm(pubs[j]) ==> StrLessEq(DateKey(pubs[j]), DateKey(p)))
              && (forall j :: 0 <= j < i && IsEnglishOm(pubs[j]) ==> StrLess(DateKey(pubs[j]), DateKey(p)))
  {
    var i := SortedHeadIsFirstLatest(pubs, DateKey);
  }

  // ---------------------------------------------------------------- get_pdf_link pre-check

  /** The query parameters `get_pdf_link` sends: part number, model type, date part. */
  datatype PdfLinkQuery = PdfLinkQuery(partNumber: Json, modelType: Json, lineOffDate: string)

  /**
   * The part of `get_pdf_link` before the request: the date part of `lineOffDate` is
   * computed first (AttributeError for a truthy non-string), then the request is made
   * only when part number, model type and date part are all truthy; otherwise None.
   */
  function PdfLinkPrecheck(pub: Publication): (r: Result<Option<PdfLinkQuery>, PyError>)
    ensures r.Err? <==> !DateIsString(pub)
    ensures r.Ok? && r.value.Some? ==>
              r.value.value.partNumber == pub.partNumber && Truthy(pub.partNumber)
              && r.value.value.modelType == pub.modelType && Truthy(pub.modelType)
              && r.value.value.lineOffDate == DateKey(pub) && r.value.value.lineOffDate != ""
    ensures r.Ok? && r.value.None? ==>
              !Truthy(pub.partNumber) || !Truthy(pub.modelType) || DateKey(pub) == ""
  {
    if !DateIsString(pub) then Err(AttributeError)
    else
      var lineOff := DateKey(pub);
      if !(Truthy(pub.partNumber) && Truthy(pub.modelType) && lineOff != []) then Ok(None)
      else Ok(Some(PdfLinkQuery(pub.partNumber, pub.modelType, lineOff)))
  }

  /**
   * The pre-check passes a publication that has a part number, a model type and a
   * date that does not start with "T"; a date like "T00:00" leaves an empty date part.
   */
  lemma PdfLinkPrecheckPasses(pub: Publication)
    requires Truthy(pub.partNumber) && Truthy(pub.modelType)
    requires pub.lineOffDate.JStr? && pub.lineOffDate.s != [] && pub.lineOffDate.s[0] != 'T'
    ensures PdfLinkPrecheck(pub).Ok? && PdfLinkPrecheck(pub).value.Some?
  {
  }
}
