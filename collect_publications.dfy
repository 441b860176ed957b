/**
 * `collect_publications`: a walk over the page's JSON data that turns every object
 * carrying a `partNumber` key into a publication record, followed by a
 * de-duplication by part number in which the last record wins and the first keeps
 * its place.
 */
module CollectPublications {
  import opened Wrappers
  import opened JsonValue
  import opened FirstOccurrences

  /** The record built for an object with a `partNumber` key; every field is whatever JSON the aliases give. */
  datatype Publication = Publication(
    partNumber: Json,
    publicationType: Json,
    language: Json,
    title: Json,
    lineOffDate: Json,
    modelType: Json,
    ngtdModelId: Json,
    year: Json)

  /**
   * The record for one object: each field is `a or b or c` over its aliases, so it takes
   * the first truthy alias, and the last alternative when none is truthy.
   */
  function Extract(fields: seq<(string, Json)>): Publication {
    Publication(
      Get(fields, "partNumber"),
      Or(Or(Get(fields, "publicationType"), Get(fields, "type")), Get(fields, "category")),
      Or(Or(Get(fields, "language"), Get(fields, "lang")), Get(fields, "locale")),
      Or(Or(Get(fields, "title"), Get(fields, "name")), Get(fields, "label")),
      Or(Or(Get(fields, "lineOffDate"), Get(fields, "effectiveDate")), JStr("")),
      Or(Or(Get(fields, "modelType"), Get(fields, "model")), JStr("")),
      Or(Or(Get(fields, "ngtdModelId"), Get(fields, "modelId")), JStr("")),
      Get(fields, "year"))
  }

  // ---------------------------------------------------------------- the walk

  /** The records `visit(node)` appends to `found`, in the order of a pre-order walk. */
  function Found(node: Json): seq<Publication>
    decreases node
  {
    match node
    case JObj(fields) => FoundInObject(fields)
    case JArr(items) => FoundInItems(items)
    case _ => []
  }

  /** An object's own record, when it has a `partNumber` key, before those found under its values. */
  function FoundInObject(fields: seq<(string, Json)>): seq<Publication>
    decreases fields, 1
  {
    (if HasKey(fields, "partNumber") then [Extract(fields)] else []) + FoundInFields(fields)
  }

  /** The records found under the first `|items|` elements of a list, in order. */
  function FoundInItems(items: seq<Json>): seq<Publication>
    decreases items
  {
    if items == [] then [] else FoundInItems(items[..|items| - 1]) + Found(items[|items| - 1])
  }

  /** The records found under the values of an object, in key order. */
  function FoundInFields(fields: seq<(string, Json)>): seq<Publication>
    decreases fields, 0
  {
    if fields == [] then [] else FoundInFields(fields[..|fields| - 1]) + FoundInField(fields[|fields| - 1])
  }

  /** The records found under one key's value. */
  function FoundInField(field: (string, Json)): seq<Publication>
    decreases field
  {
    Found(field.1)
  }

  /** The list `found` that the nested `visit` closure appends to. */
  class Collector {
    var found: seq<Publication>

    constructor ()
      ensures found == []
    {
      found := [];
    }

    /** `visit(node)`: a record for an object with `partNumber`, then its values; each list element in turn. */
    method Visit(node: Json)
      modifies this
      ensures found == old(found) + Found(node)
      decreases node
    {
      match node {
        case JObj(fields) =>
          VisitObject(fields);
        case JArr(items) =>
          VisitItems(items);
        case _ =>
      }
    }

    /** `visit(node)` for a dict: its own record first, then its values. */
    method VisitObject(fields: seq<(string, Json)>)
      modifies this
      ensures found == old(found) + FoundInObject(fields)
      decreases fields, 1
    {
      if HasKey(fields, "partNumber") {
        found := found + [Extract(fields)];
      }
      VisitValues(fields);
    }

    /** `for v in node.values(): visit(v)`. */
    method VisitValues(fields: seq<(string, Json)>)
      modifies this
      ensures found == old(found) + FoundInFields(fields)
      decreases fields, 0
    {
      for i := 0 to |fields|
        invariant found == old(found) + FoundInFields(fields[..i])
      {
        assert fields[..i + 1][..i] == fields[..i];
        VisitValue(fields[i]);
      }
      assert fields[..|fields|] == fields;
    }

    /** `visit(v)` for the value of one key. */
    method VisitValue(field: (string, Json))
      modifies this
      ensures found == old(found) + FoundInField(field)
      decreases field
    {
      Visit(field.1);
    }

    /** `for v in node: visit(v)`. */
    method VisitItems(items: seq<Json>)
      modifies this
      ensures found == old(found) + FoundInItems(items)
      decreases items
    {
      for i := 0 to |items|
        invariant found == old(found) + FoundInItems(items[..i])
      {
        assert items[i] in items;
        assert items[..i + 1][..i] == items[..i];
        Visit(items[i]);
      }
      assert items[..|items|] == items;
    }
  }

  // ---------------------------------------------------------------- what the walk reaches

  /** `node` is `root` itself, a value of an object reachable from `root`, or an element of a reachable list. */
  ghost predicate Reachable(root: Json, node: Json)
    decreases root
  {
    node == root
    || match root
       case JObj(fields) => exists k :: 0 <= k < |fields| && Reachable(fields[k].1, node)
       case JArr(items) => exists k :: 0 <= k < |items| && Reachable(items[k], node)
       case _ => false
  }

  /** `node` is an object with a `partNumber` key whose record is `r`. */
  predicate RecordOf(node: Json, r: Publication) {
    node.JObj? && HasKey(node.fields, "partNumber") && r == Extract(node.fields)
  }

  /** `r` is the record of some object reachable from `root` that has a `partNumber` key. */
  ghost predicate FromReachableObject(root: Json, r: Publication) {
    exists node :: Reachable(root, node) && RecordOf(node, r)
  }

  lemma {:induction false} FoundInFieldsMember(fields: seq<(string, Json)>, r: Publication)
    ensures r in FoundInFields(fields) <==> exists k :: 0 <= k < |fields| && r in Found(fields[k].1)
    decreases |fields|
  {
    if fields != [] {
      var n := |fields| - 1;
      FoundInFieldsMember(fields[..n], r);
      assert forall k :: 0 <= k < n ==> fields[..n][k] == fields[k];
    }
  }

  lemma {:induction false} FoundInItemsMember(items: seq<Json>, r: Publication)
    ensures r in FoundInItems(items) <==> exists k :: 0 <= k < |items| && r in Found(items[k])
    decreases |items|
  {
    if items != [] {
      var n := |items| - 1;
      FoundInItemsMember(items[..n], r);
      assert forall k :: 0 <= k < n ==> items[..n][k] == items[k];
    }
  }

  /** An object's reachable records are its own, if it has a part number key, and those under its values. */
  lemma ObjectReachable(fields: seq<(string, Json)>, r: Publication)
    ensures FromReachableObject(JObj(fields), r) <==>
              RecordOf(JObj(fields), r) || exists k :: 0 <= k < |fields| && FromReachableObject(fields[k].1, r)
  {
    var root := JObj(fields);
    if FromReachableObject(root, r) && !RecordOf(root, r) {
      var node :| Reachable(root, node) && RecordOf(node, r);
      var k :| 0 <= k < |fields| && Reachable(fields[k].1, node);
      assert FromReachableObject(fields[k].1, r);
    }
    if RecordOf(root, r) {
      assert Reachable(root, root);
    }
    if k :| 0 <= k < |fields| && FromReachableObject(fields[k].1, r) {
      var node :| Reachable(fields[k].1, node) && RecordOf(node, r);
      assert Reachable(root, node);
    }
  }

  /** A list's reachable records are those under its elements. */
  lemma ListReachable(items: seq<Json>, r: Publication)
    ensures FromReachableObject(JArr(items), r) <==> exists k :: 0 <= k < |items| && FromReachableObject(items[k], r)
  {
    var root := JArr(items);
    if FromReachableObject(root, r) {
      var node :| Reachable(root, node) && RecordOf(node, r);
      assert node != root;
      var k :| 0 <= k < |items| && Reachable(items[k], node);
      assert FromReachableObject(items[k], r);
    }
    if k :| 0 <= k < |items| && FromReachableObject(items[k], r) {
      var node :| Reachable(items[k], node) && RecordOf(node, r);
      assert Reachable(root, node);
    }
  }

  /**
   * The walk finds exactly the records of the objects reachable from the root that
   * have a `partNumber` key, whatever their depth.
   */
  lemma {:induction false} FoundIsReachableObjects(root: Json, r: Publication)
    ensures r in Found(root) <==> FromReachableObject(root, r)
    decreases root
  {
    match root
    case JObj(fields) =>
      FoundInFieldsMember(fields, r);
      forall k | 0 <= k < |fields|
        ensures r in Found(fields[k].1) <==> FromReachableObject(fields[k].1, r)
      {
        FoundIsReachableObjects(fields[k].1, r);
      }
      ObjectReachable(fields, r);
    case JArr(items) =>
      FoundInItemsMember(items, r);
      forall k | 0 <= k < |items|
        ensures r in Found(items[k]) <==> FromReachableObject(items[k], r)
      {
        FoundIsReachableObjects(items[k], r);
      }
      ListReachable(items, r);
    case _ =>
  }

  // ---------------------------------------------------------------- de-duplication

  /** A part number can key a dict: None, an int or a str (lists and dicts are unhashable). */
  predicate Hashable(pn: Json) {
    pn.JNull? || pn.JInt? || pn.JStr?
  }

  /** The part numbers that reach `uniq[pn] = x`: the truthy ones, in order. */
  function PartNumbers(found: seq<Publication>): (pns: seq<Json>)
    ensures |pns| <= |found|
    decreases |found|
  {
    if found == [] then []
    else
      var x := found[|found| - 1];
      PartNumbers(found[..|found| - 1]) + (if Truthy(x.partNumber) then [x.partNumber] else [])
  }

  /** The dict `uniq` after the loop has seen `found`: each truthy part number maps to its latest record. */
  function UniqMap(found: seq<Publication>): (m: map<Json, Publication>)
    ensures forall k :: k in m ==> Truthy(k)
    decreases |found|
  {
    if found == [] then map[]
    else
      var x := found[|found| - 1];
      var m := UniqMap(found[..|found| - 1]);
      if Truthy(x.partNumber) then m[x.partNumber := x] else m
  }

  /** Some truthy part number cannot be a dict key, so `uniq[pn] = x` raises TypeError. */
  predicate HasUnhashable(found: seq<Publication>) {
    exists i :: 0 <= i < |found| && Truthy(found[i].partNumber) && !Hashable(found[i].partNumber)
  }

  /** `list(uniq.values())`: the values in the dict's insertion order. */
  function ValuesInOrder(m: map<Json, Publication>, order: seq<Json>): (vs: seq<Publication>)
    requires forall i :: 0 <= i < |order| ==> order[i] in m
    ensures |vs| == |order|
    ensures forall i :: 0 <= i < |order| ==> vs[i] == m[order[i]]
    decreases |order|
  {
    if order == [] then [] else [m[order[0]]] + ValuesInOrder(m, order[1..])
  }

  lemma {:induction false} UniqMapDomain(found: seq<Publication>)
    ensures forall k :: k in UniqMap(found) <==> k in Distinct(PartNumbers(found))
    decreases |found|
  {
    if found != [] {
      var n := |found| - 1;
      UniqMapDomain(found[..n]);
      var pre := PartNumbers(found[..n]);
      var x := found[n];
      if Truthy(x.partNumber) {
        assert PartNumbers(found) == pre + [x.partNumber];
        DistinctSnoc(pre, x.partNumber);
        assert forall k :: k in Distinct(pre + [x.partNumber]) <==> k in Distinct(pre) || k == x.partNumber;
      } else {
        assert PartNumbers(found) == pre;
      }
    }
  }

  /** What `collect_publications` returns for the records the walk found, or the exception it raises. */
  function Deduplicated(found: seq<Publication>): Result<seq<Publication>, PyError> {
    if HasUnhashable(found) then Err(TypeError)
    else
      UniqMapDomain(found);
      Ok(ValuesInOrder(UniqMap(found), Distinct(PartNumbers(found))))
  }

  lemma DedupStep(found: seq<Publication>, i: nat)
    requires i < |found|
    ensures PartNumbers(found[..i + 1]) ==
              PartNumbers(found[..i]) + (if Truthy(found[i].partNumber) then [found[i].partNumber] else [])
    ensures UniqMap(found[..i + 1]) ==
              if Truthy(found[i].partNumber) then UniqMap(found[..i])[found[i].partNumber := found[i]] else UniqMap(found[..i])
    ensures HasUnhashable(found[..i + 1]) <==>
              HasUnhashable(found[..i]) || (Truthy(found[i].partNumber) && !Hashable(found[i].partNumber))
  {
    PrefixSnoc(found, i);
    assert found[..i + 1][..i] == found[..i];
    assert forall j :: 0 <= j < i ==> found[..i + 1][j] == found[..i][j];
  }

  /** The `uniq` loop of `collect_publications`, then `list(uniq.values())`. */
  method DeduplicateByPartNumber(found: seq<Publication>) returns (r: Result<seq<Publication>, PyError>)
    ensures r == Deduplicated(found)
  {
    var uniq: map<Json, Publication> := map[];
    var order: seq<Json> := [];
    for i := 0 to |found|
      invariant !HasUnhashable(found[..i])
      invariant uniq == UniqMap(found[..i])
      invariant order == Distinct(PartNumbers(found[..i]))
    {
      var x := found[i];
      var pn := x.partNumber;
      DedupStep(found, i);
      OrderStep(found, i);
      if Truthy(pn) {
        if !Hashable(pn) {
          UnhashablePrefix(found, i + 1);
          return Err(TypeError);
        }
        if pn !in uniq {
          order := order + [pn];
        }
        uniq := uniq[pn := x];
      }
    }
    assert found[..|found|] == found;
    UniqMapDomain(found);
    r := Ok(ValuesInOrder(uniq, order));
  }

  /** How one more record changes the dict's insertion order. */
  lemma OrderStep(found: seq<Publication>, i: nat)
    requires i < |found|
    ensures var pn := found[i].partNumber;
            Distinct(PartNumbers(found[..i + 1])) ==
              if Truthy(pn) && pn !in UniqMap(found[..i]) then Distinct(PartNumbers(found[..i])) + [pn]
              else Distinct(PartNumbers(found[..i]))
  {
    var pn := found[i].partNumber;
    var pre := PartNumbers(found[..i]);
    DedupStep(found, i);
    UniqMapDomain(found[..i]);
    if Truthy(pn) {
      DistinctSnoc(pre, pn);
    } else {
      assert PartNumbers(found[..i + 1]) == pre;
    }
  }

  lemma UnhashablePrefix(found: seq<Publication>, n: nat)
    requires n <= |found| && HasUnhashable(found[..n])
    ensures HasUnhashable(found)
  {
    var i :| 0 <= i < n && Truthy(found[..n][i].partNumber) && !Hashable(found[..n][i].partNumber);
    assert found[..n][i] == found[i];
  }

  /** What `collect_publications(next_data)` returns, or the exception it raises. */
  function CollectedOf(root: Json): Result<seq<Publication>, PyError> {
    Deduplicated(Found(root))
  }

  /** `collect_publications`. */
  method CollectPublications(root: Json) returns (r: Result<seq<Publication>, PyError>)
    ensures r == CollectedOf(root)
  {
    var collector := new Collector();
    collector.Visit(root);
    assert collector.found == Found(root);
    r := DeduplicateByPartNumber(collector.found);
  }

  // ---------------------------------------------------------------- properties

  /** The record stored under `pn` is the last record found with that part number. */
  lemma {:induction false} UniqMapHoldsLast(found: seq<Publication>, pn: Json)
    requires pn in UniqMap(found)
    ensures exists i :: 0 <= i < |found| && UniqMap(found)[pn] == found[i] && found[i].partNumber == pn
                        && forall j :: i < j < |found| ==> found[j].partNumber != pn
    decreases |found|
  {
    var n := |found| - 1;
    var x := found[n];
    if Truthy(x.partNumber) && x.partNumber == pn {
      assert UniqMap(found)[pn] == found[n];
    } else {
      UniqMapHoldsLast(found[..n], pn);
      var i :| 0 <= i < n && UniqMap(found[..n])[pn] == found[..n][i] && found[..n][i].partNumber == pn
               && forall j :: i < j < n ==> found[..n][j].partNumber != pn;
      assert found[..n][i] == found[i];
      forall j | i < j < |found|
        ensures found[j].partNumber != pn
      {
        if j < n {
          assert found[..n][j] == found[j];
        }
      }
    }
  }

  /**
   * The result has one record per distinct truthy part number, in the order in which
   * the part numbers were first found, and each record is the last one found with
   * its part number.
   */
  lemma DeduplicatedSpec(found: seq<Publication>)
    requires !HasUnhashable(found)
    ensures Deduplicated(found).Ok?
    ensures var r, order := Deduplicated(found).value, Distinct(PartNumbers(found));
            && |r| == |order|
            && (forall i :: 0 <= i < |r| ==> r[i].partNumber == order[i] && Truthy(r[i].partNumber))
            && (forall i :: 0 <= i < |r| ==>
                  exists k :: 0 <= k < |found| && r[i] == found[k]
                              && forall j :: k < j < |found| ==> found[j].partNumber != r[i].partNumber)
  {
    var order := Distinct(PartNumbers(found));
    UniqMapDomain(found);
    var r := Deduplicated(found).value;
    PartNumbersTruthy(found);
    forall i | 0 <= i < |r|
      ensures r[i].partNumber == order[i] && Truthy(r[i].partNumber)
      ensures exists k :: 0 <= k < |found| && r[i] == found[k]
                          && forall j :: k < j < |found| ==> found[j].partNumber != r[i].partNumber
    {
      UniqMapHoldsLast(found, order[i]);
    }
  }

  lemma {:induction false} PartNumbersTruthy(found: seq<Publication>)
    ensures forall i :: 0 <= i < |PartNumbers(found)| ==> Truthy(PartNumbers(found)[i])
    decreases |found|
  {
    if found != [] {
      PartNumbersTruthy(found[..|found| - 1]);
    }
  }

  /** Every record with a truthy part number is represented in the result. */
  lemma DeduplicatedCovers(found: seq<Publication>, k: nat)
    requires !HasUnhashable(found)
    requires k < |found| && Truthy(found[k].partNumber)
    ensures exists i :: 0 <= i < |Deduplicated(found).value| && Deduplicated(found).value[i].partNumber == found[k].partNumber
  {
    PartNumbersCover(found, k);
    DeduplicatedSpec(found);
    var order := Distinct(PartNumbers(found));
    DistinctCovers(PartNumbers(found));
    var m :| 0 <= m < |PartNumbers(found)| && PartNumbers(found)[m] == found[k].partNumber;
    var i :| 0 <= i < |order| && order[i] == PartNumbers(found)[m];
    assert Deduplicated(found).value[i].partNumber == order[i];
  }

  lemma {:induction false} PartNumbersCover(found: seq<Publication>, k: nat)
    requires k < |found| && Truthy(found[k].partNumber)
    ensures found[k].partNumber in PartNumbers(found)
    decreases |found|
  {
    var n := |found| - 1;
    if k < n {
      assert found[..n][k] == found[k];
      PartNumbersCover(found[..n], k);
    }
  }

  /** A part number that is a list or an object makes the whole call raise TypeError. */
  lemma UnhashableRaises(found: seq<Publication>)
    ensures Deduplicated(found).Err? <==> HasUnhashable(found)
  {
  }

  /** Every record `collect_publications` returns belongs to an object reachable from the root. */
  lemma CollectedRecordsReachable(root: Json, i: nat)
    requires CollectedOf(root).Ok? && i < |CollectedOf(root).value|
    ensures FromReachableObject(root, CollectedOf(root).value[i])
    ensures Truthy(CollectedOf(root).value[i].partNumber)
  {
    var found := Found(root);
    UnhashableRaises(found);
    DeduplicatedSpec(found);
    var r := CollectedOf(root).value[i];
    var k :| 0 <= k < |found| && r == found[k]
             && forall j :: k < j < |found| ==> found[j].partNumber != r.partNumber;
    FoundIsReachableObjects(root, r);
  }

  /** No part number is returned twice. */
  lemma CollectedPartNumbersDistinct(root: Json)
    requires CollectedOf(root).Ok?
    ensures var pubs := CollectedOf(root).value;
            forall i, j :: 0 <= i < j < |pubs| ==> pubs[i].partNumber != pubs[j].partNumber
  {
    var found := Found(root);
    UnhashableRaises(found);
    DeduplicatedSpec(found);
  }

  /** Every reachable object with a truthy part number is represented in the result. */
  lemma CollectedCoversReachable(root: Json, node: Json)
    requires CollectedOf(root).Ok?
    requires Reachable(root, node) && node.JObj? && HasKey(node.fields, "partNumber")
    requires Truthy(Get(node.fields, "partNumber"))
    ensures exists i :: 0 <= i < |CollectedOf(root).value|
                        && CollectedOf(root).value[i].partNumber == Get(node.fields, "partNumber")
  {
    var found := Found(root);
    UnhashableRaises(found);
    var rec := Extract(node.fields);
    assert RecordOf(node, rec);
    FoundIsReachableObjects(root, rec);
    var k :| 0 <= k < |found| && found[k] == rec;
    DeduplicatedCovers(found, k);
  }

  /**
   * What `collect_publications` promises about the page: one record per distinct truthy
   * part number, each the record of an object reachable from the root, and every
   * reachable object with a truthy part number represented.
   */
  lemma CollectedFromReachable(root: Json)
    requires CollectedOf(root).Ok?
    ensures var pubs := CollectedOf(root).value;
            && (forall i :: 0 <= i < |pubs| ==> FromReachableObject(root, pubs[i]) && Truthy(pubs[i].partNumber))
            && (forall i, j :: 0 <= i < j < |pubs| ==> pubs[i].partNumber != pubs[j].partNumber)
            && (forall node :: Reachable(root, node) && node.JObj? && HasKey(node.fields, "partNumber")
                                && Truthy(Get(node.fields, "partNumber"))
                               ==> exists i :: 0 <= i < |pubs| && pubs[i].partNumber == Get(node.fields, "partNumber"))
  {
    var pubs := CollectedOf(root).value;
    forall i | 0 <= i < |pubs|
      ensures FromReachableObject(root, pubs[i]) && Truthy(pubs[i].partNumber)
    {
      CollectedRecordsReachable(root, i);
    }
    CollectedPartNumbersDistinct(root);
    forall node | Reachable(root, node) && node.JObj? && HasKey(node.fields, "partNumber")
                  && Truthy(Get(node.fields, "partNumber"))
      ensures exists i :: 0 <= i < |pubs| && pubs[i].partNumber == Get(node.fields, "partNumber")
    {
      CollectedCoversReachable(root, node);
    }
  }
}
