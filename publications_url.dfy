/**
 * `build_publications_url`: the portal's publications page for a product, with the
 * product's identity, the language and the indexed years as query parameters; pairs
 * whose value is empty are left out and every value is percent-encoded.
 */
module PublicationsUrl {
  import opened Wrappers
  import opened PyText
  import opened JsonValue
  import opened PercentEncoding
  import opened ProductMerge

  const Portal := "https://customerportal.tweddle-aws.eu"

  /** The language `build_publications_url` uses when none is given. */
  const DefaultLanguage := "en"

  /** A query parameter before encoding: its name and its (not yet checked) value. */
  type Param = (string, Json)

  /** The five fixed parameters; `modelType` falls back to `model`, and the model id is passed through `str`. */
  function BaseParams(prod: Product, language: string): (ps: seq<Param>)
    ensures |ps| == 5
  {
    [ ("brand", Or(prod.brand, JStr(""))),
      ("model", Or(prod.model, JStr(""))),
      ("modelType", Or(Or(prod.modelType, prod.model), JStr(""))),
      ("ngtdModelId", JStr(PyStr(Or(prod.ngtdModelId, JStr(""))))),
      ("language", JStr(language)) ]
  }

  /** `f"year[{i}]"`. */
  function YearKey(i: nat): string {
    "year[" + NatToString(i) + "]"
  }

  /** The pairs the `enumerate(years)` loop appends after the first `|years|` years. */
  function YearParams(years: seq<string>): (ps: seq<Param>)
    ensures |ps| == |years|
    decreases |years|
  {
    if years == [] then []
    else YearParams(years[..|years| - 1]) + [(YearKey(|years| - 1), JStr(years[|years| - 1]))]
  }

  /** The i-th year is sent under the name `year[i]`. */
  lemma {:induction false} YearParamsAt(years: seq<string>)
    ensures forall i :: 0 <= i < |years| ==> YearParams(years)[i] == (YearKey(i), JStr(years[i]))
    decreases |years|
  {
    if years != [] {
      var n := |years| - 1;
      YearParamsAt(years[..n]);
      assert forall i :: 0 <= i < n ==> years[..n][i] == years[i];
    }
  }

  function Params(prod: Product, years: seq<string>, language: string): seq<Param> {
    BaseParams(prod, language) + YearParams(years)
  }

  /**
   * The generator `f"{k}={quote(v)}" for k, v in params if v`: pairs with a falsy value
   * are skipped, and `quote` of a value that is not a string raises TypeError.
   */
  function EncodePairs(ps: seq<Param>): Result<seq<string>, PyError>
    decreases |ps|
  {
    if ps == [] then Ok([])
    else
      var (k, v) := ps[0];
      if !Truthy(v) then EncodePairs(ps[1..])
      else if !v.JStr? then Err(TypeError)
      else match EncodePairs(ps[1..])
        case Ok(rest) => Ok([k + "=" + Quote(v.s)] + rest)
        case Err(e) => Err(e)
  }

  /** What `build_publications_url(prod, years, language)` returns, or the exception it raises. */
  function PublicationsUrlOf(prod: Product, years: seq<string>, language: string): Result<string, PyError> {
    match EncodePairs(Params(prod, years, language))
    case Ok(parts) => Ok(Portal + "/publications?" + Join(parts, "&"))
    case Err(e) => Err(e)
  }

  /** `build_publications_url`: the year pairs are appended in a loop, then the pairs are encoded and joined. */
  method BuildPublicationsUrl(prod: Product, years: seq<string>, language: string) returns (r: Result<string, PyError>)
    ensures r == PublicationsUrlOf(prod, years, language)
  {
    var params := BaseParams(prod, language);
    for i := 0 to |years|
      invariant params == BaseParams(prod, language) + YearParams(years[..i])
    {
      assert years[..i + 1][..i] == years[..i];
      params := params + [(YearKey(i), JStr(years[i]))];
    }
    assert years[..|years|] == years;
    var encoded := EncodePairs(params);
    match encoded {
      case Ok(parts) => r := Ok(Portal + "/publications?" + Join(parts, "&"));
      case Err(e) => r := Err(e);
    }
  }

  // ---------------------------------------------------------------- what the query carries

  /** The pairs that reach the query: those with a truthy value, as (name, text). */
  function Kept(ps: seq<Param>): (kv: seq<(string, string)>)
    ensures |kv| <= |ps|
    decreases |ps|
  {
    if ps == [] then []
    else if Truthy(ps[0].1) && ps[0].1.JStr? then [(ps[0].0, ps[0].1.s)] + Kept(ps[1..])
    else Kept(ps[1..])
  }

  /** `name=quoted value` for each kept pair. */
  function Assignments(kv: seq<(string, string)>): (parts: seq<string>)
    ensures |parts| == |kv|
    ensures forall i :: 0 <= i < |kv| ==> parts[i] == kv[i].0 + "=" + Quote(kv[i].1)
    decreases |kv|
  {
    if kv == [] then [] else [kv[0].0 + "=" + Quote(kv[0].1)] + Assignments(kv[1..])
  }

  /** Some pair that is not skipped has a value `quote` rejects. */
  predicate HasNonStringValue(ps: seq<Param>) {
    exists i :: 0 <= i < |ps| && Truthy(ps[i].1) && !ps[i].1.JStr?
  }

  /** Encoding fails exactly when some truthy value is not a string; otherwise it writes the kept pairs. */
  lemma {:induction false} EncodePairsSpec(ps: seq<Param>)
    ensures EncodePairs(ps).Err? <==> HasNonStringValue(ps)
    ensures EncodePairs(ps).Err? ==> EncodePairs(ps).error == TypeError
    ensures EncodePairs(ps).Ok? ==> EncodePairs(ps).value == Assignments(Kept(ps))
    decreases |ps|
  {
    if ps != [] {
      EncodePairsSpec(ps[1..]);
      assert forall i :: 1 <= i < |ps| ==> ps[i] == ps[1..][i - 1];
      if exists i :: 0 <= i < |ps[1..]| && Truthy(ps[1..][i].1) && !ps[1..][i].1.JStr? {
        var i :| 0 <= i < |ps[1..]| && Truthy(ps[1..][i].1) && !ps[1..][i].1.JStr?;
        assert ps[i + 1] == ps[1..][i];
      }
    }
  }

  /**
   * Reference parser for the query: pairs split at `&`, each split at its first `=`,
   * the value percent-decoded and read as UTF-8.
   */
  function ParsePair(part: string): Option<(string, string)> {
    var key := BeforeFirst(part, '=');
    if |key| == |part| then None
    else match PercentDecode(part[|key| + 1..])
      case None => None
      case Some(bytes) =>
        match Utf8Decode(bytes)
        case None => None
        case Some(v) => Some((key, v))
  }

  function ParsePairs(parts: seq<string>): Option<seq<(string, string)>>
    decreases |parts|
  {
    if parts == [] then Some([])
    else match (ParsePair(parts[0]), ParsePairs(parts[1..]))
      case (Some(kv), Some(rest)) => Some([kv] + rest)
      case _ => None
  }

  function ParseQuery(q: string): Option<seq<(string, string)>> {
    if q == "" then Some([]) else ParsePairs(Split(q, '&'))
  }

  /** A name is usable in the query when it holds neither delimiter. */
  predicate PlainName(k: string) { '&' !in k && '=' !in k }

  lemma BeforeFirstOfAssignment(k: string, x: string)
    requires '=' !in k
    ensures BeforeFirst(k + "=" + x, '=') == k
  {
    var s := k + "=" + x;
    var r := BeforeFirst(s, '=');
    assert s[|k|] == '=';
    assert s[..|k|] == k;
  }

  /** Each assignment parses back to its pair. */
  lemma ParseAssignment(k: string, v: string)
    requires PlainName(k)
    ensures ParsePair(k + "=" + Quote(v)) == Some((k, v))
  {
    var part := k + "=" + Quote(v);
    BeforeFirstOfAssignment(k, Quote(v));
    assert part[|k| + 1..] == Quote(v);
    QuoteRoundTrip(v);
  }

  lemma {:induction false} ParseAssignments(kv: seq<(string, string)>)
    requires forall i :: 0 <= i < |kv| ==> PlainName(kv[i].0)
    ensures ParsePairs(Assignments(kv)) == Some(kv)
    decreases |kv|
  {
    if kv != [] {
      ParseAssignment(kv[0].0, kv[0].1);
      ParseAssignments(kv[1..]);
      assert Assignments(kv)[1..] == Assignments(kv[1..]);
      assert [kv[0]] + kv[1..] == kv;
    }
  }

  /** Reading the query string back yields exactly the kept pairs, in order and with their values intact. */
  lemma QueryRoundTrip(kv: seq<(string, string)>)
    requires forall i :: 0 <= i < |kv| ==> PlainName(kv[i].0)
    ensures ParseQuery(Join(Assignments(kv), "&")) == Some(kv)
  {
    var parts := Assignments(kv);
    ParseAssignments(kv);
    if kv != [] {
      forall i | 0 <= i < |parts|
        ensures '&' !in parts[i]
      {
        QuoteHasNoDelimiters(kv[i].1);
      }
      SplitJoin(parts, '&');
      assert Join(parts, "&") != "" by {
        JoinStartsWithFirst(parts, "&");
      }
    }
  }

  lemma JoinStartsWithFirst(parts: seq<string>, sep: string)
    requires |parts| >= 1
    ensures StartsWith(Join(parts, sep), parts[0])
  {
    if |parts| > 1 {
      assert Join(parts, sep) == parts[0] + (sep + Join(parts[1..], sep));
    }
  }

  lemma NamesArePlain(prod: Product, years: seq<string>, language: string)
    ensures forall i :: 0 <= i < |Params(prod, years, language)| ==> PlainName(Params(prod, years, language)[i].0)
  {
    var ps := Params(prod, years, language);
    YearParamsAt(years);
    forall i | 5 <= i < |ps|
      ensures PlainName(ps[i].0)
    {
      assert ps[i].0 == YearKey(i - 5);
      YearKeyPlain(i - 5);
    }
  }

  lemma YearKeyPlain(i: nat)
    ensures PlainName(YearKey(i))
  {
    var d := NatToString(i);
    assert forall j :: 0 <= j < |d| ==> IsDigit(d[j]);
    assert forall j :: 0 <= j < |YearKey(i)| ==> YearKey(i)[j] in "year[]" || IsDigit(YearKey(i)[j]);
  }

  lemma {:induction false} KeptNames(ps: seq<Param>)
    requires forall i :: 0 <= i < |ps| ==> PlainName(ps[i].0)
    ensures forall i :: 0 <= i < |Kept(ps)| ==> PlainName(Kept(ps)[i].0)
    decreases |ps|
  {
    if ps != [] {
      assert forall i :: 1 <= i < |ps| ==> ps[i] == ps[1..][i - 1];
      KeptNames(ps[1..]);
    }
  }

  /**
   * The URL is the portal's publications page, and its query, read back, gives every
   * parameter with a non-empty value, in order (brand, model, modelType, ngtdModelId,
   * language, then `year[0]`, `year[1]`, ...), with the value it had.
   */
  lemma PublicationsUrlCarriesParams(prod: Product, years: seq<string>, language: string)
    requires PublicationsUrlOf(prod, years, language).Ok?
    ensures var url := PublicationsUrlOf(prod, years, language).value;
            var prefix := Portal + "/publications?";
            StartsWith(url, prefix) && ParseQuery(url[|prefix|..]) == Some(Kept(Params(prod, years, language)))
  {
    var ps := Params(prod, years, language);
    var prefix := Portal + "/publications?";
    EncodePairsSpec(ps);
    NamesArePlain(prod, years, language);
    KeptNames(ps);
    QueryRoundTrip(Kept(ps));
    var q := Join(Assignments(Kept(ps)), "&");
    assert (prefix + q)[|prefix|..] == q;
    assert (prefix + q)[..|prefix|] == prefix;
  }

  /**
   * `quote` raises TypeError exactly when brand, model or the chosen modelType is a
   * non-zero int; the model id is turned into a string first and the years and the
   * language are strings.
   */
  lemma PublicationsUrlTypeError(prod: Product, years: seq<string>, language: string)
    ensures PublicationsUrlOf(prod, years, language).Err? <==>
              (prod.brand.JInt? && prod.brand.i != 0)
              || (prod.model.JInt? && prod.model.i != 0)
              || (Or(prod.modelType, prod.model).JInt? && Or(prod.modelType, prod.model).i != 0)
    ensures PublicationsUrlOf(prod, years, language).Err? ==> PublicationsUrlOf(prod, years, language).error == TypeError
  {
    var base, ys := BaseParams(prod, language), YearParams(years);
    EncodePairsSpec(base + ys);
    YearParamsAt(years);
    NonStringValueInBase(base, ys);
    BaseNonStringValue(prod, language);
  }

  lemma NonStringValueInBase(base: seq<Param>, ys: seq<Param>)
    requires forall i :: 0 <= i < |ys| ==> ys[i].1.JStr?
    ensures HasNonStringValue(base + ys) <==> HasNonStringValue(base)
  {
    if HasNonStringValue(base + ys) {
      var i :| 0 <= i < |base + ys| && Truthy((base + ys)[i].1) && !(base + ys)[i].1.JStr?;
      assert i < |base| ==> (base + ys)[i] == base[i];
    }
    if HasNonStringValue(base) {
      var i :| 0 <= i < |base| && Truthy(base[i].1) && !base[i].1.JStr?;
      assert (base + ys)[i] == base[i];
    }
  }

  lemma BaseNonStringValue(prod: Product, language: string)
    ensures HasNonStringValue(BaseParams(prod, language)) <==>
              (prod.brand.JInt? && prod.brand.i != 0)
              || (prod.model.JInt? && prod.model.i != 0)
              || (Or(prod.modelType, prod.model).JInt? && Or(prod.modelType, prod.model).i != 0)
  {
    var base := BaseParams(prod, language);
    assert base[0].1 == Or(prod.brand, JStr(""));
    assert base[1].1 == Or(prod.model, JStr(""));
    assert base[2].1 == Or(Or(prod.modelType, prod.model), JStr(""));
    assert base[3].1.JStr? && base[4].1.JStr?;
  }
}
