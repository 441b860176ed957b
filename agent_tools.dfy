/**
 * The input checks of the agent's two tools (`SqlSelectTool.forward` and
 * `ChromaRagTool.forward` in `agent_core.py`) and the text they return.
 *
 * The SQL tool refuses a missing query and anything that does not start with
 * "select", and otherwise runs the query with surrounding whitespace and trailing
 * semicolons removed, under a row limit. The retrieval tool refuses a missing query,
 * searches for the top k passages and lists them, numbered from 1, each with its score,
 * source and page. The database and the vector search are parameters: what a tool
 * sends them and what it does with their answer is modelled, not the answer itself.
 */
module AgentTools {
  import opened Wrappers
  import opened PyText
  import opened JsonValue
  import opened FirstOccurrences

  const QueryRequired: string := "Error: 'query' is required."
  const SelectOnly: string := "Error: only SELECT queries are allowed."
  const NoRows: string := "(no rows)"
  const NoPassages: string := "No relevant passages found."
  const DefaultLimit: int := 100
  const DefaultTopK: int := 5

  // ---------------------------------------------------------------- shared checks

  /** `not query or not str(query).strip()`: no query, or one of whitespace only. */
  predicate QueryMissing(query: Option<string>) {
    query.None? || Strip(query.value) == []
  }

  /**
   * `int(x) if isinstance(x, int) or str(x).isdigit() else default`: an int is taken
   * as it is (negative ones too), a string of digits is read as a number, and anything
   * else (None, another string, a list) gives the default.
   */
  function CountOr(x: Json, default: int): (n: int)
    ensures x.JInt? ==> n == x.i
    ensures !x.JInt? && !(x.JStr? && IsDigits(x.s)) ==> n == default
    ensures !x.JInt? && n != default ==> n >= 0
  {
    match x
    case JInt(i) => i
    case JStr(s) => if IsDigits(s) then DecimalValue(s) else default
    case _ => default
  }

  /** A count written out in decimal, as the model may pass it, is read back as that count. */
  lemma CountOrReadsNumeral(n: nat, default: int)
    ensures CountOr(JStr(NatToString(n)), default) == n
  {
    DecimalOfNatToString(n);
  }

  /** Leading zeros are read as `int` reads them: "007" is 7, however many zeros lead. */
  lemma {:induction false} CountOrLeadingZeros(z: nat, n: nat, default: int)
    ensures CountOr(JStr(Zeros(z) + NatToString(n)), default) == n
    decreases z
  {
    var s := Zeros(z) + NatToString(n);
    assert IsDigits(s);
    if z == 0 {
      assert s == NatToString(n);
      DecimalOfNatToString(n);
    } else {
      var t := Zeros(z - 1) + NatToString(n);
      CountOrLeadingZeros(z - 1, n, default);
      assert s == "0" + t;
      DecimalLeadingZero(t);
    }
  }

  // ---------------------------------------------------------------- sql_select

  /** `str(query).strip().rstrip(";")`. */
  function Statement(query: string): string {
    RStrip(Strip(query), {';'})
  }

  /** What the SQL tool decides before touching the database. */
  datatype SqlPlan = Refuse(message: string) | Execute(statement: string, limit: int)

  /**
   * `SqlSelectTool.forward` up to the database call: a missing query is refused first,
   * then a statement that does not start with "select" in any letter case; otherwise the
   * statement runs under the limit, 100 unless an int or a digit string is given.
   */
  function PlanSql(query: Option<string>, limit: Json): (p: SqlPlan)
    ensures p.Refuse? <==> QueryMissing(query) || !StartsWithIgnoringCase(Statement(query.value), "select")
    ensures p.Refuse? ==> (p.message == QueryRequired <==> QueryMissing(query))
                          && (p.message == QueryRequired || p.message == SelectOnly)
    ensures p.Execute? ==> p.statement == Statement(query.value) && p.limit == CountOr(limit, DefaultLimit)
  {
    if QueryMissing(query) then Refuse(QueryRequired)
    else
      var q := Statement(query.value);
      if !StartsWithIgnoringCase(q, "select") then Refuse(SelectOnly)
      else Execute(q, CountOr(limit, DefaultLimit))
  }

  /**
   * The statement that runs is a piece of the query, cut where only whitespace comes
   * before it and only whitespace and ";" after it; it starts with "select" in some
   * letter case and does not end with ";".
   */
  lemma ExecutedStatementFromQuery(query: Option<string>, limit: Json) returns (start: nat)
    requires PlanSql(query, limit).Execute?
    ensures var q := PlanSql(query, limit).statement;
            var s := query.value;
            start + |q| <= |s| && s[start..start + |q|] == q
            && (forall i :: 0 <= i < start ==> s[i] in Whitespace)
            && (forall i :: start + |q| <= i < |s| ==> s[i] in Whitespace || s[i] == ';')
    ensures StartsWithIgnoringCase(PlanSql(query, limit).statement, "select")
    ensures PlanSql(query, limit).statement[|PlanSql(query, limit).statement| - 1] != ';'
  {
    var s := query.value;
    var t := Strip(s);
    var q := Statement(s);
    start := StripCharsInfix(s, Whitespace);
    assert q == t[..|q|];
    assert s[start..start + |q|] == t[..|q|];
    forall i | start + |q| <= i < |s|
      ensures s[i] in Whitespace || s[i] == ';'
    {
      if i < start + |t| {
        assert s[i] == t[i - start];
      }
    }
  }

  /** A query refused by the checks never reaches the database: its answer does not depend on it. */
  lemma RefusedBeforeDatabase(query: Option<string>, limit: Json, run1: (string, int) -> string, run2: (string, int) -> string)
    requires PlanSql(query, limit).Refuse?
    ensures SqlForward(query, limit, run1) == SqlForward(query, limit, run2) == PlanSql(query, limit).message
  {
  }

  /** `buf.getvalue().strip() or "(no rows)"`: the CSV text stripped, or "(no rows)" when nothing is left. */
  function RowsText(csv: string): (r: string)
    ensures r != []
    ensures r == NoRows <==> Strip(csv) == [] || Strip(csv) == NoRows
    ensures r != NoRows ==> r == Strip(csv)
  {
    if Strip(csv) == [] then NoRows else Strip(csv)
  }

  /**
   * `SqlSelectTool.forward`, with the database run given as `run`: the CSV text written
   * for the header and rows the statement returns under the limit.
   */
  function SqlForward(query: Option<string>, limit: Json, run: (string, int) -> string): (r: string)
    ensures r != []
    ensures PlanSql(query, limit).Execute? ==> r == RowsText(run(PlanSql(query, limit).statement, PlanSql(query, limit).limit))
  {
    match PlanSql(query, limit)
    case Refuse(m) => m
    case Execute(q, lim) => RowsText(run(q, lim))
  }

  // ---------------------------------------------------------------- rag_search

  /** What the retrieval tool decides before searching. */
  datatype RagPlan = RagRefuse(message: string) | Search(text: string, topK: int)

  /** A missing query is refused; otherwise the query as given is searched for, k = 5 by default. */
  function PlanRag(query: Option<string>, k: Json): (p: RagPlan)
    ensures p.RagRefuse? <==> QueryMissing(query)
    ensures p.RagRefuse? ==> p.message == QueryRequired
    ensures p.Search? ==> p.text == query.value && p.topK == CountOr(k, DefaultTopK)
  {
    if QueryMissing(query) then RagRefuse(QueryRequired) else Search(query.value, CountOr(k, DefaultTopK))
  }

  /** The metadata of a passage: None or a dict of None, int or str values. */
  type Metadata = Option<seq<(string, Scalar)>>

  /** `meta or {}`. */
  function FieldsOf(meta: Metadata): seq<(string, Json)> {
    if meta.Some? then meta.value else []
  }

  /** `d.get(key)` on a dict of scalar values gives a scalar. */
  lemma {:induction false} GetScalar(fields: seq<(string, Scalar)>, key: string)
    ensures Get(fields, key).JNull? || Get(fields, key).JInt? || Get(fields, key).JStr?
    decreases |fields|
  {
    if fields != [] {
      var n := |fields| - 1;
      if fields[n].0 != key {
        GetScalar(fields[..n], key);
        assert Get(fields, key) == Get(fields[..n], key);
      }
    }
  }

  /** `meta.get("file_path") or meta.get("source") or "unknown"`, as the f-string prints it. */
  function PassageSource(meta: Metadata): (src: string) {
    var fields := FieldsOf(meta);
    var v := Or(Or(Get(fields, "file_path"), Get(fields, "source")), JStr("unknown"));
    if meta.Some? then GetScalar(meta.value, "file_path"); GetScalar(meta.value, "source"); PyStr(v)
    else PyStr(v)
  }

  /**
   * The source shown is the file path when it is set, else the source, else
   * "unknown"; it is never empty.
   */
  lemma PassageSourceFallback(meta: Metadata)
    ensures var fp := Get(FieldsOf(meta), "file_path");
            (Truthy(fp) && fp.JStr? ==> PassageSource(meta) == fp.s)
            && (Truthy(fp) && fp.JInt? ==> PassageSource(meta) == IntToString(fp.i))
    ensures var fp := Get(FieldsOf(meta), "file_path");
            var src := Get(FieldsOf(meta), "source");
            (!Truthy(fp) && Truthy(src) && src.JStr? ==> PassageSource(meta) == src.s)
            && (!Truthy(fp) && Truthy(src) && src.JInt? ==> PassageSource(meta) == IntToString(src.i))
            && (!Truthy(fp) && !Truthy(src) ==> PassageSource(meta) == "unknown")
    ensures PassageSource(meta) != []
  {
    var fields := FieldsOf(meta);
    var v := Or(Or(Get(fields, "file_path"), Get(fields, "source")), JStr("unknown"));
    assert Truthy(v);
    if meta.Some? {
      GetScalar(meta.value, "file_path");
      GetScalar(meta.value, "source");
    }
    if v.JInt? {
      assert v.i != 0;
    }
  }

  /** `meta.get("page") or meta.get("page_number")`, as the f-string prints it ("None" when neither is set). */
  function PassagePage(meta: Metadata): string {
    var fields := FieldsOf(meta);
    var v := Or(Get(fields, "page"), Get(fields, "page_number"));
    if meta.Some? then GetScalar(meta.value, "page"); GetScalar(meta.value, "page_number"); PyStr(v)
    else PyStr(v)
  }

  /**
   * One listed passage: "[<n>] score=<score> source=<src> page=<page>", a newline, and
   * the passage text stripped. The score is given already written with four decimals.
   */
  function Passage(n: nat, doc: string, meta: Metadata, score: string): string {
    Tag(n) + (" score=" + score + " source=" + PassageSource(meta) + " page=" + PassagePage(meta) + "\n" + Strip(doc))
  }

  /** The passage number in brackets. */
  function Tag(n: nat): string {
    "[" + NatToString(n) + "]"
  }

  /** `zip(docs, metas, dists)` stops at the shortest of the three. */
  function ZipLength(a: nat, b: nat, c: nat): (n: nat)
    ensures n <= a && n <= b && n <= c && (n == a || n == b || n == c)
  {
    if a <= b && a <= c then a else if b <= c then b else c
  }

  /** The passages listed, numbered from 1, as far as all three lists reach. */
  function Passages(docs: seq<string>, metas: seq<Metadata>, scores: seq<string>): (r: seq<string>)
    ensures |r| == ZipLength(|docs|, |metas|, |scores|)
  {
    var n := ZipLength(|docs|, |metas|, |scores|);
    seq(n, i requires 0 <= i < n => Passage(i + 1, docs[i], metas[i], scores[i]))
  }

  /** The `i`-th part starts with its number in brackets, and that number reads back as `i + 1`. */
  lemma PassageNumbered(docs: seq<string>, metas: seq<Metadata>, scores: seq<string>, i: nat)
    requires i < |Passages(docs, metas, scores)|
    ensures StartsWith(Passages(docs, metas, scores)[i], Tag(i + 1))
    ensures DecimalValue(Tag(i + 1)[1..|Tag(i + 1)| - 1]) == i + 1
  {
    var tag := Tag(i + 1);
    assert tag[1..|tag| - 1] == NatToString(i + 1);
    DecimalOfNatToString(i + 1);
  }

  /**
   * Documents found but no metadata or no scores: `zip` yields nothing and the answer
   * is the empty string, not "No relevant passages found.".
   */
  lemma ShortZipAnswersEmpty(docs: seq<string>, metas: seq<Metadata>, scores: seq<string>)
    requires docs != [] && (metas == [] || scores == [])
    ensures RagAnswer(docs, metas, scores) == ""
  {
  }

  /** The answer for what the search returned: no documents, or the passages separated by blank lines. */
  function RagAnswer(docs: seq<string>, metas: seq<Metadata>, scores: seq<string>): string {
    if docs == [] then NoPassages else Join(Passages(docs, metas, scores), "\n\n")
  }

  /** The loop of `forward` that lists the passages. */
  method FormatPassages(docs: seq<string>, metas: seq<Metadata>, scores: seq<string>) returns (parts: seq<string>)
    ensures parts == Passages(docs, metas, scores)
  {
    var n := ZipLength(|docs|, |metas|, |scores|);
    parts := [];
    for i := 0 to n
      invariant parts == Passages(docs, metas, scores)[..i]
    {
      PrefixSnoc(Passages(docs, metas, scores), i);
      parts := parts + [Passage(i + 1, docs[i], metas[i], scores[i])];
    }
    assert Passages(docs, metas, scores)[..n] == Passages(docs, metas, scores);
  }

  /**
   * `ChromaRagTool.forward`, with the search given as `search`: for the query and k it
   * returns the documents, metadata and scores (written with four decimals) of the
   * first query.
   */
  method RagForward(query: Option<string>, k: Json, search: (string, int) -> (seq<string>, seq<Metadata>, seq<string>))
    returns (out: string)
    ensures QueryMissing(query) ==> out == QueryRequired
    ensures !QueryMissing(query) ==>
              var res := search(query.value, CountOr(k, DefaultTopK));
              out == RagAnswer(res.0, res.1, res.2)
  {
    var plan := PlanRag(query, k);
    if plan.RagRefuse? {
      return plan.message;
    }
    var res := search(plan.text, plan.topK);
    var docs, metas, scores := res.0, res.1, res.2;
    if docs == [] {
      return NoPassages;
    }
    var parts := FormatPassages(docs, metas, scores);
    out := Join(parts, "\n\n");
  }
}
