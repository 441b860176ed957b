/**
 * The two helpers of the chat front end that read the agent's answer text:
 * `extract_citations`, which collects the `[file_path:page]` citations, and
 * `extract_sql`, which picks the SQL statement out of a fenced code block.  The
 * regular expressions they use are modelled as explicit left-to-right scanners with
 * the matching semantics of Python's `re` module.
 */
module AnswerParsing {
  import opened Wrappers
  import opened PyText
  import opened FirstOccurrences
  import Chunks

  /** `answer_text or ""`. */
  function TextOf(answer: Option<string>): string {
    if answer.Some? then answer.value else ""
  }

  // ---------------------------------------------------------------- citations

  predicate IsBracket(c: char) { c == '[' || c == ']' }

  predicate NoBrackets(s: string) { forall i :: 0 <= i < |s| ==> !IsBracket(s[i]) }

  /** The two groups of a match of `CITATION_RE`: the path text and the page digits. */
  type RawCitation = (string, string)

  /** A citation as `extract_citations` returns it: the stripped path and the page number. */
  type Citation = (string, nat)

  /** The groups a match can have: a non-empty path without brackets and ASCII digits. */
  predicate WellFormed(c: RawCitation) {
    c.0 != [] && NoBrackets(c.0) && IsDigits(c.1)
  }

  /** The text a match of `CITATION_RE` with groups `c` spans. */
  function CitationText(c: RawCitation): string {
    "[" + c.0 + ":" + c.1 + "]"
  }

  /** The index of the first "[" or "]" at or after `p`, if any. */
  function NextBracket(text: string, p: nat): (q: Option<nat>)
    requires p <= |text|
    ensures q.Some? ==> p <= q.value < |text| && IsBracket(text[q.value])
    ensures q.Some? ==> forall i :: p <= i < q.value ==> !IsBracket(text[i])
    ensures q.None? ==> forall i :: p <= i < |text| ==> !IsBracket(text[i])
    decreases |text| - p
  {
    if p == |text| then None
    else if IsBracket(text[p]) then Some(p)
    else NextBracket(text, p + 1)
  }

  /**
   * The groups of `CITATION_RE` within the bracket-free `inner` that lies between a "["
   * and a "]".  The lazy path group can end only at a ":" followed by digits up to the
   * "]", and digits contain no ":", so the path ends at the last ":".
   */
  function CitationIn(inner: string): (r: Option<RawCitation>)
    ensures r.Some? ==> r.value.0 != [] && IsDigits(r.value.1) && inner == r.value.0 + ":" + r.value.1
  {
    match LastIndex(inner, ':')
    case None => None
    case Some(c) =>
      if 0 < c && IsDigits(inner[c + 1..]) then
        assert inner == inner[..c] + ":" + inner[c + 1..];
        Some((inner[..c], inner[c + 1..]))
      else None
  }

  /** A path followed by ":" and digits is read back as that path and those digits. */
  lemma CitationInOf(x: string, d: string)
    requires x != [] && IsDigits(d)
    ensures CitationIn(x + ":" + d) == Some((x, d))
  {
    var inner := x + ":" + d;
    assert forall i :: |x| < i < |inner| ==> inner[i] == d[i - |x| - 1];
    LastIndexAt(inner, ':', |x|);
    assert inner[..|x|] == x && inner[|x| + 1..] == d;
  }

  /**
   * `CITATION_RE.match(text)`: the groups of a match at the start of `text` and the
   * length of the match.  A match runs from "[" to the first bracket after it, which
   * must be "]".
   */
  function MatchPrefix(text: string): (m: Option<(RawCitation, nat)>)
    ensures m.Some? ==> 0 < m.value.1 <= |text| && m.value.1 == |CitationText(m.value.0)|
    ensures m.Some? ==> WellFormed(m.value.0)
  {
    if text == [] || text[0] != '[' then None
    else match NextBracket(text, 1)
      case None => None
      case Some(q) =>
        if text[q] == ']' && CitationIn(text[1..q]).Some? then
          var c := CitationIn(text[1..q]).value;
          assert forall i :: 0 <= i < |c.0| ==> c.0[i] == text[1..q][i] == text[i + 1];
          Some((c, q + 1))
        else None
  }

  /** `CITATION_RE.findall(text)`: the matches from left to right, each scan resuming after the last match. */
  function Findall(text: string): (r: seq<RawCitation>)
    ensures forall k :: 0 <= k < |r| ==> WellFormed(r[k])
    decreases |text|
  {
    if text == [] then []
    else match MatchPrefix(text)
      case Some(m) => [m.0] + Findall(text[m.1..])
      case None => Findall(text[1..])
  }

  /** A match spans exactly the citation text of its groups, and those groups are well formed. */
  lemma MatchPrefixSound(text: string)
    requires MatchPrefix(text).Some?
    ensures text[..MatchPrefix(text).value.1] == CitationText(MatchPrefix(text).value.0)
  {
    var q :| NextBracket(text, 1) == Some(q);
    assert text[..q + 1] == [text[0]] + text[1..q] + [text[q]];
  }

  /** A well-formed citation at the start of the text is matched there, whatever follows it. */
  lemma {:induction false} MatchPrefixOf(c: RawCitation, rest: string)
    requires WellFormed(c)
    ensures MatchPrefix(CitationText(c) + rest) == Some((c, |CitationText(c)|))
  {
    var text := CitationText(c) + rest;
    var q := |c.0| + |c.1| + 2;
    assert text[0] == '[' && text[q] == ']';
    assert forall i :: 1 <= i <= |c.0| ==> text[i] == c.0[i - 1];
    assert text[|c.0| + 1] == ':';
    assert forall i :: |c.0| + 2 <= i < q ==> text[i] == c.1[i - |c.0| - 2];
    assert NextBracket(text, 1) == Some(q);
    assert text[1..q] == c.0 + ":" + c.1;
    CitationInOf(c.0, c.1);
  }

  /**
   * Text that is followed by a "[" scans as if it ended there: no match can run past the
   * "[" that `rest` starts with.
   */
  lemma {:induction false} FindallBeforeBracket(a: string, rest: string)
    requires rest != [] && rest[0] == '['
    ensures Findall(a + rest) == Findall(a) + Findall(rest)
    decreases |a|
  {
    if a == [] {
      assert a + rest == rest;
    } else {
      var text := a + rest;
      MatchPrefixBeforeBracket(a, rest);
      var n := Advance(a);
      var head := Head(a);
      FindallStep(a);
      FindallStep(text);
      SliceOfAppend(a, rest, n);
      FindallBeforeBracket(a[n..], rest);
      Regroup(Findall(text), head, Findall(a[n..]), Findall(rest), Findall(a));
    }
  }

  lemma SliceOfAppend<T>(a: seq<T>, b: seq<T>, n: nat)
    requires n <= |a|
    ensures (a + b)[n..] == a[n..] + b
  {
  }

  lemma Regroup<T>(x: seq<T>, head: seq<T>, y: seq<T>, z: seq<T>, w: seq<T>)
    requires x == head + (y + z) && w == head + y
    ensures x == w + z
  {
  }

  function Advance(text: string): (n: nat)
    requires text != []
    ensures 0 < n <= |text|
  {
    if MatchPrefix(text).Some? then MatchPrefix(text).value.1 else 1
  }

  function Head(text: string): seq<RawCitation> {
    if MatchPrefix(text).Some? then [MatchPrefix(text).value.0] else []
  }

  lemma FindallStep(text: string)
    requires text != []
    ensures Findall(text) == Head(text) + Findall(text[Advance(text)..])
  {
  }

  /** A match that starts in `a` ends in `a` when a "[" follows `a`. */
  lemma MatchPrefixBeforeBracket(a: string, rest: string)
    requires a != [] && rest != [] && rest[0] == '['
    ensures MatchPrefix(a + rest) == MatchPrefix(a)
  {
    var text := a + rest;
    assert text[0] == a[0];
    if a[0] == '[' {
      var nb := NextBracket(a, 1);
      if nb.Some? {
        var q := nb.value;
        assert text[q] == a[q];
        assert forall i :: 1 <= i < q ==> text[i] == a[i];
        assert NextBracket(text, 1) == Some(q);
        assert text[1..q] == a[1..q];
      } else {
        assert text[|a|] == '[';
        assert forall i :: 1 <= i < |a| ==> text[i] == a[i];
        assert NextBracket(text, 1) == Some(|a|);
      }
    }
  }

  /** A well-formed citation between two texts is found, in order, between their matches. */
  lemma FindallSplit(a: string, c: RawCitation, b: string)
    requires WellFormed(c)
    ensures Findall(a + CitationText(c) + b) == Findall(a) + [c] + Findall(b)
  {
    var ct := CitationText(c);
    assert a + ct + b == a + (ct + b);
    FindallBeforeBracket(a, ct + b);
    MatchPrefixOf(c, b);
    assert (ct + b)[|ct|..] == b;
  }

  /** `w` appears in `text` as a contiguous run. */
  ghost predicate Occurs(text: string, w: string) {
    exists i :: OccursAt(text, w, i)
  }

  predicate OccursAt(text: string, w: string, i: nat) {
    i + |w| <= |text| && text[i..i + |w|] == w
  }

  lemma OccursInSuffix(text: string, n: nat, w: string)
    requires n <= |text| && Occurs(text[n..], w)
    ensures Occurs(text, w)
  {
    var i :| OccursAt(text[n..], w, i);
    assert text[n + i..n + i + |w|] == w;
    assert OccursAt(text, w, n + i);
  }

  /** Every match is well formed and its citation text appears in the scanned text. */
  lemma {:induction false} FindallSound(text: string)
    ensures forall k :: 0 <= k < |Findall(text)| ==> WellFormed(Findall(text)[k]) && Occurs(text, CitationText(Findall(text)[k]))
    decreases |text|
  {
    if text != [] {
      var n: nat := if MatchPrefix(text).Some? then MatchPrefix(text).value.1 else 1;
      FindallSound(text[n..]);
      var tail := Findall(text[n..]);
      forall k | 0 <= k < |tail|
        ensures WellFormed(tail[k]) && Occurs(text, CitationText(tail[k]))
      {
        OccursInSuffix(text, n, CitationText(tail[k]));
      }
      if MatchPrefix(text).Some? {
        MatchPrefixSound(text);
        var c := MatchPrefix(text).value.0;
        assert OccursAt(text, CitationText(c), 0);
      }
    }
  }

  /** `(fp.strip(), int(pg))` for one match. */
  function Cite(c: RawCitation): Citation
    requires WellFormed(c)
  {
    (Strip(c.0), DecimalValue(c.1))
  }

  function CitesOf(raw: seq<RawCitation>): seq<Citation>
    requires forall k :: 0 <= k < |raw| ==> WellFormed(raw[k])
  {
    seq(|raw|, k requires 0 <= k < |raw| => Cite(raw[k]))
  }

  /** The citation list of `extract_citations`. */
  function Citations(text: string): seq<Citation> {
    CitesOf(Findall(text))
  }

  /** The text an answer uses to cite page `page` of `path`. */
  function Cited(path: string, page: nat): string {
    "[" + path + ":" + NatToString(page) + "]"
  }

  /**
   * Citing a page in the answer makes that (path, page) pair appear in the citation list,
   * in its place among the citations of the text around it.
   */
  lemma CitedRoundTrip(a: string, path: string, page: nat, b: string)
    requires path != [] && NoBrackets(path) && Strip(path) == path
    ensures Citations(a + Cited(path, page) + b) == Citations(a) + [(path, page)] + Citations(b)
  {
    var c := (path, NatToString(page));
    assert Cited(path, page) == CitationText(c);
    FindallSplit(a, c, b);
    DecimalOfNatToString(page);
    assert Cite(c) == (path, page);
    CitesOfAppend(Findall(a), [c]);
    CitesOfAppend(Findall(a) + [c], Findall(b));
  }

  lemma CitesOfAppend(x: seq<RawCitation>, y: seq<RawCitation>)
    requires forall k :: 0 <= k < |x| ==> WellFormed(x[k])
    requires forall k :: 0 <= k < |y| ==> WellFormed(y[k])
    ensures CitesOf(x + y) == CitesOf(x) + CitesOf(y)
  {
    assert forall k :: 0 <= k < |x + y| ==> WellFormed((x + y)[k]);
  }

  /** Every cited path is free of brackets and every page is the value of digits cited in the text. */
  lemma CitationsSound(text: string)
    ensures forall k :: 0 <= k < |Citations(text)| ==>
      NoBrackets(Citations(text)[k].0) &&
      Occurs(text, CitationText(Findall(text)[k])) &&
      Citations(text)[k] == Cite(Findall(text)[k])
  {
    FindallSound(text);
    var raw := Findall(text);
    forall k | 0 <= k < |raw|
      ensures NoBrackets(Strip(raw[k].0))
    {
      StripCharsPreserves(raw[k].0, Whitespace, ch => !IsBracket(ch));
    }
  }

  /** The paths of the citations, in order. */
  function PathsOf(cites: seq<Citation>): seq<string>
  {
    seq(|cites|, k requires 0 <= k < |cites| => cites[k].0)
  }

  /**
   * `extract_citations`: the citations of the answer and, through a `seen` set, each
   * cited path once, in the order of its first citation.
   */
  method ExtractCitations(answer: Option<string>) returns (cites: seq<Citation>, uniquePaths: seq<string>)
    ensures cites == Citations(TextOf(answer))
    ensures uniquePaths == Distinct(PathsOf(cites))
    ensures NoDuplicates(uniquePaths)
    ensures forall p :: p in uniquePaths <==> p in PathsOf(cites)
    ensures TextOf(answer) == [] ==> cites == [] && uniquePaths == []
  {
    cites := Citations(TextOf(answer));
    ghost var paths := PathsOf(cites);
    uniquePaths := [];
    var seen: set<string> := {};
    for i := 0 to |cites|
      invariant uniquePaths == Distinct(paths[..i])
      invariant forall p :: p in seen <==> p in uniquePaths
    {
      var fp := cites[i].0;
      PrefixSnoc(paths, i);
      DistinctSnoc(paths[..i], fp);
      if fp !in seen {
        uniquePaths := uniquePaths + [fp];
        seen := seen + {fp};
      }
    }
    assert paths[..|cites|] == paths;
    DistinctCovers(paths);
  }

  // ---------------------------------------------------------------- SQL blocks

  const Fence: string := "```"

  /** The length of the run of `\s` characters that starts at `p`. */
  function SpaceRun(text: string, p: nat): (n: nat)
    requires p <= |text|
    ensures p + n <= |text|
    ensures forall i :: p <= i < p + n ==> text[i] in Whitespace
    ensures p + n == |text| || text[p + n] !in Whitespace
    decreases |text| - p
  {
    if p == |text| || text[p] !in Whitespace then 0 else 1 + SpaceRun(text, p + 1)
  }

  predicate FenceAt(text: string, i: nat) {
    i + 3 <= |text| && text[i..i + 3] == Fence
  }

  /** The first index at or after `p` where a fence starts, if any. */
  function NextFence(text: string, p: nat): (f: Option<nat>)
    requires p <= |text|
    ensures f.Some? ==> p <= f.value && FenceAt(text, f.value)
    ensures forall i :: p <= i && FenceAt(text, i) ==> f.Some? && f.value <= i
    decreases |text| - p
  {
    if p + 3 > |text| then None
    else if FenceAt(text, p) then Some(p)
    else NextFence(text, p + 1)
  }

  /**
   * The group of `SQL_BLOCK_RE` matched at `p`: "```", "sql" in any case, the longest
   * run of `\s`, then everything up to the next fence.  Taking less of the run never
   * helps, since the run holds no backtick.
   */
  function SqlBlockAt(text: string, p: nat): (g: Option<string>)
    ensures g.Some? ==> FenceAt(text, p) && p + 6 <= |text| && StartsWithIgnoringCase(text[p + 3..], "sql")
    ensures g.Some? ==>
      exists f :: p + 6 + SpaceRun(text, p + 6) <= f && FenceAt(text, f) && g.value == text[p + 6 + SpaceRun(text, p + 6)..f]
  {
    if p + 6 <= |text| && FenceAt(text, p) && StartsWithIgnoringCase(text[p + 3..], "sql") then
      var start := p + 6 + SpaceRun(text, p + 6);
      match NextFence(text, start)
      case Some(f) => Some(text[start..f])
      case None => None
    else None
  }

  /**
   * The group of `SQL_ANY_BLOCK_RE` matched at `p`: "```", the longest run of `\s`,
   * then "select" in any case and everything up to the next fence after it.
   */
  function SelectBlockAt(text: string, p: nat): (g: Option<string>)
    ensures g.Some? ==> StartsWithIgnoringCase(g.value, "select")
    ensures g.Some? ==> FenceAt(text, p) && p + 3 <= |text|
    ensures g.Some? ==>
      exists f :: p + 3 + SpaceRun(text, p + 3) + 6 <= f && FenceAt(text, f) && g.value == text[p + 3 + SpaceRun(text, p + 3)..f]
  {
    if FenceAt(text, p) then
      var start := p + 3 + SpaceRun(text, p + 3);
      if StartsWithIgnoringCase(text[start..], "select") then
        match NextFence(text, start + 6)
        case Some(f) =>
          assert text[start..f][..6] == text[start..][..6];
          Some(text[start..f])
        case None => None
      else None
    else None
  }

  /** `pattern.search(text, p)`: the match at the leftmost position from `p` on that has one. */
  function SearchFrom(text: string, p: nat, at: (string, nat) -> Option<string>): (r: Option<string>)
    decreases |text| + 1 - p
  {
    if p > |text| then None
    else if at(text, p).Some? then at(text, p)
    else SearchFrom(text, p + 1, at)
  }

  /** A search returns the match at the leftmost position that has one, and nothing when none has. */
  lemma {:induction false} SearchFromLeftmost(text: string, p: nat, at: (string, nat) -> Option<string>) returns (j: nat)
    requires p <= |text|
    ensures SearchFrom(text, p, at).Some? ==>
      p <= j <= |text| && at(text, j) == SearchFrom(text, p, at) && forall i :: p <= i < j ==> at(text, i).None?
    ensures SearchFrom(text, p, at).None? ==> forall i :: p <= i <= |text| ==> at(text, i).None?
    decreases |text| - p
  {
    if at(text, p).Some? || p == |text| {
      j := p;
    } else {
      j := SearchFromLeftmost(text, p + 1, at);
    }
  }

  /** `extract_sql`: the first "```sql" block, else the first block starting with SELECT, stripped; else "". */
  function ExtractSql(answer: Option<string>): (sql: string)
    ensures sql != [] ==> sql[0] !in Whitespace && sql[|sql| - 1] !in Whitespace
  {
    var text := TextOf(answer);
    var block := SearchFrom(text, 0, SqlBlockAt);
    var select := SearchFrom(text, 0, SelectBlockAt);
    if block.Some? then
      StripCharsSpec(block.value, Whitespace);
      Strip(block.value)
    else if select.Some? then
      StripCharsSpec(select.value, Whitespace);
      Strip(select.value)
    else ""
  }

  /**
   * When the answer holds a "```sql" block, "sql" in any case, closed by a fence, the
   * result is the stripped body of the leftmost such block, whatever SELECT blocks
   * come before it.
   */
  lemma ExtractSqlPrefersSqlBlock(text: string, p0: nat, f0: nat) returns (p: nat, body: string)
    requires p0 + 6 <= f0 && FenceAt(text, f0) && FenceAt(text, p0) && StartsWithIgnoringCase(text[p0 + 3..], "sql")
    ensures p <= p0 && SqlBlockAt(text, p) == Some(body) && ExtractSql(Some(text)) == Strip(body)
    ensures forall i :: 0 <= i < p ==> SqlBlockAt(text, i).None?
  {
    var start := p0 + 6 + SpaceRun(text, p0 + 6);
    assert text[f0] == '`';
    assert start <= f0;
    assert NextFence(text, start).Some?;
    assert SqlBlockAt(text, p0).Some?;
    p := SearchFromLeftmost(text, 0, SqlBlockAt);
    body := SearchFrom(text, 0, SqlBlockAt).value;
  }

  /**
   * Without any "```sql" block, a block opened by a fence and SELECT gives the stripped
   * statement, which still starts with SELECT in some case.
   */
  lemma ExtractSqlFromSelectBlock(text: string)
    requires forall i :: SqlBlockAt(text, i).None?
    requires SearchFrom(text, 0, SelectBlockAt).Some?
    ensures StartsWithIgnoringCase(ExtractSql(Some(text)), "select")
  {
    var j := SearchFromLeftmost(text, 0, SelectBlockAt);
    var j2 := SearchFromLeftmost(text, 0, SqlBlockAt);
    StripKeepsSelect(SearchFrom(text, 0, SelectBlockAt).value);
  }

  /** Stripping a statement that starts with SELECT keeps that start. */
  lemma StripKeepsSelect(g: string)
    requires StartsWithIgnoringCase(g, "select")
    ensures StartsWithIgnoringCase(Strip(g), "select")
  {
    var start := StripCharsInfix(g, Whitespace);
    var s := Strip(g);
    assert g[0] !in Whitespace && g[5] !in Whitespace;
    assert start == 0;
    assert 6 <= |s|;
    assert s[..6] == g[..6];
  }

  /** An answer without a closed code block gives no SQL. */
  lemma ExtractSqlWithoutBlock(text: string)
    requires forall i, j :: FenceAt(text, i) && FenceAt(text, j) ==> j < i + 3
    ensures ExtractSql(Some(text)) == ""
  {
    var j1 := SearchFromLeftmost(text, 0, SqlBlockAt);
    var j2 := SearchFromLeftmost(text, 0, SelectBlockAt);
  }
}
