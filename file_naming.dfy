/**
 * The name a downloaded manual is saved under (`safe_filename`, `preferred_year`,
 * `make_named_pdf`) and the rule of `download_pdf` that skips a file already on disk.
 *
 * A name is built from brand, model, model type, year and part number: each non-empty
 * component is sanitised to letters, digits and "._- ", the pieces are joined with ".",
 * spaces become "_", and ".pdf" is appended. The file lives directly under "./manuals".
 */
module FileNaming {
  import opened Wrappers
  import opened PyText
  import opened JsonValue
  import opened ProductMerge
  import opened CollectPublications
  import opened FirstOccurrences

  // ---------------------------------------------------------------- safe_filename

  const MaxNameLength: nat := 200
  const FallbackName: string := "manual"

  /** The characters `safe_filename` keeps: `c.isalnum() or c in "._- "`. */
  predicate Kept(c: char) {
    IsAlnum(c) || c in {'.', '_', '-', ' '}
  }

  /** The characters stripped from both ends of the sanitised name. */
  const Trimmed: set<char> := {'_', ' '}

  /** Every character is kept as is or replaced by "_". */
  function Sanitize(s: string): (r: string)
    ensures |r| == |s|
    ensures forall i :: 0 <= i < |s| ==> r[i] == if Kept(s[i]) then s[i] else '_'
    decreases |s|
  {
    if s == [] then [] else [if Kept(s[0]) then s[0] else '_'] + Sanitize(s[1..])
  }

  /** Sanitising keeps any property that both the kept characters and "_" have. */
  lemma SanitizePreserves(s: string, p: char -> bool)
    requires p('_') && forall i :: 0 <= i < |s| && Kept(s[i]) ==> p(s[i])
    ensures forall i :: 0 <= i < |Sanitize(s)| ==> p(Sanitize(s)[i])
  {
  }

  /** Only kept characters. */
  predicate AllKept(s: string) {
    forall i :: 0 <= i < |s| ==> Kept(s[i])
  }

  /** Stripping "_" and " " from text of kept characters leaves kept characters. */
  lemma StrippedKept(cleaned: string)
    requires AllKept(cleaned)
    ensures AllKept(StripChars(cleaned, Trimmed))
  {
    StripCharsPreserves(cleaned, Trimmed, Kept);
  }

  /**
   * The end of `safe_filename` once the text is cleaned: strip "_" and " " from both
   * ends, keep at most 200 characters, and fall back to "manual" when nothing is left.
   */
  function Tidy(cleaned: string): (r: string)
    requires AllKept(cleaned)
    ensures 0 < |r| <= MaxNameLength
    ensures AllKept(r)
    ensures r[0] !in Trimmed
  {
    StrippedKept(cleaned);
    StripCharsSpec(cleaned, Trimmed);
    var stripped := StripChars(cleaned, Trimmed);
    var short := SliceTo(stripped, MaxNameLength);
    if short == [] then FallbackName
    else
      assert short[0] == stripped[0];
      short
  }

  /** `safe_filename` of a string: every character sanitised, then tidied. */
  function SafeFilename(s: string): (r: string)
    ensures 0 < |r| <= MaxNameLength
    ensures AllKept(r)
    ensures r[0] !in Trimmed
  {
    Tidy(Sanitize(s))
  }

  /** A name that is already clean, not padded and short enough comes back unchanged. */
  lemma SafeFilenameKeepsCleanName(s: string)
    requires 0 < |s| <= MaxNameLength
    requires forall i :: 0 <= i < |s| ==> Kept(s[i])
    requires s[0] !in Trimmed && s[|s| - 1] !in Trimmed
    ensures SafeFilename(s) == s
  {
    assert Sanitize(s) == s;
    StripCharsSpec(s, Trimmed);
  }

  /** Input without a letter, digit, "." or "-" sanitises to nothing: the name is "manual". */
  lemma SafeFilenameFallback(s: string)
    requires forall i :: 0 <= i < |s| ==> !Kept(s[i]) || s[i] in Trimmed
    ensures SafeFilename(s) == FallbackName
  {
    var t := Sanitize(s);
    assert forall i :: 0 <= i < |t| ==> t[i] in Trimmed;
    StripCharsSpec(t, Trimmed);
  }

  /** No "." anywhere: the separators of a joined name can then be found again. */
  predicate DotFree(s: string) {
    forall i :: 0 <= i < |s| ==> s[i] != '.'
  }

  /** Sanitising and stripping add no ".": a name without one stays without one. */
  lemma SafeFilenameDotFree(s: string)
    requires DotFree(s)
    ensures DotFree(SafeFilename(s))
  {
    var notDot := (c: char) => c != '.';
    SanitizePreserves(s, notDot);
    StripCharsPreserves(Sanitize(s), Trimmed, notDot);
  }

  // ---------------------------------------------------------------- safe_filename of any value

  /** The text `c in "._- "` tests against. */
  const KeepText: string := "._- "

  /** `c in s` for two strings: `c` is a contiguous run of `s` (the empty string is one of every string). */
  predicate IsInfix(c: string, s: string)
    decreases |s|
  {
    StartsWith(s, c) || (s != [] && IsInfix(c, s[1..]))
  }

  lemma {:induction false} InfixChars(c: string, s: string)
    requires IsInfix(c, s)
    ensures forall i :: 0 <= i < |c| ==> c[i] in s
    decreases |s|
  {
    if StartsWith(s, c) {
      assert forall i :: 0 <= i < |c| ==> c[i] == s[i];
    } else {
      InfixChars(c, s[1..]);
    }
  }

  /** Whether `c.isalnum() or c in "._- "` keeps an iterated string `c` whole. */
  predicate KeptPiece(c: string) {
    (c != [] && forall i :: 0 <= i < |c| ==> IsAlnum(c[i])) || IsInfix(c, KeepText)
  }

  /** An iterated string as it goes into the join: itself when kept, "_" otherwise. */
  function Piece(c: string): (r: string)
    ensures AllKept(r)
    ensures r == if KeptPiece(c) then c else "_"
  {
    if !KeptPiece(c) then "_"
    else if c != [] && forall i :: 0 <= i < |c| ==> IsAlnum(c[i]) then c
    else
      InfixChars(c, KeepText);
      c
  }

  /** A one-character string is a run of a text exactly when the character occurs in it. */
  lemma {:induction false} InfixOfChar(x: char, s: string)
    ensures IsInfix([x], s) <==> x in s
    decreases |s|
  {
    if s != [] {
      InfixOfChar(x, s[1..]);
      assert x in s <==> s[0] == x || x in s[1..];
    }
  }

  /** A one-character string is kept exactly when `Sanitize` keeps that character. */
  lemma KeptPieceOfChar(x: char)
    ensures KeptPiece([x]) <==> Kept(x)
  {
    InfixOfChar(x, KeepText);
    assert x in KeepText <==> x in {'.', '_', '-', ' '};
  }

  lemma ConcatKept(a: string, b: string)
    requires AllKept(a) && AllKept(b)
    ensures AllKept(a + b)
  {
    assert forall i :: |a| <= i < |a + b| ==> (a + b)[i] == b[i - |a|];
  }

  /**
   * `"".join(c if keep(c) else "_" for c in pieces)` over the elements of a list or the
   * keys of a dict: an element that is not a string has no `isalnum` and raises
   * AttributeError.
   */
  function SanitizePieces(pieces: seq<Json>): (r: Result<string, PyError>)
    ensures r.Ok? <==> forall k :: 0 <= k < |pieces| ==> pieces[k].JStr?
    ensures r.Ok? ==> AllKept(r.value)
    ensures r.Err? ==> r.error == AttributeError
    decreases |pieces|
  {
    if pieces == [] then Ok("")
    else if !pieces[0].JStr? then Err(AttributeError)
    else
      assert forall k :: 1 <= k < |pieces| ==> pieces[k] == pieces[1..][k - 1];
      var rest := SanitizePieces(pieces[1..]);
      if rest.Err? then rest
      else
        ConcatKept(Piece(pieces[0].s), rest.value);
        Ok(Piece(pieces[0].s) + rest.value)
  }

  /** The keys of the dict built from the pairs, in its order: each key once, where it first appears. */
  function KeysOf(fields: seq<(string, Json)>): seq<string> {
    Distinct(seq(|fields|, k requires 0 <= k < |fields| => fields[k].0))
  }

  /** Strings as JSON values. */
  function Texts(xs: seq<string>): (r: seq<Json>)
    ensures |r| == |xs| && forall k :: 0 <= k < |xs| ==> r[k] == JStr(xs[k])
  {
    seq(|xs|, k requires 0 <= k < |xs| => JStr(xs[k]))
  }

  /**
   * The cleaned text of `for c in (s or "")` before stripping: the characters of a
   * string, the elements of a list, the keys of a dict; a truthy int is not iterable
   * and raises TypeError.
   */
  function SanitizeValue(j: Json): (r: Result<string, PyError>)
    ensures r.Ok? ==> AllKept(r.value)
  {
    match j
    case JNull => Ok("")
    case JInt(i) => if i == 0 then Ok("") else Err(TypeError)
    case JStr(s) => Ok(Sanitize(s))
    case JArr(items) => SanitizePieces(items)
    case JObj(fields) => SanitizePieces(Texts(KeysOf(fields)))
  }

  /**
   * `safe_filename(x)` for any JSON value: TypeError for a non-zero int, AttributeError
   * for a list with an element that is not a string; otherwise a tidy name.
   */
  function SafeFilenameOf(j: Json): (r: Result<string, PyError>)
    ensures j.JStr? ==> r == Ok(SafeFilename(j.s))
    ensures r.Err? <==> (j.JInt? && j.i != 0) || (j.JArr? && exists k :: 0 <= k < |j.items| && !j.items[k].JStr?)
    ensures r.Err? ==> r.error == if j.JInt? then TypeError else AttributeError
    ensures r.Ok? ==> 0 < |r.value| <= MaxNameLength && AllKept(r.value) && r.value[0] !in Trimmed
  {
    match SanitizeValue(j)
    case Err(e) => Err(e)
    case Ok(cleaned) => Ok(Tidy(cleaned))
  }

  /** The one-character strings of a text, as `list(s)` gives them. */
  function CharPieces(s: string): (r: seq<Json>)
    ensures |r| == |s| && forall i :: 0 <= i < |s| ==> r[i] == JStr([s[i]])
  {
    seq(|s|, i requires 0 <= i < |s| => JStr([s[i]]))
  }

  lemma {:induction false} SanitizePiecesOfChars(s: string)
    ensures SanitizePieces(CharPieces(s)) == Ok(Sanitize(s))
    decreases |s|
  {
    if s != [] {
      assert CharPieces(s)[1..] == CharPieces(s[1..]);
      SanitizePiecesOfChars(s[1..]);
      KeptPieceOfChar(s[0]);
    }
  }

  /** A list of the one-character strings of a text is named exactly as the text is. */
  lemma SafeFilenameOfCharList(s: string)
    ensures SafeFilenameOf(JArr(CharPieces(s))) == Ok(SafeFilename(s))
  {
    SanitizePiecesOfChars(s);
  }

  /** The dict of one pair has that one key. */
  lemma KeysOfOne(key: string, v: Json)
    ensures KeysOf([(key, v)]) == [key]
  {
    var keys := seq(1, k requires 0 <= k < 1 => [(key, v)][k].0);
    assert keys == [key];
    assert [key][..0] == [];
  }

  /** An alphanumeric name, not too long, is already tidy. */
  lemma TidyOfAlnum(name: string)
    requires 0 < |name| <= MaxNameLength && forall i :: 0 <= i < |name| ==> IsAlnum(name[i])
    ensures AllKept(name) && Tidy(name) == name
  {
    StripCharsSpec(name, Trimmed);
  }

  /** A dict with one alphanumeric key is named after the key, whatever its value. */
  lemma SafeFilenameOfDictKey(key: string, v: Json)
    requires 0 < |key| <= MaxNameLength && forall i :: 0 <= i < |key| ==> IsAlnum(key[i])
    ensures SafeFilenameOf(JObj([(key, v)])) == Ok(key)
  {
    KeysOfOne(key, v);
    var pieces := Texts([key]);
    assert pieces == [JStr(key)];
    assert pieces[1..] == [];
    assert Piece(key) == key;
    assert SanitizePieces(pieces) == Ok(key + "");
    assert key + "" == key;
    TidyOfAlnum(key);
  }

  // ---------------------------------------------------------------- preferred_year

  /**
   * `preferred_year`: the publication's year when it is a digit value, else the
   * product's, written back as `str(int(x))` (so "007" becomes "7"); otherwise the
   * first four characters of `lineOffDate` when they are digits; otherwise None.
   * `len` of a truthy int raises TypeError; a list of four or more items, or a dict of
   * four or more distinct keys, cannot be sliced and checked as a string and raises too.
   */
  function PreferredYear(pub: Publication, prod: Product): (r: Result<Option<string>, PyError>)
    ensures IsDigitValue(pub.year) ==> r == Ok(Some(NatToString(DigitValueOf(pub.year))))
    ensures !IsDigitValue(pub.year) && IsDigitValue(prod.year) ==> r == Ok(Some(NatToString(DigitValueOf(prod.year))))
    ensures r.Ok? && r.value.Some? ==> IsDigits(r.value.value)
  {
    if IsDigitValue(pub.year) then Ok(Some(NatToString(DigitValueOf(pub.year))))
    else if IsDigitValue(prod.year) then Ok(Some(NatToString(DigitValueOf(prod.year))))
    else
      match Or(pub.lineOffDate, JStr(""))
      case JStr(s) => if |s| >= 4 && IsDigits(s[..4]) then Ok(Some(s[..4])) else Ok(None)
      case JInt(_) => Err(TypeError)
      case JArr(items) => if |items| >= 4 then Err(AttributeError) else Ok(None)
      case JObj(fields) => if |KeysOf(fields)| >= 4 then Err(TypeError) else Ok(None)
      case JNull => Ok(None)
  }

  /**
   * With no digit year on either record, a string `lineOffDate` gives its leading
   * four digits or nothing.
   */
  lemma PreferredYearFromDate(pub: Publication, prod: Product)
    requires !IsDigitValue(pub.year) && !IsDigitValue(prod.year) && pub.lineOffDate.JStr?
    ensures var s := pub.lineOffDate.s;
            PreferredYear(pub, prod) == if |s| >= 4 && IsDigits(s[..4]) then Ok(Some(s[..4])) else Ok(None)
  {
  }

  /**
   * With no digit year on either record, a dict `lineOffDate` is measured by its
   * distinct keys, as `len` of the dict `json.loads` builds: four or more raise.
   */
  lemma PreferredYearFromDict(pub: Publication, prod: Product)
    requires !IsDigitValue(pub.year) && !IsDigitValue(prod.year) && pub.lineOffDate.JObj?
    ensures PreferredYear(pub, prod)
              == if |KeysOf(pub.lineOffDate.fields)| >= 4 then Err(TypeError) else Ok(None)
  {
  }

  /** A dict that repeats one key, however often, has one entry and gives no year. */
  lemma PreferredYearFromRepeatedKey(pub: Publication, prod: Product, key: string)
    requires !IsDigitValue(pub.year) && !IsDigitValue(prod.year) && pub.lineOffDate.JObj?
    requires forall k :: 0 <= k < |pub.lineOffDate.fields| ==> pub.lineOffDate.fields[k].0 == key
    ensures PreferredYear(pub, prod) == Ok(None)
  {
    var fields := pub.lineOffDate.fields;
    DistinctOfConstant(seq(|fields|, k requires 0 <= k < |fields| => fields[k].0), key);
  }

  /** The year is written without leading zeros: it reads back as the same number. */
  lemma PreferredYearValue(pub: Publication, prod: Product)
    requires IsDigitValue(pub.year) || IsDigitValue(prod.year)
    ensures PreferredYear(pub, prod).Ok? && PreferredYear(pub, prod).value.Some?
    ensures var y := PreferredYear(pub, prod).value.value;
            DecimalValue(y) == DigitValueOf(if IsDigitValue(pub.year) then pub.year else prod.year)
  {
    var n := DigitValueOf(if IsDigitValue(pub.year) then pub.year else prod.year);
    DecimalOfNatToString(n);
  }

  // ---------------------------------------------------------------- make_named_pdf

  /**
   * `[clean(x) for x in segments if x and clean(x)]` for a `clean` that never returns
   * the empty string (as `safe_filename` never does), so only the `x` test matters.
   */
  function Segments(xs: seq<string>, clean: string -> string): (r: seq<string>)
    ensures |r| <= |xs|
    decreases |xs|
  {
    if xs == [] then []
    else (if xs[0] != [] then [clean(xs[0])] else []) + Segments(xs[1..], clean)
  }

  /** Every segment of inputs with property `q` has property `p` when `clean` maps `q` to `p`. */
  lemma {:induction false} SegmentsPreserve(xs: seq<string>, clean: string -> string, q: string -> bool, p: string -> bool)
    requires forall k :: 0 <= k < |xs| ==> q(xs[k])
    requires forall x :: q(x) ==> p(clean(x))
    ensures forall k :: 0 <= k < |Segments(xs, clean)| ==> p(Segments(xs, clean)[k])
    decreases |xs|
  {
    if xs != [] {
      assert forall k :: 1 <= k < |xs| ==> xs[k] == xs[1..][k - 1];
      SegmentsPreserve(xs[1..], clean, q, p);
    }
  }

  /** All components empty: no segment at all. */
  lemma {:induction false} SegmentsOfEmpty(xs: seq<string>, clean: string -> string)
    requires forall k :: 0 <= k < |xs| ==> xs[k] == []
    ensures Segments(xs, clean) == []
    decreases |xs|
  {
    if xs != [] {
      assert forall k :: 1 <= k < |xs| ==> xs[k] == xs[1..][k - 1];
      SegmentsOfEmpty(xs[1..], clean);
    }
  }

  /** The stem before ".pdf": the dot-joined segments, or "manual" when there are none. */
  function Stem(segments: seq<string>): string {
    if segments == [] then FallbackName else Join(segments, ".")
  }

  /** The name built from the segments: the stem with spaces as "_", then ".pdf". */
  function PdfName(segs: seq<string>): (r: string)
    ensures EndsWith(r, ".pdf")
  {
    ReplaceChar(Stem(segs), ' ', '_') + ".pdf"
  }

  /** The name built from a list of string components. */
  function NameOf(xs: seq<string>): (r: string)
    ensures EndsWith(r, ".pdf")
  {
    PdfName(Segments(xs, SafeFilename))
  }

  /** `make_named_pdf`, with a missing year written as the empty string (both are falsy). */
  function MakeNamedPdf(brand: string, model: string, modelType: string, year: Option<string>, partNumber: string): (r: string)
    ensures EndsWith(r, ".pdf")
  {
    NameOf([brand, model, modelType, if year.Some? then year.value else "", partNumber])
  }

  /** A character of a join is a character of a part or of the separator. */
  lemma {:induction false} JoinChars(parts: seq<string>, sep: string, p: char -> bool)
    requires forall k, i :: 0 <= k < |parts| && 0 <= i < |parts[k]| ==> p(parts[k][i])
    requires forall i :: 0 <= i < |sep| ==> p(sep[i])
    ensures forall i :: 0 <= i < |Join(parts, sep)| ==> p(Join(parts, sep)[i])
    decreases |parts|
  {
    if |parts| > 1 {
      assert forall k :: 1 <= k < |parts| ==> parts[k] == parts[1..][k - 1];
      JoinChars(parts[1..], sep, p);
    }
  }

  /** The characters a generated name may hold: letters, digits, ".", "_" and "-". */
  predicate NameChar(c: char) {
    IsAlnum(c) || c in {'.', '_', '-'}
  }

  predicate AllNameChars(s: string) {
    forall i :: 0 <= i < |s| ==> NameChar(s[i])
  }

  /** A stem of kept characters holds, once spaces are replaced, no space and no "/". */
  lemma StemCharacters(segs: seq<string>)
    requires forall k :: 0 <= k < |segs| ==> AllKept(segs[k])
    ensures AllNameChars(ReplaceChar(Stem(segs), ' ', '_'))
  {
    JoinChars(segs, ".", Kept);
    var stem := Stem(segs);
    assert forall i :: 0 <= i < |stem| ==> Kept(stem[i]);
  }

  lemma ConcatNameChars(a: string, b: string)
    requires AllNameChars(a) && AllNameChars(b)
    ensures AllNameChars(a + b)
  {
    assert forall i :: |a| <= i < |a + b| ==> (a + b)[i] == b[i - |a|];
  }

  /** Every segment is made of kept characters. */
  lemma SegmentsKept(xs: seq<string>)
    ensures forall k :: 0 <= k < |Segments(xs, SafeFilename)| ==> AllKept(Segments(xs, SafeFilename)[k])
  {
    var any := (x: string) => true;
    SegmentsPreserve(xs, SafeFilename, any, AllKept);
  }

  /** A name built from segments of kept characters holds only name characters. */
  lemma PdfNameCharacters(segs: seq<string>)
    requires forall k :: 0 <= k < |segs| ==> AllKept(segs[k])
    ensures AllNameChars(PdfName(segs))
  {
    StemCharacters(segs);
    assert AllNameChars(".pdf");
    ConcatNameChars(ReplaceChar(Stem(segs), ' ', '_'), ".pdf");
  }

  /**
   * Every character of a generated name is a letter, a digit, ".", "_" or "-": in
   * particular there is no "/" and no space, so the name is one path component.
   */
  lemma NameOfCharacters(xs: seq<string>)
    ensures AllNameChars(NameOf(xs))
  {
    SegmentsKept(xs);
    PdfNameCharacters(Segments(xs, SafeFilename));
  }

  /** With every component empty or missing, the name is "manual.pdf". */
  lemma MakeNamedPdfFallback(year: Option<string>)
    requires year.None? || year.value == ""
    ensures MakeNamedPdf("", "", "", year, "") == "manual.pdf"
  {
    var xs := ["", "", "", if year.Some? then year.value else "", ""];
    assert forall k :: 0 <= k < |xs| ==> xs[k] == [];
    NameOfAllEmpty(xs);
  }

  lemma NameOfAllEmpty(xs: seq<string>)
    requires forall k :: 0 <= k < |xs| ==> xs[k] == []
    ensures NameOf(xs) == "manual.pdf"
  {
    SegmentsOfEmpty(xs, SafeFilename);
    ReplaceCharAbsent(FallbackName, ' ', '_');
  }

  /** Replacing a character that is not the separator commutes with joining. */
  lemma {:induction false} ReplaceCharJoin(parts: seq<string>, c: char, a: char, b: char)
    requires a != c && b != c
    ensures ReplaceChar(Join(parts, [c]), a, b) == Join(ReplaceEach(parts, a, b), [c])
    decreases |parts|
  {
    if |parts| > 1 {
      ReplaceCharJoin(parts[1..], c, a, b);
      var head := parts[0];
      var tail := Join(parts[1..], [c]);
      ReplaceCharConcat(head, [c] + tail, a, b);
      ReplaceCharConcat([c], tail, a, b);
      assert ReplaceEach(parts, a, b)[1..] == ReplaceEach(parts[1..], a, b);
    }
  }

  lemma ReplaceCharConcat(s: string, t: string, a: char, b: char)
    ensures ReplaceChar(s + t, a, b) == ReplaceChar(s, a, b) + ReplaceChar(t, a, b)
  {
    var l := ReplaceChar(s + t, a, b);
    var r := ReplaceChar(s, a, b) + ReplaceChar(t, a, b);
    assert |l| == |r|;
    forall i | 0 <= i < |l|
      ensures l[i] == r[i]
    {
      if i < |s| {
        assert (s + t)[i] == s[i];
      } else {
        assert (s + t)[i] == t[i - |s|];
      }
    }
  }

  /** Replacing a character that does not occur changes nothing. */
  lemma ReplaceCharAbsent(s: string, a: char, b: char)
    requires forall i :: 0 <= i < |s| ==> s[i] != a
    ensures ReplaceChar(s, a, b) == s
  {
  }

  /** `s.replace(a, b)` applied to every part. */
  function ReplaceEach(parts: seq<string>, a: char, b: char): (r: seq<string>)
    ensures |r| == |parts|
    ensures forall k :: 0 <= k < |parts| ==> r[k] == ReplaceChar(parts[k], a, b)
    decreases |parts|
  {
    if parts == [] then [] else [ReplaceChar(parts[0], a, b)] + ReplaceEach(parts[1..], a, b)
  }

  /** A piece with no space and no "." survives replacing and splitting whole. */
  lemma PlainSplits(s: string)
    requires forall i :: 0 <= i < |s| ==> s[i] != ' ' && s[i] != '.'
    ensures Split(ReplaceChar(s, ' ', '_'), '.') == [s]
  {
    ReplaceCharAbsent(s, ' ', '_');
    SplitNoSeparator(s, '.');
  }

  /** With no segment the stem is "manual", which splits to itself. */
  lemma FallbackSplits()
    ensures Split(ReplaceChar(Stem([]), ' ', '_'), '.') == [FallbackName]
  {
    PlainSplits(FallbackName);
  }

  /** Dot-free segments split back out of their stem, with spaces as "_". */
  lemma StemSplits(segs: seq<string>)
    requires segs != []
    requires forall k :: 0 <= k < |segs| ==> DotFree(segs[k])
    ensures Split(ReplaceChar(Stem(segs), ' ', '_'), '.') == ReplaceEach(segs, ' ', '_')
  {
    var stem := ReplaceChar(Stem(segs), ' ', '_');
    assert Stem(segs) == Join(segs, ['.']);
    ReplaceCharJoin(segs, '.', ' ', '_');
    var parts := ReplaceEach(segs, ' ', '_');
    assert stem == Join(parts, ['.']);
    ReplaceEachDotFree(segs);
    SplitJoin(parts, '.');
  }

  lemma ReplaceEachDotFree(segs: seq<string>)
    requires forall k :: 0 <= k < |segs| ==> DotFree(segs[k])
    ensures forall k :: 0 <= k < |segs| ==> '.' !in ReplaceEach(segs, ' ', '_')[k]
  {
    var parts := ReplaceEach(segs, ' ', '_');
    forall k | 0 <= k < |parts|
      ensures '.' !in parts[k]
    {
      assert forall i :: 0 <= i < |parts[k]| ==> parts[k][i] != '.';
    }
  }

  /** Segments of dot-free components are dot-free. */
  lemma SegmentsDotFree(xs: seq<string>)
    requires forall k :: 0 <= k < |xs| ==> DotFree(xs[k])
    ensures forall k :: 0 <= k < |Segments(xs, SafeFilename)| ==> DotFree(Segments(xs, SafeFilename)[k])
  {
    forall x | DotFree(x)
      ensures DotFree(SafeFilename(x))
    {
      SafeFilenameDotFree(x);
    }
    SegmentsPreserve(xs, SafeFilename, DotFree, DotFree);
  }

  /** Dropping ".pdf" from a name leaves its stem with spaces replaced. */
  lemma NameOfStem(xs: seq<string>)
    ensures var r := NameOf(xs);
            r[..|r| - 4] == ReplaceChar(Stem(Segments(xs, SafeFilename)), ' ', '_')
  {
    var stem := ReplaceChar(Stem(Segments(xs, SafeFilename)), ' ', '_');
    assert (stem + ".pdf")[..|stem|] == stem;
  }

  /**
   * When no component contains ".", splitting the name before ".pdf" at "." gives back
   * the sanitised non-empty components in order (spaces as "_"), or ["manual"].
   */
  lemma NameOfSegments(xs: seq<string>)
    requires forall k :: 0 <= k < |xs| ==> DotFree(xs[k])
    ensures var r := NameOf(xs);
            var segs := Segments(xs, SafeFilename);
            Split(r[..|r| - 4], '.') == if segs == [] then [FallbackName] else ReplaceEach(segs, ' ', '_')
  {
    NameOfStem(xs);
    var segs := Segments(xs, SafeFilename);
    if segs == [] {
      FallbackSplits();
    } else {
      SegmentsDotFree(xs);
      StemSplits(segs);
    }
  }

  // ---------------------------------------------------------------- download_pdf

  const OutDir: string := "./manuals"

  /**
   * One entry of `[safe_filename(x) for x in segments if x and safe_filename(x)]`:
   * nothing for a falsy `x`; otherwise its safe name, which is never empty, so the
   * second test always passes.
   */
  function SegmentOf(j: Json): (r: Result<Option<string>, PyError>)
    ensures r.Ok? <==> !Truthy(j) || SafeFilenameOf(j).Ok?
    ensures r.Ok? ==> (r.value.Some? <==> Truthy(j))
    ensures r.Ok? && r.value.Some? ==> AllKept(r.value.value)
  {
    if !Truthy(j) then Ok(None)
    else
      match SafeFilenameOf(j)
      case Err(e) => Err(e)
      case Ok(name) => Ok(Some(name))
  }

  /**
   * The comprehension of `make_named_pdf` over JSON components, in order: it raises
   * with the error of the first component that cannot be sanitised.
   */
  function SegmentsOf(xs: seq<Json>): (r: Result<seq<string>, PyError>)
    ensures r.Ok? <==> forall k :: 0 <= k < |xs| ==> SegmentOf(xs[k]).Ok?
    ensures r.Ok? ==> |r.value| <= |xs| && forall k :: 0 <= k < |r.value| ==> AllKept(r.value[k])
    ensures r.Err? ==> exists k :: 0 <= k < |xs| && SegmentOf(xs[k]) == Err(r.error)
    decreases |xs|
  {
    if xs == [] then Ok([])
    else
      assert forall k :: 1 <= k < |xs| ==> xs[k] == xs[1..][k - 1];
      var head := SegmentOf(xs[0]);
      if head.Err? then Err(head.error)
      else
        var tail := SegmentsOf(xs[1..]);
        if tail.Err? then tail
        else Ok((if head.value.Some? then [head.value.value] else []) + tail.value)
  }

  /** A value that fits the `str` annotation of `make_named_pdf`: a string, or falsy. */
  predicate TextLike(j: Json) {
    j.JStr? || !Truthy(j)
  }

  /** The string a text-like value stands for: a falsy value is skipped just as "" is. */
  function TextOf(j: Json): string {
    if j.JStr? then j.s else ""
  }

  /** Components that are strings or falsy give the segments of `make_named_pdf` on strings. */
  lemma {:induction false} SegmentsOfText(xs: seq<Json>)
    requires forall k :: 0 <= k < |xs| ==> TextLike(xs[k])
    ensures SegmentsOf(xs) == Ok(Segments(seq(|xs|, k requires 0 <= k < |xs| => TextOf(xs[k])), SafeFilename))
    decreases |xs|
  {
    var ts := seq(|xs|, k requires 0 <= k < |xs| => TextOf(xs[k]));
    if xs != [] {
      var rest := seq(|xs| - 1, k requires 0 <= k < |xs| - 1 => TextOf(xs[1..][k]));
      assert ts[1..] == rest;
      SegmentsOfText(xs[1..]);
    }
  }

  /** The components `download_pdf` hands to `make_named_pdf`, each after its `x or ""`. */
  function Components(prod: Product, pub: Publication, year: Option<string>): (cs: seq<Json>)
    ensures |cs| == 5
  {
    [Or(prod.brand, JStr("")),
     Or(prod.model, JStr("")),
     Or(Or(Or(pub.modelType, prod.modelType), prod.model), JStr("")),
     if year.Some? then JStr(year.value) else JNull,
     Or(pub.partNumber, JStr(""))]
  }

  /**
   * `os.path.join(OUT_DIR, name)` for the name `download_pdf` builds: the error of
   * `preferred_year`, else the error of the first component, else the path.
   */
  function TargetPath(prod: Product, pub: Publication): (r: Result<string, PyError>)
    ensures PreferredYear(pub, prod).Err? ==> r == Err(PreferredYear(pub, prod).error)
    ensures r.Ok? ==> PreferredYear(pub, prod).Ok? && SegmentsOf(Components(prod, pub, PreferredYear(pub, prod).value)).Ok?
  {
    var year := PreferredYear(pub, prod);
    if year.Err? then Err(year.error)
    else
      var segs := SegmentsOf(Components(prod, pub, year.value));
      if segs.Err? then Err(segs.error)
      else Ok(OutDir + "/" + PdfName(segs.value))
  }

  /** With string or falsy components, the path is the output directory and `make_named_pdf`'s name. */
  lemma TargetPathOfText(prod: Product, pub: Publication)
    requires PreferredYear(pub, prod).Ok?
    requires var cs := Components(prod, pub, PreferredYear(pub, prod).value);
             forall k :: 0 <= k < 5 ==> TextLike(cs[k])
    ensures var cs := Components(prod, pub, PreferredYear(pub, prod).value);
            TargetPath(prod, pub)
              == Ok(OutDir + "/" + MakeNamedPdf(TextOf(cs[0]), TextOf(cs[1]), TextOf(cs[2]),
                                               PreferredYear(pub, prod).value, TextOf(cs[4])))
  {
    var year := PreferredYear(pub, prod).value;
    var cs := Components(prod, pub, year);
    SegmentsOfText(cs);
    var ts := seq(|cs|, k requires 0 <= k < |cs| => TextOf(cs[k]));
    assert ts == [TextOf(cs[0]), TextOf(cs[1]), TextOf(cs[2]), if year.Some? then year.value else "", TextOf(cs[4])];
  }

  /** A publication whose model type is a dict with one alphanumeric key contributes that key to the name. */
  lemma DictModelTypeSegment(prod: Product, pub: Publication, key: string, v: Json)
    requires pub.modelType == JObj([(key, v)])
    requires 0 < |key| <= MaxNameLength && forall i :: 0 <= i < |key| ==> IsAlnum(key[i])
    ensures forall year :: SegmentOf(Components(prod, pub, year)[2]) == Ok(Some(key))
  {
    SafeFilenameOfDictKey(key, v);
  }

  /** What `download_pdf` does with the path: return it at once, or fetch into it. */
  datatype Download = Skip(path: string) | Fetch(path: string)

  /** The exists-then-skip rule, over the set of paths that already exist. */
  function PlanDownload(existing: set<string>, prod: Product, pub: Publication): (r: Result<Download, PyError>)
    ensures r.Ok? <==> TargetPath(prod, pub).Ok?
    ensures r.Ok? ==> r.value.path == TargetPath(prod, pub).value
    ensures r.Ok? ==> (r.value.Skip? <==> r.value.path in existing)
  {
    var path := TargetPath(prod, pub);
    if path.Err? then Err(path.error)
    else if path.value in existing then Ok(Skip(path.value))
    else Ok(Fetch(path.value))
  }

  /** The target is a ".pdf" file directly inside "./manuals". */
  lemma TargetPathInOutDir(prod: Product, pub: Publication)
    requires TargetPath(prod, pub).Ok?
    ensures var p := TargetPath(prod, pub).value;
            StartsWith(p, OutDir + "/") && EndsWith(p, ".pdf")
            && forall i :: |OutDir| + 1 <= i < |p| ==> p[i] != '/'
  {
    var segs := SegmentsOf(Components(prod, pub, PreferredYear(pub, prod).value)).value;
    PdfNameCharacters(segs);
    InOutDir(PdfName(segs));
  }

  /** A name of name characters ending in ".pdf", joined to the output directory. */
  lemma InOutDir(name: string)
    requires AllNameChars(name) && EndsWith(name, ".pdf")
    ensures var p := OutDir + "/" + name;
            StartsWith(p, OutDir + "/") && EndsWith(p, ".pdf")
            && forall i :: |OutDir| + 1 <= i < |p| ==> p[i] != '/'
  {
    var p := OutDir + "/" + name;
    assert p[..|OutDir| + 1] == OutDir + "/";
    assert p[|p| - 4..] == name[|name| - 4..];
    assert forall i :: |OutDir| + 1 <= i < |p| ==> p[i] == name[i - |OutDir| - 1];
  }

  /** Once a file has been fetched, asking again for the same publication skips it. */
  lemma SecondDownloadSkips(existing: set<string>, prod: Product, pub: Publication)
    requires PlanDownload(existing, prod, pub).Ok?
    ensures var first := PlanDownload(existing, prod, pub).value;
            PlanDownload(existing + {first.path}, prod, pub) == Ok(Skip(first.path))
  {
  }
}
