/**
 * The field type of date-range elements: indexing through the shared
 * date-range encoding, and the translation of date queries, with an optional
 * comparison qualifier, into one range clause on the `-dtr` sub-field.
 */
module DateRange {
  import opened Wrappers
  import opened PhpStrings
  import opened Values
  import opened FieldType

  /** `getIndexingFragment($content, $options)`: the date-range encoding, never on the historic path. */
  function IndexingFragment(p: Parsers, key: string, defaultSuffix: string, content: Value, options: Options): (r: Fragment)
    ensures r == ParseDateRange(p, key, defaultSuffix, content, false)
  {
    ParseDateRange(p, key, defaultSuffix, content, false)
  }

  /** The longest prefix without a newline: what `.+` matches, `.` not matching a newline. */
  function LineOf(s: string): (r: string)
    ensures |r| <= |s| && r == s[..|r|]
    ensures '\n' !in r
    ensures |r| == |s| || s[|r|] == '\n'
  {
    if s == [] || s[0] == '\n' then [] else [s[0]] + LineOf(s[1..])
  }

  predicate IsQualifierChar(c: char) {
    c == '<' || c == '>' || c == '#'
  }

  /**
   * `^([\<\>\#][\=]?)(.+)`: a qualifier character, an optional `=` (given back
   * when nothing else would follow it on the line), then the rest of the line.
   * Without a match the whole text is the date and there is no qualifier.
   */
  function SplitQualifier(text: string): (Option<string>, string) {
    if |text| >= 2 && IsQualifierChar(text[0]) then
      if text[1] == '=' && |text| >= 3 && text[2] != '\n' then (Some(text[..2]), LineOf(text[2..]))
      else if text[1] != '\n' then (Some(text[..1]), LineOf(text[1..]))
      else (None, text)
    else (None, text)
  }

  /** The qualifiers split off a one-line date that does not itself start with `=` after a one-character qualifier. */
  lemma SplitQualifierOf(q: string, date: string)
    requires q in {"<", "<=", ">", ">=", "#", "#="}
    requires date != "" && '\n' !in date
    requires |q| == 1 ==> date[0] != '='
    ensures SplitQualifier(q + date) == (Some(q), date)
  {
    var text := q + date;
    assert text[..|q|] == q;
    assert text[|q|..] == date;
    LineOfWhole(date);
  }

  lemma {:induction false} LineOfWhole(s: string)
    requires '\n' !in s
    ensures LineOf(s) == s
  {
    if s != [] {
      LineOfWhole(s[1..]);
      assert [s[0]] + s[1..] == s;
    }
  }

  /** A text that does not start with a qualifier character is all date. */
  lemma SplitQualifierNone(text: string)
    requires text == "" || !IsQualifierChar(text[0])
    ensures SplitQualifier(text) == (None, text)
  {
  }

  /** One range clause: the sub-field it constrains and its bounds in order. */
  datatype RangeClause = RangeClause(field: string, bounds: seq<(string, string)>)

  /** The `ApplicationException` for a date the parser rejects, with the text and the field. */
  datatype DateFilterError = UnparsableDate(text: string, field: string)

  const UnboundedStart := "-9999-01-01T00:00:00Z"
  const UnboundedEnd := "9999-12-31T23:59:59Z"

  /** The parsed start and end with the open ends filled in. */
  function Bounds(dates: IsoDates): (r: (string, string))
    ensures PhpStrings.Truthy(r.0) && PhpStrings.Truthy(r.1)
    ensures PhpStrings.Truthy(dates.start) ==> r.0 == dates.start
    ensures PhpStrings.Truthy(dates.end) ==> r.1 == dates.end
    ensures !PhpStrings.Truthy(dates.start) ==> r.0 == UnboundedStart
    ensures !PhpStrings.Truthy(dates.end) ==> r.1 == UnboundedEnd
  {
    (if PhpStrings.Truthy(dates.start) then dates.start else UnboundedStart,
     if PhpStrings.Truthy(dates.end) then dates.end else UnboundedEnd)
  }

  /** The clause bounds of a qualifier: `<` before the start, `<=` up to the end, `>` after the end, `>=` from the start, otherwise both. */
  function QualifiedBounds(qualifier: Option<string>, start: string, end: string): seq<(string, string)> {
    if qualifier == Some("<") then [("lt", start)]
    else if qualifier == Some("<=") then [("lte", end)]
    else if qualifier == Some(">") then [("gt", end)]
    else if qualifier == Some(">=") then [("gte", start)]
    else [("gte", start), ("lte", end)]
  }

  /** `getFiltersForTerm($term)`. */
  function FiltersForTerm(p: Parsers, term: Term): Result<seq<RangeClause>, DateFilterError> {
    var t := Term(term.text, StripMiddle(term.field));
    var (qualifier, date) := SplitQualifier(t.text);
    var parsed := p.isoDates(date, false);
    if parsed.None? then
      Err(UnparsableDate(t.text, t.field))
    else
      var (start, end) := Bounds(parsed.value);
      Ok([RangeClause(RemoveBackslashes(t.field) + "." + DataTypeSuffix(Some(SuffixDateRange), DefaultSuffix),
                      QualifiedBounds(qualifier, start, end))])
  }

  /** The filter fails exactly when the date after the qualifier does not parse. */
  lemma FiltersForTermErrorIff(p: Parsers, term: Term)
    ensures FiltersForTerm(p, term).Err? <==> p.isoDates(SplitQualifier(term.text).1, false).None?
  {
  }

  /**
   * A parsed date gives exactly one clause on `<field>.-dtr`, the field without
   * its middle part and without backslashes, with the bounds the qualifier
   * selects, open ends filled in.
   */
  lemma FiltersForTermClause(p: Parsers, term: Term)
    requires p.isoDates(SplitQualifier(term.text).1, false).Some?
    ensures var r := FiltersForTerm(p, term);
            var (qualifier, date) := SplitQualifier(term.text);
            var dates := p.isoDates(date, false).value;
            var start := if PhpStrings.Truthy(dates.start) then dates.start else "-9999-01-01T00:00:00Z";
            var end := if PhpStrings.Truthy(dates.end) then dates.end else "9999-12-31T23:59:59Z";
            r.Ok? && |r.value| == 1 &&
            r.value[0].field == RemoveBackslashes(StripMiddle(term.field)) + ".-dtr" &&
            (qualifier == Some("<") ==> r.value[0].bounds == [("lt", start)]) &&
            (qualifier == Some("<=") ==> r.value[0].bounds == [("lte", end)]) &&
            (qualifier == Some(">") ==> r.value[0].bounds == [("gt", end)]) &&
            (qualifier == Some(">=") ==> r.value[0].bounds == [("gte", start)]) &&
            (qualifier !in {Some("<"), Some("<="), Some(">"), Some(">=")} ==>
               r.value[0].bounds == [("gte", start), ("lte", end)]) &&
            forall b :: b in r.value[0].bounds ==> PhpStrings.Truthy(b.1)
  {
    assert DataTypeSuffix(Some(SuffixDateRange), DefaultSuffix) == "-dtr";
  }

  /** `getFiltersForPhraseQuery($query)`: the term texts joined by spaces, on the last term's field without backslashes. */
  function FiltersForPhraseQuery(p: Parsers, terms: seq<Term>): Result<seq<RangeClause>, DateFilterError> {
    var rewritten := seq(|terms|, i requires 0 <= i < |terms| => p.rewriteTermFieldSpec(terms[i]));
    var texts := seq(|rewritten|, i requires 0 <= i < |rewritten| => rewritten[i].text);
    var field := if rewritten == [] then "" else RemoveBackslashes(rewritten[|rewritten| - 1].field);
    FiltersForTerm(p, Term(Join(texts, " "), field))
  }

  /** The texts of the rewritten terms of a phrase, in order. */
  function PhraseTexts(p: Parsers, terms: seq<Term>): (r: seq<string>)
    ensures |r| == |terms|
    ensures forall i :: 0 <= i < |terms| ==> r[i] == p.rewriteTermFieldSpec(terms[i]).text
  {
    if terms == [] then [] else PhraseTexts(p, terms[..|terms| - 1]) + [p.rewriteTermFieldSpec(terms[|terms| - 1]).text]
  }

  /**
   * A phrase of any length is one date: a single term is queried as its own
   * text, and one more term adds a space and its text, with the field always
   * that of the last term.
   */
  lemma FiltersForPhraseQueryTerms(p: Parsers, terms: seq<Term>, t: Term)
    ensures var rt := p.rewriteTermFieldSpec(t);
            FiltersForPhraseQuery(p, [t]) == FiltersForTerm(p, Term(rt.text, RemoveBackslashes(rt.field)))
    ensures var rt := p.rewriteTermFieldSpec(t);
            terms != [] ==>
              FiltersForPhraseQuery(p, terms + [t]) ==
              FiltersForTerm(p, Term(Join(PhraseTexts(p, terms), " ") + " " + rt.text, RemoveBackslashes(rt.field)))
  {
    var rt := p.rewriteTermFieldSpec(t);
    var one := [t];
    var rewrittenOne := seq(|one|, i requires 0 <= i < |one| => p.rewriteTermFieldSpec(one[i]));
    var textsOne := seq(|rewrittenOne|, i requires 0 <= i < |rewrittenOne| => rewrittenOne[i].text);
    assert textsOne == [rt.text];
    if terms != [] {
      var all := terms + [t];
      var rewritten := seq(|all|, i requires 0 <= i < |all| => p.rewriteTermFieldSpec(all[i]));
      var texts := seq(|rewritten|, i requires 0 <= i < |rewritten| => rewritten[i].text);
      assert texts == PhraseTexts(p, terms) + [rt.text];
      assert rewritten[|rewritten| - 1] == rt;
      JoinSnoc(PhraseTexts(p, terms), rt.text, " ");
    }
  }

  /** Two terms are queried as one date: their texts with one space between. */
  lemma FiltersForPhraseQueryTwoTerms(p: Parsers, a: Term, b: Term)
    ensures var ra := p.rewriteTermFieldSpec(a);
            var rb := p.rewriteTermFieldSpec(b);
            FiltersForPhraseQuery(p, [a, b]) == FiltersForTerm(p, Term(ra.text + " " + rb.text, RemoveBackslashes(rb.field)))
  {
    var ra := p.rewriteTermFieldSpec(a);
    var rb := p.rewriteTermFieldSpec(b);
    var terms := [a, b];
    var rewritten := seq(|terms|, i requires 0 <= i < |terms| => p.rewriteTermFieldSpec(terms[i]));
    assert rewritten == [ra, rb];
    var texts := seq(|rewritten|, i requires 0 <= i < |rewritten| => rewritten[i].text);
    assert texts == [ra.text] + [rb.text];
    JoinCons(ra.text, [rb.text], " ");
  }
}
