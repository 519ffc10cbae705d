/**
 * The field type of currency elements: an amount indexed as a number beside
 * its currency code, and query terms rewritten to the parsed amount, with the
 * code as an additional term.
 */
module Currency {
  import opened Wrappers
  import opened PhpStrings
  import opened Values
  import opened FieldType

  /** `getIndexingFragment($content, $options)` of the element with key `key`. */
  function IndexingFragment(p: Parsers, key: string, defaultSuffix: string, content: Value, options: Options): Fragment {
    var c := SerializeIfArray(p, content);
    if c == Str("") then p.genericFragment(key, defaultSuffix, c, options)
    else
      var parsed := p.parseCurrency(ToText(p, c));
      if parsed.Some? && parsed.value.amount.Some? then
        var code := if parsed.value.currencyCode.Some? then Str(parsed.value.currencyCode.value) else Null;
        map[key := Obj([(DataTypeSuffix(Some(SuffixCurrency), defaultSuffix), Num(parsed.value.amount.value)),
                        (DataTypeSuffix(Some(SuffixText), defaultSuffix), code)])]
      else p.genericFragment(key, defaultSuffix, c, options)
  }

  /**
   * A parsed amount gives exactly the `-currency` amount and the `-s` code under
   * `key`; empty content and content without an amount are the generic element's.
   */
  lemma IndexingFragmentCases(p: Parsers, key: string, defaultSuffix: string, content: Value, options: Options)
    ensures var c := SerializeIfArray(p, content);
            var parsed := p.parseCurrency(ToText(p, c));
            var r := IndexingFragment(p, key, defaultSuffix, content, options);
            if c != Str("") && parsed.Some? && parsed.value.amount.Some? then
              r.Keys == {key} && r[key].Obj? && |r[key].members| == 2 &&
              r[key].members[0] == ("-currency", Num(parsed.value.amount.value)) &&
              r[key].members[1].0 == "-s" &&
              (r[key].members[1].1 == Null <==> parsed.value.currencyCode.None?) &&
              (parsed.value.currencyCode.Some? ==> r[key].members[1].1 == Str(parsed.value.currencyCode.value))
            else r == p.genericFragment(key, defaultSuffix, c, options)
  {
    assert DataTypeSuffix(Some(SuffixCurrency), defaultSuffix) == "-currency";
    assert DataTypeSuffix(Some(SuffixText), defaultSuffix) == "-s";
  }

  /** `getRewrittenTerm($term)`. */
  function RewrittenTerm(p: Parsers, term: Term): Term {
    var t := Term(term.text, StripMiddle(term.field));
    var reserved := ReservedTerm(t);
    if reserved.Some? then reserved.value
    else
      var parsed := p.parseCurrency(t.text);
      if parsed.Some? && parsed.value.amount.Some? then Term(p.floatToText(parsed.value.amount.value), t.field)
      else t
  }

  /**
   * Every term is first moved to its field without a middle part; on that
   * field `[blank]` and `[set]` give their missing and present tests, a term
   * that parses to an amount becomes that amount as text, and any other term
   * is kept as it is.
   */
  lemma RewrittenTermCases(p: Parsers, term: Term)
    ensures var r := RewrittenTerm(p, term);
            var t := Term(term.text, StripMiddle(term.field));
            var parsed := p.parseCurrency(term.text);
            (ReservedTerm(t).Some? ==> r == ReservedTerm(t).value) &&
            (Lower(term.text) == "[blank]" ==> r == Term(StripMiddle(term.field), "_missing_")) &&
            (Lower(term.text) == "[set]" ==> r == Term(StripMiddle(term.field), "_exists_")) &&
            (ReservedTerm(t).None? && parsed.Some? && parsed.value.amount.Some? ==>
               r == Term(p.floatToText(parsed.value.amount.value), StripMiddle(term.field))) &&
            (ReservedTerm(t).None? && !(parsed.Some? && parsed.value.amount.Some?) ==> r == t)
  {
  }

  /** On a three-part field the rewritten term lives on the field without its middle part. */
  lemma RewrittenTermThreeParts(p: Parsers, text: string, a: string, b: string, c: string)
    requires '\\' !in a && '\\' !in b && '\\' !in c
    ensures var r := RewrittenTerm(p, Term(text, a + "\\/" + b + "\\/" + c));
            if Lower(text) == "[blank]" || Lower(text) == "[set]" then r.text == a + "\\/" + c
            else r.field == a + "\\/" + c
  {
    StripMiddleThreeParts(a, b, c);
  }

  /** `getAdditionalTerms($term)`: the currency code as a term on `<table>\/<element>_currency`; `None` is `false`. */
  function AdditionalTerms(p: Parsers, table: string, elementCode: string, term: Term): (r: Option<seq<Term>>)
    ensures r.Some? <==> p.parseCurrency(term.text).Some? && p.parseCurrency(term.text).value.currencyCode.Some?
    ensures r.Some? ==> |r.value| == 1 &&
                        r.value[0] == Term(p.parseCurrency(term.text).value.currencyCode.value,
                                           table + "\\/" + elementCode + "_currency")
  {
    var parsed := p.parseCurrency(term.text);
    if parsed.Some? && parsed.value.currencyCode.Some? then
      Some([Term(parsed.value.currencyCode.value, table + "\\/" + elementCode + "_currency")])
    else None
  }
}
