/**
 * The field type of weight elements: weights are indexed, and queried, as
 * kilograms under the float suffix, so that ranges compare across units.
 */
module Weight {
  import opened Wrappers
  import opened PhpStrings
  import opened Values
  import opened FieldType

  /** `getDefaultSuffix()`: weights are floats. */
  const WeightDefaultSuffix := SuffixFloat

  /** `$content == ''` after serialization: null, false and the empty string. */
  predicate LooselyEmpty(v: Value) {
    v == Null || v == Bool(false) || v == Str("")
  }

  /** `getIndexingFragment($content, $options)` of the element with key `key`. */
  function IndexingFragment(p: Parsers, key: string, content: Value, options: Options): Fragment {
    var c := SerializeIfArray(p, content);
    if LooselyEmpty(c) then p.genericFragment(key, WeightDefaultSuffix, c, options)
    else
      match p.parseWeightKg(ToText(p, c))
      case None => map[]
      case Some(kg) => p.genericFragment(key, WeightDefaultSuffix, Num(kg), options)
  }

  /**
   * Loosely empty content is the generic element's; a parsed weight is the
   * generic element's fragment of the kilograms, under `f`; a weight that does
   * not parse gives no fragment at all.
   */
  lemma IndexingFragmentCases(p: Parsers, key: string, content: Value, options: Options)
    ensures var c := SerializeIfArray(p, content);
            var r := IndexingFragment(p, key, content, options);
            (LooselyEmpty(c) ==> r == p.genericFragment(key, "f", c, options)) &&
            (!LooselyEmpty(c) && p.parseWeightKg(ToText(p, c)).None? ==> r == map[]) &&
            (!LooselyEmpty(c) && p.parseWeightKg(ToText(p, c)).Some? ==>
               r == p.genericFragment(key, "f", Num(p.parseWeightKg(ToText(p, c)).value), options))
  {
  }

  /** `getRewrittenTerm($term)`. */
  function RewrittenTerm(p: Parsers, term: Term): Term {
    var t := Term(term.text, StripMiddle(term.field));
    var reserved := ReservedTerm(t);
    if reserved.Some? then reserved.value
    else
      match p.parseWeightKg(t.text)
      case None => t
      case Some(kg) => Term(p.floatToText(kg), t.field + "." + DataTypeSuffix(None, WeightDefaultSuffix))
  }

  /**
   * Every term is first moved to its field without a middle part; there
   * `[blank]` and `[set]` give their missing and present tests, a term that
   * parses queries its kilograms on the `-f` sub-field, and any other term is
   * kept as it is.
   */
  lemma RewrittenTermCases(p: Parsers, term: Term)
    ensures var r := RewrittenTerm(p, term);
            var t := Term(term.text, StripMiddle(term.field));
            var kg := p.parseWeightKg(term.text);
            (ReservedTerm(t).Some? ==> r == ReservedTerm(t).value) &&
            (Lower(term.text) == "[blank]" ==> r == Term(StripMiddle(term.field), "_missing_")) &&
            (Lower(term.text) == "[set]" ==> r == Term(StripMiddle(term.field), "_exists_")) &&
            (ReservedTerm(t).None? && kg.Some? ==> r == Term(p.floatToText(kg.value), StripMiddle(term.field) + ".-f")) &&
            (ReservedTerm(t).None? && kg.None? ==> r == t)
  {
    assert DataTypeSuffix(None, WeightDefaultSuffix) == "-f";
  }
}
