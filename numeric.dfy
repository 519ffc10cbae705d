/**
 * The field type of numeric elements. Its encoder first switches the
 * element's default suffix to the float suffix, then passes the content to the
 * generic element as a float, except for the empty string, which passes as it is.
 */
module Numeric {
  import opened Wrappers
  import opened PhpStrings
  import opened Values
  import opened FieldType

  /** The generic element's fragment of numeric content, under the default suffix `defaultSuffix`. */
  function NumericFragment(p: Parsers, key: string, defaultSuffix: string, content: Value, options: Options): Fragment {
    var c := SerializeIfArray(p, content);
    if c == Str("") then p.genericFragment(key, defaultSuffix, c, options)
    else p.genericFragment(key, defaultSuffix, Num(ToFloat(p, c)), options)
  }

  /**
   * The value handed to the generic element: the empty string itself (not 0),
   * and for any other content its float, a serialized array included.
   */
  lemma NumericFragmentValue(p: Parsers, key: string, defaultSuffix: string, content: Value, options: Options)
    ensures NumericFragment(p, key, defaultSuffix, Str(""), options) == p.genericFragment(key, defaultSuffix, Str(""), options)
    ensures content != Str("") && !content.IsArray() ==>
              NumericFragment(p, key, defaultSuffix, content, options) ==
              p.genericFragment(key, defaultSuffix, Num(ToFloat(p, content)), options)
    ensures content.IsArray() && p.serialize(content) != "" ==>
              NumericFragment(p, key, defaultSuffix, content, options) ==
              p.genericFragment(key, defaultSuffix, Num(p.textToFloat(p.serialize(content))), options)
  {
  }

  /** A numeric element: its table, its element code, and the default suffix it encodes with. */
  class NumericElement {
    const table: string
    const element: string
    var defaultSuffix: string

    constructor(table: string, element: string, defaultSuffix: string)
      ensures this.table == table && this.element == element && this.defaultSuffix == defaultSuffix
    {
      this.table := table;
      this.element := element;
      this.defaultSuffix := defaultSuffix;
    }

    /** `getIndexingFragment($content, $options)`: sets the default suffix to `f`, then encodes. */
    method GetIndexingFragment(p: Parsers, key: string, content: Value, options: Options) returns (r: Fragment)
      modifies this
      ensures defaultSuffix == SuffixFloat
      ensures r == NumericFragment(p, key, SuffixFloat, content, options)
    {
      defaultSuffix := SuffixFloat;
      var c := SerializeIfArray(p, content);
      if c == Str("") {
        return p.genericFragment(key, defaultSuffix, c, options);
      }
      r := p.genericFragment(key, defaultSuffix, Num(ToFloat(p, c)), options);
    }
  }
}
