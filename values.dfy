/**
 * The data the field types and the indexing engine pass around: decoded JSON /
 * PHP values, index fragments, query terms, indexing options, and the external
 * parsers and converters the field types call, bundled as `Parsers`.
 */
module Values {
  import opened Wrappers
  import opened PhpStrings

  /**
   * A PHP value as it is sent to or read from the index. `Obj` is an
   * associative array: its members in order.
   */
  datatype Value =
    | Null
    | Bool(b: bool)
    | Num(r: real)
    | Str(s: string)
    | Arr(items: seq<Value>)
    | Obj(members: seq<(string, Value)>)
  {
    predicate IsArray() {
      Arr? || Obj?
    }
  }

  /** An index fragment (or a document): sub-field name to value. */
  type Fragment = map<string, Value>

  /** A query term of the search-expression parser: its text and the field it targets ("" for none). */
  datatype Term = Term(text: string, field: string)

  /** Indexing options: the flags given as plain values, and `relationship_type_id`. */
  datatype Options = Options(flags: set<string>, relationshipTypeId: Option<int>)

  const NoOptions: Options := Options({}, None)

  /** What `caGetISODates` found: the start and end texts, "" where a bound is missing. */
  datatype IsoDates = IsoDates(start: string, end: string)

  /** What `CurrencyAttributeValue::parseValue` found: `value_decimal1` and `value_longtext1`. */
  datatype ParsedCurrency = ParsedCurrency(amount: Option<real>, currencyCode: Option<string>)

  /** What `caParseGISSearch` found: the bounding box of a free-text location search. */
  datatype GisBox = GisBox(minLongitude: real, minLatitude: real, maxLongitude: real, maxLatitude: real)

  /**
   * The parsers and conversions the field types call and that are not part of
   * this model. Each is a deterministic function of its arguments.
   */
  datatype Parsers = Parsers(
    serialize: Value -> string,                  // serialize()
    textToFloat: string -> real,                 // (float) of a string
    floatToText: real -> string,                 // (string) of a float
    isoDates: (string, bool) -> Option<IsoDates>,  // caGetISODates(text, ['returnUnbounded' => flag]); None when unparsable
    rewriteDate: (Option<string>, bool) -> string, // caRewriteDateForElasticSearch(date, isStart)
    historicToUnix: string -> int,               // caHistoricTimestampToUnixTimestamp
    formatIso: int -> string,                    // DateTime::setTimestamp(t)->format("c")
    parseCurrency: string -> Option<ParsedCurrency>, // CurrencyAttributeValue::parseValue; None when not an array
    geocodePoints: string -> string,             // value_longtext2 of GeocodeAttributeValue::parseValue, "" when absent
    parseWeightKg: string -> Option<real>,       // caParseWeightDimension(...)->convertTo('KILOGRAM', 6); None when it throws
    genericFragment: (string, string, Value, Options) -> Fragment, // GenericElement::getIndexingFragment(key, default suffix, content, options)
    rewriteTermFieldSpec: Term -> Term,          // caRewriteElasticSearchTermFieldSpec
    parseGisSearch: string -> GisBox,            // caParseGISSearch
    relationshipTypeCode: int -> string          // caGetRelationshipTypeCode, "" when unknown
  )

  /** PHP truthiness of a value. */
  predicate Truthy(v: Value) {
    match v
    case Null => false
    case Bool(b) => b
    case Num(r) => r != 0.0
    case Str(s) => PhpStrings.Truthy(s)
    case Arr(items) => items != []
    case Obj(members) => members != []
  }

  /** `(float) v` for a scalar. */
  function ToFloat(p: Parsers, v: Value): real {
    match v
    case Null => 0.0
    case Bool(b) => if b then 1.0 else 0.0
    case Num(r) => r
    case Str(s) => p.textToFloat(s)
    case Arr(items) => if items == [] then 0.0 else 1.0
    case Obj(members) => if members == [] then 0.0 else 1.0
  }

  /** `(string) v` for a scalar (arrays are serialized before any field type converts them). */
  function ToText(p: Parsers, v: Value): string {
    match v
    case Null => ""
    case Bool(b) => if b then "1" else ""
    case Num(r) => p.floatToText(r)
    case Str(s) => s
    case Arr(_) => "Array"
    case Obj(_) => "Array"
  }

  /** `$a[$k] = $v` on an associative array: an existing member keeps its place, a new one is appended. */
  function ObjPut(members: seq<(string, Value)>, k: string, v: Value): (r: seq<(string, Value)>)
    ensures |r| >= 1 && (k, v) in r
    ensures members != [] && members[0].0 != k ==> r[0] == members[0]
    ensures forall m :: m in members && m.0 != k ==> m in r
  {
    if members == [] then [(k, v)]
    else if members[0].0 == k then [(k, v)] + members[1..]
    else [members[0]] + ObjPut(members[1..], k, v)
  }
}
