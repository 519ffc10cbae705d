/**
 * The common part of the index field types: the suffix vocabulary, the
 * dispatch from a content field name to the field type that encodes it, the
 * date-range encoding shared by the date types, and the helpers for query
 * terms that several field types share.
 */
module FieldType {
  import opened Wrappers
  import opened PhpStrings
  import opened Values

  // Sub-field suffixes of the index mapping.
  const SuffixText := "s"
  const SuffixIdno := "idno"
  const SuffixTokenizeWs := "tokenize-ws"
  const SuffixKeyword := "kw"
  const SuffixInteger := "i"
  const SuffixFloat := "f"
  const SuffixDouble := "d"
  const SuffixBoolean := "b"
  const SuffixLong := "l"
  const SuffixLongRange := "lr"
  const SuffixIntegerRange := "ir"
  const SuffixDoubleRange := "dr"
  const SuffixWildcard := "w"
  const SuffixGeoShape := "gs"
  const SuffixGeoPoint := "gp"
  const SuffixObject := "o"
  const SuffixDate := "dt"
  const SuffixDateRange := "dtr"
  const SuffixTime := "t"
  const SuffixTimeRange := "tr"
  const SuffixCurrency := "currency"
  const SuffixTimestamp := "ts"
  const Separator := "-"

  /** Every suffix the field types use. */
  const Suffixes: seq<string> := [
    SuffixText, SuffixIdno, SuffixTokenizeWs, SuffixKeyword, SuffixInteger, SuffixFloat,
    SuffixDouble, SuffixBoolean, SuffixLong, SuffixLongRange, SuffixIntegerRange,
    SuffixDoubleRange, SuffixWildcard, SuffixGeoShape, SuffixGeoPoint, SuffixObject,
    SuffixDate, SuffixDateRange, SuffixTime, SuffixTimeRange, SuffixCurrency, SuffixTimestamp]

  /** `getDefaultSuffix()` of the base class. */
  const DefaultSuffix := SuffixText

  /** `getDataTypeSuffix($suffix)`: the key of a sub-field; `None` stands for the default suffix. */
  function DataTypeSuffix(suffix: Option<string>, defaultSuffix: string): (r: string)
    ensures |r| >= 1 && r[..1] == Separator
    ensures r[1..] == (if suffix.Some? then suffix.value else defaultSuffix)
  {
    Separator + (if suffix.Some? then suffix.value else defaultSuffix)
  }

  /** Distinct suffixes give distinct sub-field keys, and no suffix given is the default suffix given. */
  lemma DataTypeSuffixKeys(a: string, b: string, defaultSuffix: string)
    ensures DataTypeSuffix(Some(a), defaultSuffix) == DataTypeSuffix(Some(b), defaultSuffix) <==> a == b
    ensures DataTypeSuffix(None, defaultSuffix) == DataTypeSuffix(Some(defaultSuffix), defaultSuffix)
    ensures DataTypeSuffix(None, DefaultSuffix) == "-s"
  {
    var ka := DataTypeSuffix(Some(a), defaultSuffix);
    var kb := DataTypeSuffix(Some(b), defaultSuffix);
    if ka == kb {
      assert a == ka[1..] == kb[1..] == b;
    }
  }

  /** The suffix vocabulary has no repeated entry, so every sub-field key names one mapping type. */
  lemma SuffixesDistinct()
    ensures forall i, j :: 0 <= i < j < |Suffixes| ==> Suffixes[i] != Suffixes[j]
  {
  }

  // ---------------------------------------------------------------------
  // The data model the field types consult (Datamodel, ca_metadata_elements)

  /** The `FIELD_TYPE` of an intrinsic field. */
  datatype FieldTypeCode =
    | Bit | Time | Number | TimeRange | Timecode
    | Date | DateRange | DateTime
    | HistoricDate | HistoricDateRange | HistoricDateTime
    | OtherType(code: int)

  /** What `Datamodel::getFieldInfo` tells about an intrinsic field. */
  datatype FieldInfo = FieldInfo(fieldType: FieldTypeCode, hasListCode: bool)

  /**
   * What the model instance of a table tells: its `ID_NUMBERING_ID_FIELD`
   * property, whether it is a label table or a model table, and its id-number
   * plugin (`getIndexValues`), if it has one.
   */
  datatype TableInfo = TableInfo(
    idNumberingField: Option<string>,
    isLabel: bool,
    isModel: bool,
    idnoPlugin: Option<Value -> seq<string>>)
  {
    /** `getProperty('ID_NUMBERING_ID_FIELD') == $field`, a missing property loosely equal to "". */
    predicate IsIdNumberingField(field: string) {
      if idNumberingField.Some? then idNumberingField.value == field else field == ""
    }
  }

  /** The metadata-attribute datatypes the dispatch distinguishes. */
  datatype AttributeDatatype =
    | DateRangeValue | GeocodeValue | CurrencyValue | LengthValue | WeightValue
    | TimecodeValue | IntegerValue | NumericValue | ListValue
    | OtherValue(code: int)

  /** The lookups of the data model, each a function of its arguments. */
  datatype Datamodel = Datamodel(
    elementCodeForId: int -> string,                       // ca_metadata_elements::getElementCodeForId, "" when unknown
    elementDatatype: string -> Option<AttributeDatatype>,  // ca_metadata_elements::getElementDatatype, None when not an element
    fieldNameForNum: (string, int) -> string,              // Datamodel::getFieldName
    fieldInfo: (string, string) -> FieldInfo,              // Datamodel::getFieldInfo
    tableInfo: string -> TableInfo)                        // Datamodel::getInstance

  // ---------------------------------------------------------------------
  // getInstance

  /** The field-type classes for metadata elements. */
  datatype ElementKind =
    | DateRangeElement | GeocodeElement | CurrencyElement | LengthElement | WeightElement
    | TimecodeElement | IntegerElement | NumericElement | ListItemElement | GenericElement

  /** A field-type instance: an intrinsic field of a table, or a metadata element of a given class. */
  datatype Instance =
    | IntrinsicField(table: string, field: string)
    | ElementField(kind: ElementKind, table: string, element: string)

  function KindOf(dt: AttributeDatatype): ElementKind {
    match dt
    case DateRangeValue => DateRangeElement
    case GeocodeValue => GeocodeElement
    case CurrencyValue => CurrencyElement
    case LengthValue => LengthElement
    case WeightValue => WeightElement
    case TimecodeValue => TimecodeElement
    case IntegerValue => IntegerElement
    case NumericValue => NumericElement
    case ListValue => ListItemElement
    case OtherValue(_) => GenericElement
  }

  /** Each of the nine known datatypes has its own class; every other datatype is a generic element. */
  lemma KindOfTable(a: AttributeDatatype, b: AttributeDatatype)
    ensures KindOf(a) == GenericElement <==> a.OtherValue?
    ensures KindOf(a) == KindOf(b) && !a.OtherValue? ==> a == b
  {
  }

  /**
   * `^([IA])[0-9]+$`: a letter I or A and digits to the end, where `$` also
   * matches before a final newline.
   */
  predicate IsIndexingFieldName(name: string) {
    |name| >= 2 && (name[0] == 'I' || name[0] == 'A') &&
    (AllDigits(name[1..]) ||
     (|name| >= 3 && name[|name| - 1] == '\n' && AllDigits(name[1..|name| - 1])))
  }

  /** The datatype lookup of an attribute name: only its last `/` component counts. */
  function ResolveAttribute(dm: Datamodel, table: string, name: string): Instance {
    var parts := Explode(name, "/");
    var element := parts[|parts| - 1];
    match dm.elementDatatype(element)
    case None => IntrinsicField(table, element)
    case Some(dt) => ElementField(KindOf(dt), table, element)
  }

  /** `FieldType::getInstance($table, $name)`; `None` is the null it returns for an unknown element id. */
  function GetInstance(dm: Datamodel, table: string, name: string): Option<Instance> {
    if IsIndexingFieldName(name) then
      var num := IntVal(name[1..]);
      if name[0] == 'A' then
        var code := dm.elementCodeForId(num);
        if PhpStrings.Truthy(code) then Some(ResolveAttribute(dm, table, code)) else None
      else
        Some(IntrinsicField(table, dm.fieldNameForNum(table, num)))
    else if PhpStrings.Truthy(name) then
      Some(ResolveAttribute(dm, table, name))
    else
      Some(IntrinsicField(table, name))
  }

  /** An `I` name is an intrinsic field, found without any element lookup. */
  lemma GetInstanceIntrinsicNumber(dm: Datamodel, table: string, name: string,
                                   codes: int -> string, datatypes: string -> Option<AttributeDatatype>)
    requires IsIndexingFieldName(name) && name[0] == 'I'
    ensures GetInstance(dm, table, name) == Some(IntrinsicField(table, dm.fieldNameForNum(table, IntVal(name[1..]))))
    ensures GetInstance(dm, table, name) ==
            GetInstance(dm.(elementCodeForId := codes, elementDatatype := datatypes), table, name)
  {
  }

  /** The result is null exactly for an `A` name whose element id has no code. */
  lemma GetInstanceNullIff(dm: Datamodel, table: string, name: string)
    ensures GetInstance(dm, table, name).None? <==>
            IsIndexingFieldName(name) && name[0] == 'A' &&
            !PhpStrings.Truthy(dm.elementCodeForId(IntVal(name[1..])))
  {
  }

  /** A name with a `/` in it is not an indexing field name. */
  lemma SlashNameNotIndexing(prefix: string, last: string)
    requires |last| >= 1
    ensures !IsIndexingFieldName(prefix + "/" + last)
  {
    var name := prefix + "/" + last;
    if |prefix| >= 1 {
      assert name[1..][|prefix| - 1] == '/';
      assert name[1..|name| - 1][|prefix| - 1] == '/';
    } else {
      assert name[0] == '/';
    }
  }

  /** Only the last `/` component of an attribute name reaches the datatype lookup. */
  lemma GetInstanceLastComponent(dm: Datamodel, table: string, prefix: string, last: string)
    requires '/' !in last && PhpStrings.Truthy(last) && !IsIndexingFieldName(last)
    ensures GetInstance(dm, table, prefix + "/" + last) == GetInstance(dm, table, last)
  {
    var name := prefix + "/" + last;
    SlashNameNotIndexing(prefix, last);
    assert PhpStrings.Truthy(name) by { assert |name| >= 2; }
    ExplodeLast(prefix, '/', last);
    ExplodeWithout(last, "/");
  }

  // ---------------------------------------------------------------------
  // serializeIfArray

  /** `serializeIfArray`: arrays become their serialized text; any other value is returned unchanged. */
  function SerializeIfArray(p: Parsers, content: Value): (r: Value)
    ensures !r.IsArray()
    ensures !content.IsArray() ==> r == content
    ensures content.IsArray() ==> r == Str(p.serialize(content))
  {
    if content.IsArray() then Str(p.serialize(content)) else content
  }

  // ---------------------------------------------------------------------
  // parseElasticsearchDateRange

  /** The timestamp of -9999-01-01T00:00:00 UTC. */
  const MinHistoricTimestamp: int := -377705116800
  /** The timestamp of 9999-12-31T00:00:00 UTC. */
  const MaxHistoricTimestamp: int := 253402214400

  /** A timestamp moved into the historic interval. */
  function Clamp(t: int): (r: int)
    ensures MinHistoricTimestamp <= r <= MaxHistoricTimestamp
    ensures MinHistoricTimestamp <= t <= MaxHistoricTimestamp ==> r == t
    ensures t < MinHistoricTimestamp ==> r == MinHistoricTimestamp
    ensures t > MaxHistoricTimestamp ==> r == MaxHistoricTimestamp
  {
    if t < MinHistoricTimestamp then MinHistoricTimestamp
    else if t > MaxHistoricTimestamp then MaxHistoricTimestamp
    else t
  }

  /** One historic date of a range, clamped into the historic interval and formatted as ISO 8601. */
  function HistoricDate(p: Parsers, piece: string): string {
    p.formatIso(Clamp(p.historicToUnix(Trim(piece))))
  }

  /**
   * One historic date as the code computes it: the clamp compares a `DateTime`
   * object with integers, which PHP does by converting the object to 1, so the
   * object always survives `min` and `max` and the timestamp is not clamped.
   */
  function HistoricDateAsWritten(p: Parsers, piece: string): string {
    p.formatIso(p.historicToUnix(Trim(piece)))
  }

  /**
   * A date the historic parser places after 9999-12-31 keeps its own timestamp
   * as written, whereas the corrected `HistoricDate` formats 9999-12-31 for it;
   * the two differ whenever the two timestamps format differently.
   */
  lemma HistoricDateAsWrittenUnclamped(p: Parsers, piece: string)
    requires p.historicToUnix(Trim(piece)) > MaxHistoricTimestamp
    requires p.formatIso(p.historicToUnix(Trim(piece))) != p.formatIso(MaxHistoricTimestamp)
    ensures HistoricDate(p, piece) == p.formatIso(MaxHistoricTimestamp)
    ensures HistoricDateAsWritten(p, piece) == p.formatIso(p.historicToUnix(Trim(piece)))
    ensures HistoricDateAsWritten(p, piece) != HistoricDate(p, piece)
  {
  }

  /**
   * The rewritten start and end of a date range; "" (or "0") where a bound is
   * missing. The historic path formats the dates as the code does, unclamped.
   */
  function DateRangeBounds(p: Parsers, content: Value, historic: bool): (string, string) {
    if historic then
      var dates := Explode(ToText(p, content), " - ");
      var start := HistoricDateAsWritten(p, dates[0]);
      (start, if |dates| > 1 then HistoricDateAsWritten(p, dates[1]) else start)
    else
      var parsed := p.isoDates(ToText(p, content), true);
      var start := if parsed.Some? then Some(parsed.value.start) else None;
      var end := if parsed.Some? then Some(parsed.value.end) else None;
      (p.rewriteDate(start, true), p.rewriteDate(end, false))
  }

  /** The historic start and end with the intended clamp into the historic interval. */
  function DateRangeBoundsCorrected(p: Parsers, content: Value): (string, string) {
    var dates := Explode(ToText(p, content), " - ");
    var start := HistoricDate(p, dates[0]);
    (start, if |dates| > 1 then HistoricDate(p, dates[1]) else start)
  }

  /**
   * As written, the historic bounds are the parsed timestamps of the first and
   * (if present) second ` - `-separated piece, formatted without a clamp; the
   * corrected bounds agree with them whenever those timestamps lie inside the
   * historic interval.
   */
  lemma HistoricBoundsAsWritten(p: Parsers, content: Value)
    ensures var dates := Explode(ToText(p, content), " - ");
            var (start, end) := DateRangeBounds(p, content, true);
            start == p.formatIso(p.historicToUnix(Trim(dates[0]))) &&
            (|dates| > 1 ==> end == p.formatIso(p.historicToUnix(Trim(dates[1])))) &&
            (|dates| == 1 ==> end == start)
    ensures var dates := Explode(ToText(p, content), " - ");
            (forall i :: 0 <= i < |dates| && i < 2 ==>
               MinHistoricTimestamp <= p.historicToUnix(Trim(dates[i])) <= MaxHistoricTimestamp) ==>
            DateRangeBoundsCorrected(p, content) == DateRangeBounds(p, content, true)
  {
  }

  /**
   * `parseElasticsearchDateRange($content, $historic)` of a field type whose key
   * is `key` and default suffix `defaultSuffix`.
   */
  function ParseDateRange(p: Parsers, key: string, defaultSuffix: string, content: Value, historic: bool): (r: Fragment)
  {
    var raw := DataTypeSuffix(None, defaultSuffix);
    var (start, end) := DateRangeBounds(p, content, historic);
    if !PhpStrings.Truthy(start) && !PhpStrings.Truthy(end) then
      map[raw := content]
    else
      var range := Obj([("gte", Str(start)), ("lte", Str(end))]);
      map[key := Obj(ObjPut([(raw, content)], DataTypeSuffix(Some(SuffixDateRange), defaultSuffix), range))]
  }

  /**
   * Without a usable bound the raw content alone, under the default-suffix key;
   * otherwise one member under `key` holding the raw content (unless the default
   * suffix is itself `dtr`) and the `-dtr` range.
   */
  lemma ParseDateRangeShape(p: Parsers, key: string, defaultSuffix: string, content: Value, historic: bool)
    ensures var r := ParseDateRange(p, key, defaultSuffix, content, historic);
            var (start, end) := DateRangeBounds(p, content, historic);
            var raw := DataTypeSuffix(None, defaultSuffix);
            (!PhpStrings.Truthy(start) && !PhpStrings.Truthy(end) ==> r == map[raw := content]) &&
            (PhpStrings.Truthy(start) || PhpStrings.Truthy(end) ==>
               r.Keys == {key} && r[key].Obj? &&
               ("-dtr", Obj([("gte", Str(start)), ("lte", Str(end))])) in r[key].members &&
               (defaultSuffix != SuffixDateRange ==> (raw, content) in r[key].members))
  {
    var raw := DataTypeSuffix(None, defaultSuffix);
    var (start, end) := DateRangeBounds(p, content, historic);
    var range := Obj([("gte", Str(start)), ("lte", Str(end))]);
    assert DataTypeSuffix(Some(SuffixDateRange), defaultSuffix) == "-dtr";
    assert ("-dtr", range) in ObjPut([(raw, content)], "-dtr", range);
    if defaultSuffix != SuffixDateRange {
      assert raw != DataTypeSuffix(Some(SuffixDateRange), defaultSuffix) by {
        DataTypeSuffixKeys(defaultSuffix, SuffixDateRange, defaultSuffix);
      }
    }
  }

  /**
   * On the corrected historic path both bounds are dates inside the historic
   * interval, and the end is the start when the content holds one date only.
   */
  lemma HistoricBoundsClamped(p: Parsers, content: Value)
    ensures var (start, end) := DateRangeBoundsCorrected(p, content);
            (exists t :: MinHistoricTimestamp <= t <= MaxHistoricTimestamp && start == p.formatIso(t)) &&
            (exists t :: MinHistoricTimestamp <= t <= MaxHistoricTimestamp && end == p.formatIso(t)) &&
            (|Explode(ToText(p, content), " - ")| == 1 ==> end == start)
  {
    var dates := Explode(ToText(p, content), " - ");
    var t0 := Clamp(p.historicToUnix(Trim(dates[0])));
    assert HistoricDate(p, dates[0]) == p.formatIso(t0);
    if |dates| > 1 {
      var t1 := Clamp(p.historicToUnix(Trim(dates[1])));
      assert HistoricDate(p, dates[1]) == p.formatIso(t1);
    }
  }

  // ---------------------------------------------------------------------
  // Query-term helpers shared by the element field types

  /** A field written `table\/container\/element` loses its middle part; any other field is kept. */
  function StripMiddle(field: string): string {
    var parts := Explode(field, "\\/");
    if |parts| == 3 then parts[0] + "\\/" + parts[2] else field
  }

  /** Three `\/`-separated parts become the first and the last. */
  lemma StripMiddleThreeParts(a: string, b: string, c: string)
    requires '\\' !in a && '\\' !in b && '\\' !in c
    ensures StripMiddle(a + "\\/" + b + "\\/" + c) == a + "\\/" + c
  {
    var sep := "\\/";
    assert a + sep + b + sep + c == a + sep + (b + sep + c);
    ExplodeAround(a, sep, b + sep + c);
    ExplodeAround(b, sep, c);
    ExplodeWithout(c, sep);
  }

  /** A field with no backslash is left as it is. */
  lemma StripMiddleNoSeparator(field: string)
    requires '\\' !in field
    ensures StripMiddle(field) == field
  {
    ExplodeWithout(field, "\\/");
  }

  /**
   * The reserved literals: `[blank]` in any case asks for a missing field and
   * `[set]` for a present one. The query term names the field as its text and
   * `_missing_` or `_exists_` as its field.
   */
  function ReservedTerm(t: Term): (r: Option<Term>)
    ensures r.Some? <==> Lower(t.text) == "[blank]" || Lower(t.text) == "[set]"
    ensures r.Some? ==> r.value.text == t.field
    ensures r.Some? ==> (r.value.field == "_missing_" <==> Lower(t.text) == "[blank]")
  {
    if Lower(t.text) == "[blank]" then Some(Term(t.field, "_missing_"))
    else if Lower(t.text) == "[set]" then Some(Term(t.field, "_exists_"))
    else None
  }

  /** The element types compare the lower-cased text, so every spelling of the literals is reserved. */
  lemma ReservedTermAnyCase(field: string)
    ensures ReservedTerm(Term("[BLANK]", field)) == Some(Term(field, "_missing_"))
    ensures ReservedTerm(Term("[Set]", field)) == Some(Term(field, "_exists_"))
    ensures ReservedTerm(Term("blank", field)) == None
  {
    assert Lower("[BLANK]") == "[blank]";
    assert Lower("[Set]") == "[set]";
    assert Lower("blank") == "blank";
  }
}
