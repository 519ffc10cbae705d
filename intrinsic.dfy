/**
 * The field type of intrinsic table fields: the sub-field suffix chosen from
 * the field's type, its list code, the hierarchy fields and the tokenizing
 * option; the indexing fragment; the rewriting of query terms; and the
 * rewriting of filters.
 */
module Intrinsic {
  import opened Wrappers
  import opened PhpStrings
  import opened Values
  import opened FieldType

  /** `FIELD_TYPE_TO_SUFFIX`, with `s` for the types it does not list. */
  function TypeSuffix(ft: FieldTypeCode): string {
    match ft
    case Bit => SuffixBoolean
    case Time => SuffixTime
    case Number => SuffixInteger
    case TimeRange => SuffixTimeRange
    case Timecode => SuffixTime
    case Date => SuffixDate
    case DateRange => SuffixDateRange
    case DateTime => SuffixDate
    case HistoricDate => SuffixDate
    case HistoricDateRange => SuffixDateRange
    case HistoricDateTime => SuffixDate
    case OtherType(_) => SuffixText
  }

  predicate IsHierarchyBound(field: string) {
    field == "hier_left" || field == "hier_right"
  }

  /** The types the switch treats as numbers: number, time, time range and timecode. */
  predicate IsNumeric(ft: FieldTypeCode) {
    ft.Number? || ft.Time? || ft.TimeRange? || ft.Timecode?
  }

  predicate IsDate(ft: FieldTypeCode) {
    ft.Date? || ft.DateRange? || ft.DateTime?
  }

  predicate IsHistoric(ft: FieldTypeCode) {
    ft.HistoricDate? || ft.HistoricDateRange? || ft.HistoricDateTime?
  }

  /** `TOKENIZE_INCOMPATIBLE`: the suffixes that are never made keywords. */
  predicate TokenizeIncompatible(s: string) {
    s == SuffixBoolean || s == SuffixInteger || s == SuffixTime
  }

  /**
   * The suffix after the switch the three methods share: `d` for the hierarchy
   * bounds of a number field, falling through to `kw` for a listed numeric
   * field whose suffix is not `d`.
   */
  function SwitchSuffix(ft: FieldTypeCode, field: string, hasListCode: bool): string {
    var s := if ft.Number? && IsHierarchyBound(field) then SuffixDouble else TypeSuffix(ft);
    if IsNumeric(ft) && hasListCode && s != SuffixDouble then SuffixKeyword else s
  }

  /** The suffix of an indexed value: DONT_TOKENIZE makes it `kw` unless it is `b`, `i` or `t`. */
  function IndexingSuffix(ft: FieldTypeCode, field: string, hasListCode: bool, dontTokenize: bool): string {
    var s := SwitchSuffix(ft, field, hasListCode);
    if dontTokenize && !TokenizeIncompatible(s) then SuffixKeyword else s
  }

  /** The suffix a query term or a filter targets: `kw` unless it is `b`, `i` or `t`. */
  function QuerySuffix(ft: FieldTypeCode, field: string, hasListCode: bool): (s: string)
    ensures s in {SuffixBoolean, SuffixInteger, SuffixTime, SuffixKeyword}
  {
    var s := SwitchSuffix(ft, field, hasListCode);
    if TokenizeIncompatible(s) then s else SuffixKeyword
  }

  /** The decision table of the indexing suffix for the types that are not dates. */
  lemma IndexingSuffixTable(ft: FieldTypeCode, field: string, hasListCode: bool, dontTokenize: bool)
    requires !IsDate(ft) && !IsHistoric(ft)
    ensures var s := IndexingSuffix(ft, field, hasListCode, dontTokenize);
            (ft.Bit? ==> s == "b") &&
            (ft.Number? && IsHierarchyBound(field) ==> s == (if dontTokenize then "kw" else "d")) &&
            (ft.Number? && !IsHierarchyBound(field) ==> s == (if hasListCode then "kw" else "i")) &&
            (ft.Time? || ft.Timecode? ==> s == (if hasListCode then "kw" else "t")) &&
            (ft.TimeRange? ==> s == (if hasListCode || dontTokenize then "kw" else "tr")) &&
            (ft.OtherType? ==> s == (if dontTokenize then "kw" else "s"))
  {
  }

  /** A query targets `b`, `i` or `t` only where indexing wrote that suffix; everything else is `kw`. */
  lemma QuerySuffixTable(ft: FieldTypeCode, field: string, hasListCode: bool)
    ensures var s := QuerySuffix(ft, field, hasListCode);
            (s == "b" <==> ft.Bit?) &&
            (s == "i" <==> ft.Number? && !IsHierarchyBound(field) && !hasListCode) &&
            (s == "t" <==> (ft.Time? || ft.Timecode?) && !hasListCode) &&
            (s != "kw" ==> s == IndexingSuffix(ft, field, hasListCode, false)
                                == IndexingSuffix(ft, field, hasListCode, true))
  {
  }

  /** `getKey()`: the table name and the field name. */
  function Key(table: string, field: string): string {
    table + "/" + field
  }

  /**
   * The content as it is stored: arrays serialized, the empty string made null,
   * bit fields cast to a boolean, numeric fields without a list code cast to a float.
   */
  function StoredContent(p: Parsers, ft: FieldTypeCode, hasListCode: bool, content: Value): (r: Value)
    ensures !r.IsArray() && r != Str("")
    ensures ft.Bit? ==> r == Bool(Values.Truthy(SerializeIfArray(p, content)))
    ensures IsNumeric(ft) && !hasListCode ==> r.Num?
    ensures IsNumeric(ft) && !hasListCode && SerializeIfArray(p, content) != Str("") ==>
              r == Num(ToFloat(p, SerializeIfArray(p, content)))
    ensures IsNumeric(ft) && !hasListCode && SerializeIfArray(p, content) == Str("") ==> r == Num(ToFloat(p, Null))
    ensures !ft.Bit? && !(IsNumeric(ft) && !hasListCode) && content == Str("") ==> r == Null
    ensures !ft.Bit? && !(IsNumeric(ft) && !hasListCode) && SerializeIfArray(p, content) != Str("") ==>
              r == SerializeIfArray(p, content)
  {
    var c := SerializeIfArray(p, content);
    var c := if c == Str("") then Null else c;
    if ft.Bit? then Bool(Values.Truthy(c))
    else if IsNumeric(ft) && !hasListCode then Num(ToFloat(p, c))
    else c
  }

  function StrValues(ss: seq<string>): (r: seq<Value>)
    ensures |r| == |ss| && forall i :: 0 <= i < |ss| ==> r[i] == Str(ss[i])
  {
    seq(|ss|, i requires 0 <= i < |ss| => Str(ss[i]))
  }

  /** The id-number values: those of the table's id-number plugin, else the content split on spaces. */
  function IdnoValues(p: Parsers, ti: TableInfo, content: Value): seq<string> {
    if ti.idnoPlugin.Some? then ti.idnoPlugin.value(content) else Explode(ToText(p, content), " ")
  }

  /** The key of a relationship type: its code, or the id itself when it has none. */
  function RelationshipKey(p: Parsers, id: int): string {
    var code := p.relationshipTypeCode(id);
    if PhpStrings.Truthy(code) then code else IntToString(id)
  }

  /** With a relationship type id, the fragment also holds a copy of itself under that type's key. */
  function WithRelationship(p: Parsers, members: seq<(string, Value)>, options: Options): seq<(string, Value)> {
    if options.relationshipTypeId.Some? && options.relationshipTypeId.value != 0 then
      ObjPut(members, RelationshipKey(p, options.relationshipTypeId.value), Obj(members))
    else members
  }

  predicate IndexAsIdno(ti: TableInfo, field: string, options: Options) {
    ti.IsIdNumberingField(field) || "INDEX_AS_IDNO" in options.flags
  }

  /** `getIndexingFragment($content, $options)` of the intrinsic `field` of `table`. */
  function IndexingFragment(dm: Datamodel, p: Parsers, table: string, field: string, content: Value, options: Options): Fragment {
    var info := dm.fieldInfo(table, field);
    var ti := dm.tableInfo(table);
    var c := StoredContent(p, info.fieldType, info.hasListCode, content);
    if IsDate(info.fieldType) then
      ParseDateRange(p, Key(table, field), DefaultSuffix, c, false)
    else if IsHistoric(info.fieldType) then
      ParseDateRange(p, Key(table, field), DefaultSuffix, c, true)
    else
      var member :=
        if IndexAsIdno(ti, field, options) then
          (DataTypeSuffix(Some(SuffixIdno), DefaultSuffix), Arr(StrValues(IdnoValues(p, ti, c))))
        else
          (DataTypeSuffix(Some(IndexingSuffix(info.fieldType, field, info.hasListCode, "DONT_TOKENIZE" in options.flags)), DefaultSuffix), c);
      map[Key(table, field) := Obj(WithRelationship(p, [member], options))]
  }

  /** Date types encode through the date-range encoding, historic ones on the historic path. */
  lemma IndexingFragmentDates(dm: Datamodel, p: Parsers, table: string, field: string, content: Value, options: Options)
    requires IsDate(dm.fieldInfo(table, field).fieldType) || IsHistoric(dm.fieldInfo(table, field).fieldType)
    ensures var info := dm.fieldInfo(table, field);
            var c := if SerializeIfArray(p, content) == Str("") then Null else SerializeIfArray(p, content);
            IndexingFragment(dm, p, table, field, content, options) ==
            ParseDateRange(p, table + "/" + field, "s", c, IsHistoric(info.fieldType))
  {
    var info := dm.fieldInfo(table, field);
    var c := if SerializeIfArray(p, content) == Str("") then Null else SerializeIfArray(p, content);
    assert StoredContent(p, info.fieldType, info.hasListCode, content) == c;
    assert Key(table, field) == table + "/" + field;
  }

  /**
   * Any other type gives one member under `table/field`: its first entry is the
   * `-idno` list for id numbers and the value under `-` and the indexing suffix
   * otherwise; a relationship type id adds the copy under its key, nothing else does.
   */
  lemma IndexingFragmentShape(dm: Datamodel, p: Parsers, table: string, field: string, content: Value, options: Options)
    requires !IsDate(dm.fieldInfo(table, field).fieldType) && !IsHistoric(dm.fieldInfo(table, field).fieldType)
    ensures var r := IndexingFragment(dm, p, table, field, content, options);
            var info := dm.fieldInfo(table, field);
            var ti := dm.tableInfo(table);
            var c := StoredContent(p, info.fieldType, info.hasListCode, content);
            var first :=
              if IndexAsIdno(ti, field, options) then ("-idno", Arr(StrValues(IdnoValues(p, ti, c))))
              else ("-" + IndexingSuffix(info.fieldType, field, info.hasListCode, "DONT_TOKENIZE" in options.flags), c);
            r.Keys == {table + "/" + field} && r[table + "/" + field].Obj? &&
            (var members := r[table + "/" + field].members;
             (options.relationshipTypeId.None? || options.relationshipTypeId.value == 0 ==> members == [first]) &&
             (options.relationshipTypeId.Some? && options.relationshipTypeId.value != 0 ==>
                var rk := RelationshipKey(p, options.relationshipTypeId.value);
                (rk != first.0 ==> members == [first, (rk, Obj([first]))]) &&
                (rk == first.0 ==> members == [(rk, Obj([first]))])))
  {
    var info := dm.fieldInfo(table, field);
    var ti := dm.tableInfo(table);
    var c := StoredContent(p, info.fieldType, info.hasListCode, content);
    var first :=
      if IndexAsIdno(ti, field, options) then ("-idno", Arr(StrValues(IdnoValues(p, ti, c))))
      else ("-" + IndexingSuffix(info.fieldType, field, info.hasListCode, "DONT_TOKENIZE" in options.flags), c);
    var r := IndexingFragment(dm, p, table, field, content, options);
    assert DataTypeSuffix(Some(SuffixIdno), DefaultSuffix) == "-idno";
    var suffix := IndexingSuffix(info.fieldType, field, info.hasListCode, "DONT_TOKENIZE" in options.flags);
    assert DataTypeSuffix(Some(suffix), DefaultSuffix) == "-" + suffix;
    assert r == map[Key(table, field) := Obj(WithRelationship(p, [first], options))];
    if options.relationshipTypeId.Some? && options.relationshipTypeId.value != 0 {
      var rk := RelationshipKey(p, options.relationshipTypeId.value);
      assert WithRelationship(p, [first], options) == ObjPut([first], rk, Obj([first]));
      if rk != first.0 {
        assert ObjPut([first], rk, Obj([first])) == [first] + ObjPut([], rk, Obj([first]));
      }
    }
  }

  /** `mb_substr($raw, -1) == '|'`: one trailing pipe is dropped. */
  function StripPipe(text: string): (r: string)
    ensures |text| > 0 && text[|text| - 1] == '|' ==> text == r + "|"
    ensures !(|text| > 0 && text[|text| - 1] == '|') ==> r == text
  {
    if |text| > 0 && text[|text| - 1] == '|' then text[..|text| - 1] else text
  }

  /** The id-number branch: a model table whose id-numbering field is the second `/` component of the term's field. */
  predicate IsIdnoQuery(ti: TableInfo, termField: string) {
    var components := Explode(termField, "/");
    ti.isModel && |components| >= 2 && ti.IsIdNumberingField(components[1])
  }

  /** `getRewrittenTerm($term)` of the intrinsic `field` of `table`. */
  function RewrittenTerm(dm: Datamodel, table: string, field: string, term: Term): Term {
    var info := dm.fieldInfo(table, field);
    var ti := dm.tableInfo(table);
    var raw := StripPipe(term.text);
    var reserved := ReservedTerm(Term(raw, term.field));
    if Lower(raw) == "[blank]" && ti.isLabel then
      Term("\"" + raw + "\"", term.field)
    else if reserved.Some? then
      reserved.value
    else if IsIdnoQuery(ti, term.field) then
      if '*' in raw then Term(raw, term.field)
      else Term("\"" + raw + "\"", term.field + "." + DataTypeSuffix(Some(SuffixIdno), DefaultSuffix))
    else
      var suffix := QuerySuffix(info.fieldType, field, info.hasListCode);
      Term(EscapeSlashes(raw),
           if PhpStrings.Truthy(term.field) then term.field + "." + DataTypeSuffix(Some(suffix), DefaultSuffix) else "")
  }

  /** Only one trailing pipe is stripped: a term with one more pipe rewrites like the term without it. */
  lemma RewrittenTermPipe(dm: Datamodel, table: string, field: string, text: string, termField: string)
    requires !(|text| > 0 && text[|text| - 1] == '|')
    ensures RewrittenTerm(dm, table, field, Term(text + "|", termField)) ==
            RewrittenTerm(dm, table, field, Term(text, termField))
  {
    assert StripPipe(text + "|") == text;
  }

  /** `[blank]` and `[set]`, in any case: a quoted term on label tables for `[blank]`, the missing or present test otherwise. */
  lemma RewrittenTermReserved(dm: Datamodel, table: string, field: string, term: Term)
    requires Lower(StripPipe(term.text)) == "[blank]" || Lower(StripPipe(term.text)) == "[set]"
    ensures var r := RewrittenTerm(dm, table, field, term);
            if Lower(StripPipe(term.text)) == "[blank]" && dm.tableInfo(table).isLabel
            then r == Term("\"" + StripPipe(term.text) + "\"", term.field)
            else r.text == term.field && r.field in {"_missing_", "_exists_"} &&
                 (r.field == "_missing_" <==> Lower(StripPipe(term.text)) == "[blank]")
  {
  }

  /**
   * An ordinary term keeps its text up to the escaping of `/` and targets the
   * `-b`, `-i`, `-t` or `-kw` sub-field of its field, or no field at all.
   */
  lemma RewrittenTermOrdinary(dm: Datamodel, table: string, field: string, term: Term)
    requires ReservedTerm(Term(StripPipe(term.text), term.field)).None?
    requires !IsIdnoQuery(dm.tableInfo(table), term.field)
    requires '\\' !in term.text
    ensures var r := RewrittenTerm(dm, table, field, term);
            var info := dm.fieldInfo(table, field);
            RemoveBackslashes(r.text) == StripPipe(term.text) &&
            (PhpStrings.Truthy(term.field) ==> r.field == term.field + ".-" + QuerySuffix(info.fieldType, field, info.hasListCode)) &&
            (!PhpStrings.Truthy(term.field) ==> r.field == "")
  {
    var raw := StripPipe(term.text);
    assert '\\' !in raw by {
      if |term.text| > 0 && term.text[|term.text| - 1] == '|' {
        assert term.text == raw + "|";
      }
    }
    RemoveBackslashesUndoesEscape(raw);
  }

  /** The part of a filter `alterFilter` reads and writes. */
  datatype Filter = Filter(field: string, value: Value)

  /** `alterFilter($filter)` of the intrinsic `field` of `table`. */
  function AlterFilter(dm: Datamodel, table: string, field: string, f: Filter): Filter {
    var info := dm.fieldInfo(table, field);
    var ti := dm.tableInfo(table);
    var value := if info.fieldType.Bit? then Str(if Values.Truthy(f.value) then "true" else "false") else f.value;
    var suffix := if ti.IsIdNumberingField(field) then SuffixIdno else QuerySuffix(info.fieldType, field, info.hasListCode);
    Filter(f.field + "." + DataTypeSuffix(Some(suffix), DefaultSuffix), value)
  }

  /**
   * A filter targets `-idno` exactly for the id-numbering field and otherwise
   * the query suffix; a bit value becomes the text `true` or `false` after its
   * truthiness, and any other value is kept.
   */
  lemma AlterFilterTable(dm: Datamodel, table: string, field: string, f: Filter)
    ensures var r := AlterFilter(dm, table, field, f);
            var info := dm.fieldInfo(table, field);
            (exists s :: s in {"b", "i", "t", "kw", "idno"} && r.field == f.field + ".-" + s) &&
            (r.field == f.field + ".-idno" <==> dm.tableInfo(table).IsIdNumberingField(field)) &&
            (info.fieldType.Bit? ==> (r.value == Str("true") <==> Values.Truthy(f.value)) &&
                                     (r.value == Str("false") <==> !Values.Truthy(f.value))) &&
            (!info.fieldType.Bit? ==> r.value == f.value)
  {
    var info := dm.fieldInfo(table, field);
    var s := if dm.tableInfo(table).IsIdNumberingField(field) then SuffixIdno
             else QuerySuffix(info.fieldType, field, info.hasListCode);
    var r := AlterFilter(dm, table, field, f);
    assert r.field == f.field + ".-" + s;
    if r.field == f.field + ".-idno" {
      assert (f.field + ".-" + s)[|f.field| + 2..] == s;
      assert (f.field + ".-idno")[|f.field| + 2..] == "idno";
    }
  }
}
