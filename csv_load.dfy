/** csv_load: the header, the choice of field-to-column mapping, the
    converters for each retained field, the check for unconsumed columns,
    and the conversion of each data row. Rows arrive already split into
    cells; building the record from the keyword arguments is left to the
    caller. */
module CsvLoad {
  import opened Wrappers
  import opened Naming
  import opened Hinting
  import opened Parsing
  import opened Dicts

  /** DataMapping: explicit column names, an explicit field-to-column
      mapping, or a name style applied to the default mapping. */
  datatype DataMapping = DataMapping(
    columnNames: Option<seq<string>>,
    fieldToColumnName: Option<Dict<string>>,
    nameStyle: Option<NameStyle>)

  datatype MappingError = MutuallyExclusiveArguments(arguments: seq<string>)

  /** DataMapping's constructor: a name style and an explicit mapping
      exclude each other, even when the mapping is empty. */
  function NewDataMapping(columnNames: Option<seq<string>>, fieldToColumnName: Option<Dict<string>>, nameStyle: Option<NameStyle>)
    : (r: Result<DataMapping, MappingError>)
    ensures r.Ok? <==> fieldToColumnName.None? || nameStyle.None?
    ensures r.Ok? ==> r.value.columnNames == columnNames && r.value.fieldToColumnName == fieldToColumnName && r.value.nameStyle == nameStyle
    ensures r.Err? ==> r.error == MutuallyExclusiveArguments(["name_style", "field_to_column_name"])
  {
    if nameStyle.Some? && fieldToColumnName.Some? then Err(MutuallyExclusiveArguments(["name_style", "field_to_column_name"]))
    else Ok(DataMapping(columnNames, fieldToColumnName, nameStyle))
  }

  const DefaultMapping := DataMapping(None, None, None)

  /** An explicit mapping is a dict: each field listed once. */
  predicate ValidMapping(mapping: DataMapping)
  {
    mapping.fieldToColumnName.Some? ==> Valid(mapping.fieldToColumnName.value)
  }

  /** CsvLoadOptions without the delimiter, since rows arrive split, and
      without the parser, which is passed on its own. */
  datatype CsvLoadOptions = CsvLoadOptions(fieldMetadataKey: string, allowColumnSubset: bool)

  const DefaultOptions := CsvLoadOptions("csv_key", true)

  /** What reflection reports about the class passed as `dataclass`: whether
      it is one, its constructor's signature, and each field's metadata. */
  datatype DataclassInfo = DataclassInfo(
    isDataclass: bool,
    initSignature: Callable,
    fieldMetadata: map<string, map<string, string>>)

  /** The KeyError of a callable argument without an annotation,
      NotADataclassError, UnconsumedColumnsError, the IndexError of a row
      too short for a retained column, and the StringParserError of a cell
      no candidate converts. */
  datatype CsvError =
    | UnannotatedParameter(parameter: string)
    | NotADataclass
    | UnconsumedColumns(columns: seq<string>)
    | MissingCell(row: nat, index: nat)
    | ConversionFailed(row: nat, field: string, error: ParseError)

  /** fix_style: the name in the mapping's style, when it has one. */
  function FixStyle(style: Option<NameStyle>, name: string): (r: string)
    ensures style.None? ==> r == name
    ensures style.Some? ==> r == ConvertName(name, style.value)
  {
    if style.Some? then ConvertName(name, style.value) else name
  }

  /** The header and the data rows: the explicit names and every row, or
      the first row and the rest; nothing for an empty source without
      names. */
  function SplitHeader(columnNames: Option<seq<string>>, rows: seq<seq<string>>): (r: Option<(seq<string>, seq<seq<string>>)>)
    ensures r.None? <==> columnNames.None? && rows == []
    ensures columnNames.Some? ==> r == Some((columnNames.value, rows))
    ensures columnNames.None? && r.Some? ==> [r.value.0] + r.value.1 == rows
  {
    if columnNames.Some? then Some((columnNames.value, rows))
    else if rows == [] then None
    else Some((rows[0], rows[1..]))
  }

  /** get_callable_argument_hints, as written, as a dict: the KeyError of
      an argument without an annotation, else the hints of every
      argument. */
  function HintsOf(f: Callable): (r: Result<Dict<TypeSpec>, CsvError>)
    ensures r.Err? <==> exists k :: 0 <= k < |ArgumentNames(f.parameters)| && ArgumentNames(f.parameters)[k] !in f.annotations
    ensures r.Err? ==> r.error.UnannotatedParameter? && r.error.parameter in ArgumentNames(f.parameters)
                       && r.error.parameter !in f.annotations
    ensures r.Ok? ==> r.value == FromItems(ArgumentHints(f))
    ensures r.Ok? ==> forall n :: n in r.value.values <==> n in ArgumentNames(f.parameters)
  {
    match ArgumentHintsAsWritten(f, ArgumentNames(f.parameters))
    case Err(e) => Err(UnannotatedParameter(e.parameter))
    case Ok(hints) =>
      assert ItemKeys(hints) == ArgumentNames(f.parameters);
      Ok(FromItems(hints))
  }

  /** `{name: fix_style(name) for name in names}`, as items. */
  function StyledColumns(style: Option<NameStyle>, names: seq<string>): (r: seq<(string, string)>)
    ensures |r| == |names|
    ensures forall i :: 0 <= i < |names| ==> r[i] == (names[i], FixStyle(style, names[i]))
  {
    seq(|names|, i requires 0 <= i < |names| => (names[i], FixStyle(style, names[i])))
  }

  /** A dataclass field's column: its metadata under the key, or its own
      name. */
  function MetadataColumn(info: DataclassInfo, key: string, name: string): (r: string)
    ensures name in info.fieldMetadata && key in info.fieldMetadata[name] ==> r == info.fieldMetadata[name][key]
    ensures !(name in info.fieldMetadata && key in info.fieldMetadata[name]) ==> r == name
  {
    if name in info.fieldMetadata && key in info.fieldMetadata[name] then info.fieldMetadata[name][key] else name
  }

  /** The dataclass default mapping, as items. */
  function MetadataColumns(style: Option<NameStyle>, info: DataclassInfo, key: string, names: seq<string>)
    : (r: seq<(string, string)>)
    ensures |r| == |names|
    ensures forall i :: 0 <= i < |names| ==> r[i] == (names[i], FixStyle(style, MetadataColumn(info, key, names[i])))
  {
    seq(|names|, i requires 0 <= i < |names| => (names[i], FixStyle(style, MetadataColumn(info, key, names[i]))))
  }

  /** The type hints and the field-to-column mapping csv_load settles on. */
  datatype Plan = Plan(hints: Dict<TypeSpec>, fieldColumns: Dict<string>)

  /** The init function's hints fail. */
  predicate InitHintsFail(initFunction: Option<Callable>)
  {
    initFunction.Some? && HintsOf(initFunction.value).Err?
  }

  /** The init function gives hints, and not an empty dict. */
  predicate InitHintsGiven(initFunction: Option<Callable>)
  {
    initFunction.Some? && HintsOf(initFunction.value).Ok? && HintsOf(initFunction.value).value.keys != []
  }

  /** The setup before any converter: the hints come from init_function,
      else from the dataclass, else there are none; the mapping is the
      explicit one, else derived from the hints, else from the header.
      Each `or` treats an empty dict like a missing one. The init
      function's hints are read first, so their KeyError comes before the
      dataclass check; the dataclass's hints are read only when the init
      function gives none. */
  function PlanFields(mapping: DataMapping, options: CsvLoadOptions, header: seq<string>,
                      initFunction: Option<Callable>, dataclass: Option<DataclassInfo>): (r: Result<Plan, CsvError>)
    ensures r.Err? <==>
              || InitHintsFail(initFunction)
              || (dataclass.Some? && !dataclass.value.isDataclass)
              || (dataclass.Some? && !InitHintsGiven(initFunction) && HintsOf(dataclass.value.initSignature).Err?)
    ensures InitHintsFail(initFunction) ==> r == Err(HintsOf(initFunction.value).error)
    ensures r == Err(NotADataclass) <==>
              !InitHintsFail(initFunction) && dataclass.Some? && !dataclass.value.isDataclass
    ensures r.Err? ==> r.error.UnannotatedParameter? || r.error.NotADataclass?
    ensures r.Ok? && ValidMapping(mapping) ==> Valid(r.value.fieldColumns)
  {
    var style := mapping.nameStyle;
    if InitHintsFail(initFunction) then Err(HintsOf(initFunction.value).error)
    else
      var initHints: Option<Dict<TypeSpec>> := if initFunction.Some? then Some(HintsOf(initFunction.value).value) else None;
      var fieldColumns :=
        if initHints.Some? then Some(OrElse(mapping.fieldToColumnName, FromItems(StyledColumns(style, initHints.value.keys))))
        else mapping.fieldToColumnName;
      if dataclass.Some? then
        if !dataclass.value.isDataclass then Err(NotADataclass)
        else if !InitHintsGiven(initFunction) && HintsOf(dataclass.value.initSignature).Err? then
          Err(HintsOf(dataclass.value.initSignature).error)
        else
          var hints := if InitHintsGiven(initFunction) then initHints.value else HintsOf(dataclass.value.initSignature).value;
          var metadata := MetadataColumns(style, dataclass.value, options.fieldMetadataKey, hints.keys);
          Ok(Plan(hints, OrElse(fieldColumns, FromItems(metadata))))
      else
        var hints := OrElse(initHints, EmptyDict());
        Ok(Plan(hints, OrElse(fieldColumns, FromItems(StyledColumns(style, header)))))
  }

  /** Whether an optional dict is present and not empty. */
  predicate Given<V>(d: Option<Dict<V>>)
  {
    d.Some? && d.value.keys != []
  }

  /** When setup succeeds, the chain of `or`s, flattened into a decision
      table. */
  lemma PlanFieldsChoice(mapping: DataMapping, options: CsvLoadOptions, header: seq<string>,
                         initFunction: Option<Callable>, dataclass: Option<DataclassInfo>)
    requires !InitHintsFail(initFunction)
    requires dataclass.Some? ==> dataclass.value.isDataclass
    requires dataclass.Some? && !InitHintsGiven(initFunction) ==> HintsOf(dataclass.value.initSignature).Ok?
    ensures var r := PlanFields(mapping, options, header, initFunction, dataclass);
            var style := mapping.nameStyle;
            var initGiven := InitHintsGiven(initFunction);
            var hints :=
              if initGiven then HintsOf(initFunction.value).value
              else if dataclass.Some? then HintsOf(dataclass.value.initSignature).value
              else EmptyDict();
            && r.Ok?
            && r.value.hints == hints
            && r.value.fieldColumns ==
                 if Given(mapping.fieldToColumnName) then mapping.fieldToColumnName.value
                 else if initGiven then FromItems(StyledColumns(style, hints.keys))
                 else if dataclass.Some? then FromItems(MetadataColumns(style, dataclass.value, options.fieldMetadataKey, hints.keys))
                 else FromItems(StyledColumns(style, header))
  {
  }

  /** column_indices: every header name with the index of its last
      occurrence. */
  function ColumnIndices(header: seq<string>): (m: map<string, nat>)
    decreases |header|
    ensures forall n :: n in m <==> n in header
    ensures forall n :: n in m ==> m[n] < |header| && header[m[n]] == n
    ensures forall n, j :: n in m && m[n] < j < |header| ==> header[j] != n
  {
    if header == [] then map[]
    else
      var last := |header| - 1;
      var init := header[..last];
      assert header == init + [header[last]];
      ColumnIndices(init)[header[last] := last]
  }

  /** The fields among `keys` whose column is in the header, with its index,
      in the order of `keys`. */
  function RetainedFrom(keys: seq<string>, fieldColumns: map<string, string>, indices: map<string, nat>)
    : seq<(string, nat)>
    decreases |keys|
  {
    if keys == [] then []
    else
      var rest := RetainedFrom(keys[1..], fieldColumns, indices);
      var f := keys[0];
      if f in fieldColumns && fieldColumns[f] in indices then [(f, indices[fieldColumns[f]])] + rest
      else rest
  }

  /** Each retained field reads its column's index, and a key is retained
      exactly when its column is in the header. */
  lemma {:induction false} RetainedFromEntries(keys: seq<string>, fieldColumns: map<string, string>, indices: map<string, nat>)
    decreases |keys|
    ensures var r := RetainedFrom(keys, fieldColumns, indices);
            && (forall k :: 0 <= k < |r| ==>
                  r[k].0 in fieldColumns && fieldColumns[r[k].0] in indices && r[k].1 == indices[fieldColumns[r[k].0]])
            && (forall f :: f in ItemKeys(r) <==> f in keys && f in fieldColumns && fieldColumns[f] in indices)
  {
    if keys != [] {
      RetainedFromEntries(keys[1..], fieldColumns, indices);
      var rest := RetainedFrom(keys[1..], fieldColumns, indices);
      var f := keys[0];
      assert forall g :: g in keys <==> g == f || g in keys[1..];
      if f in fieldColumns && fieldColumns[f] in indices {
        var r := [(f, indices[fieldColumns[f]])] + rest;
        assert ItemKeys(r) == [f] + ItemKeys(rest);
        assert forall k :: 1 <= k < |r| ==> r[k] == rest[k - 1];
      }
    }
  }

  /** No name is listed twice. */
  predicate DistinctNames(r: seq<(string, nat)>)
  {
    forall i, j :: 0 <= i < j < |r| ==> r[i].0 != r[j].0
  }

  /** The retained fields of distinct keys are distinct. */
  lemma {:induction false} RetainedFromDistinct(keys: seq<string>, fieldColumns: map<string, string>, indices: map<string, nat>)
    requires forall i, j :: 0 <= i < j < |keys| ==> keys[i] != keys[j]
    decreases |keys|
    ensures DistinctNames(RetainedFrom(keys, fieldColumns, indices))
  {
    if keys != [] {
      var tail := keys[1..];
      assert forall i, j :: 0 <= i < j < |tail| ==> tail[i] != tail[j] by {
        forall i, j | 0 <= i < j < |tail| ensures tail[i] != tail[j] {
          assert tail[i] == keys[i + 1] && tail[j] == keys[j + 1];
        }
      }
      RetainedFromDistinct(tail, fieldColumns, indices);
      RetainedFromEntries(tail, fieldColumns, indices);
      var rest := RetainedFrom(tail, fieldColumns, indices);
      var f := keys[0];
      assert f !in tail;
      if f in fieldColumns && fieldColumns[f] in indices {
        var r := [(f, indices[fieldColumns[f]])] + rest;
        assert forall k :: 1 <= k < |r| ==> r[k] == rest[k - 1];
        forall i, j | 0 <= i < j < |r| ensures r[i].0 != r[j].0 {
          assert r[j] == rest[j - 1] && ItemKeys(rest)[j - 1] == rest[j - 1].0;
          if i > 0 {
            assert r[i] == rest[i - 1];
          }
        }
        assert RetainedFrom(keys, fieldColumns, indices) == r;
      } else {
        assert RetainedFrom(keys, fieldColumns, indices) == rest;
      }
    }
  }

  /** Each retained field has the index of its column's last occurrence
      in the header. */
  ghost predicate ReadsLastColumn(r: seq<(string, nat)>, fieldColumns: Dict<string>, header: seq<string>)
  {
    forall k :: 0 <= k < |r| ==>
      r[k].0 in fieldColumns.values && r[k].1 < |header| && header[r[k].1] == fieldColumns.values[r[k].0]
      && forall j :: r[k].1 < j < |header| ==> header[j] != header[r[k].1]
  }

  /** A field is retained exactly when its column is in the header. */
  ghost predicate RetainsMapped(r: seq<(string, nat)>, fieldColumns: Dict<string>, header: seq<string>)
  {
    forall f :: f in ItemKeys(r) <==> f in fieldColumns.values && fieldColumns.values[f] in header
  }

  /** field_to_index_and_converters before the converters: a field is kept
      exactly when its column is in the header, with the index of that
      column's last occurrence. */
  function Retained(fieldColumns: Dict<string>, header: seq<string>): (r: seq<(string, nat)>)
    requires Valid(fieldColumns)
    ensures ReadsLastColumn(r, fieldColumns, header)
    ensures RetainsMapped(r, fieldColumns, header)
    ensures DistinctNames(r)
  {
    var indices := ColumnIndices(header);
    RetainedFromDistinct(fieldColumns.keys, fieldColumns.values, indices);
    RetainedFromEntries(fieldColumns.keys, fieldColumns.values, indices);
    var r := RetainedFrom(fieldColumns.keys, fieldColumns.values, indices);
    assert forall f :: f in indices <==> f in header;
    assert forall k :: 0 <= k < |r| ==> r[k].1 == indices[fieldColumns.values[r[k].0]];
    r
  }

  /** A retained field: its name, its column's index and its candidates. */
  datatype Field = Field(name: string, index: nat, candidates: seq<(ConverterId, TypeId)>)

  /** The annotation of a field, `str` when it has none. */
  function HintOrStr(hints: Dict<TypeSpec>, name: string): (r: TypeSpec)
    ensures name !in hints.values ==> r == Leaf(StrType)
    ensures name in hints.values ==> r == hints.values[name]
  {
    Get(hints, name, Leaf(StrType))
  }

  /** The converters of each retained field in turn, the registry growing
      as converters() memoises `from_string` entries. */
  function ResolveFields(registry: map<TypeId, ConverterId>, retained: seq<(string, nat)>,
                         hints: Dict<TypeSpec>, hasFromString: TypeId -> bool)
    : (r: (seq<Field>, map<TypeId, ConverterId>))
    decreases |retained|
  {
    if retained == [] then ([], registry)
    else
      var types := FlatTypes([HintOrStr(hints, retained[0].0)]);
      var first := Resolve(registry, types, hasFromString);
      var rest := ResolveFields(first.1, retained[1..], hints, hasFromString);
      ([Field(retained[0].0, retained[0].1, first.0)] + rest.0, rest.1)
  }

  /** Each field keeps the name and index it was retained with, and
      gets the candidates converters() gives for its annotation. */
  lemma {:induction false} ResolveFieldsShape(registry: map<TypeId, ConverterId>, retained: seq<(string, nat)>,
                                              hints: Dict<TypeSpec>, hasFromString: TypeId -> bool)
    decreases |retained|
    ensures var r := ResolveFields(registry, retained, hints, hasFromString);
            && |r.0| == |retained|
            && forall k :: 0 <= k < |retained| ==> r.0[k].name == retained[k].0 && r.0[k].index == retained[k].1
  {
    if retained != [] {
      var first := Resolve(registry, FlatTypes([HintOrStr(hints, retained[0].0)]), hasFromString);
      ResolveFieldsShape(first.1, retained[1..], hints, hasFromString);
      var r := ResolveFields(registry, retained, hints, hasFromString);
      var rest := ResolveFields(first.1, retained[1..], hints, hasFromString);
      assert forall k :: 1 <= k < |retained| ==> r.0[k] == rest.0[k - 1] && retained[k] == retained[1..][k - 1];
    }
  }

  /** Resolving the fields never overwrites a registry entry. */
  lemma {:induction false} ResolveFieldsKeepsEntries(registry: map<TypeId, ConverterId>, retained: seq<(string, nat)>,
                                                     hints: Dict<TypeSpec>, hasFromString: TypeId -> bool)
    decreases |retained|
    ensures var after := ResolveFields(registry, retained, hints, hasFromString).1;
            && (forall t :: t in registry ==> t in after && after[t] == registry[t])
            && (forall t :: t in after && t !in registry ==> hasFromString(t) && after[t] == FromString(t))
  {
    if retained != [] {
      var types := FlatTypes([HintOrStr(hints, retained[0].0)]);
      var first := Resolve(registry, types, hasFromString);
      ResolveRegistry(registry, types, hasFromString);
      ResolveFieldsKeepsEntries(first.1, retained[1..], hints, hasFromString);
    }
  }

  /** One step of ResolveFields. */
  lemma ResolveFieldsStep(registry: map<TypeId, ConverterId>, retained: seq<(string, nat)>,
                          hints: Dict<TypeSpec>, hasFromString: TypeId -> bool)
    requires retained != []
    ensures var first := Resolve(registry, FlatTypes([HintOrStr(hints, retained[0].0)]), hasFromString);
            var rest := ResolveFields(first.1, retained[1..], hints, hasFromString);
            ResolveFields(registry, retained, hints, hasFromString)
            == ([Field(retained[0].0, retained[0].1, first.0)] + rest.0, rest.1)
  {
  }

  /** The loop of field_to_index_and_converters moves on by one field. */
  lemma ResolveFieldsAdvance(total: (seq<Field>, map<TypeId, ConverterId>), fields: seq<Field>,
                             registry: map<TypeId, ConverterId>, retained: seq<(string, nat)>, i: nat,
                             hints: Dict<TypeSpec>, hasFromString: TypeId -> bool,
                             candidates: seq<(ConverterId, TypeId)>, after: map<TypeId, ConverterId>)
    requires i < |retained|
    requires total == (fields + ResolveFields(registry, retained[i..], hints, hasFromString).0,
                       ResolveFields(registry, retained[i..], hints, hasFromString).1)
    requires (candidates, after) == Resolve(registry, FlatTypes([HintOrStr(hints, retained[i].0)]), hasFromString)
    ensures var rest := ResolveFields(after, retained[i + 1..], hints, hasFromString);
            total == ((fields + [Field(retained[i].0, retained[i].1, candidates)]) + rest.0, rest.1)
  {
    assert retained[i..][0] == retained[i] && retained[i..][1..] == retained[i + 1..];
    ResolveFieldsStep(registry, retained[i..], hints, hasFromString);
    var field := Field(retained[i].0, retained[i].1, candidates);
    var rest := ResolveFields(after, retained[i + 1..], hints, hasFromString);
    assert fields + ([field] + rest.0) == (fields + [field]) + rest.0;
  }

  /** The indices the retained fields read. */
  function ConsumedIndices(fields: seq<Field>): set<nat>
    decreases |fields|
  {
    if fields == [] then {} else ConsumedIndices(fields[..|fields| - 1]) + {fields[|fields| - 1].index}
  }

  /** An index is consumed exactly when some field reads it; there are no
      more consumed indices than fields. */
  lemma ConsumedIndicesMembers(fields: seq<Field>)
    ensures forall k :: 0 <= k < |fields| ==> fields[k].index in ConsumedIndices(fields)
    ensures forall i :: i in ConsumedIndices(fields) ==> exists k :: 0 <= k < |fields| && fields[k].index == i
    ensures |ConsumedIndices(fields)| <= |fields|
  {
    ConsumedIndicesRead(fields);
    ConsumedIndicesOnlyRead(fields);
    ConsumedIndicesCount(fields);
  }

  lemma {:induction false} ConsumedIndicesRead(fields: seq<Field>)
    decreases |fields|
    ensures forall k :: 0 <= k < |fields| ==> fields[k].index in ConsumedIndices(fields)
  {
    if fields != [] {
      var init := fields[..|fields| - 1];
      ConsumedIndicesRead(init);
      assert forall k :: 0 <= k < |init| ==> init[k] == fields[k];
    }
  }

  lemma {:induction false} ConsumedIndicesOnlyRead(fields: seq<Field>)
    decreases |fields|
    ensures forall i :: i in ConsumedIndices(fields) ==> exists k :: 0 <= k < |fields| && fields[k].index == i
  {
    if fields != [] {
      var init := fields[..|fields| - 1];
      ConsumedIndicesOnlyRead(init);
      assert forall k :: 0 <= k < |init| ==> init[k] == fields[k];
      var last := fields[|fields| - 1].index;
      forall i | i in ConsumedIndices(fields) ensures exists k :: 0 <= k < |fields| && fields[k].index == i {
        if i != last {
          var k :| 0 <= k < |init| && init[k].index == i;
          assert fields[k].index == i;
        }
      }
    }
  }

  lemma {:induction false} ConsumedIndicesCount(fields: seq<Field>)
    decreases |fields|
    ensures |ConsumedIndices(fields)| <= |fields|
  {
    if fields != [] {
      ConsumedIndicesCount(fields[..|fields| - 1]);
    }
  }

  /** The header names at the indices no field reads, in header order. */
  function Unconsumed(header: seq<string>, consumed: set<nat>): seq<string>
    decreases |header|
  {
    if header == [] then []
    else
      var last := |header| - 1;
      Unconsumed(header[..last], consumed) + (if last in consumed then [] else [header[last]])
  }

  /** A name is listed exactly when it sits at an unconsumed index; the list
      is empty exactly when every index is consumed. */
  lemma {:induction false} UnconsumedMembers(header: seq<string>, consumed: set<nat>)
    decreases |header|
    ensures forall n :: n in Unconsumed(header, consumed) <==> exists i :: 0 <= i < |header| && i !in consumed && header[i] == n
    ensures Unconsumed(header, consumed) == [] <==> forall i :: 0 <= i < |header| ==> i in consumed
  {
    if header != [] {
      var last := |header| - 1;
      var init := header[..last];
      UnconsumedMembers(init, consumed);
      assert forall i :: 0 <= i < last ==> init[i] == header[i];
    }
  }

  /** The indices below n. */
  function Range(n: nat): (r: set<nat>)
    ensures forall i :: i in r <==> 0 <= i < n
    ensures |r| == n
  {
    if n == 0 then {} else
      assert n - 1 !in Range(n - 1);
      Range(n - 1) + {n - 1}
  }

  lemma {:induction false} SubsetSize(a: set<nat>, b: set<nat>)
    requires a <= b
    ensures |a| <= |b|
  {
    if a != {} {
      var x :| x in a;
      SubsetSize(a - {x}, b - {x});
    }
  }

  /** More header columns than fields always leaves a column unread. */
  lemma FewerFieldsLeaveColumns(header: seq<string>, fields: seq<Field>)
    requires |fields| < |header|
    ensures Unconsumed(header, ConsumedIndices(fields)) != []
  {
    var consumed := ConsumedIndices(fields);
    ConsumedIndicesMembers(fields);
    UnconsumedMembers(header, consumed);
    if Range(|header|) <= consumed {
      SubsetSize(Range(|header|), consumed);
    }
    var i :| i in Range(|header|) && i !in consumed;
  }

  /** How a cell becomes a value, given a field's candidates. */
  type CellConverter = (string, seq<(ConverterId, TypeId)>) -> Result<Value, ParseError>

  /** StringParser.first_valid_conversion under an environment. */
  function Converter(env: Environment): (convert: CellConverter)
    ensures forall cell, candidates :: convert(cell, candidates) == FirstValid(env, cell, candidates)
  {
    (cell, candidates) => FirstValid(env, cell, candidates)
  }

  /** One row's record: each retained field's cell through its candidates,
      the first missing cell or failed conversion ending it. */
  function ConvertRow(convert: CellConverter, fields: seq<Field>, row: seq<string>, rowNumber: nat)
    : (r: Result<map<string, Value>, CsvError>)
    decreases |fields|
    ensures r.Err? ==> (r.error.MissingCell? || r.error.ConversionFailed?) && r.error.row == rowNumber
  {
    if fields == [] then Ok(map[])
    else
      var f := fields[0];
      if f.index >= |row| then Err(MissingCell(rowNumber, f.index))
      else
        var v := convert(row[f.index], f.candidates);
        if v.Err? then Err(ConversionFailed(rowNumber, f.name, v.error))
        else
          var rest := ConvertRow(convert, fields[1..], row, rowNumber);
          if rest.Err? then rest else Ok(map[f.name := v.value] + rest.value)
  }

  /** Whether a field's cell exists and converts. */
  predicate CellConverts(convert: CellConverter, f: Field, row: seq<string>)
  {
    f.index < |row| && convert(row[f.index], f.candidates).Ok?
  }

  /** A row converts exactly when every retained field's cell does. */
  lemma {:induction false} ConvertRowSucceeds(convert: CellConverter, fields: seq<Field>, row: seq<string>, rowNumber: nat)
    decreases |fields|
    ensures ConvertRow(convert, fields, row, rowNumber).Ok? <==> forall k :: 0 <= k < |fields| ==> CellConverts(convert, fields[k], row)
  {
    if fields != [] {
      ConvertRowSucceeds(convert, fields[1..], row, rowNumber);
      assert forall k :: 1 <= k < |fields| ==> fields[k] == fields[1..][k - 1];
      if forall k :: 1 <= k < |fields| ==> CellConverts(convert, fields[k], row) {
        assert forall k :: 0 <= k < |fields[1..]| ==> CellConverts(convert, fields[1..][k], row) by {
          forall k | 0 <= k < |fields[1..]| ensures CellConverts(convert, fields[1..][k], row) {
            assert fields[1..][k] == fields[k + 1];
          }
        }
      }
    }
  }

  /** The names of the fields, in order. */
  function FieldNames(fields: seq<Field>): (r: seq<string>)
    ensures |r| == |fields| && forall k :: 0 <= k < |fields| ==> r[k] == fields[k].name
  {
    seq(|fields|, k requires 0 <= k < |fields| => fields[k].name)
  }

  /** A record's keys are exactly the field names, and each holds its
      cell's conversion. */
  ghost predicate RecordOf(convert: CellConverter, fields: seq<Field>, row: seq<string>, record: map<string, Value>)
  {
    && (forall n :: n in record <==> n in FieldNames(fields))
    && (forall k :: 0 <= k < |fields| ==>
          CellConverts(convert, fields[k], row) && fields[k].name in record
          && record[fields[k].name] == convert(row[fields[k].index], fields[k].candidates).value)
  }

  /** No two fields share a name. */
  predicate DistinctFieldNames(fields: seq<Field>)
  {
    forall i, j :: 0 <= i < j < |fields| ==> fields[i].name != fields[j].name
  }

  /** The first field's name is not among the others'. */
  lemma DistinctFieldNamesTail(fields: seq<Field>)
    requires fields != [] && DistinctFieldNames(fields)
    ensures DistinctFieldNames(fields[1..])
    ensures FieldNames(fields) == [fields[0].name] + FieldNames(fields[1..])
    ensures fields[0].name !in FieldNames(fields[1..])
  {
    var tail := fields[1..];
    forall i, j | 0 <= i < j < |tail| ensures tail[i].name != tail[j].name {
      assert tail[i] == fields[i + 1] && tail[j] == fields[j + 1];
    }
    forall k | 0 <= k < |tail| ensures FieldNames(tail)[k] != fields[0].name {
      assert tail[k] == fields[k + 1];
    }
  }

  /** One step of a row that converts. */
  lemma ConvertRowOk(convert: CellConverter, fields: seq<Field>, row: seq<string>, rowNumber: nat)
    requires fields != [] && ConvertRow(convert, fields, row, rowNumber).Ok?
    ensures CellConverts(convert, fields[0], row)
    ensures ConvertRow(convert, fields[1..], row, rowNumber).Ok?
    ensures ConvertRow(convert, fields, row, rowNumber).value
            == map[fields[0].name := convert(row[fields[0].index], fields[0].candidates).value]
               + ConvertRow(convert, fields[1..], row, rowNumber).value
  {
  }

  /** The record of a row that converts, for fields of distinct names. */
  lemma {:induction false} ConvertRowRecord(convert: CellConverter, fields: seq<Field>, row: seq<string>, rowNumber: nat)
    requires DistinctFieldNames(fields)
    requires ConvertRow(convert, fields, row, rowNumber).Ok?
    decreases |fields|
    ensures RecordOf(convert, fields, row, ConvertRow(convert, fields, row, rowNumber).value)
  {
    if fields != [] {
      var tail := fields[1..];
      DistinctFieldNamesTail(fields);
      ConvertRowOk(convert, fields, row, rowNumber);
      ConvertRowRecord(convert, tail, row, rowNumber);
      var record := ConvertRow(convert, fields, row, rowNumber).value;
      forall k | 0 <= k < |fields|
        ensures CellConverts(convert, fields[k], row) && fields[k].name in record
                && record[fields[k].name] == convert(row[fields[k].index], fields[k].candidates).value
      {
        if k > 0 {
          assert fields[k] == tail[k - 1];
        }
      }
    }
  }

  /** What csv_load yields: the records of the rows before the first
      error, and that error if there is one. */
  datatype CsvOutput = CsvOutput(records: seq<map<string, Value>>, error: Option<CsvError>)

  /** The records of the rows numbered from `first`, up to the first row
      that fails. */
  function ConvertRows(convert: CellConverter, fields: seq<Field>, rows: seq<seq<string>>, first: nat): (r: CsvOutput)
    decreases |rows|
    ensures |r.records| <= |rows|
  {
    if rows == [] then CsvOutput([], None)
    else
      match ConvertRow(convert, fields, rows[0], first)
      case Err(e) => CsvOutput([], Some(e))
      case Ok(record) =>
        var rest := ConvertRows(convert, fields, rows[1..], first + 1);
        CsvOutput([record] + rest.records, rest.error)
  }

  /** One record per row, in row order, up to the first row that fails,
      whose error is the output's. */
  lemma ConvertRowsCharacterised(convert: CellConverter, fields: seq<Field>, rows: seq<seq<string>>, first: nat)
    ensures var r := ConvertRows(convert, fields, rows, first);
            && (r.error.None? ==> |r.records| == |rows|)
            && (r.error.Some? ==> (|r.records| < |rows|
                  && ConvertRow(convert, fields, rows[|r.records|], first + |r.records|) == Err(r.error.value)))
            && (forall k :: 0 <= k < |r.records| ==> ConvertRow(convert, fields, rows[k], first + k) == Ok(r.records[k]))
  {
    ConvertRowsStops(convert, fields, rows, first);
    ConvertRowsConverted(convert, fields, rows, first);
  }

  /** The output ends at the row that fails, or after the last row. */
  lemma {:induction false} ConvertRowsStops(convert: CellConverter, fields: seq<Field>, rows: seq<seq<string>>, first: nat)
    decreases |rows|
    ensures var r := ConvertRows(convert, fields, rows, first);
            && (r.error.None? ==> |r.records| == |rows|)
            && (r.error.Some? ==> (|r.records| < |rows|
                  && ConvertRow(convert, fields, rows[|r.records|], first + |r.records|) == Err(r.error.value)))
  {
    if rows != [] && ConvertRow(convert, fields, rows[0], first).Ok? {
      ConvertRowsStops(convert, fields, rows[1..], first + 1);
      var rest := ConvertRows(convert, fields, rows[1..], first + 1);
      if rest.error.Some? {
        assert rows[1 + |rest.records|] == rows[1..][|rest.records|];
      }
    }
  }

  /** Row `k` converts to record `k`. */
  ghost predicate Converted(convert: CellConverter, fields: seq<Field>, rows: seq<seq<string>>, first: nat, records: seq<map<string, Value>>)
  {
    forall k :: 0 <= k < |records| && k < |rows| ==> ConvertRow(convert, fields, rows[k], first + k) == Ok(records[k])
  }

  /** Each record is what its row converts to. */
  lemma {:induction false} ConvertRowsConverted(convert: CellConverter, fields: seq<Field>, rows: seq<seq<string>>, first: nat)
    decreases |rows|
    ensures |ConvertRows(convert, fields, rows, first).records| <= |rows|
    ensures Converted(convert, fields, rows, first, ConvertRows(convert, fields, rows, first).records)
  {
    if rows != [] && ConvertRow(convert, fields, rows[0], first).Ok? {
      ConvertRowsConverted(convert, fields, rows[1..], first + 1);
      var r := ConvertRows(convert, fields, rows, first);
      var rest := ConvertRows(convert, fields, rows[1..], first + 1);
      forall k | 0 <= k < |r.records| && k < |rows| ensures ConvertRow(convert, fields, rows[k], first + k) == Ok(r.records[k]) {
        if k > 0 {
          assert r.records[k] == rest.records[k - 1] && rows[k] == rows[1..][k - 1];
        }
      }
    }
  }

  /** A failing row's error is a missing cell or a failed conversion. */
  lemma {:induction false} ConvertRowsErrors(convert: CellConverter, fields: seq<Field>, rows: seq<seq<string>>, first: nat)
    ensures var r := ConvertRows(convert, fields, rows, first);
            r.error.Some? ==> r.error.value.MissingCell? || r.error.value.ConversionFailed?
  {
    ConvertRowsCharacterised(convert, fields, rows, first);
  }

  /** Each record is the RecordOf its row. */
  ghost predicate RecordsOf(convert: CellConverter, fields: seq<Field>, rows: seq<seq<string>>, records: seq<map<string, Value>>)
  {
    forall k :: 0 <= k < |records| && k < |rows| ==> RecordOf(convert, fields, rows[k], records[k])
  }

  /** With distinct field names, each record is the RecordOf its row. */
  lemma {:induction false} ConvertRowsRecords(convert: CellConverter, fields: seq<Field>, rows: seq<seq<string>>, first: nat)
    requires DistinctFieldNames(fields)
    decreases |rows|
    ensures RecordsOf(convert, fields, rows, ConvertRows(convert, fields, rows, first).records)
  {
    if rows != [] && ConvertRow(convert, fields, rows[0], first).Ok? {
      ConvertRowRecord(convert, fields, rows[0], first);
      ConvertRowsRecords(convert, fields, rows[1..], first + 1);
      var r := ConvertRows(convert, fields, rows, first);
      var rest := ConvertRows(convert, fields, rows[1..], first + 1);
      assert r.records == [ConvertRow(convert, fields, rows[0], first).value] + rest.records;
      forall k | 0 <= k < |r.records| && k < |rows| ensures RecordOf(convert, fields, rows[k], r.records[k]) {
        if k > 0 {
          assert r.records[k] == rest.records[k - 1] && rows[k] == rows[1..][k - 1];
        }
      }
    }
  }

  /** The rows' output for fields of distinct names: one record per row
      up to the first row that fails, each the RecordOf its row. */
  lemma ConvertRowsOutput(convert: CellConverter, fields: seq<Field>, rows: seq<seq<string>>)
    requires DistinctFieldNames(fields)
    ensures var r := ConvertRows(convert, fields, rows, 0);
            && (r.error.None? ==> |r.records| == |rows|)
            && (r.error.Some? ==> (|r.records| < |rows|
                  && ConvertRow(convert, fields, rows[|r.records|], |r.records|) == Err(r.error.value)))
            && RecordsOf(convert, fields, rows, r.records)
  {
    ConvertRowsCharacterised(convert, fields, rows, 0);
    ConvertRowsRecords(convert, fields, rows, 0);
  }

  /** Every record has exactly the given names as keys. */
  ghost predicate KeyedBy(records: seq<map<string, Value>>, names: seq<string>)
  {
    forall k :: 0 <= k < |records| ==> forall n :: n in records[k] <==> n in names
  }

  /** With distinct field names, every record is keyed by the field names. */
  lemma ConvertRowsKeys(convert: CellConverter, fields: seq<Field>, rows: seq<seq<string>>)
    requires DistinctFieldNames(fields)
    ensures KeyedBy(ConvertRows(convert, fields, rows, 0).records, FieldNames(fields))
  {
    ConvertRowsRecords(convert, fields, rows, 0);
  }

  /** One step of ConvertRows. */
  lemma ConvertRowsStep(convert: CellConverter, fields: seq<Field>, rows: seq<seq<string>>, first: nat)
    requires rows != []
    ensures var record := ConvertRow(convert, fields, rows[0], first);
            var rest := ConvertRows(convert, fields, rows[1..], first + 1);
            ConvertRows(convert, fields, rows, first)
            == if record.Err? then CsvOutput([], Some(record.error)) else CsvOutput([record.value] + rest.records, rest.error)
  {
  }

  /** csv_load as a whole: the output and the registry afterwards. */
  /** The steps after the plan: the converters of the retained fields,
      the column-subset check, then the rows. */
  function LoadPlanned(registry: map<TypeId, ConverterId>, env: Environment, header: seq<string>,
                       data: seq<seq<string>>, plan: Plan, options: CsvLoadOptions)
    : (r: (CsvOutput, map<TypeId, ConverterId>))
    requires Valid(plan.fieldColumns)
    ensures |r.0.records| <= |data|
  {
    var resolved := ResolveFields(registry, Retained(plan.fieldColumns, header), plan.hints, env.hasFromString);
    var fields := resolved.0;
    if |fields| < |header| && !options.allowColumnSubset then
      (CsvOutput([], Some(UnconsumedColumns(Unconsumed(header, ConsumedIndices(fields))))), resolved.1)
    else
      (ConvertRows(Converter(env), fields, data, 0), resolved.1)
  }

  function CsvLoadSpec(registry: map<TypeId, ConverterId>, env: Environment, rows: seq<seq<string>>,
                       mapping: DataMapping, options: CsvLoadOptions,
                       initFunction: Option<Callable>, dataclass: Option<DataclassInfo>)
    : (r: (CsvOutput, map<TypeId, ConverterId>))
    requires ValidMapping(mapping)
    ensures mapping.columnNames.None? && rows == [] ==> r == (CsvOutput([], None), registry)
  {
    var split := SplitHeader(mapping.columnNames, rows);
    if split.None? then (CsvOutput([], None), registry)
    else
      var plan := PlanFields(mapping, options, split.value.0, initFunction, dataclass);
      if plan.Err? then (CsvOutput([], Some(plan.error)), registry)
      else LoadPlanned(registry, env, split.value.0, split.value.1, plan.value, options)
  }

  /** A row's cells at indices no field reads play no part in its record. */
  lemma {:induction false} UnusedCellsIgnored(convert: CellConverter, fields: seq<Field>, row: seq<string>, rowNumber: nat,
                                              unused: nat, cell: string)
    requires unused < |row|
    requires forall k :: 0 <= k < |fields| ==> fields[k].index != unused
    decreases |fields|
    ensures ConvertRow(convert, fields, row[unused := cell], rowNumber) == ConvertRow(convert, fields, row, rowNumber)
  {
    if fields != [] {
      assert forall k :: 0 <= k < |fields[1..]| ==> fields[1..][k] == fields[k + 1];
      UnusedCellsIgnored(convert, fields[1..], row, rowNumber, unused, cell);
      assert fields[0].index != unused;
    }
  }

  /** Every field's candidates turn any cell into itself, as a str. */
  ghost predicate IdentityOnStr(convert: CellConverter, fields: seq<Field>)
  {
    forall k, cell :: 0 <= k < |fields| ==> convert(cell, fields[k].candidates) == Ok(StrValue(cell))
  }

  /** When every cell converts, only a short row fails. */
  lemma {:induction false} OnlyShortRowsFail(convert: CellConverter, fields: seq<Field>, row: seq<string>, rowNumber: nat)
    requires IdentityOnStr(convert, fields)
    decreases |fields|
    ensures ConvertRow(convert, fields, row, rowNumber).Err? ==> ConvertRow(convert, fields, row, rowNumber).error.MissingCell?
  {
    if fields != [] {
      assert IdentityOnStr(convert, fields[1..]) by {
        forall k, cell | 0 <= k < |fields[1..]|
          ensures convert(cell, fields[1..][k].candidates) == Ok(StrValue(cell))
        {
          assert fields[1..][k] == fields[k + 1];
        }
      }
      OnlyShortRowsFail(convert, fields[1..], row, rowNumber);
      if fields[0].index < |row| {
        assert convert(row[fields[0].index], fields[0].candidates) == Ok(StrValue(row[fields[0].index]));
      }
    }
  }

  /** After the plan, the only errors are UnconsumedColumnsError, raised
      exactly when subsets are not allowed and there are fewer retained
      fields than header columns (it lists the columns at the indices no
      field reads, and there is always one), and the error of a row. */
  lemma LoadPlannedErrors(registry: map<TypeId, ConverterId>, env: Environment, header: seq<string>,
                          data: seq<seq<string>>, plan: Plan, options: CsvLoadOptions)
    requires Valid(plan.fieldColumns)
    ensures var retained := Retained(plan.fieldColumns, header);
            var fields := ResolveFields(registry, retained, plan.hints, env.hasFromString).0;
            var r := LoadPlanned(registry, env, header, data, plan, options).0;
            && ((r.error.Some? && r.error.value.UnconsumedColumns?) <==> !options.allowColumnSubset && |retained| < |header|)
            && (r.error.Some? && r.error.value.UnconsumedColumns? ==>
                  r.records == [] && r.error.value.columns == Unconsumed(header, ConsumedIndices(fields))
                  && r.error.value.columns != [])
            && (r.error.Some? ==> r.error.value.UnconsumedColumns? || r.error.value.MissingCell? || r.error.value.ConversionFailed?)
  {
    var retained := Retained(plan.fieldColumns, header);
    var fields := ResolveFields(registry, retained, plan.hints, env.hasFromString).0;
    ResolveFieldsShape(registry, retained, plan.hints, env.hasFromString);
    ConvertRowsErrors(Converter(env), fields, data, 0);
    if |fields| < |header| {
      FewerFieldsLeaveColumns(header, fields);
    }
  }

  /** NotADataclassError comes exactly when there is a header, the init
      function's hints do not fail and the dataclass argument is not a
      dataclass; the KeyError of the init function's hints comes whenever
      there is a header; a setup error comes before any record. */
  lemma CsvLoadSetupErrors(registry: map<TypeId, ConverterId>, env: Environment, rows: seq<seq<string>>,
                           mapping: DataMapping, options: CsvLoadOptions,
                           initFunction: Option<Callable>, dataclass: Option<DataclassInfo>)
    requires ValidMapping(mapping)
    ensures var r := CsvLoadSpec(registry, env, rows, mapping, options, initFunction, dataclass).0;
            && (r.error == Some(NotADataclass) <==>
                  (mapping.columnNames.Some? || rows != []) && !InitHintsFail(initFunction)
                  && dataclass.Some? && !dataclass.value.isDataclass)
            && ((mapping.columnNames.Some? || rows != []) && InitHintsFail(initFunction) ==>
                  r.error == Some(HintsOf(initFunction.value).error))
            && (r.error.Some? && r.error.value.UnannotatedParameter? ==>
                  (mapping.columnNames.Some? || rows != []) && (initFunction.Some? || dataclass.Some?))
            && (r.error.Some? && r.error.value.UnannotatedParameter? ==> r.records == [])
            && (r.error.Some? && (r.error.value.NotADataclass? || r.error.value.UnconsumedColumns?) ==> r.records == [])
  {
    var split := SplitHeader(mapping.columnNames, rows);
    if split.Some? {
      var plan := PlanFields(mapping, options, split.value.0, initFunction, dataclass);
      if plan.Ok? {
        LoadPlannedErrors(registry, env, split.value.0, split.value.1, plan.value, options);
      }
    }
  }

  /** The steps after the plan keep every registry entry and add only
      `from_string` converters. */
  lemma LoadPlannedRegistry(registry: map<TypeId, ConverterId>, env: Environment, header: seq<string>,
                            data: seq<seq<string>>, plan: Plan, options: CsvLoadOptions)
    requires Valid(plan.fieldColumns)
    ensures var after := LoadPlanned(registry, env, header, data, plan, options).1;
            && (forall t :: t in registry ==> t in after && after[t] == registry[t])
            && (forall t :: t in after && t !in registry ==> env.hasFromString(t) && after[t] == FromString(t))
  {
    ResolveFieldsKeepsEntries(registry, Retained(plan.fieldColumns, header), plan.hints, env.hasFromString);
  }

  /** The registry keeps every entry, and the entries added are
      `from_string` converters. */
  lemma CsvLoadRegistry(registry: map<TypeId, ConverterId>, env: Environment, rows: seq<seq<string>>,
                        mapping: DataMapping, options: CsvLoadOptions,
                        initFunction: Option<Callable>, dataclass: Option<DataclassInfo>)
    requires ValidMapping(mapping)
    ensures var after := CsvLoadSpec(registry, env, rows, mapping, options, initFunction, dataclass).1;
            && (forall t :: t in registry ==> t in after && after[t] == registry[t])
            && (forall t :: t in after && t !in registry ==> env.hasFromString(t) && after[t] == FromString(t))
  {
    var split := SplitHeader(mapping.columnNames, rows);
    if split.Some? {
      var plan := PlanFields(mapping, options, split.value.0, initFunction, dataclass);
      if plan.Ok? {
        LoadPlannedRegistry(registry, env, split.value.0, split.value.1, plan.value, options);
      }
    }
  }

  /** Past the subset check: one record per data row, in order, up to the
      first row that fails; each record has exactly the retained fields as
      keys, each holding the first valid conversion of its cell. */
  lemma LoadPlannedRecords(registry: map<TypeId, ConverterId>, env: Environment, header: seq<string>,
                           data: seq<seq<string>>, plan: Plan, options: CsvLoadOptions)
    requires Valid(plan.fieldColumns)
    requires options.allowColumnSubset || |Retained(plan.fieldColumns, header)| >= |header|
    ensures var retained := Retained(plan.fieldColumns, header);
            var fields := ResolveFields(registry, retained, plan.hints, env.hasFromString).0;
            var r := LoadPlanned(registry, env, header, data, plan, options).0;
            && |fields| == |retained|
            && (r.error.None? ==> |r.records| == |data|)
            && (r.error.Some? ==> (|r.records| < |data|
                  && ConvertRow(Converter(env), fields, data[|r.records|], |r.records|) == Err(r.error.value)))
            && FieldNames(fields) == ItemKeys(retained)
            && (forall j :: 0 <= j < |fields| ==> fields[j].name == retained[j].0 && fields[j].index == retained[j].1)
            && (forall k :: 0 <= k < |r.records| ==> RecordOf(Converter(env), fields, data[k], r.records[k]))
  {
    var retained := Retained(plan.fieldColumns, header);
    var fields := ResolveFields(registry, retained, plan.hints, env.hasFromString).0;
    ResolveFieldsShape(registry, retained, plan.hints, env.hasFromString);
    assert FieldNames(fields) == ItemKeys(retained);
    assert DistinctFieldNames(fields) by {
      assert DistinctNames(retained);
    }
    assert LoadPlanned(registry, env, header, data, plan, options).0 == ConvertRows(Converter(env), fields, data, 0);
    ConvertRowsOutput(Converter(env), fields, data);
  }

  /** Whether or not the subset check passes, every record has exactly
      the retained field names as keys. */
  lemma LoadPlannedKeys(registry: map<TypeId, ConverterId>, env: Environment, header: seq<string>,
                        data: seq<seq<string>>, plan: Plan, options: CsvLoadOptions)
    requires Valid(plan.fieldColumns)
    ensures KeyedBy(LoadPlanned(registry, env, header, data, plan, options).0.records, ItemKeys(Retained(plan.fieldColumns, header)))
  {
    var retained := Retained(plan.fieldColumns, header);
    var fields := ResolveFields(registry, retained, plan.hints, env.hasFromString).0;
    ResolveFieldsShape(registry, retained, plan.hints, env.hasFromString);
    assert FieldNames(fields) == ItemKeys(retained);
    assert DistinctFieldNames(fields) by {
      assert DistinctNames(retained);
    }
    if options.allowColumnSubset || |fields| >= |header| {
      assert LoadPlanned(registry, env, header, data, plan, options).0 == ConvertRows(Converter(env), fields, data, 0);
      ConvertRowsKeys(Converter(env), fields, data);
    }
  }

  /** With only str candidates, every field's candidates are the registry's
      str converter, and the registry is unchanged. */
  lemma {:induction false} ResolveFieldsOfStr(registry: map<TypeId, ConverterId>, retained: seq<(string, nat)>,
                                              hints: Dict<TypeSpec>, hasFromString: TypeId -> bool)
    requires StrType in registry
    requires forall k :: 0 <= k < |retained| ==> retained[k].0 !in hints.values
    decreases |retained|
    ensures var r := ResolveFields(registry, retained, hints, hasFromString);
            && r.1 == registry
            && |r.0| == |retained|
            && forall k :: 0 <= k < |retained| ==> r.0[k].candidates == [(registry[StrType], StrType)]
  {
    if retained != [] {
      FlatTypesOfLeaf(StrType);
      assert [StrType][1..] == [] && [StrType][0] == StrType;
      assert Resolve(registry, [], hasFromString) == ([], registry);
      assert Resolve(registry, [StrType], hasFromString).0 == [(registry[StrType], StrType)] + [];
      assert forall k :: 0 <= k < |retained[1..]| ==> retained[1..][k] == retained[k + 1];
      ResolveFieldsOfStr(registry, retained[1..], hints, hasFromString);
    }
  }

  /** When every field converts every cell to itself as a str, records
      hold the raw cells and only a short row fails. */
  lemma StrRows(convert: CellConverter, fields: seq<Field>, rows: seq<seq<string>>)
    requires DistinctFieldNames(fields)
    requires IdentityOnStr(convert, fields)
    ensures var r := ConvertRows(convert, fields, rows, 0);
            && (r.error.Some? ==> r.error.value.MissingCell?)
            && (forall k, j :: 0 <= k < |r.records| && 0 <= j < |fields| ==>
                  fields[j].index < |rows[k]| && fields[j].name in r.records[k]
                  && r.records[k][fields[j].name] == StrValue(rows[k][fields[j].index]))
  {
    var r := ConvertRows(convert, fields, rows, 0);
    assert r.error.Some? ==> r.error.value.MissingCell? by {
      ConvertRowsCharacterised(convert, fields, rows, 0);
      if r.error.Some? {
        OnlyShortRowsFail(convert, fields, rows[|r.records|], |r.records|);
      }
    }
    forall k, j | 0 <= k < |r.records| && 0 <= j < |fields|
      ensures fields[j].index < |rows[k]| && fields[j].name in r.records[k]
              && r.records[k][fields[j].name] == StrValue(rows[k][fields[j].index])
    {
      ConvertRowsRecords(convert, fields, rows, 0);
      assert RecordOf(convert, fields, rows[k], r.records[k]);
      assert convert(rows[k][fields[j].index], fields[j].candidates) == Ok(StrValue(rows[k][fields[j].index]));
    }
  }

  /** Candidates that are the str converter alone turn every cell into
      itself. */
  lemma StrCandidatesIdentity(env: Environment, fields: seq<Field>)
    requires forall k :: 0 <= k < |fields| ==> fields[k].candidates == [(StrConverter, StrType)]
    requires forall s :: env.isInstance(StrValue(s), StrType)
    ensures IdentityOnStr(Converter(env), fields)
  {
    FlatTypesOfLeaf(StrType);
    assert LeavesOf([Leaf(StrType)]) == [StrType];
    forall k, cell | 0 <= k < |fields| ensures Converter(env)(cell, fields[k].candidates) == Ok(StrValue(cell)) {
      assert Succeeds(env, (StrConverter, StrType), cell);
    }
  }

  /** Each record holds, under each retained field, the raw cell of its
      column. */
  ghost predicate HoldsRawCells(records: seq<map<string, Value>>, retained: seq<(string, nat)>, data: seq<seq<string>>)
  {
    forall k, j :: 0 <= k < |records| && 0 <= j < |retained| ==>
      k < |data| && retained[j].1 < |data[k]| && retained[j].0 in records[k]
      && records[k][retained[j].0] == StrValue(data[k][retained[j].1])
  }

  /** StrRows, read through the retained fields the fields come from. */
  lemma StrRowsOfRetained(convert: CellConverter, fields: seq<Field>, retained: seq<(string, nat)>, rows: seq<seq<string>>)
    requires |fields| == |retained|
    requires forall j :: 0 <= j < |fields| ==> fields[j].name == retained[j].0 && fields[j].index == retained[j].1
    requires DistinctNames(retained)
    requires IdentityOnStr(convert, fields)
    ensures var r := ConvertRows(convert, fields, rows, 0);
            && (r.error.Some? ==> r.error.value.MissingCell?)
            && HoldsRawCells(r.records, retained, rows)
  {
    StrRows(convert, fields, rows);
  }

  /** The rows through the converters of unannotated retained fields
      hold the raw cells. */
  lemma UnannotatedRows(registry: map<TypeId, ConverterId>, env: Environment, retained: seq<(string, nat)>,
                        hints: Dict<TypeSpec>, data: seq<seq<string>>)
    requires hints.values == map[] && DistinctNames(retained)
    requires StrType in registry && registry[StrType] == StrConverter
    requires forall s :: env.isInstance(StrValue(s), StrType)
    ensures var r := ConvertRows(Converter(env), ResolveFields(registry, retained, hints, env.hasFromString).0, data, 0);
            HoldsRawCells(r.records, retained, data)
  {
    var fields := ResolveFields(registry, retained, hints, env.hasFromString).0;
    ResolveFieldsOfStr(registry, retained, hints, env.hasFromString);
    ResolveFieldsShape(registry, retained, hints, env.hasFromString);
    StrCandidatesIdentity(env, fields);
    StrRowsOfRetained(Converter(env), fields, retained, data);
  }

  /** With no annotations, and str converting by identity, each record
      holds the raw cells of the retained fields. */
  lemma UnannotatedRawCells(registry: map<TypeId, ConverterId>, env: Environment, header: seq<string>,
                            data: seq<seq<string>>, plan: Plan, options: CsvLoadOptions)
    requires Valid(plan.fieldColumns) && plan.hints.values == map[]
    requires StrType in registry && registry[StrType] == StrConverter
    requires forall s :: env.isInstance(StrValue(s), StrType)
    ensures var retained := Retained(plan.fieldColumns, header);
            var r := LoadPlanned(registry, env, header, data, plan, options).0;
            HoldsRawCells(r.records, retained, data)
  {
    var retained := Retained(plan.fieldColumns, header);
    var fields := ResolveFields(registry, retained, plan.hints, env.hasFromString).0;
    if options.allowColumnSubset || |fields| >= |header| {
      assert LoadPlanned(registry, env, header, data, plan, options).0 == ConvertRows(Converter(env), fields, data, 0);
      UnannotatedRows(registry, env, retained, plan.hints, data);
    }
  }

  /** With no annotations, and str converting by identity, the registry is
      unchanged and, past the subset check, only a short row fails. */
  lemma UnannotatedErrors(registry: map<TypeId, ConverterId>, env: Environment, header: seq<string>,
                            data: seq<seq<string>>, plan: Plan, options: CsvLoadOptions)
    requires Valid(plan.fieldColumns) && plan.hints.values == map[]
    requires StrType in registry && registry[StrType] == StrConverter
    requires forall s :: env.isInstance(StrValue(s), StrType)
    ensures var r := LoadPlanned(registry, env, header, data, plan, options);
            && r.1 == registry
            && (r.0.error.None? || r.0.error.value.MissingCell? || r.0.error.value.UnconsumedColumns?)
  {
    var retained := Retained(plan.fieldColumns, header);
    var fields := ResolveFields(registry, retained, plan.hints, env.hasFromString).0;
    ResolveFieldsOfStr(registry, retained, plan.hints, env.hasFromString);
    ResolveFieldsShape(registry, retained, plan.hints, env.hasFromString);
    StrCandidatesIdentity(env, fields);
    if options.allowColumnSubset || |retained| >= |header| {
      assert LoadPlanned(registry, env, header, data, plan, options).0 == ConvertRows(Converter(env), fields, data, 0);
      StrRowsOfRetained(Converter(env), fields, retained, data);
    }
  }

  /** Rows with a cell for every field index convert without error when
      every cell converts. */
  lemma FullRowsConvert(convert: CellConverter, fields: seq<Field>, rows: seq<seq<string>>, width: nat)
    requires IdentityOnStr(convert, fields)
    requires forall j :: 0 <= j < |fields| ==> fields[j].index < width
    requires forall k :: 0 <= k < |rows| ==> width <= |rows[k]|
    ensures ConvertRows(convert, fields, rows, 0).error.None?
  {
    var r := ConvertRows(convert, fields, rows, 0);
    ConvertRowsCharacterised(convert, fields, rows, 0);
    if r.error.Some? {
      var m := |r.records|;
      ConvertRowSucceeds(convert, fields, rows[m], m);
      forall j | 0 <= j < |fields| ensures CellConverts(convert, fields[j], rows[m]) {
        assert convert(rows[m][fields[j].index], fields[j].candidates) == Ok(StrValue(rows[m][fields[j].index]));
      }
      assert false;
    }
  }

  /** With no annotations, and str converting by identity, rows as long as
      the header load without error, past the subset check. */
  lemma UnannotatedFullRows(registry: map<TypeId, ConverterId>, env: Environment, header: seq<string>,
                            data: seq<seq<string>>, plan: Plan, options: CsvLoadOptions)
    requires Valid(plan.fieldColumns) && plan.hints.values == map[]
    requires StrType in registry && registry[StrType] == StrConverter
    requires forall s :: env.isInstance(StrValue(s), StrType)
    requires forall k :: 0 <= k < |data| ==> |header| <= |data[k]|
    requires options.allowColumnSubset || |Retained(plan.fieldColumns, header)| >= |header|
    ensures var r := LoadPlanned(registry, env, header, data, plan, options).0;
            r.error.None? && |r.records| == |data|
  {
    var retained := Retained(plan.fieldColumns, header);
    var fields := ResolveFields(registry, retained, plan.hints, env.hasFromString).0;
    ResolveFieldsOfStr(registry, retained, plan.hints, env.hasFromString);
    ResolveFieldsShape(registry, retained, plan.hints, env.hasFromString);
    StrCandidatesIdentity(env, fields);
    assert LoadPlanned(registry, env, header, data, plan, options).0 == ConvertRows(Converter(env), fields, data, 0);
    FullRowsConvert(Converter(env), fields, data, |header|);
    ConvertRowsCharacterised(Converter(env), fields, data, 0);
  }

  /** RetainedFrom over a suffix of header names that map to themselves,
      each at its own index. */
  lemma {:induction false} RetainedFromHeader(header: seq<string>, m: nat, fieldColumns: map<string, string>, indices: map<string, nat>)
    requires m <= |header|
    requires forall i :: 0 <= i < |header| ==> header[i] in fieldColumns && fieldColumns[header[i]] == header[i]
    requires forall i :: 0 <= i < |header| ==> header[i] in indices && indices[header[i]] == i
    decreases |header| - m
    ensures var r := RetainedFrom(header[m..], fieldColumns, indices);
            |r| == |header| - m && forall i :: 0 <= i < |r| ==> r[i] == (header[m + i], m + i)
  {
    if m < |header| {
      RetainedFromHeader(header, m + 1, fieldColumns, indices);
      var keys := header[m..];
      assert keys[1..] == header[m + 1..] && keys[0] == header[m];
      var f := header[m];
      assert f in fieldColumns && fieldColumns[f] == f && f in indices && indices[f] == m;
      var rest := RetainedFrom(header[m + 1..], fieldColumns, indices);
      var r := RetainedFrom(keys, fieldColumns, indices);
      assert r == [(f, m)] + rest;
    }
  }

  /** The default mapping of distinct names maps each to itself, in order. */
  lemma StyledColumnsOfDistinct(header: seq<string>)
    requires forall i, j :: 0 <= i < j < |header| ==> header[i] != header[j]
    ensures var d := FromItems(StyledColumns(None, header));
            && d.keys == header
            && forall i :: 0 <= i < |header| ==> header[i] in d.values && d.values[header[i]] == header[i]
  {
    var items := StyledColumns(None, header);
    assert ItemKeys(items) == header;
    FromDistinctItems(items);
    forall i | 0 <= i < |header| ensures header[i] in FromItems(items).values && FromItems(items).values[header[i]] == header[i] {
      FromItemsLastWins(items, i);
    }
  }

  /** Distinct names sit at their own index. */
  lemma ColumnIndicesOfDistinct(header: seq<string>)
    requires forall i, j :: 0 <= i < j < |header| ==> header[i] != header[j]
    ensures forall i :: 0 <= i < |header| ==> header[i] in ColumnIndices(header) && ColumnIndices(header)[header[i]] == i
  {
    var indices := ColumnIndices(header);
    forall i | 0 <= i < |header| ensures header[i] in indices && indices[header[i]] == i {
      assert header[indices[header[i]]] == header[i];
    }
  }

  /** Without a mapping, hints or a style, a header of distinct names makes
      every column a field of its own name, at its own index. */
  lemma HeaderColumnsAll(header: seq<string>)
    requires forall i, j :: 0 <= i < j < |header| ==> header[i] != header[j]
    ensures var r := Retained(FromItems(StyledColumns(None, header)), header);
            |r| == |header| && forall i :: 0 <= i < |header| ==> r[i] == (header[i], i)
  {
    var d := FromItems(StyledColumns(None, header));
    StyledColumnsOfDistinct(header);
    ColumnIndicesOfDistinct(header);
    RetainedFromHeader(header, 0, d.values, ColumnIndices(header));
    assert header[0..] == header;
  }

  /** Each record holds every header column's raw cell under the
      column's name. */
  ghost predicate HoldsColumns(records: seq<map<string, Value>>, header: seq<string>, data: seq<seq<string>>)
  {
    forall k, i :: 0 <= k < |records| && 0 <= i < |header| ==> HoldsColumnAt(records, header, data, k, i)
  }

  /** Record `k` holds column `i`'s raw cell under the column's name. */
  ghost predicate HoldsColumnAt(records: seq<map<string, Value>>, header: seq<string>, data: seq<seq<string>>, k: nat, i: nat)
    requires k < |records| && i < |header|
  {
    k < |data| && i < |data[k]| && header[i] in records[k] && records[k][header[i]] == StrValue(data[k][i])
  }

  /** Retained pairs that are the header's own names at their own indices. */
  lemma HeaderRawCells(records: seq<map<string, Value>>, retained: seq<(string, nat)>, header: seq<string>, data: seq<seq<string>>)
    requires |retained| == |header| && forall i :: 0 <= i < |header| ==> retained[i] == (header[i], i)
    requires HoldsRawCells(records, retained, data)
    requires KeyedBy(records, ItemKeys(retained))
    ensures HoldsColumns(records, header, data)
    ensures KeyedBy(records, header)
  {
    HeaderKeys(retained, header);
    HeaderColumns(records, retained, header, data);
  }

  lemma HeaderKeys(retained: seq<(string, nat)>, header: seq<string>)
    requires |retained| == |header| && forall i :: 0 <= i < |header| ==> retained[i] == (header[i], i)
    ensures ItemKeys(retained) == header
  {
    assert forall i :: 0 <= i < |header| ==> ItemKeys(retained)[i] == header[i];
  }

  lemma HeaderColumns(records: seq<map<string, Value>>, retained: seq<(string, nat)>, header: seq<string>, data: seq<seq<string>>)
    requires |retained| == |header| && forall i :: 0 <= i < |header| ==> retained[i] == (header[i], i)
    requires HoldsRawCells(records, retained, data)
    ensures HoldsColumns(records, header, data)
  {
    forall k, i | 0 <= k < |records| && 0 <= i < |header| ensures HoldsColumnAt(records, header, data, k, i) {
      assert retained[i].0 == header[i] && retained[i].1 == i;
      assert k < |data| && retained[i].1 < |data[k]| && retained[i].0 in records[k]
          && records[k][retained[i].0] == StrValue(data[k][retained[i].1]);
    }
  }

  /** csv_load into dicts with every default: a header of distinct names
      and rows at least as long give one record per row, keyed by exactly
      the header's names, each holding its column's raw cell. */
  lemma DefaultLoad(registry: map<TypeId, ConverterId>, env: Environment, header: seq<string>, data: seq<seq<string>>)
    requires forall i, j :: 0 <= i < j < |header| ==> header[i] != header[j]
    requires StrType in registry && registry[StrType] == StrConverter
    requires forall s :: env.isInstance(StrValue(s), StrType)
    requires forall k :: 0 <= k < |data| ==> |header| <= |data[k]|
    ensures var r := CsvLoadSpec(registry, env, [header] + data, DefaultMapping, DefaultOptions, None, None).0;
            && r.error.None? && |r.records| == |data|
            && KeyedBy(r.records, header)
            && HoldsColumns(r.records, header, data)
  {
    assert ([header] + data)[0] == header && ([header] + data)[1..] == data;
    PlanFieldsChoice(DefaultMapping, DefaultOptions, header, None, None);
    var plan := Plan(EmptyDict(), FromItems(StyledColumns(None, header)));
    assert CsvLoadSpec(registry, env, [header] + data, DefaultMapping, DefaultOptions, None, None)
        == LoadPlanned(registry, env, header, data, plan, DefaultOptions);
    HeaderColumnsAll(header);
    LoadPlannedKeys(registry, env, header, data, plan, DefaultOptions);
    UnannotatedFullRows(registry, env, header, data, plan, DefaultOptions);
    UnannotatedRawCells(registry, env, header, data, plan, DefaultOptions);
    HeaderRawCells(LoadPlanned(registry, env, header, data, plan, DefaultOptions).0.records, Retained(plan.fieldColumns, header), header, data);
  }

  /** The rows loop: one record per row, stopping at the first error. */
  method LoadRows(env: Environment, fields: seq<Field>, rows: seq<seq<string>>) returns (out: CsvOutput)
    ensures out == ConvertRows(Converter(env), fields, rows, 0)
  {
    var convert := Converter(env);
    var records := [];
    assert rows[0..] == rows;
    for i := 0 to |rows|
      invariant ConvertRows(convert, fields, rows, 0).records == records + ConvertRows(convert, fields, rows[i..], i).records
      invariant ConvertRows(convert, fields, rows, 0).error == ConvertRows(convert, fields, rows[i..], i).error
    {
      assert rows[i..][0] == rows[i] && rows[i..][1..] == rows[i + 1..];
      ConvertRowsStep(convert, fields, rows[i..], i);
      var record := ConvertRow(convert, fields, rows[i], i);
      if record.Err? {
        return CsvOutput(records, Some(record.error));
      }
      records := records + [record.value];
    }
    assert rows[|rows|..] == [];
    out := CsvOutput(records, None);
  }

  /** field_to_index_and_converters: each retained field with its
      candidates, asking the parser for them field by field. */
  method ConvertersOf(parser: StringParser, retained: seq<(string, nat)>, hints: Dict<TypeSpec>, hasFromString: TypeId -> bool)
    returns (fields: seq<Field>)
    modifies parser
    ensures (fields, parser.registry) == ResolveFields(old(parser.registry), retained, hints, hasFromString)
  {
    fields := [];
    ghost var total := ResolveFields(parser.registry, retained, hints, hasFromString);
    assert retained[0..] == retained;
    for i := 0 to |retained|
      invariant total.0 == fields + ResolveFields(parser.registry, retained[i..], hints, hasFromString).0
      invariant total.1 == ResolveFields(parser.registry, retained[i..], hints, hasFromString).1
    {
      ghost var before := parser.registry;
      var candidates := parser.Converters(HintOrStr(hints, retained[i].0), hasFromString);
      ResolveFieldsAdvance(total, fields, before, retained, i, hints, hasFromString, candidates, parser.registry);
      fields := fields + [Field(retained[i].0, retained[i].1, candidates)];
    }
    assert retained[|retained|..] == [];
    assert fields + [] == fields;
  }

  /** csv_load: settle the header and the mapping, resolve each retained
      field's converters through the parser, check for unconsumed columns,
      then convert the rows. */
  method Load(parser: StringParser, env: Environment, rows: seq<seq<string>>, mapping: DataMapping,
              options: CsvLoadOptions, initFunction: Option<Callable>, dataclass: Option<DataclassInfo>)
    returns (out: CsvOutput)
    requires ValidMapping(mapping)
    modifies parser
    ensures (out, parser.registry) == CsvLoadSpec(old(parser.registry), env, rows, mapping, options, initFunction, dataclass)
  {
    var split := SplitHeader(mapping.columnNames, rows);
    if split.None? {
      return CsvOutput([], None);
    }
    var header := split.value.0;
    var plan := PlanFields(mapping, options, header, initFunction, dataclass);
    if plan.Err? {
      return CsvOutput([], Some(plan.error));
    }
    assert CsvLoadSpec(old(parser.registry), env, rows, mapping, options, initFunction, dataclass)
        == LoadPlanned(old(parser.registry), env, header, split.value.1, plan.value, options);
    var fields := ConvertersOf(parser, Retained(plan.value.fieldColumns, header), plan.value.hints, env.hasFromString);
    if |fields| < |header| && !options.allowColumnSubset {
      return CsvOutput([], Some(UnconsumedColumns(Unconsumed(header, ConsumedIndices(fields)))));
    }
    out := LoadRows(env, fields, split.value.1);
  }
}
