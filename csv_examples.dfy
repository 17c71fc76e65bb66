/** The behaviour the csv_load tests pin down, for rows already split
    into cells. */
module CsvExamples {
  import opened Wrappers
  import opened Hinting
  import opened Parsing
  import opened Dicts
  import opened CsvLoad

  /** The header of the sample file. */
  const Header := ["number", "float_number", "from_registered", "from_method", "string"]

  /** `{"the_float": "float_number", "the_string": "string"}`. */
  const DictMapping := Dict(["the_float", "the_string"], map["the_float" := "float_number", "the_string" := "string"])

  lemma HeaderDistinct()
    ensures forall i, j :: 0 <= i < j < |Header| ==> Header[i] != Header[j]
  {
  }

  lemma HeaderIndices()
    ensures "float_number" in ColumnIndices(Header) && ColumnIndices(Header)["float_number"] == 1
    ensures "string" in ColumnIndices(Header) && ColumnIndices(Header)["string"] == 4
  {
    HeaderDistinct();
    ColumnIndicesOfDistinct(Header);
    assert Header[1] == "float_number" && Header[4] == "string";
  }

  lemma DictMappingValid()
    ensures Valid(DictMapping)
  {
  }

  lemma DictMappingRetainedFrom()
    ensures RetainedFrom(DictMapping.keys, DictMapping.values, ColumnIndices(Header)) == [("the_float", 1), ("the_string", 4)]
  {
    HeaderIndices();
    RetainedFromTwo("the_float", "the_string", DictMapping.values, ColumnIndices(Header));
  }

  /** Two keys whose columns are both in the header are both retained. */
  lemma RetainedFromTwo(a: string, b: string, fieldColumns: map<string, string>, indices: map<string, nat>)
    requires a in fieldColumns && fieldColumns[a] in indices
    requires b in fieldColumns && fieldColumns[b] in indices
    ensures RetainedFrom([a, b], fieldColumns, indices) == [(a, indices[fieldColumns[a]]), (b, indices[fieldColumns[b]])]
  {
    assert [a, b][1..] == [b] && [b][1..] == [];
    assert RetainedFrom([b], fieldColumns, indices) == [(b, indices[fieldColumns[b]])];
  }

  /** The two mapped fields read columns 1 and 4. */
  lemma DictMappingRetained()
    ensures Valid(DictMapping)
    ensures Retained(DictMapping, Header) == [("the_float", 1), ("the_string", 4)]
  {
    DictMappingValid();
    DictMappingRetainedFrom();
  }

  lemma UnconsumedOfHeader()
    ensures Unconsumed(Header, {1, 4}) == ["number", "from_registered", "from_method"]
  {
    var h := Header;
    assert h[..4] == ["number", "float_number", "from_registered", "from_method"];
    assert h[..4][..3] == ["number", "float_number", "from_registered"];
    assert h[..4][..3][..2] == ["number", "float_number"];
    assert h[..4][..3][..2][..1] == ["number"];
    assert h[..4][..3][..2][..1][..0] == [];
    assert Unconsumed(["number"], {1, 4}) == ["number"];
    assert Unconsumed(["number", "float_number"], {1, 4}) == ["number"];
    assert Unconsumed(["number", "float_number", "from_registered"], {1, 4}) == ["number", "from_registered"];
  }

  lemma ConsumedOfTwo(fields: seq<Field>)
    requires |fields| == 2 && fields[0].index == 1 && fields[1].index == 4
    ensures ConsumedIndices(fields) == {1, 4}
  {
    assert fields[..1][..0] == [];
    assert ConsumedIndices(fields[..1]) == {1};
  }

  /** test_csv_load_into_dict, first half: with subsets refused, the three
      unmapped columns are reported, in header order, before any record. */
  lemma CsvIntoDictRejectsSubset(registry: map<TypeId, ConverterId>, env: Environment, data: seq<seq<string>>)
    ensures var mapping := DataMapping(None, Some(DictMapping), None);
            ValidMapping(mapping)
            && CsvLoadSpec(registry, env, [Header] + data, mapping, CsvLoadOptions("csv_key", false), None, None).0
               == CsvOutput([], Some(UnconsumedColumns(["number", "from_registered", "from_method"])))
  {
    var mapping := DataMapping(None, Some(DictMapping), None);
    var options := CsvLoadOptions("csv_key", false);
    DictMappingRetained();
    assert ([Header] + data)[0] == Header && ([Header] + data)[1..] == data;
    PlanFieldsChoice(mapping, options, Header, None, None);
    var plan := Plan(EmptyDict(), DictMapping);
    assert PlanFields(mapping, options, Header, None, None) == Ok(plan);
    var retained := Retained(DictMapping, Header);
    ResolveFieldsShape(registry, retained, plan.hints, env.hasFromString);
    var fields := ResolveFields(registry, retained, plan.hints, env.hasFromString).0;
    ConsumedOfTwo(fields);
    UnconsumedOfHeader();
  }

  const DictPlan := Plan(EmptyDict(), DictMapping)

  const DictRetained := [("the_float", 1), ("the_string", 4)]

  /** The raw cells of the two retained columns, read record by record. */
  lemma DictRecordCells(records: seq<map<string, Value>>, data: seq<seq<string>>)
    requires |records| <= |data| && forall k :: 0 <= k < |data| ==> |data[k]| >= 5
    requires HoldsRawCells(records, DictRetained, data)
    requires KeyedBy(records, ItemKeys(DictRetained))
    ensures forall k :: 0 <= k < |records| ==>
              && records[k].Keys == {"the_float", "the_string"}
              && records[k]["the_float"] == StrValue(data[k][1])
              && records[k]["the_string"] == StrValue(data[k][4])
  {
    forall k | 0 <= k < |records|
      ensures records[k].Keys == {"the_float", "the_string"}
      ensures records[k]["the_float"] == StrValue(data[k][1])
      ensures records[k]["the_string"] == StrValue(data[k][4])
    {
      assert DictRetained[0] == ("the_float", 1) && DictRetained[1] == ("the_string", 4);
      assert ItemKeys(DictRetained) == ["the_float", "the_string"];
    }
  }

  /** test_csv_load_into_dict, second half: with subsets allowed, every
      row of five cells gives a record of exactly the two mapped fields,
      each holding its column's cell as a string. */
  lemma CsvIntoDict(registry: map<TypeId, ConverterId>, env: Environment, data: seq<seq<string>>)
    requires StrType in registry && registry[StrType] == StrConverter
    requires forall s :: env.isInstance(StrValue(s), StrType)
    requires forall k :: 0 <= k < |data| ==> |data[k]| >= 5
    ensures var mapping := DataMapping(None, Some(DictMapping), None);
            ValidMapping(mapping)
            && var r := CsvLoadSpec(registry, env, [Header] + data, mapping, DefaultOptions, None, None).0;
            && r.error.None? && |r.records| == |data|
            && forall k :: 0 <= k < |data| ==>
                 && r.records[k].Keys == {"the_float", "the_string"}
                 && r.records[k]["the_float"] == StrValue(data[k][1])
                 && r.records[k]["the_string"] == StrValue(data[k][4])
  {
    var mapping := DataMapping(None, Some(DictMapping), None);
    DictMappingValid();
    assert ([Header] + data)[0] == Header && ([Header] + data)[1..] == data;
    PlanFieldsChoice(mapping, DefaultOptions, Header, None, None);
    assert CsvLoadSpec(registry, env, [Header] + data, mapping, DefaultOptions, None, None)
        == LoadPlanned(registry, env, Header, data, DictPlan, DefaultOptions);
    DictMappingRetained();
    LoadPlannedKeys(registry, env, Header, data, DictPlan, DefaultOptions);
    UnannotatedFullRows(registry, env, Header, data, DictPlan, DefaultOptions);
    UnannotatedRawCells(registry, env, Header, data, DictPlan, DefaultOptions);
    DictRecordCells(LoadPlanned(registry, env, Header, data, DictPlan, DefaultOptions).0.records, data);
  }

  /** Records keyed by the one column hold only its cell. */
  lemma OneColumnRecords(records: seq<map<string, Value>>, data: seq<seq<string>>)
    requires |records| <= |data| && forall k :: 0 <= k < |data| ==> |data[k]| >= 1
    requires KeyedBy(records, ["only_this"]) && HoldsColumns(records, ["only_this"], data)
    ensures forall k :: 0 <= k < |records| ==> records[k] == map["only_this" := StrValue(data[k][0])]
  {
    forall k | 0 <= k < |records| ensures records[k] == map["only_this" := StrValue(data[k][0])] {
      assert ["only_this"][0] == "only_this";
      assert HoldsColumnAt(records, ["only_this"], data, k, 0);
      assert records[k].Keys == {"only_this"};
    }
  }

  /** test_csv_load_missing_column_name: a one-column header keeps only
      the first cell of each longer row. */
  lemma MissingColumnName(registry: map<TypeId, ConverterId>, env: Environment, data: seq<seq<string>>)
    requires StrType in registry && registry[StrType] == StrConverter
    requires forall s :: env.isInstance(StrValue(s), StrType)
    requires forall k :: 0 <= k < |data| ==> |data[k]| >= 1
    ensures var r := CsvLoadSpec(registry, env, [["only_this"]] + data, DefaultMapping, DefaultOptions, None, None).0;
            && r.error.None? && |r.records| == |data|
            && forall k :: 0 <= k < |data| ==> r.records[k] == map["only_this" := StrValue(data[k][0])]
  {
    var header := ["only_this"];
    DefaultLoad(registry, env, header, data);
    OneColumnRecords(CsvLoadSpec(registry, env, [header] + data, DefaultMapping, DefaultOptions, None, None).0.records, data);
  }

  /** The one record of the three columns, read off the generic facts. */
  lemma ThreeColumnRecord(records: seq<map<string, Value>>, header: seq<string>, data: seq<seq<string>>)
    requires header == ["a", "b", "c"] && data == [["1", "2", "3"]] && |records| == 1
    requires KeyedBy(records, header) && HoldsColumns(records, header, data)
    ensures records == [map["a" := StrValue("1"), "b" := StrValue("2"), "c" := StrValue("3")]]
  {
    assert header[0] == "a" && header[1] == "b" && header[2] == "c";
    assert HoldsColumnAt(records, header, data, 0, 0) && HoldsColumnAt(records, header, data, 0, 1)
        && HoldsColumnAt(records, header, data, 0, 2);
    assert records[0].Keys == {"a", "b", "c"};
    assert records[0] == map["a" := StrValue("1"), "b" := StrValue("2"), "c" := StrValue("3")];
  }

  /** test_csv_load_custom_delimiter, once the row is split: one record of
      the three cells. */
  lemma ThreeColumns(registry: map<TypeId, ConverterId>, env: Environment)
    requires StrType in registry && registry[StrType] == StrConverter
    requires forall s :: env.isInstance(StrValue(s), StrType)
    ensures CsvLoadSpec(registry, env, [["a", "b", "c"], ["1", "2", "3"]], DefaultMapping, DefaultOptions, None, None).0
            == CsvOutput([map["a" := StrValue("1"), "b" := StrValue("2"), "c" := StrValue("3")]], None)
  {
    var header := ["a", "b", "c"];
    var data := [["1", "2", "3"]];
    assert [["a", "b", "c"], ["1", "2", "3"]] == [header] + data;
    DefaultLoad(registry, env, header, data);
    var r := CsvLoadSpec(registry, env, [header] + data, DefaultMapping, DefaultOptions, None, None).0;
    ThreeColumnRecord(r.records, header, data);
  }

  /** Two fields mapped onto the same column "a" of a two-column header. */
  const SharedHeader := ["a", "b"]

  const SharedMapping := Dict(["x", "y"], map["x" := "a", "y" := "a"])

  lemma SharedRetained()
    ensures Valid(SharedMapping)
    ensures Retained(SharedMapping, SharedHeader) == [("x", 0), ("y", 0)]
  {
    var indices := ColumnIndices(SharedHeader);
    assert SharedHeader[0] == "a" && SharedHeader[1] != "a";
    assert "a" in indices && indices["a"] == 0;
    var keys := SharedMapping.keys;
    assert keys[1..] == ["y"] && keys[1..][1..] == [];
    assert RetainedFrom(keys[1..], SharedMapping.values, indices) == [("y", 0)];
  }

  lemma SharedUnconsumed(fields: seq<Field>)
    requires |fields| == 2 && fields[0].index == 0 && fields[1].index == 0
    ensures Unconsumed(SharedHeader, ConsumedIndices(fields)) == ["b"]
  {
    assert fields[..1][..0] == [];
    assert ConsumedIndices(fields[..1]) == {0};
    assert ConsumedIndices(fields) == {0};
    assert SharedHeader[..1] == ["a"] && SharedHeader[..1][..0] == [];
  }

  lemma SharedFieldsUnconsumed(registry: map<TypeId, ConverterId>, hasFromString: TypeId -> bool)
    ensures Valid(SharedMapping)
    ensures Unconsumed(SharedHeader, ConsumedIndices(ResolveFields(registry, Retained(SharedMapping, SharedHeader), EmptyDict(), hasFromString).0)) == ["b"]
  {
    SharedRetained();
    var retained := Retained(SharedMapping, SharedHeader);
    ResolveFieldsShape(registry, retained, EmptyDict(), hasFromString);
    SharedUnconsumed(ResolveFields(registry, retained, EmptyDict(), hasFromString).0);
  }

  /** The subset check counts fields instead of comparing the consumed
      indices with the header's: two fields on the same column pass it
      while column "b" goes unread. */
  lemma CountCheckMissesSharedColumn(registry: map<TypeId, ConverterId>, env: Environment, data: seq<seq<string>>)
    ensures var mapping := DataMapping(None, Some(SharedMapping), None);
            ValidMapping(mapping)
            && var r := CsvLoadSpec(registry, env, [SharedHeader] + data, mapping, CsvLoadOptions("csv_key", false), None, None).0;
            var fields := ResolveFields(registry, Retained(SharedMapping, SharedHeader), EmptyDict(), env.hasFromString).0;
            && !(r.error.Some? && r.error.value.UnconsumedColumns?)
            && Unconsumed(SharedHeader, ConsumedIndices(fields)) == ["b"]
  {
    var mapping := DataMapping(None, Some(SharedMapping), None);
    var options := CsvLoadOptions("csv_key", false);
    SharedRetained();
    assert ([SharedHeader] + data)[0] == SharedHeader && ([SharedHeader] + data)[1..] == data;
    PlanFieldsChoice(mapping, options, SharedHeader, None, None);
    var plan := Plan(EmptyDict(), SharedMapping);
    assert CsvLoadSpec(registry, env, [SharedHeader] + data, mapping, options, None, None)
        == LoadPlanned(registry, env, SharedHeader, data, plan, options);
    LoadPlannedErrors(registry, env, SharedHeader, data, plan, options);
    SharedFieldsUnconsumed(registry, env.hasFromString);
  }

  /** As written, an init function with an unannotated argument raises its
      KeyError before a class that is not a dataclass is reported. */
  lemma UnannotatedInitFirst(header: seq<string>)
    ensures var notADataclass := DataclassInfo(false, Callable([], map[]), map[]);
            PlanFields(DefaultMapping, DefaultOptions, header, Some(Callable(["x"], map[])), Some(notADataclass))
              == Err(UnannotatedParameter("x"))
  {
    var f := Callable(["x"], map[]);
    assert ArgumentNames(f.parameters) == ["x"];
    assert ArgumentHintsAsWritten(f, ["x"]) == Err(MissingAnnotation("x"));
  }
}
