/** Parsing strings into typed values: parse_bool, the text of a source,
    and the registry of string converters a StringParser keeps. */
module Parsing {
  import opened Wrappers
  import opened Text
  import opened Hinting

  // ---------------------------------------------------------------------
  // Values, converters and what the model takes from outside
  // ---------------------------------------------------------------------

  /** A value a converter produces: a string, a boolean, or a value of some
      other type, known only by an opaque token. */
  datatype Value = StrValue(text: string) | BoolValue(flag: bool) | OtherValue(kind: TypeId, token: nat)

  /** The converters a registry can hold: the built-in ones, a type's own
      `from_string`, and ones installed by set_converter. */
  datatype ConverterId =
    | StrConverter
    | IntConverter
    | FloatConverter
    | BoolConverter
    | FromString(owner: TypeId)
    | Custom(name: string)

  /** What the model does not compute itself: numeric parsing, the
      `from_string` methods and installed converters (None when they
      raise), whether a type has a callable `from_string`, isinstance,
      and the platform's line separator. */
  datatype Environment = Environment(
    parseInt: string -> Option<Value>,
    parseFloat: string -> Option<Value>,
    hasFromString: TypeId -> bool,
    fromString: (TypeId, string) -> Option<Value>,
    custom: (string, string) -> Option<Value>,
    isInstance: (Value, TypeId) -> bool,
    lineSeparator: string)

  /** Running a converter on a string. */
  function Apply(env: Environment, c: ConverterId, s: string): Option<Value>
  {
    match c
    case StrConverter => Some(StrValue(s))
    case IntConverter => env.parseInt(s)
    case FloatConverter => env.parseFloat(s)
    case BoolConverter => Some(BoolValue(ParseBool(s)))
    case FromString(t) => env.fromString(t, s)
    case Custom(name) => env.custom(name, s)
  }

  // ---------------------------------------------------------------------
  // parse_bool and get_text
  // ---------------------------------------------------------------------

  /** The strings are equal up to ASCII case. */
  predicate SameIgnoringCase(a: string, b: string)
  {
    |a| == |b| && forall i :: 0 <= i < |a| ==> LowerChar(a[i]) == LowerChar(b[i])
  }

  lemma LowerEqualsIff(s: string, w: string)
    requires HasNoUpper(w)
    ensures Lower(s) == w <==> SameIgnoringCase(s, w)
  {
    if SameIgnoringCase(s, w) {
      assert forall i :: 0 <= i < |w| ==> LowerChar(w[i]) == w[i];
    }
  }

  /** parse_bool: "1", "true" and "yes", in any case, are true; every other
      string is false. */
  function ParseBool(value: string): (r: bool)
    ensures r <==> SameIgnoringCase(value, "1") || SameIgnoringCase(value, "true") || SameIgnoringCase(value, "yes")
  {
    assert HasNoUpper("1") && HasNoUpper("true") && HasNoUpper("yes");
    LowerEqualsIff(value, "1");
    LowerEqualsIff(value, "true");
    LowerEqualsIff(value, "yes");
    Lower(value) in ["1", "true", "yes"]
  }

  lemma ParseBoolExamples()
    ensures ParseBool("TRUE") && ParseBool("Yes") && ParseBool("1")
    ensures !ParseBool("0") && !ParseBool("no") && !ParseBool("") && !ParseBool("y")
  {
    assert SameIgnoringCase("TRUE", "true") by {
      assert LowerChar('T') == 't' && LowerChar('R') == 'r' && LowerChar('U') == 'u' && LowerChar('E') == 'e';
    }
    assert SameIgnoringCase("Yes", "yes") by { assert LowerChar('Y') == 'y'; }
    assert !SameIgnoringCase("0", "1") by { assert LowerChar("0"[0]) == '0' && LowerChar("1"[0]) == '1'; }
  }

  /** A text source without file or stream I/O: a string, or a list of
      lines. */
  datatype TextSource = Whole(text: string) | Lines(lines: seq<string>)

  /** get_text: a string is itself; lines are joined with the line
      separator. */
  function GetText(source: TextSource, lineSeparator: string): (r: string)
    ensures source.Whole? ==> r == source.text
    ensures source.Lines? ==> |r| == TotalLength(source.lines) + (if source.lines == [] then 0 else (|source.lines| - 1) * |lineSeparator|)
  {
    match source
    case Whole(text) => text
    case Lines(lines) =>
      if lines != [] then JoinLength(lineSeparator, lines); Join(lineSeparator, lines)
      else Join(lineSeparator, lines)
  }

  /** Appending a line appends the separator and the line. */
  lemma GetTextAppendLine(lines: seq<string>, line: string, lineSeparator: string)
    requires lines != []
    ensures GetText(Lines(lines + [line]), lineSeparator) == GetText(Lines(lines), lineSeparator) + lineSeparator + line
  {
    JoinSnoc(lineSeparator, lines, line);
  }

  // ---------------------------------------------------------------------
  // The import of hinting.py
  // ---------------------------------------------------------------------

  /** The module-level names hinting.py defines. */
  const HintingNames: set<string> := {"T", "iterate_types", "verified_cast", "get_callable_argument_hints"}

  /** `from module import names`: the first name the module does not define
      raises ImportError; otherwise every name is bound, in order. */
  function ImportFrom(defined: set<string>, names: seq<string>): (r: Result<seq<string>, string>)
    ensures r.Err? <==> exists k :: 0 <= k < |names| && names[k] !in defined
    ensures r.Err? ==> r.error in names && r.error !in defined
    ensures r.Ok? ==> r.value == names
  {
    if names == [] then Ok([])
    else if names[0] !in defined then Err(names[0])
    else
      match ImportFrom(defined, names[1..])
      case Ok(rest) =>
        assert names == [names[0]] + names[1..];
        Ok([names[0]] + rest)
      case Err(missing) => Err(missing)
  }

  /** As written, parsing.py imports `verify_type`, which hinting.py does
      not define, so importing parsing.py raises ImportError. */
  lemma ImportAsWrittenFails()
    ensures ImportFrom(HintingNames, ["get_callable_argument_hints", "iterate_types", "verify_type"]) == Err("verify_type")
  {
    var names := ["get_callable_argument_hints", "iterate_types", "verify_type"];
    assert names[1..] == ["iterate_types", "verify_type"] && names[1..][1..] == ["verify_type"];
  }

  /** Importing `verified_cast`, the function the call at parsing.py:141
      evidently means, succeeds. */
  lemma ImportCorrectedSucceeds()
    ensures var names := ["get_callable_argument_hints", "iterate_types", "verified_cast"];
            ImportFrom(HintingNames, names) == Ok(names)
  {
    var names := ["get_callable_argument_hints", "iterate_types", "verified_cast"];
    assert forall k :: 0 <= k < |names| ==> names[k] in HintingNames;
  }

  // ---------------------------------------------------------------------
  // The registry
  // ---------------------------------------------------------------------

  /** default_string_converters: Any and str read the string as it is, int
      and float parse it, bool uses parse_bool. */
  const DefaultRegistry: map<TypeId, ConverterId> := map[
    AnyType := StrConverter,
    StrType := StrConverter,
    IntType := IntConverter,
    FloatType := FloatConverter,
    BoolType := BoolConverter]

  lemma DefaultRegistryBehaviour(env: Environment, s: string)
    ensures DefaultRegistry.Keys == {AnyType, StrType, IntType, FloatType, BoolType}
    ensures Apply(env, DefaultRegistry[AnyType], s) == Some(StrValue(s))
    ensures Apply(env, DefaultRegistry[StrType], s) == Some(StrValue(s))
    ensures Apply(env, DefaultRegistry[BoolType], s) == Some(BoolValue(ParseBool(s)))
    ensures Apply(env, DefaultRegistry[IntType], s) == env.parseInt(s)
    ensures Apply(env, DefaultRegistry[FloatType], s) == env.parseFloat(s)
  {
  }

  /** What converters() computes for a list of types: the (converter, type)
      candidates and the registry afterwards. A type without an entry gets
      its `from_string`, when it has one; a type with neither is skipped. */
  function Resolve(registry: map<TypeId, ConverterId>, types: seq<TypeId>, hasFromString: TypeId -> bool)
    : (seq<(ConverterId, TypeId)>, map<TypeId, ConverterId>)
    decreases |types|
  {
    if types == [] then ([], registry)
    else
      var t := types[0];
      var memo := if t !in registry && hasFromString(t) then registry[t := FromString(t)] else registry;
      var rest := Resolve(memo, types[1..], hasFromString);
      if t in memo then ([(memo[t], t)] + rest.0, rest.1) else rest
  }

  /** The types a registry can convert. */
  predicate Convertible(registry: map<TypeId, ConverterId>, hasFromString: TypeId -> bool, t: TypeId)
  {
    t in registry || hasFromString(t)
  }

  /** converters() never overwrites an entry; it adds an entry only for a
      listed type that had none, and that entry is the type's own
      `from_string`; every convertible type ends up with an entry. */
  lemma {:induction false} ResolveRegistry(registry: map<TypeId, ConverterId>, types: seq<TypeId>, hasFromString: TypeId -> bool)
    decreases |types|
    ensures var after := Resolve(registry, types, hasFromString).1;
            && (forall t :: t in registry ==> t in after && after[t] == registry[t])
            && (forall t :: t in after && t !in registry ==> t in types && hasFromString(t) && after[t] == FromString(t))
            && (forall t :: t in types && Convertible(registry, hasFromString, t) ==> t in after)
  {
    if types != [] {
      var t := types[0];
      var memo := if t !in registry && hasFromString(t) then registry[t := FromString(t)] else registry;
      ResolveRegistry(memo, types[1..], hasFromString);
    }
  }

  /** Each candidate of converters() is a listed type with the converter
      the registry holds for it afterwards. */
  lemma {:induction false} ResolveCandidateEntries(registry: map<TypeId, ConverterId>, types: seq<TypeId>, hasFromString: TypeId -> bool)
    decreases |types|
    ensures var r := Resolve(registry, types, hasFromString);
            forall k :: 0 <= k < |r.0| ==> r.0[k].1 in types && r.0[k].1 in r.1 && r.0[k].0 == r.1[r.0[k].1]
  {
    if types != [] {
      var t := types[0];
      var memo := if t !in registry && hasFromString(t) then registry[t := FromString(t)] else registry;
      ResolveCandidateEntries(memo, types[1..], hasFromString);
      ResolveRegistry(memo, types[1..], hasFromString);
      var rest := Resolve(memo, types[1..], hasFromString).0;
      if t in memo {
        var cs := [(memo[t], t)] + rest;
        forall k | 0 < k < |cs| ensures cs[k] == rest[k - 1] && rest[k - 1].1 in types[1..] { }
      }
    }
  }

  /** A listed type is among the candidates of converters() exactly when it
      is convertible: it has an entry or a `from_string`. */
  lemma {:induction false} ResolveCandidateTypes(registry: map<TypeId, ConverterId>, types: seq<TypeId>, hasFromString: TypeId -> bool)
    requires forall i, j :: 0 <= i < j < |types| ==> types[i] != types[j]
    decreases |types|
    ensures var candidates := Resolve(registry, types, hasFromString).0;
            forall t :: t in types ==> (t in TypesOf(candidates) <==> Convertible(registry, hasFromString, t))
  {
    if types != [] {
      var t := types[0];
      var memo := if t !in registry && hasFromString(t) then registry[t := FromString(t)] else registry;
      ResolveCandidateTypes(memo, types[1..], hasFromString);
      ResolveCandidateEntries(memo, types[1..], hasFromString);
      var rest := Resolve(memo, types[1..], hasFromString).0;
      assert forall u :: u in types[1..] ==> u != t;
      forall k | 0 <= k < |TypesOf(rest)| ensures TypesOf(rest)[k] != t {
        assert rest[k].1 in types[1..];
      }
      assert forall u :: u != t ==> (Convertible(memo, hasFromString, u) <==> Convertible(registry, hasFromString, u));
      assert forall u :: u in types && u != t ==> u in types[1..];
      if t in memo {
        assert TypesOf([(memo[t], t)] + rest) == [t] + TypesOf(rest);
      }
    }
  }

  lemma CandidateTypesAreListed(registry: map<TypeId, ConverterId>, types: seq<TypeId>, hasFromString: TypeId -> bool)
    ensures forall u :: u in TypesOf(Resolve(registry, types, hasFromString).0) ==> u in types
  {
    ResolveCandidateEntries(registry, types, hasFromString);
    var cands := Resolve(registry, types, hasFromString).0;
    forall u | u in TypesOf(cands) ensures u in types {
      var k :| 0 <= k < |TypesOf(cands)| && TypesOf(cands)[k] == u;
      assert cands[k].1 == u;
    }
  }

  /** The candidates of converters() keep the order of the listed types. */
  lemma {:induction false} ResolveCandidateOrder(registry: map<TypeId, ConverterId>, types: seq<TypeId>, hasFromString: TypeId -> bool)
    requires forall i, j :: 0 <= i < j < |types| ==> types[i] != types[j]
    decreases |types|
    ensures InFirstOccurrenceOrder(types, TypesOf(Resolve(registry, types, hasFromString).0))
  {
    if types != [] {
      var t := types[0];
      var memo := if t !in registry && hasFromString(t) then registry[t := FromString(t)] else registry;
      ResolveCandidateOrder(memo, types[1..], hasFromString);
      var rest := TypesOf(Resolve(memo, types[1..], hasFromString).0);
      CandidateTypesAreListed(memo, types[1..], hasFromString);
      assert forall u :: u in types[1..] ==> u != t;
      if t in memo {
        assert TypesOf(Resolve(registry, types, hasFromString).0) == [t] + rest;
        OrderAfterFirst(types, rest);
      } else {
        OrderAfterHead(types, rest);
      }
    }
  }

  /** The types of a list of candidates. */
  function TypesOf(candidates: seq<(ConverterId, TypeId)>): (r: seq<TypeId>)
    ensures |r| == |candidates|
    ensures forall k :: 0 <= k < |r| ==> r[k] == candidates[k].1
  {
    seq(|candidates|, k requires 0 <= k < |candidates| => candidates[k].1)
  }

  /** set_converter's new registry: every type listed maps to c, every
      other entry is as before. */
  function WithConverter(registry: map<TypeId, ConverterId>, types: seq<TypeId>, c: ConverterId): (r: map<TypeId, ConverterId>)
    ensures forall t :: t in r <==> t in registry || t in types
    ensures forall t :: t in types ==> r[t] == c
    ensures forall t :: t in registry && t !in types ==> r[t] == registry[t]
    decreases |types|
  {
    if types == [] then registry else WithConverter(registry[types[0] := c], types[1..], c)
  }

  /** A candidate succeeds on a string when its converter returns a value
      that is an instance of its type. */
  predicate Succeeds(env: Environment, candidate: (ConverterId, TypeId), source: string)
  {
    var converted := Apply(env, candidate.0, source);
    converted.Some? && VerifiedCast(Leaf(candidate.1), converted.value, env.isInstance).Ok?
  }

  datatype ParseError = StringParserError(value: string)

  /** Candidate `k` is the first that succeeds. */
  predicate FirstSuccess(env: Environment, source: string, candidates: seq<(ConverterId, TypeId)>, k: nat)
    requires k < |candidates|
  {
    Succeeds(env, candidates[k], source) && forall j :: 0 <= j < k ==> !Succeeds(env, candidates[j], source)
  }

  /** What first_valid_conversion returns: the value of the first candidate
      that succeeds, or StringParserError when none does. */
  function FirstValid(env: Environment, source: string, candidates: seq<(ConverterId, TypeId)>): (r: Result<Value, ParseError>)
    ensures r.Ok? <==> exists k :: 0 <= k < |candidates| && Succeeds(env, candidates[k], source)
    ensures r.Ok? ==> exists k :: 0 <= k < |candidates| && FirstSuccess(env, source, candidates, k)
                                  && Apply(env, candidates[k].0, source) == Some(r.value)
    ensures r.Err? ==> r.error == StringParserError(source)
  {
    if candidates == [] then Err(StringParserError(source))
    else if Succeeds(env, candidates[0], source) then Ok(Apply(env, candidates[0].0, source).value)
    else
      var r := FirstValid(env, source, candidates[1..]);
      FirstValidPastFailure(env, source, candidates, r);
      r
  }

  /** A result that is right for the candidates after one that fails is
      right for them all. */
  lemma FirstValidPastFailure(env: Environment, source: string, candidates: seq<(ConverterId, TypeId)>, r: Result<Value, ParseError>)
    requires candidates != [] && !Succeeds(env, candidates[0], source)
    requires var tail := candidates[1..];
             && (r.Ok? <==> exists k :: 0 <= k < |tail| && Succeeds(env, tail[k], source))
             && (r.Ok? ==> exists k :: 0 <= k < |tail| && FirstSuccess(env, source, tail, k)
                                      && Apply(env, tail[k].0, source) == Some(r.value))
    ensures r.Ok? <==> exists k :: 0 <= k < |candidates| && Succeeds(env, candidates[k], source)
    ensures r.Ok? ==> exists k :: 0 <= k < |candidates| && FirstSuccess(env, source, candidates, k)
                                  && Apply(env, candidates[k].0, source) == Some(r.value)
  {
    var tail := candidates[1..];
    SomeSucceedsPastFailure(env, source, candidates);
    if r.Ok? {
      var k :| 0 <= k < |tail| && FirstSuccess(env, source, tail, k) && Apply(env, tail[k].0, source) == Some(r.value);
      assert tail[k] == candidates[k + 1];
      forall j | 0 <= j < k + 1 ensures !Succeeds(env, candidates[j], source) {
        if j > 0 {
          assert candidates[j] == tail[j - 1];
        }
      }
      assert FirstSuccess(env, source, candidates, k + 1);
    }
  }

  /** Past a candidate that fails, some candidate succeeds exactly when one
      of the rest does. */
  lemma SomeSucceedsPastFailure(env: Environment, source: string, candidates: seq<(ConverterId, TypeId)>)
    requires candidates != [] && !Succeeds(env, candidates[0], source)
    ensures (exists k :: 0 <= k < |candidates| && Succeeds(env, candidates[k], source))
            <==> (exists k :: 0 <= k < |candidates[1..]| && Succeeds(env, candidates[1..][k], source))
  {
    var tail := candidates[1..];
    if exists k :: 0 <= k < |candidates| && Succeeds(env, candidates[k], source) {
      var k :| 0 <= k < |candidates| && Succeeds(env, candidates[k], source);
      assert tail[k - 1] == candidates[k];
    }
    if exists k :: 0 <= k < |tail| && Succeeds(env, tail[k], source) {
      var k :| 0 <= k < |tail| && Succeeds(env, tail[k], source);
      assert candidates[k + 1] == tail[k];
    }
  }

  /** converters() on an annotation: the candidates are the flattened types
      that are convertible, in order, each with its registry entry; the
      registry only gains `from_string` entries. */
  lemma ConvertersOnTarget(registry: map<TypeId, ConverterId>, target: TypeSpec, hasFromString: TypeId -> bool)
    ensures var r := Resolve(registry, FlatTypes([target]), hasFromString);
            && (forall k :: 0 <= k < |r.0| ==> r.0[k].1 in LeavesOf([target]) && r.0[k].1 in r.1 && r.0[k].0 == r.1[r.0[k].1])
            && (forall t :: t in LeavesOf([target]) ==> (t in TypesOf(r.0) <==> Convertible(registry, hasFromString, t)))
            && InFirstOccurrenceOrder(FlatTypes([target]), TypesOf(r.0))
            && (forall t :: t in registry ==> t in r.1 && r.1[t] == registry[t])
            && (forall t :: t in r.1 && t !in registry ==> t in LeavesOf([target]) && hasFromString(t) && r.1[t] == FromString(t))
  {
    var types := FlatTypes([target]);
    ResolveCandidateEntries(registry, types, hasFromString);
    ResolveCandidateTypes(registry, types, hasFromString);
    ResolveCandidateOrder(registry, types, hasFromString);
    ResolveRegistry(registry, types, hasFromString);
  }

  /** Every candidate of a registry that already holds c for each listed
      type is c, and the registry is left as it is. */
  lemma {:induction false} ResolveKnownTypes(registry: map<TypeId, ConverterId>, types: seq<TypeId>, c: ConverterId, hasFromString: TypeId -> bool)
    requires forall t :: t in types ==> t in registry && registry[t] == c
    decreases |types|
    ensures Resolve(registry, types, hasFromString).1 == registry
    ensures Resolve(registry, types, hasFromString).0 == seq(|types|, k requires 0 <= k < |types| => (c, types[k]))
  {
    if types != [] {
      ResolveKnownTypes(registry, types[1..], c, hasFromString);
    }
  }

  /** After set_converter(target, c), converters(target) gives c for every
      flattened type, in order, and changes nothing. */
  lemma ConvertersAfterSetConverter(registry: map<TypeId, ConverterId>, target: TypeSpec, c: ConverterId, hasFromString: TypeId -> bool)
    ensures var types := FlatTypes([target]);
            var updated := WithConverter(registry, types, c);
            Resolve(updated, types, hasFromString) == (seq(|types|, k requires 0 <= k < |types| => (c, types[k])), updated)
  {
    var types := FlatTypes([target]);
    ResolveKnownTypes(WithConverter(registry, types, c), types, c, hasFromString);
  }

  /** With no candidates, first_valid_conversion always fails. */
  lemma FirstValidOfNone(env: Environment, source: string)
    ensures FirstValid(env, source, []) == Err(StringParserError(source))
  {
  }

  /** An `int | str` annotation: a string int() accepts becomes that int;
      any other string is kept as a str. */
  lemma IntOrStrFallsBack(env: Environment, source: string)
    requires env.isInstance(StrValue(source), StrType)
    requires env.parseInt(source).Some? ==> env.isInstance(env.parseInt(source).value, IntType)
    ensures var candidates := [(IntConverter, IntType), (StrConverter, StrType)];
            FirstValid(env, source, candidates)
            == if env.parseInt(source).Some? then Ok(env.parseInt(source).value) else Ok(StrValue(source))
  {
    var candidates := [(IntConverter, IntType), (StrConverter, StrType)];
    FlatTypesOfLeaf(IntType);
    FlatTypesOfLeaf(StrType);
    assert candidates[1..] == [(StrConverter, StrType)];
  }

  /** A registry of string converters, keyed by type. */
  class StringParser {
    var registry: map<TypeId, ConverterId>

    /** A parser starts from the default converters. */
    constructor ()
      ensures registry == DefaultRegistry
    {
      registry := DefaultRegistry;
    }

    /** converters(): the candidates for the types the target flattens to,
        filling in `from_string` entries on the way. */
    method Converters(target: TypeSpec, hasFromString: TypeId -> bool) returns (candidates: seq<(ConverterId, TypeId)>)
      modifies this
      ensures (candidates, registry) == Resolve(old(registry), FlatTypes([target]), hasFromString)
    {
      var types := IterateTypes([target]);
      candidates := [];
      assert types[0..] == types;
      for i := 0 to |types|
        invariant Resolve(old(registry), types, hasFromString).0 == candidates + Resolve(registry, types[i..], hasFromString).0
        invariant Resolve(old(registry), types, hasFromString).1 == Resolve(registry, types[i..], hasFromString).1
      {
        var t := types[i];
        assert types[i..][0] == t && types[i..][1..] == types[i + 1..];
        var converter: Option<ConverterId> := if t in registry then Some(registry[t]) else None;
        if converter.None? && hasFromString(t) {
          registry := registry[t := FromString(t)];
          converter := Some(FromString(t));
        }
        if converter.Some? {
          candidates := candidates + [(converter.value, t)];
        }
      }
      assert types[|types|..] == [];
      assert candidates + [] == candidates;
    }

    /** set_converter: every type the target flattens to is mapped to c. */
    method SetConverter(target: TypeSpec, c: ConverterId)
      modifies this
      ensures registry == WithConverter(old(registry), FlatTypes([target]), c)
    {
      var types := IterateTypes([target]);
      for i := 0 to |types|
        invariant WithConverter(registry, types[i..], c) == WithConverter(old(registry), types, c)
      {
        assert types[i..][0] == types[i] && types[i..][1..] == types[i + 1..];
        registry := registry[types[i] := c];
      }
      assert types[|types|..] == [];
    }

    /** first_valid_conversion: try the candidates in order and return the
        first converted value that passes the type check. */
    static method FirstValidConversion(env: Environment, source: TextSource, candidates: seq<(ConverterId, TypeId)>)
      returns (r: Result<Value, ParseError>)
      ensures r == FirstValid(env, GetText(source, env.lineSeparator), candidates)
    {
      var text := GetText(source, env.lineSeparator);
      for i := 0 to |candidates|
        invariant FirstValid(env, text, candidates[i..]) == FirstValid(env, text, candidates)
      {
        assert candidates[i..][0] == candidates[i] && candidates[i..][1..] == candidates[i + 1..];
        var (converter, converterType) := candidates[i];
        var converted := Apply(env, converter, text);
        if converted.Some? {
          var checked := VerifiedCast(Leaf(converterType), converted.value, env.isInstance);
          if checked.Ok? {
            return Ok(checked.value);
          }
        }
      }
      assert candidates[|candidates|..] == [];
      return Err(StringParserError(text));
    }

    /** parse: resolve the target's candidates, then take the first valid
        conversion of the source's text. */
    method Parse(env: Environment, source: TextSource, target: TypeSpec) returns (r: Result<Value, ParseError>)
      modifies this
      ensures var (candidates, after) := Resolve(old(registry), FlatTypes([target]), env.hasFromString);
              r == FirstValid(env, GetText(source, env.lineSeparator), candidates) && registry == after
    {
      var text := GetText(source, env.lineSeparator);
      var candidates := Converters(target, env.hasFromString);
      r := FirstValidConversion(env, Whole(text), candidates);
    }
  }
}
