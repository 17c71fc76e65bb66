/** The behaviour the hinting tests pin down. */
module HintingExamples {
  import opened Wrappers
  import opened Hinting

  const Bytes := NamedType("bytes")
  const List := NamedType("list")
  const Dict := NamedType("dict")

  /** `int | float | Union[str, bytes] | list`, written as a union nested
      three deep whose leaves are int, float, str, bytes and list. */
  const MixedUnion :=
    Union([Union([Union([Leaf(IntType), Leaf(FloatType)]), Union([Leaf(StrType), Leaf(Bytes)])]), Leaf(List)])

  lemma LeavesOfPair(a: TypeId, b: TypeId)
    ensures LeavesOf([Leaf(a), Leaf(b)]) == [a, b]
  {
    assert [Leaf(a), Leaf(b)][1..] == [Leaf(b)] && [Leaf(b)][1..] == [];
    assert LeavesOf([Leaf(b)]) == [b] + LeavesOf([]) == [b];
    assert LeavesOf([Leaf(a), Leaf(b)]) == [a] + [b];
  }

  lemma LeavesOfUnionPair(x: TypeSpec, y: TypeSpec)
    ensures LeavesOf([Union([x, y])]) == LeavesOf([x]) + LeavesOf([y])
  {
    LeavesOfAppend([x], [y]);
    assert [x] + [y] == [x, y];
    assert [Union([x, y])][1..] == [];
    assert LeavesOf([Union([x, y])]) == LeavesOf([x, y]) + [];
  }

  lemma LeavesOfUnionOfLeaves(a: TypeId, b: TypeId)
    ensures LeavesOf([Union([Leaf(a), Leaf(b)])]) == [a, b]
  {
    LeavesOfPair(a, b);
    assert [Union([Leaf(a), Leaf(b)])][1..] == [];
    assert LeavesOf([Union([Leaf(a), Leaf(b)])]) == [a, b] + [];
  }

  lemma IterateTypesFlattening()
    ensures FlatTypes([MixedUnion]) == [IntType, FloatType, StrType, Bytes, List]
  {
    var left := Union([Union([Leaf(IntType), Leaf(FloatType)]), Union([Leaf(StrType), Leaf(Bytes)])]);
    LeavesOfUnionPair(left, Leaf(List));
    LeavesOfUnionPair(Union([Leaf(IntType), Leaf(FloatType)]), Union([Leaf(StrType), Leaf(Bytes)]));
    LeavesOfUnionOfLeaves(IntType, FloatType);
    LeavesOfUnionOfLeaves(StrType, Bytes);
    assert LeavesOf([Leaf(List)]) == [List] + LeavesOf([]);
    var leaves := [IntType, FloatType, StrType, Bytes, List];
    assert LeavesOf([MixedUnion]) == leaves;
    DedupOfDistinct(leaves, {});
  }

  lemma IterateTypesDeduplication()
    ensures FlatTypes([Union([Union([Leaf(IntType), Leaf(IntType)]), Union([Leaf(StrType), Leaf(StrType)])])])
            == [IntType, StrType]
  {
    FlatDoubledUnions(IntType, StrType);
  }

  /** `(a | a) | (b | b)` yields each of two distinct types once. */
  lemma FlatDoubledUnions(a: TypeId, b: TypeId)
    requires a != b
    ensures FlatTypes([Union([Union([Leaf(a), Leaf(a)]), Union([Leaf(b), Leaf(b)])])]) == [a, b]
  {
    LeavesOfUnionPair(Union([Leaf(a), Leaf(a)]), Union([Leaf(b), Leaf(b)]));
    LeavesOfUnionOfLeaves(a, a);
    LeavesOfUnionOfLeaves(b, b);
    DedupDoubled(a, b);
  }

  /** Repeats next to each other are dropped. */
  lemma DedupDoubled(a: TypeId, b: TypeId)
    requires a != b
    ensures Dedup([a, a] + [b, b]) == [a, b]
  {
    var leaves := [a, a] + [b, b];
    assert leaves[0] == a && leaves[1..] == [a, b, b];
    assert leaves[1..][1..] == [b, b] && leaves[1..][1..][1..] == [b];
    assert {} + {a} == {a} && {a} + {b} == {a, b};
    assert DedupFrom(leaves, {}) == [a] + DedupFrom(leaves[1..], {a});
    assert DedupFrom(leaves[1..], {a}) == DedupFrom(leaves[1..][1..], {a});
    assert DedupFrom(leaves[1..][1..], {a}) == [b] + DedupFrom(leaves[1..][1..][1..], {a, b});
    assert DedupFrom(leaves[1..][1..][1..], {a, b}) == DedupFrom([], {a, b});
  }

  /** `int | (float | (str | bytes))` yields exactly its four types. */
  lemma IterateTypesNestedUnions(t: TypeId)
    ensures t in FlatTypes([Union([Leaf(IntType), Union([Leaf(FloatType), Union([Leaf(StrType), Leaf(Bytes)])])])])
            <==> t in {IntType, FloatType, StrType, Bytes}
  {
    var inner := Union([Leaf(StrType), Leaf(Bytes)]);
    var middle := Union([Leaf(FloatType), inner]);
    LeavesOfUnionPair(Leaf(IntType), middle);
    LeavesOfUnionPair(Leaf(FloatType), inner);
    LeavesOfUnionOfLeaves(StrType, Bytes);
    assert LeavesOf([Leaf(IntType)]) == [IntType] + LeavesOf([]);
    assert LeavesOf([Leaf(FloatType)]) == [FloatType] + LeavesOf([]);
    assert LeavesOf([Union([Leaf(IntType), middle])]) == [IntType, FloatType, StrType, Bytes];
  }

  lemma IterateTypesNonUnion()
    ensures FlatTypes([Leaf(Dict)]) == [Dict]
  {
    FlatTypesOfLeaf(Dict);
  }

  /** verified_cast(int | str, v) passes v through when v is an int or a
      str, and rejects a float. */
  lemma VerifiedCastIntOrStr<V>(value: V, isInstance: (V, TypeId) -> bool)
    ensures isInstance(value, IntType) || isInstance(value, StrType)
            ==> VerifiedCast(Union([Leaf(IntType), Leaf(StrType)]), value, isInstance) == Ok(value)
    ensures !isInstance(value, IntType) && !isInstance(value, StrType)
            ==> VerifiedCast(Union([Leaf(IntType), Leaf(StrType)]), value, isInstance) == Err(NotAnInstance)
  {
    LeavesOfUnionOfLeaves(IntType, StrType);
  }

  /** With B a subclass of A, verified_cast(A | B, v) accepts instances of
      A and of B alike. */
  lemma VerifiedCastWithSubclass<V>(a: V, b: V, isInstance: (V, TypeId) -> bool)
    requires isInstance(a, NamedType("A"))
    requires isInstance(b, NamedType("A")) && isInstance(b, NamedType("B"))
    ensures VerifiedCast(Union([Leaf(NamedType("A")), Leaf(NamedType("B"))]), a, isInstance) == Ok(a)
    ensures VerifiedCast(Union([Leaf(NamedType("A")), Leaf(NamedType("B"))]), b, isInstance) == Ok(b)
  {
    LeavesOfUnionOfLeaves(NamedType("A"), NamedType("B"));
  }

  /** `def f(a: int, b: str, c: InitVar[float]) -> bool`. */
  const ExampleFunction := Callable(["a", "b", "c"], map[
    "a" := Plain(Leaf(IntType)),
    "b" := Plain(Leaf(StrType)),
    "c" := InitVar(Leaf(FloatType)),
    "return" := Plain(Leaf(BoolType))])

  lemma ArgumentHintsExtractsTypes()
    ensures ArgumentHints(ExampleFunction) == [("a", Leaf(IntType)), ("b", Leaf(StrType)), ("c", Leaf(FloatType))]
    ensures forall k :: 0 <= k < |ArgumentHints(ExampleFunction)| ==> ArgumentHints(ExampleFunction)[k].0 != "return"
  {
    var f := ExampleFunction;
    ThreeArgumentHints(f, "a", "b", "c");
    assert HintOf(f, "a") == Leaf(IntType) && HintOf(f, "b") == Leaf(StrType) && HintOf(f, "c") == Leaf(FloatType);
  }

  /** A callable of three parameters, none of them "return", has one hint
      per parameter in order. */
  lemma ThreeArgumentHints(f: Callable, a: string, b: string, c: string)
    requires f.parameters == [a, b, c]
    requires a != "return" && b != "return" && c != "return"
    ensures ArgumentHints(f) == [(a, HintOf(f, a)), (b, HintOf(f, b)), (c, HintOf(f, c))]
  {
    NamesWithoutReturn(a, b, c);
    ThreeHints(f, [a, b, c]);
  }

  /** Three names have one hint each, in order. */
  lemma ThreeHints(f: Callable, names: seq<string>)
    requires |names| == 3
    ensures ArgumentHintsOf(f, names) == [(names[0], HintOf(f, names[0])), (names[1], HintOf(f, names[1])), (names[2], HintOf(f, names[2]))]
  {
  }

  /** Three parameters none of which is "return" are all arguments. */
  lemma NamesWithoutReturn(a: string, b: string, c: string)
    requires a != "return" && b != "return" && c != "return"
    ensures ArgumentNames([a, b, c]) == [a, b, c]
  {
    assert "return" !in [a, b, c];
  }
}
