# sevaht-utility in Dafny

This project models the core of the Python library sevaht-utility in Dafny and proves properties of the model. It covers three modules.

- **Name styles (`naming.py`).**
  - `split_into_words` is modelled as a method with a loop. It is proved equal to `WordsOf`, a left fold of one scanner step over the name plus a sentinel `-`.
  - `join_words` and `convert_name` are modelled as functions.
  - Proved properties:
    - a split word is non-empty, lower case and free of delimiters;
    - a name has no words exactly when it holds only delimiters;
    - joining keeps only the non-empty words, lower-cased, and styles each by position;
    - splitting a join gives the words back. This holds for every word list in snake_case and kebab-case. In camelCase and PascalCase it holds for plain words (lower-case letter first, no capitals) when every word but the last has at least two characters;
    - converting through an intermediate style gives the same result as converting directly, under the same conditions;
    - two counterexamples show the conditions are needed: `"a_1b"` (a word starting with a digit, via camelCase) and `"a_b"` (one-letter words, via PascalCase, which yields `"AB"`).
- **Type hints (`hinting.py`).**
  - Types are a tree: `Leaf(TypeId)` or `Union(members)`.
  - `iterate_types` is modelled as a method. Its worklist is a `seq` and its `seen` set a `set`. It is proved equal to `FlatTypes`: the leaves in depth-first left-to-right order, with only each type's first occurrence kept.
  - `FlatTypesCharacterised` shows `FlatTypes` is the only list with the same elements as the leaves in first-occurrence order.
  - `verified_cast` and `get_callable_argument_hints` are modelled twice each, as the tests expect them and as the code is written (see Findings).
- **Parsing (`parsing.py`).**
  - `parse_bool`, the list case of `get_text`, and the default converters.
  - A `StringParser` class whose `registry` map field is updated by `Converters` (lazy `from_string` memoisation) and `SetConverter`. `FirstValidConversion` and `Parse` are methods over it. Each method is proved against a function: `Resolve`, `WithConverter` and `FirstValid`.
  - `DataMapping`'s mutual-exclusion check.
  - `csv_load` from the split header to the records. This covers:
    - the header from the explicit names or the first row;
    - the default mapping, chosen by the `or` chain, where an empty mapping counts as absent;
    - `column_indices`, where the last index wins;
    - dropping fields whose column is missing;
    - the unconsumed-columns check;
    - per-row conversion.

    `Load` is a method over the parser object, proved equal to `CsvLoadSpec`. The lemmas state the setup errors, the record count and keys, and the raw string cells for fields with no annotation.
  - The `json5_load` cleaning pass, as two functions:
    - `StripComments`, the regex alternation read as a left-to-right scanner;
    - the trailing-comma pass, as written (`RemoveTrailingCommasAsWritten`, over the whole text) and corrected (`RemoveTrailingCommas`, which skips quoted strings).

    `Json5CleanAsWritten` is the text `json5_load` hands to `json.loads`. `Json5Clean` is the corrected pass. Texts are built from pieces: plain text, quoted literals, comments and commas. `Json5CleanPieces` proves that the corrected pass removes exactly a text's comments and the commas before a closing bracket or brace. `Json5CleanAsWrittenPieces` proves the same of the pass as written when no quoted literal contains a trailing comma, and that both passes then agree. The four JSON5 samples of the tests are instances of both, stated through the pass as written.

Other inputs become parameters or abstract functions, collected in `Environment`:
- numeric parsing;
- the `from_string` methods and installed converters, which return `None` where Python raises;
- `callable(getattr(t, "from_string"))`;
- `isinstance`;
- the platform line separator.

Callables and dataclasses are data: a parameter list, an annotation map, and field metadata.

Where the code and its documentation disagree, the model follows the code:
- `json5_load` is `Json5CleanAsWritten`, with the trailing-comma pass as written. `Json5Clean` is the corrected pass, listed under Findings.
- the setup of `csv_load` reads the hints as written (`HintsOf` over `ArgumentHintsAsWritten`), so an argument without an annotation raises `UnannotatedParameter`, which stands for the `KeyError`. `ArgumentHints` is the corrected reading, listed under Findings.
- the count-based subset check is kept as written, and `CountCheckMissesSharedColumn` shows what it lets through.

`parsing.py:18` imports `verify_type`, which `hinting.py` does not define, so importing `parsing.py` raises ImportError (see Findings). The rest of the model reads the call at `parsing.py:141` as `verified_cast`.

Files:
- `wrappers.dfy`: Option and Result.
- `text.dfy`: ASCII case and `str.join`.
- `naming.dfy`, `naming_examples.dfy`.
- `hinting.dfy`, `hinting_examples.dfy`.
- `parsing.dfy`: the registry and converters.
- `dicts.dfy`: insertion-ordered dicts.
- `csv_load.dfy`, `csv_examples.dfy`.
- `json5.dfy`, `json5_examples.dfy`.

## Model

| member | source | states |
|---|---|---|
| Text.LowerChar | src/sevaht_utility/naming.py:48 | the lower-case of a character is never a capital, maps capitals to small letters and leaves every other character unchanged |
| Text.UpperChar | src/sevaht_utility/naming.py:63 | the upper-case of a character is never a small letter, maps small letters to capitals that lower back to them, and leaves every other character unchanged |
| Text.Lower | src/sevaht_utility/naming.py:48 | `str.lower` keeps the length and lowers each character in place |
| Text.Capitalize | src/sevaht_utility/naming.py:63 | `str.capitalize` keeps the length, upper-cases the first character and lower-cases the rest |
| Text.LowerHasNoUpper | src/sevaht_utility/naming.py:57 | a lowered word has no capitals |
| Text.LowerOfNoUpper | src/sevaht_utility/naming.py:57 | lowering a word without capitals leaves it unchanged |
| Text.Join | src/sevaht_utility/naming.py:70 | `sep.join` of no parts is empty and of one part is that part |
| Text.JoinLength | src/sevaht_utility/naming.py:70 | the joined length is the parts' total length plus one separator per adjacent pair |
| Text.JoinSnoc | src/sevaht_utility/naming.py:70 | joining one more part appends the separator and that part |
| Naming.Step | src/sevaht_utility/naming.py:44-52 | defines one iteration of the split loop: a delimiter or a lower-to-upper change closes the open word (emitting it lower-cased when non-empty), and other characters open or extend it; specified by ScanKeepsStateOk, ScanDelimiters, BoundaryForgetsLast |
| Naming.ScanFrom | src/sevaht_utility/naming.py:43-52 | defines the loop over a string as a fold of `Step`; specified by ScanFromAppend, ScanExtendsWords |
| Naming.WordsOf | src/sevaht_utility/naming.py:39-53 | defines split_into_words as the fold over the name and the sentinel `-`; specified by SplitIntoWords, WordsOfAreWords, NoWordsIffOnlyDelimiters, DelimitersAroundName, JoinThenSplit |
| Naming.SplitIntoWords | src/sevaht_utility/naming.py:39-53 | the scanning loop returns exactly the words of the fold `WordsOf`, and every one of them is a word (non-empty, lower case, no delimiter) |
| Naming.WordsOfAreWords | src/sevaht_utility/naming.py:44-48 | every word a name splits into is non-empty, lower case and contains no `-`, `_` or whitespace |
| Naming.ScanKeepsStateOk | src/sevaht_utility/naming.py:43-52 | the scan only ever emits words, and its open word never holds a delimiter |
| Naming.ScanFromAppend | src/sevaht_utility/naming.py:43-52 | scanning a concatenation is scanning the first part and then the second from the state reached |
| Naming.ScanExtendsWords | src/sevaht_utility/naming.py:47-48 | the scan never takes back a word it has emitted |
| Naming.ScanDelimiters | src/sevaht_utility/naming.py:44-49 | delimiters between words open no word and emit nothing |
| Naming.BoundaryForgetsLast | src/sevaht_utility/naming.py:45 | between words the previous character no longer matters: two states with no open word and the same words scan alike |
| Naming.OpenWordIsEmitted | src/sevaht_utility/naming.py:43-48 | the sentinel `-` makes a non-empty open word reach the output |
| Naming.NoWordsIffOnlyDelimiters | src/sevaht_utility/naming.py:39-53 | a name has no words exactly when every character is a delimiter, the empty name included |
| Naming.DelimitersAroundName | src/sevaht_utility/naming.py:43-52 | delimiters before and after a name do not change its words |
| Naming.FirstNonDelimiter | src/sevaht_utility/naming.py:44-47 | the first non-delimiter position of a name, with only delimiters before it |
| Naming.Normalized | src/sevaht_utility/naming.py:57 | the kept words are non-empty and have no capitals, and none is kept exactly when every word is empty |
| Naming.NormalizedCount | src/sevaht_utility/naming.py:57 | exactly the empty words are dropped: the kept count is the word count minus the number of empty words |
| Naming.NormalizedSingle | src/sevaht_utility/naming.py:57 | one word is dropped when empty and lower-cased otherwise |
| Naming.NormalizedCons | src/sevaht_utility/naming.py:57 | the first word is normalised ahead of the rest |
| Naming.NormalizedAppend | src/sevaht_utility/naming.py:57 | normalising a concatenation normalises each part in place and keeps their order, so with NormalizedSingle it fixes the kept words as the non-empty words, lower-cased, in order |
| Naming.NormalizedIdempotent | src/sevaht_utility/naming.py:57 | normalising twice is normalising once |
| Naming.Transformed | src/sevaht_utility/naming.py:61-69 | the word count is kept, word 0 is styled by `capitalize_first`, and every later word by `capitalize_rest` |
| Naming.JoinWords | src/sevaht_utility/naming.py:56-70 | join_words returns "" exactly when every word is empty |
| Naming.JoinWordsValue | src/sevaht_utility/naming.py:56-70 | for any words with at least one non-empty word, join_words gives the first kept word styled by `capitalize_first`, then the separator before each later kept word styled by `capitalize_rest`; normalising the words first does not change the join |
| Naming.NormalizedOfWords | src/sevaht_utility/naming.py:57 | words that are already split words pass normalisation unchanged |
| Naming.JoinWordsOfWords | src/sevaht_utility/naming.py:56-70 | joining split words gives the first word styled by `capitalize_first`, then the separator before each later word styled by `capitalize_rest` |
| Naming.ScanRestRoundTrip | src/sevaht_utility/naming.py:43-52 | scanning the separator-prefixed styled later words emits the open word and then exactly those words |
| Naming.JoinThenSplit | src/sevaht_utility/naming.py:39-70 | splitting the join of words that survive the style gives the words back |
| Naming.JoinRoundTripsAreWords | src/sevaht_utility/naming.py:56-70 | words that survive a style are split words |
| Naming.DelimitedStylesRoundTrip | src/sevaht_utility/naming.py:23-24 | snake_case and kebab-case give back every list of split words |
| Naming.PlainWordsRoundTrip | src/sevaht_utility/naming.py:23-26 | every style gives back plain words when all but the last have at least two characters |
| Naming.ConvertName | src/sevaht_utility/naming.py:73-76 | defines convert_name as join_words of the split words; specified by ConvertThroughIntermediate, ConvertThroughDelimitedStyle, ConvertPlainNameThroughAnyStyle and the conversion examples |
| Naming.ConvertThroughIntermediate | src/sevaht_utility/naming.py:73-76 | converting through an intermediate style whose join gives the words back equals converting directly |
| Naming.ConvertThroughDelimitedStyle | src/sevaht_utility/naming.py:73-76 | converting through snake_case or kebab-case never changes the result, for any name |
| Naming.ConvertPlainNameThroughAnyStyle | src/sevaht_utility/naming.py:73-76 | a name of plain words, all but the last at least two characters long, converts alike directly and through any style, and converting twice to the same style is the same as once |
| NamingExamples.JoinThreeWords | src/sevaht_utility/naming.py:56-70 | three split words join as the first styled, then separator and styled word twice |
| NamingExamples.JoinTwoWords | src/sevaht_utility/naming.py:56-70 | two split words join as the first styled, the separator, the second styled |
| NamingExamples.JoinSampleWords | tests/test_naming.py:41-44 | ["some","sample","name"] joins as some_sample_name, some-sample-name, someSampleName and SomeSampleName |
| NamingExamples.JoinSingleWord | tests/test_naming.py:45-47 | ["single"] joins as single, single and Single |
| NamingExamples.JoinIgnoresEmptyWords | tests/test_naming.py:57-62 | empty words are dropped: some_name and SomeName |
| NamingExamples.SplitSampleNames | tests/test_naming.py:21-24 | the sample name in each of the four styles splits into ["some","sample","name"] |
| NamingExamples.SplitSingleWord | tests/test_naming.py:25-26 | "single" and "Single" split into ["single"] |
| NamingExamples.SplitPaddedName | tests/test_naming.py:27 | surrounding spaces are ignored |
| NamingExamples.SplitDelimitersOnly | tests/test_naming.py:28-30 | "", "___" and "---" have no words |
| NamingExamples.ConvertSampleNames | tests/test_naming.py:65-80 | each style's spelling of the sample converts to each other style's |
| NamingExamples.ConvertEmptyName | tests/test_naming.py:111-115 | the empty name converts to "" in every style |
| NamingExamples.SampleNamesConvertThroughAnyStyle | tests/test_naming.py:83-108 | the test's names convert alike directly and through any intermediate style |
| NamingExamples.DigitWordDoesNotRoundTrip | src/sevaht_utility/naming.py:45 | "a_1b" becomes "a1b" in camelCase, which splits as one word, so going through camelCase changes the snake_case result |
| NamingExamples.OneLetterWordsDoNotRoundTrip | src/sevaht_utility/naming.py:45 | "a_b" becomes "AB" in PascalCase, which splits as the one word "ab", so going through PascalCase changes the snake_case result |
| NamingExamples.OneLetterWordsJoined | src/sevaht_utility/naming.py:39-70 | "a_b" splits into "a" and "b", which snake_case joins as "a_b" and PascalCase as "AB" |
| NamingExamples.CapitalsReadAsOneWord | src/sevaht_utility/naming.py:45 | no split happens between two capitals: "AB" is the one word "ab" |
| Hinting.LeavesOf | src/sevaht_utility/hinting.py:20-26 | defines the leaf types of a union tree, left to right, as the worklist visits them; specified by LeavesOfAppend, FlatTypesOfLeaf, FlatTypesOfUnion |
| Hinting.LeavesOfAppend | src/sevaht_utility/hinting.py:20-26 | the leaves of two lists of specs are the leaves of the first followed by those of the second |
| Hinting.DedupFrom | src/sevaht_utility/hinting.py:27-29 | the yielded types are distinct and are exactly the listed types not seen before |
| Hinting.DedupFromKeepsFirstOccurrenceOrder | src/sevaht_utility/hinting.py:27-29 | the yielded types keep the order of their first occurrences |
| Hinting.DedupOfDistinct | src/sevaht_utility/hinting.py:27-29 | distinct types none of which was seen are all yielded, in order |
| Hinting.DedupFromAppend | src/sevaht_utility/hinting.py:22-29 | deduplicating a concatenation is deduplicating the first part, then the second with the first part's types seen |
| Hinting.FlatTypes | src/sevaht_utility/hinting.py:20-29 | defines what iterate_types yields: the leaves, each at its first occurrence; specified by IterateTypes, FlatTypesCharacterised, FlatTypesOfSources |
| Hinting.IterateTypes | src/sevaht_utility/hinting.py:20-29 | the deque worklist with its seen set yields exactly `FlatTypes` of the sources |
| Hinting.WorklistStep | src/sevaht_utility/hinting.py:20-29 | one worklist step keeps the types still to yield and shrinks the worklist: a union is replaced by its members, and a leaf is yielded next iff it was not seen |
| Hinting.FlatTypesOfLeaf | src/sevaht_utility/hinting.py:27-29 | a non-union spec gives exactly its one type |
| Hinting.FlatTypesOfUnion | src/sevaht_utility/hinting.py:25-26 | a union gives the types of its members, in their order |
| Hinting.FlatTypesOfSources | src/sevaht_utility/hinting.py:20-21 | several sources are processed in argument order, each adding the types not seen in the earlier ones |
| Hinting.FlatTypesCharacterised | src/sevaht_utility/hinting.py:20-29 | a list is `FlatTypes` of the sources iff it holds exactly the leaves and lists them in first-occurrence order |
| Hinting.OrderedHasNoDuplicates | src/sevaht_utility/hinting.py:22 | a list in first-occurrence order has no duplicates |
| Hinting.DedupIsUnique | src/sevaht_utility/hinting.py:22-29 | the deduplicated leaves are the only list with those elements in first-occurrence order |
| Hinting.OrderedByFirstIndexIsUnique | src/sevaht_utility/hinting.py:22-29 | two lists with the same elements, both in first-occurrence order, are equal |
| Hinting.IsInstanceOfAny | src/sevaht_utility/hinting.py:33 | the value is an instance of one of the types exactly when some type in the list accepts it |
| Hinting.VerifiedCast | src/sevaht_utility/hinting.py:32-37 | the cast succeeds exactly when some leaf of the expected type accepts the value, returns the value unchanged, and otherwise fails with NotAnInstance |
| Hinting.VerifiedCastAsWritten | src/sevaht_utility/hinting.py:33 | as written, a type that flattens to other than one type raises |
| Hinting.VerifiedCastAgreesOnOneType | src/sevaht_utility/hinting.py:33-37 | on a type that flattens to one type, the code as written and the intended cast agree |
| Hinting.VerifiedCastAsWrittenRejectsUnionMember | src/sevaht_utility/hinting.py:33 | an int checked against `int \| str` passes the intended cast but raises as written |
| Hinting.IntOrStrFlattens | src/sevaht_utility/hinting.py:20-29 | `int \| str` flattens to [int, str] |
| Hinting.Unwrapped | src/sevaht_utility/hinting.py:43-48 | an `InitVar[T]` annotation is reported as T, any other passes through |
| Hinting.ArgumentNames | src/sevaht_utility/hinting.py:53-54 | the listed names are the parameters other than "return", each as often as in the signature (so distinct parameters stay distinct), their number is the parameter count minus the "return" entries, and a signature without "return" comes back whole, in order |
| Hinting.ArgumentHintsOf | src/sevaht_utility/hinting.py:51-55 | one entry per name, in order, with that name's hint |
| Hinting.ArgumentHints | src/sevaht_utility/hinting.py:40-55 | one entry per parameter other than "return", in signature order (the whole signature, position by position, when it has no "return"), carrying its unwrapped annotation, or Any when it has none |
| Hinting.ArgumentHintsAsWritten | src/sevaht_utility/hinting.py:51-55 | as written, the hints fail exactly when some argument has no annotation, the error names the first such argument, and otherwise the hints are the intended ones |
| Hinting.ArgumentHintsAsWrittenRejectsUnannotated | src/sevaht_utility/hinting.py:52 | for `def f(x, y)` the code as written raises on "x", while the intended hints are Any for both |
| HintingExamples.IterateTypesFlattening | tests/test_hinting.py:17-20 | `int \| float \| Union[str, bytes] \| list` gives [int, float, str, bytes, list] |
| HintingExamples.IterateTypesDeduplication | tests/test_hinting.py:23-25 | `int \| int \| (str \| str)` gives [int, str] |
| HintingExamples.FlatDoubledUnions | src/sevaht_utility/hinting.py:20-29 | `(a \| a) \| (b \| b)` gives [a, b] for distinct a and b |
| HintingExamples.IterateTypesNestedUnions | tests/test_hinting.py:28-30 | the nested union gives exactly {int, float, str, bytes} |
| HintingExamples.IterateTypesNonUnion | tests/test_hinting.py:33-35 | `dict` gives [dict] |
| HintingExamples.VerifiedCastIntOrStr | tests/test_hinting.py:41-48 | an int or a str passes `int \| str` unchanged, anything else is rejected |
| HintingExamples.VerifiedCastWithSubclass | tests/test_hinting.py:51-59 | an A and a B (a subclass of A) both pass `A \| B` unchanged |
| HintingExamples.ThreeArgumentHints | src/sevaht_utility/hinting.py:51-55 | three parameters other than "return" give three hints in order |
| HintingExamples.ArgumentHintsExtractsTypes | tests/test_hinting.py:73-79 | `f(a: int, b: str, c: InitVar[float]) -> bool` gives a: int, b: str, c: float and no "return" |
| Parsing.LowerEqualsIff | src/sevaht_utility/parsing.py:61 | lowering a string gives a word without capitals exactly when the two are equal up to ASCII case |
| Parsing.ParseBool | src/sevaht_utility/parsing.py:60-61 | parse_bool is true iff the value equals "1", "true" or "yes" up to case |
| Parsing.ParseBoolExamples | src/sevaht_utility/parsing.py:60-61 | TRUE, Yes and 1 are true; 0, no, "" and y are false |
| Parsing.ImportFrom | src/sevaht_utility/parsing.py:18 | `from module import names` fails exactly when some name is not defined, naming an undefined one, and otherwise binds the names in order |
| Parsing.ImportAsWrittenFails | src/sevaht_utility/parsing.py:18 | as written, importing parsing.py raises ImportError on `verify_type` |
| Parsing.ImportCorrectedSucceeds | src/sevaht_utility/parsing.py:18 | importing `verified_cast` instead succeeds |
| Parsing.GetText | src/sevaht_utility/parsing.py:38-43 | a string is returned as is; joined lines have the lines' total length plus one separator per adjacent pair |
| Parsing.GetTextAppendLine | src/sevaht_utility/parsing.py:42-43 | one more line appends the separator and that line |
| Parsing.DefaultRegistryBehaviour | src/sevaht_utility/parsing.py:64-68 | the default registry holds exactly Any, str, int, float and bool: Any and str return the text, bool parses with parse_bool, int and float use the numeric parsers |
| Parsing.Resolve | src/sevaht_utility/parsing.py:97-110 | defines converters() over a type list: the registry entry of each type, memoising `from_string` when there is none, and the registry afterwards; specified by ResolveRegistry, ResolveCandidateEntries, ResolveCandidateTypes, ResolveCandidateOrder |
| Parsing.ResolveRegistry | src/sevaht_utility/parsing.py:102-108 | converters() never overwrites an entry, adds only `from_string` entries for listed types that have one, and afterwards holds every convertible listed type |
| Parsing.ResolveCandidateEntries | src/sevaht_utility/parsing.py:102-110 | each candidate pairs a listed type with its entry in the resulting registry |
| Parsing.ResolveCandidateTypes | src/sevaht_utility/parsing.py:102-114 | a listed type is a candidate exactly when it has an entry or a callable `from_string`; the rest are skipped |
| Parsing.CandidateTypesAreListed | src/sevaht_utility/parsing.py:102-110 | every candidate type is one of the listed types |
| Parsing.ResolveCandidateOrder | src/sevaht_utility/parsing.py:102-110 | the candidates follow the order of the flattened types |
| Parsing.ConvertersOnTarget | src/sevaht_utility/parsing.py:97-115 | converters(target) gives (converter, type) pairs of the target's convertible types, in iterate_types order, and only adds `from_string` entries |
| Parsing.WithConverter | src/sevaht_utility/parsing.py:150-155 | set_converter maps every listed type to the converter and keeps every other entry |
| Parsing.ResolveKnownTypes | src/sevaht_utility/parsing.py:102-110 | types that all map to one converter resolve to that converter each, without changing the registry |
| Parsing.ConvertersAfterSetConverter | src/sevaht_utility/parsing.py:150-155 | after set_converter, converters() of the same target gives the new converter for each of its types |
| Parsing.FirstValid | src/sevaht_utility/parsing.py:132-148 | the conversion succeeds iff some candidate converts and passes the type check, and then yields the first such candidate's output; otherwise StringParserError with the source |
| Parsing.FirstValidPastFailure | src/sevaht_utility/parsing.py:139-147 | a candidate that fails is skipped: the rest decide the result |
| Parsing.SomeSucceedsPastFailure | src/sevaht_utility/parsing.py:139-147 | when the first candidate fails, some candidate succeeds iff some later one does |
| Parsing.FirstValidOfNone | src/sevaht_utility/parsing.py:148 | no candidates raise StringParserError |
| Parsing.IntOrStrFallsBack | tests/test_parsing.py:274-278 | with int before str, a parsable id yields the int and any other yields the string |
| Parsing.StringParser.constructor | src/sevaht_utility/parsing.py:85-87 | a new parser holds the default converters |
| Parsing.StringParser.Converters | src/sevaht_utility/parsing.py:97-115 | the loop returns the candidates and leaves the registry that `Resolve` computes for the flattened target |
| Parsing.StringParser.SetConverter | src/sevaht_utility/parsing.py:150-155 | the registry becomes `WithConverter` of the old one for the flattened target |
| Parsing.StringParser.FirstValidConversion | src/sevaht_utility/parsing.py:132-148 | the loop with early return yields `FirstValid` of the text |
| Parsing.StringParser.Parse | src/sevaht_utility/parsing.py:117-130 | parse resolves the target's candidates, updating the registry, and returns `FirstValid` of the text over them |
| Dicts.EmptyDict | src/sevaht_utility/parsing.py:305 | the empty dict has no keys |
| Dicts.Put | src/sevaht_utility/parsing.py:282 | `d[k] = v` sets k to v, keeps every other key's value, and puts a new key last while an existing key keeps its place |
| Dicts.ItemKeys | src/sevaht_utility/parsing.py:316 | the keys of the items, in order |
| Dicts.FromItems | src/sevaht_utility/parsing.py:282 | a comprehension's keys are exactly the items' keys |
| Dicts.FromItemsLastWins | src/sevaht_utility/parsing.py:282 | a key maps to the value of its last item |
| Dicts.FromDistinctItems | src/sevaht_utility/parsing.py:277-279 | items with distinct keys keep their order |
| Dicts.Get | src/sevaht_utility/parsing.py:314 | wiring: `d.get(k, default)` |
| Dicts.OrElse | src/sevaht_utility/parsing.py:277 | wiring: `d or fallback`, a missing or empty dict giving the fallback |
| CsvLoad.NewDataMapping | src/sevaht_utility/parsing.py:186-193 | a mapping is rejected exactly when both a name style and a field-to-column mapping are given, with those two argument names |
| CsvLoad.FixStyle | src/sevaht_utility/parsing.py:256-262 | fix_style converts a name to the mapping's style, or returns it unchanged without one |
| CsvLoad.SplitHeader | src/sevaht_utility/parsing.py:267-273 | the header is the explicit names, or else the first row; nothing is produced exactly when neither exists |
| CsvLoad.HintsOf | src/sevaht_utility/parsing.py:276 | as written: the KeyError of the first unannotated argument when there is one, else the dict of the intended hints, keyed by exactly the callable's arguments |
| CsvLoad.StyledColumns | src/sevaht_utility/parsing.py:306-309 | each name maps to its styled column name |
| CsvLoad.MetadataColumn | src/sevaht_utility/parsing.py:292-294 | a field's column is its metadata entry under the key, or its own name |
| CsvLoad.MetadataColumns | src/sevaht_utility/parsing.py:290-297 | each dataclass field maps to its styled metadata column |
| CsvLoad.PlanFields | src/sevaht_utility/parsing.py:275-289 | setup fails exactly when the init function has an unannotated argument, the class passed as dataclass is not one, or the dataclass's hints are read and fail; the init function's KeyError comes first, and NotADataclass comes exactly when the init hints do not fail and the class is not a dataclass |
| CsvLoad.PlanFieldsChoice | src/sevaht_utility/parsing.py:275-309 | when setup does not fail, the hints come from the init function when it has any, else from the dataclass, else there are none; the mapping is the explicit one when non-empty, else the init function's styled hints, else the dataclass's styled metadata columns, else the styled header |
| CsvLoad.ColumnIndices | src/sevaht_utility/parsing.py:282 | each header name maps to its last index |
| CsvLoad.RetainedFrom | src/sevaht_utility/parsing.py:311-318 | defines the fields of the mapping whose column is in the header, with its index, in mapping order; specified by RetainedFromEntries, RetainedFromDistinct |
| CsvLoad.RetainedFromEntries | src/sevaht_utility/parsing.py:311-318 | each retained field reads its column's index, and a field is retained exactly when its column is in the header |
| CsvLoad.RetainedFromDistinct | src/sevaht_utility/parsing.py:311-318 | distinct fields are retained under distinct names |
| CsvLoad.Retained | src/sevaht_utility/parsing.py:311-318 | exactly the mapped fields whose column is in the header are retained, each with its column's last index, under distinct names |
| CsvLoad.HintOrStr | src/sevaht_utility/parsing.py:314 | a field's type is its hint, or str without one |
| CsvLoad.ResolveFields | src/sevaht_utility/parsing.py:311-318 | defines the converter lists of the retained fields, threading the registry through converters(); specified by ResolveFieldsShape, ResolveFieldsKeepsEntries, ConvertersOf |
| CsvLoad.ResolveFieldsShape | src/sevaht_utility/parsing.py:311-318 | each resolved field keeps its name and index |
| CsvLoad.ResolveFieldsKeepsEntries | src/sevaht_utility/parsing.py:311-318 | resolving the fields never overwrites a registry entry and adds only `from_string` entries |
| CsvLoad.ConsumedIndices | src/sevaht_utility/parsing.py:320-322 | defines the set of indices the fields read; specified by ConsumedIndicesMembers, ConsumedIndicesRead, ConsumedIndicesOnlyRead, ConsumedIndicesCount |
| CsvLoad.ConsumedIndicesMembers | src/sevaht_utility/parsing.py:320-322 | the consumed indices are exactly the fields' indices, at most one per field |
| CsvLoad.ConsumedIndicesRead | src/sevaht_utility/parsing.py:320-322 | every field's index is consumed |
| CsvLoad.ConsumedIndicesOnlyRead | src/sevaht_utility/parsing.py:320-322 | every consumed index is some field's index |
| CsvLoad.ConsumedIndicesCount | src/sevaht_utility/parsing.py:319-322 | no more indices are consumed than there are fields |
| CsvLoad.Unconsumed | src/sevaht_utility/parsing.py:323-327 | defines the header names at indices no field reads, in header order; specified by UnconsumedMembers, FewerFieldsLeaveColumns |
| CsvLoad.UnconsumedMembers | src/sevaht_utility/parsing.py:323-327 | the unconsumed list holds exactly the names at unconsumed indices, and is empty iff every index is consumed |
| CsvLoad.FewerFieldsLeaveColumns | src/sevaht_utility/parsing.py:319-327 | fewer fields than columns always leave an unconsumed column |
| CsvLoad.Converter | src/sevaht_utility/parsing.py:335-337 | wiring: the cell converter handed to the row loop is first_valid_conversion over the field's candidates |
| CsvLoad.ConvertRow | src/sevaht_utility/parsing.py:333-343 | a row fails only with a missing cell or a failed conversion, numbered with the row |
| CsvLoad.ConvertRowSucceeds | src/sevaht_utility/parsing.py:334-342 | a row converts exactly when every field's cell exists and converts |
| CsvLoad.ConvertRowRecord | src/sevaht_utility/parsing.py:333-343 | a converted row maps each field's name to its converted cell |
| CsvLoad.ConvertRowOk | src/sevaht_utility/parsing.py:334-342 | a converted row converts its first field and the rest, and its record is the first field's value added to the rest |
| CsvLoad.ConvertRows | src/sevaht_utility/parsing.py:332-345 | never more records than rows |
| CsvLoad.ConvertRowsCharacterised | src/sevaht_utility/parsing.py:332-345 | one record per row in row order, up to the first row that fails, whose error ends the output |
| CsvLoad.ConvertRowsStops | src/sevaht_utility/parsing.py:332-345 | without an error every row gives a record; with one, the row after the last record fails with that error |
| CsvLoad.ConvertRowsConverted | src/sevaht_utility/parsing.py:332-345 | the k-th record is the conversion of the k-th row, numbered from the first |
| CsvLoad.ConvertRowsErrors | src/sevaht_utility/parsing.py:332-345 | the rows fail only with a missing cell or a failed conversion |
| CsvLoad.ConvertRowsRecords | src/sevaht_utility/parsing.py:332-345 | each record holds its row's converted cells |
| CsvLoad.ConvertRowsOutput | src/sevaht_utility/parsing.py:332-345 | all rows are converted unless one fails, and then the output stops at that row with its error |
| CsvLoad.ConvertRowsKeys | src/sevaht_utility/parsing.py:333-343 | every record's keys are exactly the field names |
| CsvLoad.ConvertRowsStep | src/sevaht_utility/parsing.py:332-343 | a failing row ends the output with its error; a converted row is followed by the records of the rest |
| CsvLoad.LoadPlanned | src/sevaht_utility/parsing.py:311-345 | never more records than data rows |
| CsvLoad.CsvLoadSpec | src/sevaht_utility/parsing.py:268-273 | an empty source with no explicit names produces nothing and leaves the registry as it was |
| CsvLoad.UnusedCellsIgnored | src/sevaht_utility/parsing.py:335-337 | a cell at an index no field reads does not affect the row |
| CsvLoad.OnlyShortRowsFail | src/sevaht_utility/parsing.py:335-337 | with str-only fields a row can fail only by being too short |
| CsvLoad.LoadPlannedErrors | src/sevaht_utility/parsing.py:319-331 | the unconsumed-columns error is raised iff the subset is not allowed and fewer fields than columns are retained; it comes before any record and lists the unconsumed columns |
| CsvLoad.CsvLoadSetupErrors | src/sevaht_utility/parsing.py:275-289 | with a header, an init function with an unannotated argument raises its KeyError; NotADataclass is raised iff there is a header, the init hints do not fail and the class is not a dataclass; a KeyError needs a header and a callable; setup errors come before any record |
| CsvLoad.LoadPlannedRegistry | src/sevaht_utility/parsing.py:311-318 | loading keeps every registry entry and adds only `from_string` entries |
| CsvLoad.CsvLoadRegistry | src/sevaht_utility/parsing.py:311-318 | csv_load keeps every registry entry and adds only `from_string` entries |
| CsvLoad.LoadPlannedRecords | src/sevaht_utility/parsing.py:311-345 | when setup passes, one record per data row up to the first failing row, each the converted cells of the retained fields |
| CsvLoad.LoadPlannedKeys | src/sevaht_utility/parsing.py:332-343 | every record's keys are exactly the retained fields |
| CsvLoad.ResolveFieldsOfStr | src/sevaht_utility/parsing.py:314 | fields with no hint get the str converter as their only candidate |
| CsvLoad.StrRows | src/sevaht_utility/parsing.py:332-343 | with str-only fields, each record maps each field to its raw cell |
| CsvLoad.StrCandidatesIdentity | src/sevaht_utility/parsing.py:67 | the str converter returns each cell unchanged |
| CsvLoad.StrRowsOfRetained | src/sevaht_utility/parsing.py:332-343 | str-only fields give the raw cells of the retained columns |
| CsvLoad.UnannotatedRows | src/sevaht_utility/parsing.py:305 | without hints, the records hold the raw cells of the retained columns |
| CsvLoad.UnannotatedRawCells | src/sevaht_utility/parsing.py:299-309 | with no init function and no dataclass, every value is the raw cell string |
| CsvLoad.UnannotatedErrors | src/sevaht_utility/parsing.py:299-309 | without hints the registry is unchanged, and only a short row or the subset check can fail |
| CsvLoad.FullRowsConvert | src/sevaht_utility/parsing.py:332-345 | str-only fields convert every row long enough |
| CsvLoad.UnannotatedFullRows | src/sevaht_utility/parsing.py:299-345 | without hints and with full rows, every data row gives a record |
| CsvLoad.RetainedFromHeader | src/sevaht_utility/parsing.py:306-318 | with the identity mapping each header name is retained with its own index |
| CsvLoad.StyledColumnsOfDistinct | src/sevaht_utility/parsing.py:306-309 | the default mapping of a distinct header maps each name to itself, in header order |
| CsvLoad.ColumnIndicesOfDistinct | src/sevaht_utility/parsing.py:282 | in a distinct header each name maps to its position |
| CsvLoad.HeaderColumnsAll | src/sevaht_utility/parsing.py:306-318 | the default mapping retains every column of a distinct header in order |
| CsvLoad.HeaderRawCells | src/sevaht_utility/parsing.py:306-343 | records of the whole header are keyed by the header and hold each column's raw cell |
| CsvLoad.DefaultLoad | src/sevaht_utility/parsing.py:239-345 | with a distinct header and full rows, csv_load gives one record per row, keyed by the header, each holding the raw cells |
| CsvLoad.LoadRows | src/sevaht_utility/parsing.py:332-345 | the row loop yields `ConvertRows` |
| CsvLoad.ConvertersOf | src/sevaht_utility/parsing.py:311-318 | the loop over retained fields yields the fields and registry of `ResolveFields` |
| CsvLoad.Load | src/sevaht_utility/parsing.py:239-345 | the method over the parser object yields `CsvLoadSpec`, output and registry |
| CsvExamples.HeaderIndices | tests/test_parsing.py:200 | float_number is column 1 and string column 4 |
| CsvExamples.DictMappingRetained | tests/test_parsing.py:202 | the two mapped fields read columns 1 and 4 |
| CsvExamples.RetainedFromTwo | src/sevaht_utility/parsing.py:311-318 | two mapped fields whose columns are in the header are retained in order at their columns' indices |
| CsvExamples.ConsumedOfTwo | src/sevaht_utility/parsing.py:320-322 | two fields at indices 1 and 4 consume {1, 4} |
| CsvExamples.UnconsumedOfHeader | src/sevaht_utility/parsing.py:323-327 | consuming columns 1 and 4 leaves number, from_registered and from_method |
| CsvExamples.CsvIntoDictRejectsSubset | tests/test_parsing.py:204-209 | with the subset not allowed, the dict mapping raises the unconsumed-columns error before any record |
| CsvExamples.CsvIntoDict | tests/test_parsing.py:211-218 | with the subset allowed, each record holds exactly the_float and the_string with their raw cells |
| CsvExamples.DictRecordCells | tests/test_parsing.py:211-218 | each record raw from the dict mapping holds exactly the_float from column 1 and the_string from column 4 |
| CsvExamples.MissingColumnName | tests/test_parsing.py:221-228 | a one-column header keeps only the first cell of each row |
| CsvExamples.OneColumnRecords | tests/test_parsing.py:221-228 | records keyed by only_this hold the first cell of each row |
| CsvExamples.ThreeColumns | tests/test_parsing.py:231-235 | rows a,b,c and 1,2,3 give one record a:1, b:2, c:3 |
| CsvExamples.ThreeColumnRecord | tests/test_parsing.py:231-235 | the record keyed by a, b, c over row 1,2,3 is a:1, b:2, c:3 |
| CsvExamples.SharedRetained | src/sevaht_utility/parsing.py:311-318 | two fields mapped to one column are both retained at its index |
| CsvExamples.SharedUnconsumed | src/sevaht_utility/parsing.py:323-327 | two fields on column 0 of a two-column header leave b unconsumed |
| CsvExamples.SharedFieldsUnconsumed | src/sevaht_utility/parsing.py:311-327 | the shared mapping retains two fields whose columns leave b unconsumed |
| CsvExamples.CountCheckMissesSharedColumn | src/sevaht_utility/parsing.py:319 | two fields on one of two columns pass the count check though column b is unconsumed |
| CsvExamples.UnannotatedInitFirst | src/sevaht_utility/parsing.py:275-286 | an init function with an unannotated argument raises its KeyError even when the class passed as dataclass is not one |
| Json5.BlankRun | src/sevaht_utility/parsing.py:356-357 | `[ \t]*` matches the longest run of blanks |
| Json5.QuotedEnd | src/sevaht_utility/parsing.py:350-355 | defines where a quoted string opened by `quote` ends, a backslash escaping the next character, or none when it is not closed; specified by QuotedEndBounds, QuotedEndSkips, QuotedEndExtends |
| Json5.QuotedEndBounds | src/sevaht_utility/parsing.py:350-355 | a quoted string ends after its closing quote, within the text |
| Json5.QuotedEndSkips | src/sevaht_utility/parsing.py:351 | characters other than the quote and a backslash do not end a quoted string |
| Json5.QuotedEndExtends | src/sevaht_utility/parsing.py:350-355 | text after a closed string does not change where it ends |
| Json5.LineEnd | src/sevaht_utility/parsing.py:356 | defines the end of a line comment, which stays within the text; specified by LineEndStops |
| Json5.LineEndStops | src/sevaht_utility/parsing.py:356 | `[^\r\n]*` stops at the first line break or the end |
| Json5.BlockClose | src/sevaht_utility/parsing.py:357 | the non-greedy `.*?\*/` ends at the first `*/`, across lines |
| Json5.StripKeepsLiteral | src/sevaht_utility/parsing.py:350-355 | a quoted string, escapes included, is copied verbatim |
| Json5.StripLineComment | src/sevaht_utility/parsing.py:356 | blanks and a `//` comment up to the line break are deleted |
| Json5.StripBlockComment | src/sevaht_utility/parsing.py:357 | blanks and a `/* */` comment are deleted |
| Json5.StripPlainText | src/sevaht_utility/parsing.py:367-369 | text without quotes or slashes passes unchanged |
| Json5.StripComments | src/sevaht_utility/parsing.py:348-369 | defines the `re.sub` of the comment pattern as a left-to-right scanner keeping string literals and deleting blanks plus comments; specified by StripKeepsLiteral, StripLineComment, StripBlockComment, StripPlainText, StripShortens, StripPieces |
| Json5.StripShortens | src/sevaht_utility/parsing.py:367-369 | the comment pass never lengthens the text |
| Json5.TrailingCommaAt | src/sevaht_utility/parsing.py:371 | defines the match of `,(?=\s*[\]}])` at a position; used by both comma passes and specified by TrailingCommaShift, CommaStep |
| Json5.RemoveTrailingCommasAsWritten | src/sevaht_utility/parsing.py:371 | defines the trailing-comma `re.sub` as written, over the whole text; specified by AsWrittenRemovesOnlyTrailingCommas, AsWrittenAltersQuotedComma, CommaPiecesAsWritten |
| Json5.AsWrittenRemovesOnlyTrailingCommas | src/sevaht_utility/parsing.py:371 | as written, the pass deletes only commas and leaves the text unchanged iff it has no trailing comma |
| Json5.TrailingCommaShift | src/sevaht_utility/parsing.py:371 | a text has a trailing comma iff one starts at its first character or in the rest |
| Json5.CommaPassesAgreeWithoutQuotes | src/sevaht_utility/parsing.py:371 | without quotes, the pass as written and the quote-aware pass agree |
| Json5.RemoveTrailingCommas | src/sevaht_utility/parsing.py:371 | defines the corrected trailing-comma pass, which copies string literals; specified by RemoveTrailingCommasKeepsLiteral, RemoveTrailingCommasOnlyCommas, CommaPieces, CommaPassesAgreeWithoutQuotes |
| Json5.RemoveTrailingCommasKeepsLiteral | src/sevaht_utility/parsing.py:371 | the quote-aware pass copies a quoted string verbatim |
| Json5.CommaStep | src/sevaht_utility/parsing.py:371 | a comma is deleted iff only whitespace stands before a closing bracket or brace |
| Json5.RemoveTrailingCommasOnlyCommas | src/sevaht_utility/parsing.py:371 | the quote-aware pass deletes only commas |
| Json5.AsWrittenAltersQuotedComma | src/sevaht_utility/parsing.py:371 | the pass as written turns the string literal `"a,]"` into `"a]"`; the quote-aware pass keeps it |
| Json5.StripPieces | src/sevaht_utility/parsing.py:348-369 | the comment pass over fitting pieces deletes exactly the comment pieces |
| Json5.ClosesAfterRender | src/sevaht_utility/parsing.py:371 | a closing bracket follows in the pieces iff it follows in their text |
| Json5.CommaPieces | src/sevaht_utility/parsing.py:371 | the comma pass over pieces deletes exactly the comma pieces before a closing bracket or brace |
| Json5.UncommentedAppend | src/sevaht_utility/parsing.py:367-369 | comments are deleted piecewise |
| Json5.DecommaedAppend | src/sevaht_utility/parsing.py:371 | pieces without commas pass the comma pass unchanged |
| Json5.Json5Clean | src/sevaht_utility/parsing.py:363-371 | defines the corrected cleaning pass: get_text, the comment pass, then the corrected comma pass; specified by Json5CleanPieces |
| Json5.Json5CleanPieces | src/sevaht_utility/parsing.py:363-371 | the corrected pass hands the JSON parser the pieces without their comments and without the commas before a closing bracket or brace |
| Json5.UncommentedSubset | src/sevaht_utility/parsing.py:367-369 | the comment pass keeps only pieces that were there |
| Json5.AsWrittenKeepsPrefix | src/sevaht_utility/parsing.py:371 | as written, a prefix none of whose commas is trailing, even with more text after it, passes unchanged |
| Json5.QuotedCommasStay | src/sevaht_utility/parsing.py:371 | a quoted literal without a trailing comma of its own has none once text follows it, since it ends with its quote |
| Json5.NoCommaNoTrailing | src/sevaht_utility/parsing.py:371 | a text without commas has no trailing comma |
| Json5.CommaPiecesAsWritten | src/sevaht_utility/parsing.py:371 | as written, the comma pass over pieces deletes exactly the comma pieces before a closing bracket or brace, when no quoted piece holds a trailing comma |
| Json5.Json5CleanAsWritten | src/sevaht_utility/parsing.py:363-371 | defines the text json5_load hands to json.loads: get_text, the comment pass, then the comma pass as written; specified by Json5CleanAsWrittenPieces and the four samples |
| Json5.Json5CleanAsWrittenPieces | src/sevaht_utility/parsing.py:363-371 | json5_load as written hands the JSON parser the pieces without their comments and without the commas before a closing bracket or brace, when no quoted piece holds a trailing comma, and then agrees with the corrected pass |
| Json5Examples.CommentedObjectCleans | tests/test_parsing.py:293-296 | an object with a line comment and a trailing comma loses both, under the corrected pass and, when its keys and values hold no trailing comma, under json5_load as written |
| Json5Examples.FirstSample | tests/test_parsing.py:293-296 | json5_load as written cleans the first sample to `{"a": "simple",\n "b": "text"}` |
| Json5Examples.FlatObjectCleans | tests/test_parsing.py:297-300 | an object with a trailing comma before `}` loses it, under the corrected pass and, when its keys and values hold no trailing comma, under json5_load as written |
| Json5Examples.SecondSample | tests/test_parsing.py:297-300 | under json5_load as written, the escaped quotes of the second sample stay inside its string, and only the trailing comma goes |
| Json5Examples.CommentBeforeCloseCleans | tests/test_parsing.py:301-304 | a trailing comma followed by a line comment and `}` is deleted with the comment, under the corrected pass and, when its keys and values hold no trailing comma, under json5_load as written |
| Json5Examples.ThirdSample | tests/test_parsing.py:301-304 | under json5_load as written, the escaped backslash ends the third sample's string, and the comment and trailing comma go |
| Json5Examples.IndentedObjectCleans | tests/test_parsing.py:305-313 | an indented multi-line object loses its comment and trailing comma, under the corrected pass and, when its keys and values hold no trailing comma, under json5_load as written |
| Json5Examples.FourthSample | tests/test_parsing.py:305-313 | under json5_load as written, the fourth sample keeps its `\n` escape and loses its comment and trailing comma |

## Left out

- `src/sevaht_utility/log_utility.py` is not part of this model. It is logging and argument-parsing glue.
- Concurrency and caching are left out: the `threading.Lock` around the registry, the `@cache` on `StringParser.default()`, and the `@cache` on `default_string_converters()`. The model has a single sequential parser object. `Load` takes that object as a parameter, in place of `options.string_parser` or the shared default.
- `csv.reader` with its delimiter and quoting is left out. Rows arrive already split into cells, so `CsvLoadOptions` has no delimiter.
- `json.loads` is left out. The JSON5 model stops at the cleaned text. The four JSON5 samples are stated as the cleaned text, not as the parsed objects the tests compare.
- `Json5Examples`: the samples are built from pieces (`Render` of a piece list). The flat literal strings of the tests appear only through `Render`.
- Numeric parsing, float values and the results of user converters are abstract functions of `Environment`. A converter that raises returns `None`.
- Python reflection is given as data: `get_type_hints`, `signature`, `is_dataclass`, dataclass field metadata, `getattr(t, "from_string")` and `isinstance` with its subclass rules. `isinstance(x, Any)` raising `TypeError` is not modelled, because `isInstance` is an abstract predicate.
- Union kinds: `typing.Union` and `types.UnionType` are one `Union` node. Before Python 3.14 `iterate_types` only expands `UnionType`; that difference is not modelled.
- An unknown parameter name in the hints is left out.
- `DataclassInfo` assumes the generated `__init__`, whose parameters are exactly the dataclass fields. With a user-written `__init__`, a parameter that is not a field makes `dataclass.__dataclass_fields__[name]` (parsing.py:292) raise `KeyError`; `CsvLoad.MetadataColumn` instead falls back to the name itself.
- The `Path` and `TextIO` branches of `get_text`, `open_text`, and file-handle lifetime are I/O and are left out.
- Laziness is left out. `csv_load` is a generator; the model returns the records produced before the first error, together with that error.
- The call to `init_function`, `dict` or the dataclass constructor with the converted keyword arguments is left out. A record is the keyword map that the call receives.
- Key order within a record is left out: records are maps.
- A row too short for a retained column is modelled as the error `MissingCell`, which stands for Python's `IndexError`.
- `CsvError` carries more than the exceptions it stands for: `MissingCell` records the row number and the column index, which Python's `IndexError` does not, and `ConversionFailed` records the row number and the field name next to the parser's error, which `StringParserError` does not. `UnannotatedParameter` names the argument, as the `KeyError` does.
- Logging calls are left out.
- Case mapping, `isupper` and `isspace` are ASCII only. Unicode case mapping is not modelled.
- `StringConverterError` is defined in the source but never raised there, so it is not modelled.
- Parsing.GetText: for lines, the contract states only the length. `GetTextAppendLine` pins down the content, one line at a time.

## Findings

| source | as written | input that shows it | evidently intended | confidence | as-written member | corrected member |
|---|---|---|---|---|---|---|
| src/sevaht_utility/hinting.py:33 | `isinstance(value, *iterate_types(expected_type))` passes the flattened types as separate arguments; `isinstance` takes exactly one class argument, so any type that flattens to two or more types raises `TypeError` | `verified_cast(int \| str, 5)` | succeed when any flattened type accepts the value, as tests/test_hinting.py:41-59 expect | high, not executed | Hinting.VerifiedCastAsWritten, Hinting.VerifiedCastAsWrittenRejectsUnionMember | Hinting.VerifiedCast, HintingExamples.VerifiedCastIntOrStr |
| src/sevaht_utility/hinting.py:52 | `type_hints[member]` raises `KeyError` for a parameter without an annotation | `def f(x, y)` | an unannotated parameter is reported as `Any`, as tests/test_hinting.py:82-84 expect | high, not executed | Hinting.ArgumentHintsAsWritten, Hinting.ArgumentHintsAsWrittenRejectsUnannotated | Hinting.ArgumentHints, Hinting.ArgumentHintsAsWrittenRejectsUnannotated |
| src/sevaht_utility/parsing.py:371 | the trailing-comma substitution runs over the whole text, so it also deletes a comma inside a string literal that is followed by `]` or `}` | `["a,]"]` | leave string literals untouched, as the comment pass just before it does | medium, not executed | Json5.RemoveTrailingCommasAsWritten, Json5.AsWrittenAltersQuotedComma | Json5.RemoveTrailingCommas, Json5.RemoveTrailingCommasKeepsLiteral, Json5.Json5CleanPieces |
| src/sevaht_utility/parsing.py:18 | `from .hinting import ... verify_type` names a function hinting.py does not define, so importing the module raises ImportError | `import sevaht_utility.parsing` | import `verified_cast`, the function hinting.py defines and the call at parsing.py:141 evidently means | high, not executed | Parsing.ImportFrom, Parsing.ImportAsWrittenFails | Parsing.ImportCorrectedSucceeds |

Other points:
- The round-trip test's docstring states the law for any name; the test checks five names. It fails for one-letter words and for words that start with a digit. `NamingExamples.OneLetterWordsDoNotRoundTrip` and `NamingExamples.DigitWordDoesNotRoundTrip` prove this, and `Naming.ConvertPlainNameThroughAnyStyle` states when the round trip holds. The sample names in the tests all satisfy those conditions.
- The code's check for unconsumed columns compares counts (parsing.py:319). It therefore misses a column left unread when two fields share another column (`CsvExamples.CountCheckMissesSharedColumn`). The model follows the code here.
- The tests call a keyword API that `parsing.py` no longer has (`string_parser=`, `field_to_column_name=`, `allow_column_subset=`, `ColumnSubsetError`). The examples map those calls onto `DataMapping`, `CsvLoadOptions` and `UnconsumedColumnsError`.
