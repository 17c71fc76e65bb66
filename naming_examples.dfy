/** The behaviour the naming tests pin down, and two names on which a
    conversion through camelCase or PascalCase loses information. */
module NamingExamples {
  import opened Wrappers
  import opened Text
  import opened Naming

  const SampleWords: seq<string> := ["some", "sample", "name"]

  /** The sample words as each style spells them. */
  function SampleName(style: NameStyle): string
  {
    match style
    case SnakeCase => "some_sample_name"
    case KebabCase => "some-sample-name"
    case CamelCase => "someSampleName"
    case PascalCase => "SomeSampleName"
  }

  lemma CapitalizeExamples()
    ensures Capitalize("some") == "Some"
    ensures Capitalize("sample") == "Sample"
    ensures Capitalize("name") == "Name"
    ensures Capitalize("single") == "Single"
  {
    assert UpperChar('s') == 'S' && UpperChar('n') == 'N';
    LowerOfNoUpper("ome");
    LowerOfNoUpper("ample");
    LowerOfNoUpper("ame");
    LowerOfNoUpper("ingle");
  }

  lemma JoinTwoLaterWords(sep: string, a: string, b: string, capitalize: bool)
    ensures SepPrefixed(sep, StyledAll([a, b], capitalize))
            == sep + Styled(a, capitalize) + sep + Styled(b, capitalize)
  {
    var parts := StyledAll([a, b], capitalize);
    assert parts == [Styled(a, capitalize), Styled(b, capitalize)];
    assert parts[1..] == [parts[1]] && parts[1..][1..] == [];
    assert SepPrefixed(sep, parts[1..]) == sep + parts[1] + "";
    assert sep + parts[1] + "" == sep + parts[1];
  }

  lemma SampleWordsAreWords()
    ensures AllWords(SampleWords)
  {
    assert IsWord("some") && IsWord("sample") && IsWord("name");
  }

  /** Three words joined in one style, from the style's separator and
      capitalisation. */
  lemma JoinThreeWords(a: string, b: string, c: string, style: NameStyle)
    requires IsWord(a) && IsWord(b) && IsWord(c)
    ensures JoinWords([a, b, c], style)
            == Styled(a, style.Config().capitalizeFirst)
               + (style.Config().separator + Styled(b, style.Config().capitalizeRest)
                  + style.Config().separator + Styled(c, style.Config().capitalizeRest))
  {
    var cfg := style.Config();
    var ws := [a, b, c];
    assert AllWords(ws);
    JoinWordsOfWords(ws, style);
    assert ws[0] == a && ws[1..] == [b, c];
    JoinTwoLaterWords(cfg.separator, b, c, cfg.capitalizeRest);
  }

  lemma JoinSampleWords(style: NameStyle)
    ensures JoinWords(SampleWords, style) == SampleName(style)
  {
    SampleWordsAreWords();
    JoinThreeWords("some", "sample", "name", style);
    CapitalizeExamples();
    SampleSpellings();
  }

  /** The sample name in each style, spelled from its parts. */
  lemma SampleSpellings()
    ensures "some" + ("_" + "sample" + "_" + "name") == SampleName(SnakeCase)
    ensures "some" + ("-" + "sample" + "-" + "name") == SampleName(KebabCase)
    ensures "some" + ("" + "Sample" + "" + "Name") == SampleName(CamelCase)
    ensures "Some" + ("" + "Sample" + "" + "Name") == SampleName(PascalCase)
  {
  }

  lemma JoinSingleWord()
    ensures JoinWords(["single"], SnakeCase) == "single"
    ensures JoinWords(["single"], CamelCase) == "single"
    ensures JoinWords(["single"], PascalCase) == "Single"
  {
    assert IsWord("single");
    JoinWordsOfWords(["single"], SnakeCase);
    JoinWordsOfWords(["single"], CamelCase);
    JoinWordsOfWords(["single"], PascalCase);
    CapitalizeExamples();
  }

  /** Empty words are dropped before joining. */
  lemma JoinIgnoresEmptyWords()
    ensures JoinWords(["", "some", "", "name", ""], SnakeCase) == "some_name"
    ensures JoinWords(["", "some", "", "name", ""], PascalCase) == "SomeName"
  {
    var ws := ["", "some", "", "name", ""];
    assert ws[1..][1..][1..][1..][1..] == [];
    LowerOfNoUpper("some");
    LowerOfNoUpper("name");
    assert Normalized(ws) == ["some", "name"];
    CapitalizeExamples();
  }

  lemma SplitSampleNames(style: NameStyle)
    ensures WordsOf(SampleName(style)) == SampleWords
  {
    JoinSampleWords(style);
    SampleWordsArePlain();
    PlainWordsRoundTrip(SampleWords, style);
  }

  lemma SampleWordsArePlain()
    ensures forall k :: 0 <= k < |SampleWords| ==> PlainWord(SampleWords[k])
    ensures forall k :: 0 <= k < |SampleWords| - 1 ==> |SampleWords[k]| >= 2
  {
    assert PlainWord("some") && PlainWord("sample") && PlainWord("name");
  }

  lemma SplitSingleWord()
    ensures WordsOf("single") == ["single"]
    ensures WordsOf("Single") == ["single"]
  {
    JoinSingleWord();
    assert PlainWord("single");
    PlainWordsRoundTrip(["single"], SnakeCase);
    PlainWordsRoundTrip(["single"], PascalCase);
  }

  lemma SplitPaddedName()
    ensures WordsOf("  some_sample_name  ") == SampleWords
  {
    assert "  some_sample_name  " == "  " + SampleName(SnakeCase) + "  ";
    DelimitersAroundName("  ", SampleName(SnakeCase), "  ");
    SplitSampleNames(SnakeCase);
  }

  lemma SplitDelimitersOnly()
    ensures WordsOf("") == []
    ensures WordsOf("___") == []
    ensures WordsOf("---") == []
  {
    NoWordsIffOnlyDelimiters("");
    NoWordsIffOnlyDelimiters("___");
    NoWordsIffOnlyDelimiters("---");
  }

  /** Every style spelling of the sample converts to every other. */
  lemma ConvertSampleNames(from: NameStyle, to: NameStyle)
    ensures ConvertName(SampleName(from), to) == SampleName(to)
  {
    SplitSampleNames(from);
    JoinSampleWords(to);
  }

  lemma ConvertEmptyName(style: NameStyle)
    ensures ConvertName("", style) == ""
  {
    SplitDelimitersOnly();
  }

  /** The sample names convert alike directly and through any intermediate
      style. */
  lemma SampleNamesConvertThroughAnyStyle(name: string, intermediate: NameStyle, target: NameStyle)
    requires name == "single" || exists style :: name == SampleName(style)
    ensures ConvertName(ConvertName(name, intermediate), target) == ConvertName(name, target)
  {
    if name == "single" {
      SplitSingleWord();
      PlainWordsRoundTrip(["single"], intermediate);
    } else {
      var style :| name == SampleName(style);
      SplitSampleNames(style);
      PlainWordsRoundTrip(SampleWords, intermediate);
    }
  }

  /** Two words joined in a style, from its separator and capitalisation. */
  lemma JoinTwoWords(a: string, b: string, style: NameStyle)
    requires IsWord(a) && IsWord(b)
    ensures JoinWords([a, b], style)
            == Styled(a, style.Config().capitalizeFirst) + style.Config().separator
               + Styled(b, style.Config().capitalizeRest)
  {
    var cfg := style.Config();
    var ws := [a, b];
    JoinWordsOfWords(ws, style);
    assert ws[0] == a && ws[1..] == [b];
    var parts := StyledAll([b], cfg.capitalizeRest);
    assert parts == [Styled(b, cfg.capitalizeRest)] && parts[1..] == [];
    assert SepPrefixed(cfg.separator, parts) == cfg.separator + Styled(b, cfg.capitalizeRest) + "";
    assert cfg.separator + Styled(b, cfg.capitalizeRest) + "" == cfg.separator + Styled(b, cfg.capitalizeRest);
  }

  /** A word that starts with a digit is glued to the word before it by
      camelCase, since capitalising a digit leaves it unchanged. */
  lemma DigitWordDoesNotRoundTrip()
    ensures WordsOf("a_1b") == ["a", "1b"]
    ensures ConvertName("a_1b", CamelCase) == "a1b"
    ensures ConvertName(ConvertName("a_1b", CamelCase), SnakeCase) != ConvertName("a_1b", SnakeCase)
  {
    assert IsWord("a") && IsWord("1b");
    JoinTwoWords("a", "1b", SnakeCase);
    assert JoinWords(["a", "1b"], SnakeCase) == "a_1b";
    DelimitedStylesRoundTrip(["a", "1b"], SnakeCase);
    JoinTwoWords("a", "1b", CamelCase);
    assert Capitalize("1b") == "1b" by { LowerOfNoUpper("b"); }
    assert "a" + "" + "1b" == "a1b";
    assert PlainWord("a1b");
    assert JoinWords(["a1b"], SnakeCase) == "a1b";
    PlainWordsRoundTrip(["a1b"], SnakeCase);
  }

  lemma ScanCons(st: ScanState, c: char, s: string)
    ensures ScanFrom(st, [c] + s) == ScanFrom(Step(st, c), s)
  {
    assert ([c] + s)[1..] == s;
  }

  /** Two one-letter words become one word through PascalCase: "AB" reads as
      a single all-capitals word. */
  lemma OneLetterWordsDoNotRoundTrip()
    ensures ConvertName("a_b", PascalCase) == "AB"
    ensures WordsOf("AB") == ["ab"]
    ensures ConvertName(ConvertName("a_b", PascalCase), SnakeCase) != ConvertName("a_b", SnakeCase)
  {
    OneLetterWordsJoined();
    CapitalsReadAsOneWord();
    assert PlainWord("ab");
    assert JoinWords(["ab"], SnakeCase) == "ab";
  }

  /** "a_b" splits into its two words, which PascalCase joins into "AB". */
  lemma OneLetterWordsJoined()
    ensures WordsOf("a_b") == ["a", "b"]
    ensures ConvertName("a_b", SnakeCase) == "a_b"
    ensures ConvertName("a_b", PascalCase) == "AB"
  {
    assert IsWord("a") && IsWord("b");
    JoinTwoWords("a", "b", SnakeCase);
    assert JoinWords(["a", "b"], SnakeCase) == "a_b";
    DelimitedStylesRoundTrip(["a", "b"], SnakeCase);
    JoinTwoWords("a", "b", PascalCase);
    assert Capitalize("a") == "A" && Capitalize("b") == "B";
    assert "A" + "" + "B" == "AB";
  }

  /** "AB" is scanned as one word of capitals. */
  lemma CapitalsReadAsOneWord()
    ensures WordsOf("AB") == ["ab"]
  {
    assert "AB" + "-" == ['A'] + (['B'] + ['-']);
    ScanCons(Initial, 'A', ['B'] + ['-']);
    var s1 := Step(Initial, 'A');
    assert s1 == ScanState([], Some("A"), 'A');
    ScanCons(s1, 'B', ['-']);
    var s2 := Step(s1, 'B');
    assert "A" + ['B'] == "AB";
    assert s2 == ScanState([], Some("AB"), 'B');
    ScanCons(s2, '-', []);
    assert ScanFrom(Step(s2, '-'), []) == Step(s2, '-');
    assert Lower("AB") == "ab" by { assert LowerChar('A') == 'a'; assert LowerChar('B') == 'b'; }
  }
}
