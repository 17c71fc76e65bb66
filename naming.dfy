/** Conversion of identifiers between snake_case, kebab-case, camelCase and
    PascalCase: a name is split into lower-case words, and the words are
    joined again in the target style. */
module Naming {
  import opened Wrappers
  import opened Text

  /** How a style joins words: the separator, and whether the first word and
      the later words are capitalised. */
  datatype NameStyleConfig = NameStyleConfig(separator: string, capitalizeFirst: bool, capitalizeRest: bool)

  datatype NameStyle = SnakeCase | KebabCase | CamelCase | PascalCase
  {
    function Config(): NameStyleConfig
    {
      match this
      case SnakeCase => NameStyleConfig("_", false, false)
      case KebabCase => NameStyleConfig("-", false, false)
      case CamelCase => NameStyleConfig("", false, true)
      case PascalCase => NameStyleConfig("", true, true)
    }
  }

  /** Characters at which a name is always split. */
  predicate IsDelimiter(c: char) { c == '-' || c == '_' || IsSpace(c) }

  /** What split_into_words produces: a non-empty word with no upper-case
      letter and no delimiter. */
  predicate IsWord(w: string)
  {
    |w| > 0 && forall i :: 0 <= i < |w| ==> !IsUpper(w[i]) && !IsDelimiter(w[i])
  }

  // ---------------------------------------------------------------------
  // split_into_words
  // ---------------------------------------------------------------------

  /** The scanner's state after some prefix: the words emitted so far, the
      characters of the word being read (`None` between words) and the last
      character seen. */
  datatype ScanState = ScanState(words: seq<string>, word: Option<string>, last: char)

  /** Initially no word is open and the last character is an upper-case one,
      so that a leading capital does not count as a lower-to-upper step. */
  const Initial := ScanState([], None, 'X')

  /** One character of the scan. A delimiter, or an upper-case letter after
      a character that is not upper case, closes the open word; the capital
      opens the next one. Any other character opens a word or extends it. */
  function Step(st: ScanState, c: char): ScanState
  {
    var isDelimiter := IsDelimiter(c);
    var isLowerToUpper := !IsUpper(st.last) && IsUpper(c);
    if isDelimiter || isLowerToUpper then
      var emitted := if st.word.Some? && st.word.value != [] then [Lower(st.word.value)] else [];
      ScanState(st.words + emitted, if isLowerToUpper then Some([c]) else None, c)
    else if st.word.None? then
      ScanState(st.words, Some([c]), c)
    else
      ScanState(st.words, Some(st.word.value + [c]), c)
  }

  function ScanFrom(st: ScanState, s: string): ScanState
    decreases s
  {
    if s == [] then st else ScanFrom(Step(st, s[0]), s[1..])
  }

  /** The words of a name: the scan of the name followed by a sentinel `-`,
      which closes the last word. */
  function WordsOf(name: string): seq<string>
  {
    ScanFrom(Initial, name + "-").words
  }

  predicate AllWords(ws: seq<string>) { forall k :: 0 <= k < |ws| ==> IsWord(ws[k]) }

  /** split_into_words: one pass over the name and a sentinel `-`, keeping
      the offset of the open word and the previous character. */
  method SplitIntoWords(name: string) returns (words: seq<string>)
    ensures words == WordsOf(name)
    ensures AllWords(words)
  {
    var padded := name + "-";
    var offset: Option<nat> := None;
    var last := 'X';
    words := [];
    for i := 0 to |padded|
      invariant offset.Some? ==> offset.value < i <= |name|
      invariant ScanFrom(ScanState(words, if offset.Some? then Some(name[offset.value..i]) else None, last), padded[i..])
                == ScanFrom(Initial, padded)
    {
      var current := padded[i];
      assert i == |name| ==> current == '-';
      assert i < |name| ==> current == name[i];
      ghost var before := ScanState(words, if offset.Some? then Some(name[offset.value..i]) else None, last);
      ghost var after := Step(before, current);
      assert ScanFrom(before, padded[i..]) == ScanFrom(after, padded[i + 1..]) by {
        assert padded[i..][0] == current && padded[i..][1..] == padded[i + 1..];
      }
      var isDelimiter := IsDelimiter(current);
      var isLowerToUpper := !IsUpper(last) && IsUpper(current);
      if isDelimiter || isLowerToUpper {
        if offset.Some? && offset.value != i {
          words := words + [Lower(name[offset.value..i])];
        }
        offset := if isLowerToUpper then Some(i) else None;
        if isLowerToUpper {
          assert name[i..i + 1] == [current];
        }
      } else if offset.None? {
        offset := Some(i);
        assert name[i..i + 1] == [current];
      } else {
        assert name[offset.value..i + 1] == name[offset.value..i] + [current];
      }
      last := current;
      assert after == ScanState(words, if offset.Some? then Some(name[offset.value..i + 1]) else None, last);
    }
    WordsOfAreWords(name);
  }

  // ---------------------------------------------------------------------
  // Properties of the words
  // ---------------------------------------------------------------------

  lemma {:induction false} ScanFromAppend(st: ScanState, a: string, b: string)
    ensures ScanFrom(st, a + b) == ScanFrom(ScanFrom(st, a), b)
    decreases a
  {
    if a == [] {
      assert a + b == b;
    } else {
      assert (a + b)[1..] == a[1..] + b;
      ScanFromAppend(Step(st, a[0]), a[1..], b);
    }
  }

  /** Emitted words are words, and the open word holds no delimiter. */
  ghost predicate StateOk(st: ScanState)
  {
    && AllWords(st.words)
    && (st.word.Some? ==> forall i :: 0 <= i < |st.word.value| ==> !IsDelimiter(st.word.value[i]))
  }

  lemma {:induction false} ScanKeepsStateOk(st: ScanState, s: string)
    requires StateOk(st)
    ensures StateOk(ScanFrom(st, s))
    decreases s
  {
    if s != [] {
      var next := Step(st, s[0]);
      if st.word.Some? && st.word.value != [] {
        LowerHasNoUpper(st.word.value);
      }
      assert StateOk(next);
      ScanKeepsStateOk(next, s[1..]);
    }
  }

  /** Every word of a name is non-empty, lower case and free of delimiters. */
  lemma WordsOfAreWords(name: string)
    ensures AllWords(WordsOf(name))
  {
    ScanKeepsStateOk(Initial, name + "-");
  }

  /** The scan never takes back a word. */
  lemma {:induction false} ScanExtendsWords(st: ScanState, s: string)
    ensures |ScanFrom(st, s).words| >= |st.words|
    decreases s
  {
    if s != [] {
      ScanExtendsWords(Step(st, s[0]), s[1..]);
    }
  }

  /** Over delimiters only, the scan opens no word and emits nothing. */
  lemma {:induction false} ScanDelimiters(st: ScanState, s: string)
    requires st.word.None?
    requires forall i :: 0 <= i < |s| ==> IsDelimiter(s[i])
    ensures ScanFrom(st, s).words == st.words && ScanFrom(st, s).word.None?
    decreases s
  {
    if s != [] {
      ScanDelimiters(Step(st, s[0]), s[1..]);
    }
  }

  /** Once a character is in the open word it reaches the output. */
  lemma {:induction false} OpenWordIsEmitted(st: ScanState, s: string)
    requires st.word.Some? && st.word.value != []
    ensures |ScanFrom(st, s + "-").words| > |st.words|
    decreases s
  {
    if s == [] {
      assert s + "-" == "-";
      assert ScanFrom(Step(st, '-'), []) == Step(st, '-');
    } else {
      var next := Step(st, s[0]);
      assert (s + "-")[1..] == s[1..] + "-";
      if next.word.Some? && next.word.value != [] {
        OpenWordIsEmitted(next, s[1..]);
      } else {
        ScanExtendsWords(next, s[1..] + "-");
      }
    }
  }

  /** A name has no words exactly when it consists of delimiters only (the
      empty name included). */
  lemma {:induction false} NoWordsIffOnlyDelimiters(name: string)
    ensures WordsOf(name) == [] <==> forall i :: 0 <= i < |name| ==> IsDelimiter(name[i])
  {
    if forall i :: 0 <= i < |name| ==> IsDelimiter(name[i]) {
      ScanDelimiters(Initial, name + "-");
    } else {
      var k :| 0 <= k < |name| && !IsDelimiter(name[k]);
      var k0 := FirstNonDelimiter(name, k);
      assert name + "-" == name[..k0] + ([name[k0]] + (name[k0 + 1..] + "-"));
      ScanFromAppend(Initial, name[..k0], [name[k0]] + (name[k0 + 1..] + "-"));
      ScanDelimiters(Initial, name[..k0]);
      var mid := ScanFrom(Initial, name[..k0]);
      var started := Step(mid, name[k0]);
      assert started.word == Some([name[k0]]);
      assert ScanFrom(mid, [name[k0]] + (name[k0 + 1..] + "-")) == ScanFrom(started, name[k0 + 1..] + "-");
      OpenWordIsEmitted(started, name[k0 + 1..]);
    }
  }

  /** Between words the previous character matters only for the next step's
      bookkeeping: two such states that differ in it scan a non-empty text
      alike. */
  lemma {:induction false} BoundaryForgetsLast(st1: ScanState, st2: ScanState, s: string)
    requires st1.word.None? && st2.word.None? && st1.words == st2.words
    requires s != []
    ensures ScanFrom(st1, s) == ScanFrom(st2, s)
  {
    assert Step(st1, s[0]) == Step(st2, s[0]);
  }

  /** Delimiters before and after a name do not change its words. */
  lemma DelimitersAroundName(pre: string, name: string, post: string)
    requires forall i :: 0 <= i < |pre| ==> IsDelimiter(pre[i])
    requires forall i :: 0 <= i < |post| ==> IsDelimiter(post[i])
    ensures WordsOf(pre + name + post) == WordsOf(name)
  {
    assert pre + name + post + "-" == pre + (name + (post + "-"));
    ScanFromAppend(Initial, pre, name + (post + "-"));
    ScanDelimiters(Initial, pre);
    BoundaryForgetsLast(ScanFrom(Initial, pre), Initial, name + (post + "-"));
    ScanFromAppend(Initial, name, post + "-");
    ScanFromAppend(Initial, name, "-");
    assert name + "-" == name + ['-'];
    var st := ScanFrom(Initial, name);
    var d := (post + "-")[0];
    assert (post + "-") == [d] + (post + "-")[1..];
    assert ScanFrom(st, post + "-") == ScanFrom(Step(st, d), (post + "-")[1..]);
    ScanDelimiters(Step(st, d), (post + "-")[1..]);
    assert ScanFrom(st, "-") == ScanFrom(Step(st, '-'), []);
    assert Step(st, d).words == Step(st, '-').words;
  }

  function FirstNonDelimiter(name: string, k: nat): (k0: nat)
    requires k < |name| && !IsDelimiter(name[k])
    ensures k0 <= k && !IsDelimiter(name[k0])
    ensures forall i :: 0 <= i < k0 ==> IsDelimiter(name[i])
  {
    if forall i :: 0 <= i < k ==> IsDelimiter(name[i]) then k
    else
      var j :| 0 <= j < k && !IsDelimiter(name[j]);
      FirstNonDelimiter(name, j)
  }

  // ---------------------------------------------------------------------
  // join_words and convert_name
  // ---------------------------------------------------------------------

  /** The words kept by join_words: the non-empty ones, lower-cased, in
      order (NormalizedSingle and NormalizedAppend pin the contents down). */
  function Normalized(words: seq<string>): (r: seq<string>)
    ensures |r| <= |words|
    ensures forall k :: 0 <= k < |r| ==> r[k] != [] && HasNoUpper(r[k])
    ensures r == [] <==> forall k :: 0 <= k < |words| ==> words[k] == []
  {
    if words == [] then []
    else
      LowerHasNoUpper(words[0]);
      (if words[0] == [] then [] else [Lower(words[0])]) + Normalized(words[1..])
  }

  /** Exactly the empty words are dropped. */
  lemma {:induction false} NormalizedCount(words: seq<string>)
    ensures |Normalized(words)| == |words| - multiset(words)[[]]
  {
    if words != [] {
      assert words == [words[0]] + words[1..];
      assert multiset(words) == multiset([words[0]]) + multiset(words[1..]);
      NormalizedCount(words[1..]);
    }
  }

  /** One word is dropped when empty and lower-cased otherwise. */
  lemma NormalizedSingle(w: string)
    ensures Normalized([w]) == if w == [] then [] else [Lower(w)]
  {
    assert [w][1..] == [];
  }

  /** Normalising works word by word: the words of a concatenation are
      normalised in place, and their order is kept. */
  lemma {:induction false} NormalizedAppend(a: seq<string>, b: seq<string>)
    ensures Normalized(a + b) == Normalized(a) + Normalized(b)
  {
    if a == [] {
      assert a + b == b;
    } else {
      var w := a[0];
      var head := if w == [] then [] else [Lower(w)];
      calc {
        Normalized(a + b);
      == { assert a + b == [w] + (a[1..] + b); NormalizedCons(w, a[1..] + b); }
        head + Normalized(a[1..] + b);
      == { NormalizedAppend(a[1..], b); }
        head + (Normalized(a[1..]) + Normalized(b));
      ==
        (head + Normalized(a[1..])) + Normalized(b);
      == { assert a == [w] + a[1..]; NormalizedCons(w, a[1..]); }
        Normalized(a) + Normalized(b);
      }
    }
  }

  /** The first word is normalised ahead of the rest. */
  lemma NormalizedCons(w: string, rest: seq<string>)
    ensures Normalized([w] + rest) == (if w == [] then [] else [Lower(w)]) + Normalized(rest)
  {
    assert ([w] + rest)[0] == w && ([w] + rest)[1..] == rest;
  }

  /** Normalising twice is normalising once. */
  lemma {:induction false} NormalizedIdempotent(words: seq<string>)
    ensures Normalized(Normalized(words)) == Normalized(words)
  {
    if words != [] {
      var head := if words[0] == [] then [] else [Lower(words[0])];
      var rest := Normalized(words[1..]);
      NormalizedIdempotent(words[1..]);
      NormalizedAppend(head, rest);
      if words[0] != [] {
        LowerHasNoUpper(words[0]);
        LowerOfNoUpper(Lower(words[0]));
        NormalizedSingle(Lower(words[0]));
      }
    }
  }

  function Styled(w: string, capitalize: bool): string
  {
    if capitalize then Capitalize(w) else w
  }

  /** Word 0 is capitalised iff the style capitalises the first word, every
      later word iff it capitalises the rest. */
  function Transformed(ws: seq<string>, cfg: NameStyleConfig): (r: seq<string>)
    ensures |r| == |ws|
    ensures ws != [] ==> r[0] == Styled(ws[0], cfg.capitalizeFirst)
    ensures forall k :: 0 < k < |ws| ==> r[k] == Styled(ws[k], cfg.capitalizeRest)
  {
    seq(|ws|, i requires 0 <= i < |ws| => Styled(ws[i], if i == 0 then cfg.capitalizeFirst else cfg.capitalizeRest))
  }

  /** join_words: "" when no non-empty word is given; otherwise the
      normalised words, capitalised as the style says, joined with its
      separator. */
  function JoinWords(words: seq<string>, style: NameStyle): (r: string)
    ensures r == "" <==> forall k :: 0 <= k < |words| ==> words[k] == []
  {
    var normalized := Normalized(words);
    if normalized == [] then ""
    else
      var cfg := style.Config();
      var parts := Transformed(normalized, cfg);
      assert parts[0] != [];
      assert Join(cfg.separator, parts) == parts[0] + SepPrefixed(cfg.separator, parts[1..]);
      Join(cfg.separator, parts)
  }

  /** join_words on any words: the first kept word styled by
      `capitalize_first`, then the separator before each later kept word
      styled by `capitalize_rest`; the words already normalised join the
      same way. */
  lemma JoinWordsValue(ws: seq<string>, style: NameStyle)
    ensures var kept := Normalized(ws);
            kept != [] ==>
              (JoinWords(ws, style)
                 == Styled(kept[0], style.Config().capitalizeFirst)
                    + SepPrefixed(style.Config().separator, StyledAll(kept[1..], style.Config().capitalizeRest)))
    ensures JoinWords(Normalized(ws), style) == JoinWords(ws, style)
  {
    var kept := Normalized(ws);
    var cfg := style.Config();
    NormalizedIdempotent(ws);
    if kept != [] {
      var parts := Transformed(kept, cfg);
      assert parts[1..] == StyledAll(kept[1..], cfg.capitalizeRest);
    }
  }

  /** convert_name: split the name, then join its words in the target style. */
  function ConvertName(name: string, style: NameStyle): string
  {
    JoinWords(WordsOf(name), style)
  }

  // ---------------------------------------------------------------------
  // Round trip: splitting a joined name gives the words back
  // ---------------------------------------------------------------------

  /** An ASCII lower-case letter followed by lower-case letters and digits:
      a word that capitalisation changes only in its first letter. */
  predicate PlainWord(w: string)
  {
    |w| > 0 && IsLower(w[0]) && forall i :: 1 <= i < |w| ==> IsLower(w[i]) || IsDigit(w[i])
  }

  lemma PlainWordIsWord(w: string)
    requires PlainWord(w)
    ensures IsWord(w)
  {
  }

  /** A word that keeps its boundaries once styled: any word when it is
      left as it is, a plain word when it is capitalised. */
  predicate Survives(w: string, capitalize: bool)
  {
    if capitalize then PlainWord(w) else IsWord(w)
  }

  /** The words after the first that the style can join and split back:
      each survives the style's capitalisation, and when there is no
      separator, every one but the last is longer than a single capital. */
  predicate RestRoundTrips(rest: seq<string>, cfg: NameStyleConfig)
  {
    && (forall k :: 0 <= k < |rest| ==> Survives(rest[k], cfg.capitalizeRest))
    && (cfg.separator == "" ==> forall k :: 0 <= k < |rest| - 1 ==> |rest[k]| >= 2)
  }

  /** The word lists a style joins so that splitting gives them back. */
  predicate JoinRoundTrips(ws: seq<string>, cfg: NameStyleConfig)
  {
    ws != [] ==>
      && Survives(ws[0], cfg.capitalizeFirst)
      && RestRoundTrips(ws[1..], cfg)
      && (cfg.separator == "" && cfg.capitalizeFirst && |ws| > 1 ==> |ws[0]| >= 2)
  }

  /** The separator of a style is a delimiter, or the style capitalises
      every later word; either way word boundaries stay visible. */
  predicate Separates(cfg: NameStyleConfig)
  {
    (|cfg.separator| == 1 && IsDelimiter(cfg.separator[0])) || (cfg.separator == "" && cfg.capitalizeRest)
  }

  lemma StylesSeparate(style: NameStyle)
    ensures Separates(style.Config())
  {
  }

  function StyledAll(ws: seq<string>, capitalize: bool): (r: seq<string>)
    ensures |r| == |ws|
    ensures forall k :: 0 <= k < |ws| ==> r[k] == Styled(ws[k], capitalize)
  {
    if ws == [] then [] else [Styled(ws[0], capitalize)] + StyledAll(ws[1..], capitalize)
  }

  /** What scanning needs of a styled word. */
  lemma StyledSurvivor(w: string, capitalize: bool)
    requires Survives(w, capitalize)
    ensures var p := Styled(w, capitalize);
      && |p| == |w| && !IsDelimiter(p[0])
      && (capitalize ==> IsUpper(p[0]))
      && (forall i :: 1 <= i < |p| ==> !IsUpper(p[i]) && !IsDelimiter(p[i]))
      && ((!capitalize || |w| >= 2) ==> !IsUpper(p[|p| - 1]))
      && Lower(p) == w
  {
    var p := Styled(w, capitalize);
    if capitalize {
      assert p[1..] == Lower(w[1..]);
      forall i | 1 <= i < |p| ensures p[i] == w[i] {
        assert p[i] == p[1..][i - 1];
      }
      assert Lower(p) == w;
    } else {
      LowerOfNoUpper(w);
    }
  }

  /** Reading characters that are neither delimiters nor capitals only
      extends the open word. */
  lemma {:induction false} ScanTail(st: ScanState, s: string)
    requires st.word.Some?
    requires forall i :: 0 <= i < |s| ==> !IsUpper(s[i]) && !IsDelimiter(s[i])
    ensures ScanFrom(st, s) == ScanState(st.words, Some(st.word.value + s), if s == [] then st.last else s[|s| - 1])
    decreases s
  {
    if s == [] {
      assert st.word.value + s == st.word.value;
    } else {
      var next := Step(st, s[0]);
      assert next == ScanState(st.words, Some(st.word.value + [s[0]]), s[0]);
      ScanTail(next, s[1..]);
      assert st.word.value + [s[0]] + s[1..] == st.word.value + s;
    }
  }

  /** Between words, a styled word opens a word of exactly its characters. */
  lemma ScanWordFromBoundary(st: ScanState, p: string)
    requires st.word.None?
    requires |p| > 0 && !IsDelimiter(p[0])
    requires forall i :: 1 <= i < |p| ==> !IsUpper(p[i]) && !IsDelimiter(p[i])
    ensures ScanFrom(st, p) == ScanState(st.words, Some(p), p[|p| - 1])
  {
    var next := Step(st, p[0]);
    assert next == ScanState(st.words, Some([p[0]]), p[0]);
    assert ScanFrom(st, p) == ScanFrom(next, p[1..]);
    ScanTail(next, p[1..]);
    assert [p[0]] + p[1..] == p;
  }

  /** A separator and the next styled word close the open word and open the
      next one. */
  lemma ScanSeparatedWord(cfg: NameStyleConfig, st: ScanState, w: string)
    requires Separates(cfg) && Survives(w, cfg.capitalizeRest)
    requires st.word.Some? && st.word.value != []
    requires cfg.separator == "" ==> !IsUpper(st.last)
    ensures var p := Styled(w, cfg.capitalizeRest);
      ScanFrom(st, cfg.separator + p) == ScanState(st.words + [Lower(st.word.value)], Some(p), p[|p| - 1])
  {
    var p := Styled(w, cfg.capitalizeRest);
    StyledSurvivor(w, cfg.capitalizeRest);
    if cfg.separator == "" {
      assert cfg.separator + p == p;
      ScanGluedWord(st, p);
    } else {
      ScanDelimitedWord(cfg, st, p);
    }
  }

  /** With no separator, a capital after a non-capital opens the next word. */
  lemma ScanGluedWord(st: ScanState, p: string)
    requires p != [] && IsUpper(p[0]) && !IsDelimiter(p[0])
    requires forall i :: 1 <= i < |p| ==> !IsUpper(p[i]) && !IsDelimiter(p[i])
    requires st.word.Some? && st.word.value != [] && !IsUpper(st.last)
    ensures ScanFrom(st, p) == ScanState(st.words + [Lower(st.word.value)], Some(p), p[|p| - 1])
  {
    var next := Step(st, p[0]);
    assert next == ScanState(st.words + [Lower(st.word.value)], Some([p[0]]), p[0]);
    assert ScanFrom(st, p) == ScanFrom(next, p[1..]);
    ScanTail(next, p[1..]);
    assert [p[0]] + p[1..] == p;
  }

  /** A delimiter closes the open word, and the next word follows it. */
  lemma ScanDelimitedWord(cfg: NameStyleConfig, st: ScanState, p: string)
    requires Separates(cfg) && cfg.separator != []
    requires p != [] && !IsDelimiter(p[0])
    requires forall i :: 1 <= i < |p| ==> !IsUpper(p[i]) && !IsDelimiter(p[i])
    requires st.word.Some? && st.word.value != []
    ensures ScanFrom(st, cfg.separator + p) == ScanState(st.words + [Lower(st.word.value)], Some(p), p[|p| - 1])
  {
    var d := cfg.separator[0];
    assert cfg.separator + p == [d] + p;
    var next := Step(st, d);
    assert next == ScanState(st.words + [Lower(st.word.value)], None, d);
    assert ScanFrom(st, [d] + p) == ScanFrom(next, p) by {
      assert ([d] + p)[1..] == p;
    }
    ScanWordFromBoundary(next, p);
  }

  /** The sentinel closes the open word. */
  lemma CloseWord(st: ScanState)
    requires st.word.Some? && st.word.value != []
    ensures ScanFrom(st, "-").words == st.words + [Lower(st.word.value)]
  {
    assert ScanFrom(st, "-") == ScanFrom(Step(st, '-'), []);
  }

  lemma ConsThenTail(front: seq<string>, x: string, s: seq<string>)
    requires s != [] && x == s[0]
    ensures front + [x] + s[1..] == front + s
  {
    assert s == [s[0]] + s[1..];
  }

  /** The state after the separator and the next styled word. */
  function AfterWord(cfg: NameStyleConfig, st: ScanState, w: string): ScanState
    requires st.word.Some? && |w| > 0
  {
    var p := Styled(w, cfg.capitalizeRest);
    ScanState(st.words + [Lower(st.word.value)], Some(p), p[|p| - 1])
  }

  lemma ScanRestStep(cfg: NameStyleConfig, st: ScanState, rest: seq<string>)
    requires Separates(cfg) && RestRoundTrips(rest, cfg) && rest != []
    requires st.word.Some? && st.word.value != []
    requires cfg.separator == "" ==> !IsUpper(st.last)
    ensures |rest[0]| > 0
    ensures ScanFrom(st, SepPrefixed(cfg.separator, StyledAll(rest, cfg.capitalizeRest)) + "-")
            == ScanFrom(AfterWord(cfg, st, rest[0]), SepPrefixed(cfg.separator, StyledAll(rest[1..], cfg.capitalizeRest)) + "-")
  {
    assert Survives(rest[0], cfg.capitalizeRest);
    var parts := StyledAll(rest, cfg.capitalizeRest);
    var p := parts[0];
    assert parts[1..] == StyledAll(rest[1..], cfg.capitalizeRest);
    var tail := SepPrefixed(cfg.separator, parts[1..]) + "-";
    assert SepPrefixed(cfg.separator, parts) + "-" == (cfg.separator + p) + tail;
    ScanFromAppend(st, cfg.separator + p, tail);
    ScanSeparatedWord(cfg, st, rest[0]);
  }

  lemma {:induction false} ScanRestRoundTrip(cfg: NameStyleConfig, st: ScanState, rest: seq<string>)
    requires Separates(cfg) && RestRoundTrips(rest, cfg)
    requires st.word.Some? && st.word.value != []
    requires rest != [] && cfg.separator == "" ==> !IsUpper(st.last)
    ensures ScanFrom(st, SepPrefixed(cfg.separator, StyledAll(rest, cfg.capitalizeRest)) + "-").words
            == st.words + [Lower(st.word.value)] + rest
    decreases rest
  {
    if rest == [] {
      assert SepPrefixed(cfg.separator, StyledAll(rest, cfg.capitalizeRest)) + "-" == "-";
      CloseWord(st);
    } else {
      ScanRestStep(cfg, st, rest);
      var next := AfterWord(cfg, st, rest[0]);
      var p := Styled(rest[0], cfg.capitalizeRest);
      StyledSurvivor(rest[0], cfg.capitalizeRest);
      if rest[1..] != [] && cfg.separator == "" {
        assert |rest[0]| >= 2;
      }
      assert RestRoundTrips(rest[1..], cfg);
      ScanRestRoundTrip(cfg, next, rest[1..]);
      ConsThenTail(st.words + [Lower(st.word.value)], Lower(p), rest);
    }
  }

  lemma {:induction false} NormalizedOfWords(ws: seq<string>)
    requires AllWords(ws)
    ensures Normalized(ws) == ws
  {
    if ws != [] {
      LowerOfNoUpper(ws[0]);
      NormalizedOfWords(ws[1..]);
      assert ws == [ws[0]] + ws[1..];
    }
  }

  lemma JoinRoundTripsAreWords(ws: seq<string>, cfg: NameStyleConfig)
    requires JoinRoundTrips(ws, cfg)
    ensures AllWords(ws)
  {
    forall k | 0 <= k < |ws| ensures IsWord(ws[k]) {
      var cap := if k == 0 then cfg.capitalizeFirst else cfg.capitalizeRest;
      assert Survives(ws[k], cap) by {
        if k > 0 { assert ws[k] == ws[1..][k - 1]; }
      }
      if cap { PlainWordIsWord(ws[k]); }
    }
  }

  /** join_words on words that need no normalising: the first word styled,
      then the separator before each later styled word. */
  lemma JoinWordsOfWords(ws: seq<string>, style: NameStyle)
    requires AllWords(ws) && ws != []
    ensures JoinWords(ws, style)
            == Styled(ws[0], style.Config().capitalizeFirst)
               + SepPrefixed(style.Config().separator, StyledAll(ws[1..], style.Config().capitalizeRest))
  {
    NormalizedOfWords(ws);
    var cfg := style.Config();
    var parts := Transformed(ws, cfg);
    assert parts[1..] == StyledAll(ws[1..], cfg.capitalizeRest);
  }

  /** Splitting the joined words gives the words back. */
  lemma JoinThenSplit(ws: seq<string>, style: NameStyle)
    requires JoinRoundTrips(ws, style.Config())
    ensures WordsOf(JoinWords(ws, style)) == ws
  {
    var cfg := style.Config();
    StylesSeparate(style);
    JoinRoundTripsAreWords(ws, cfg);
    if ws == [] {
      NoWordsIffOnlyDelimiters("");
    } else {
      JoinWordsOfWords(ws, style);
      var first := Styled(ws[0], cfg.capitalizeFirst);
      var tail := SepPrefixed(cfg.separator, StyledAll(ws[1..], cfg.capitalizeRest)) + "-";
      assert JoinWords(ws, style) + "-" == first + tail;
      ScanFromAppend(Initial, first, tail);
      StyledSurvivor(ws[0], cfg.capitalizeFirst);
      ScanWordFromBoundary(Initial, first);
      var started := ScanState([], Some(first), first[|first| - 1]);
      ScanRestRoundTrip(cfg, started, ws[1..]);
      ConsThenTail([], Lower(first), ws);
    }
  }

  /** snake_case and kebab-case give back every list of words, since the
      separator is itself a delimiter. */
  lemma DelimitedStylesRoundTrip(ws: seq<string>, style: NameStyle)
    requires AllWords(ws)
    requires style == SnakeCase || style == KebabCase
    ensures WordsOf(JoinWords(ws, style)) == ws
  {
    JoinThenSplit(ws, style);
  }

  /** Every style gives back plain words that are all, but possibly the
      last, at least two characters long. */
  lemma PlainWordsRoundTrip(ws: seq<string>, style: NameStyle)
    requires forall k :: 0 <= k < |ws| ==> PlainWord(ws[k])
    requires forall k :: 0 <= k < |ws| - 1 ==> |ws[k]| >= 2
    ensures WordsOf(JoinWords(ws, style)) == ws
  {
    var cfg := style.Config();
    forall k | 0 <= k < |ws| ensures Survives(ws[k], true) && Survives(ws[k], false) {
      PlainWordIsWord(ws[k]);
    }
    assert JoinRoundTrips(ws, cfg);
    JoinThenSplit(ws, style);
  }

  /** Converting through an intermediate style gives the same name as
      converting directly, whenever the intermediate style gives the name's
      words back. */
  lemma ConvertThroughIntermediate(name: string, intermediate: NameStyle, target: NameStyle)
    requires JoinRoundTrips(WordsOf(name), intermediate.Config())
    ensures ConvertName(ConvertName(name, intermediate), target) == ConvertName(name, target)
  {
    JoinThenSplit(WordsOf(name), intermediate);
  }

  /** Going through snake_case or kebab-case never changes the result, for
      any name at all. */
  lemma ConvertThroughDelimitedStyle(name: string, intermediate: NameStyle, target: NameStyle)
    requires intermediate == SnakeCase || intermediate == KebabCase
    ensures ConvertName(ConvertName(name, intermediate), target) == ConvertName(name, target)
  {
    WordsOfAreWords(name);
    DelimitedStylesRoundTrip(WordsOf(name), intermediate);
  }

  /** For names made of plain words of two or more characters, any pair of
      styles commutes this way; converting twice to one style is converting
      once. */
  lemma ConvertPlainNameThroughAnyStyle(name: string, intermediate: NameStyle, target: NameStyle)
    requires forall k :: 0 <= k < |WordsOf(name)| ==> PlainWord(WordsOf(name)[k])
    requires forall k :: 0 <= k < |WordsOf(name)| - 1 ==> |WordsOf(name)[k]| >= 2
    ensures ConvertName(ConvertName(name, intermediate), target) == ConvertName(name, target)
    ensures ConvertName(ConvertName(name, target), target) == ConvertName(name, target)
  {
    PlainWordsRoundTrip(WordsOf(name), intermediate);
    PlainWordsRoundTrip(WordsOf(name), target);
  }
}
