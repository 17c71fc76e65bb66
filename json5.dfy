/** json5_load's cleaning pass: comments outside quoted strings are
    deleted together with the blanks before them, then commas that only
    precede a closing bracket or brace are deleted. The cleaned text goes
    on to a JSON parser, which is not part of this model. */
module Json5 {
  import opened Wrappers
  import opened Text
  import opened Parsing

  // ---------------------------------------------------------------------
  // The pieces the comment pattern matches
  // ---------------------------------------------------------------------

  /** `[ \t]`: the blanks a comment takes with it. */
  predicate IsBlank(c: char) { c == ' ' || c == '\t' }

  predicate IsQuote(c: char) { c == '"' || c == '\'' }

  predicate IsLineBreak(c: char) { c == '\r' || c == '\n' }

  /** `[ \t]*`, greedy: the length of the leading run of blanks. */
  function BlankRun(s: string): (n: nat)
    ensures n <= |s|
    ensures forall i :: 0 <= i < n ==> IsBlank(s[i])
    ensures n < |s| ==> !IsBlank(s[n])
  {
    if s != [] && IsBlank(s[0]) then 1 + BlankRun(s[1..]) else 0
  }

  /** The rest of a quoted string from index `i`, after its opening quote:
      `(?:\\.|[^"\\])*"`. A backslash takes the next character with it,
      whatever it is; the string ends at the first unescaped quote. The
      result is the index just past the closing quote, or None when the
      text ends first. */
  function QuotedEnd(s: string, i: nat, quote: char): (r: Option<nat>)
    decreases |s| - i
  {
    if i >= |s| then None
    else if s[i] == quote then Some(i + 1)
    else if s[i] == '\\' then (if i + 1 < |s| then QuotedEnd(s, i + 2, quote) else None)
    else QuotedEnd(s, i + 1, quote)
  }

  lemma {:induction false} QuotedEndBounds(s: string, i: nat, quote: char)
    decreases |s| - i
    ensures var r := QuotedEnd(s, i, quote);
            r.Some? ==> i < r.value <= |s| && s[r.value - 1] == quote
  {
    if i < |s| && s[i] != quote {
      if s[i] == '\\' {
        if i + 1 < |s| { QuotedEndBounds(s, i + 2, quote); }
      } else {
        QuotedEndBounds(s, i + 1, quote);
      }
    }
  }

  /** Characters other than the quote and the backslash are passed over. */
  lemma {:induction false} QuotedEndSkips(s: string, i: nat, j: nat, quote: char)
    requires i <= j <= |s|
    requires forall k :: i <= k < j ==> s[k] != quote && s[k] != '\\'
    decreases j - i
    ensures QuotedEnd(s, i, quote) == QuotedEnd(s, j, quote)
  {
    if i < j {
      QuotedEndSkips(s, i + 1, j, quote);
    }
  }

  /** `[^\r\n]*`, greedy from index `i`: the index of the first line break
      at or after `i`, or the end of the text. */
  function LineEnd(s: string, i: nat): (r: nat)
    requires i <= |s|
    decreases |s| - i
    ensures i <= r <= |s|
  {
    if i == |s| || IsLineBreak(s[i]) then i else LineEnd(s, i + 1)
  }

  /** The comment runs up to the first line break, which it leaves. */
  lemma {:induction false} LineEndStops(s: string, i: nat)
    requires i <= |s|
    decreases |s| - i
    ensures var r := LineEnd(s, i);
            (forall j :: i <= j < r ==> !IsLineBreak(s[j])) && (r < |s| ==> IsLineBreak(s[r]))
  {
    if i < |s| && !IsLineBreak(s[i]) {
      LineEndStops(s, i + 1);
    }
  }

  /** The non-greedy body and close of a block comment, from index `i`:
      the index just past the first star followed by a slash that starts
      at or after `i`, or None when there is none. */
  function BlockClose(s: string, i: nat): (r: Option<nat>)
    decreases |s| - i
    ensures r.Some? ==> i + 2 <= r.value <= |s| && s[r.value - 2] == '*' && s[r.value - 1] == '/'
    ensures r.Some? ==> forall j :: i <= j < r.value - 2 ==> !(s[j] == '*' && s[j + 1] == '/')
    ensures r.None? ==> forall j :: i <= j < |s| - 1 ==> !(s[j] == '*' && s[j + 1] == '/')
  {
    if i + 1 >= |s| then None
    else if s[i] == '*' && s[i + 1] == '/' then Some(i + 2)
    else BlockClose(s, i + 1)
  }

  // ---------------------------------------------------------------------
  // The comment pass
  // ---------------------------------------------------------------------

  /** `_JSON5_COMMENT_PATTERN.sub(comment_replacer, text)`. At each
      position the alternatives are tried in order: a terminated
      double- or single-quoted string is kept whole; blanks followed by
      `//` are deleted up to the next line break; blanks followed by a
      closed block comment (slash-star to star-slash) are deleted through
      its close; where nothing matches, one character is kept and the scan
      moves on. */
  function StripComments(s: string): string
    decreases |s|
  {
    if s == [] then ""
    else
      var q := if IsQuote(s[0]) then QuotedEnd(s, 1, s[0]) else None;
      QuotedEndBounds(s, 1, s[0]);
      if q.Some? then s[..q.value] + StripComments(s[q.value..])
      else
        var b := BlankRun(s);
        if b + 1 < |s| && s[b] == '/' && s[b + 1] == '/' then
          StripComments(s[LineEnd(s, b + 2)..])
        else if b + 1 < |s| && s[b] == '/' && s[b + 1] == '*' && BlockClose(s, b + 2).Some? then
          StripComments(s[BlockClose(s, b + 2).value..])
        else [s[0]] + StripComments(s[1..])
  }

  /** A whole quoted string: an opening quote, and the scan from it closes
      at the very last character. */
  predicate QuotedLiteral(q: string)
  {
    |q| >= 2 && IsQuote(q[0]) && QuotedEnd(q, 1, q[0]) == Some(|q|)
  }

  /** Whatever follows a quoted string does not move its close. */
  lemma {:induction false} QuotedEndExtends(q: string, t: string, i: nat, quote: char)
    requires QuotedEnd(q, i, quote).Some?
    decreases |q| - i
    ensures QuotedEnd(q + t, i, quote) == QuotedEnd(q, i, quote)
  {
    if q[i] != quote {
      if q[i] == '\\' {
        QuotedEndExtends(q, t, i + 2, quote);
      } else {
        QuotedEndExtends(q, t, i + 1, quote);
      }
    }
  }

  /** A quoted string is copied as it is, escaped quotes, backslashes and
      anything that looks like a comment included. */
  lemma StripKeepsLiteral(q: string, t: string)
    requires QuotedLiteral(q)
    ensures StripComments(q + t) == q + StripComments(t)
  {
    QuotedEndExtends(q, t, 1, q[0]);
    var s := q + t;
    assert s[0] == q[0];
    assert s[..|q|] == q && s[|q|..] == t;
  }

  /** One step of the comment pass where a line comment starts after the
      leading blanks. */
  lemma StripAtLineComment(s: string, b: nat, e: nat)
    requires b + 1 < |s| && !IsQuote(s[0]) && BlankRun(s) == b && s[b] == '/' && s[b + 1] == '/'
    requires LineEnd(s, b + 2) == e
    ensures StripComments(s) == StripComments(s[e..])
  {
  }

  /** Where the parts of a line comment sit in the text. */
  lemma LineCommentLayout(blanks: string, comment: string, t: string)
    requires forall i :: 0 <= i < |blanks| ==> IsBlank(blanks[i])
    requires forall i :: 0 <= i < |comment| ==> !IsLineBreak(comment[i])
    requires t == [] || IsLineBreak(t[0])
    ensures var s := blanks + "//" + comment + t;
            var b := |blanks|;
            && b + 1 < |s| && !IsQuote(s[0]) && BlankRun(s) == b && s[b] == '/' && s[b + 1] == '/'
            && LineEnd(s, b + 2) == b + 2 + |comment| && s[b + 2 + |comment|..] == t
  {
    var s := blanks + "//" + comment + t;
    var b := |blanks|;
    BlankRunOf(s, b);
    LineEndOf(s, b + 2, |comment|);
  }

  /** A line comment, with the blanks before it, disappears; the line
      break that ends it stays. */
  lemma StripLineComment(blanks: string, comment: string, t: string)
    requires forall i :: 0 <= i < |blanks| ==> IsBlank(blanks[i])
    requires forall i :: 0 <= i < |comment| ==> !IsLineBreak(comment[i])
    requires t == [] || IsLineBreak(t[0])
    ensures StripComments(blanks + "//" + comment + t) == StripComments(t)
  {
    LineCommentLayout(blanks, comment, t);
    StripAtLineComment(blanks + "//" + comment + t, |blanks|, |blanks| + 2 + |comment|);
  }

  lemma {:induction false} BlankRunOf(s: string, n: nat)
    requires n < |s|
    requires forall i :: 0 <= i < n ==> IsBlank(s[i])
    requires !IsBlank(s[n])
    ensures BlankRun(s) == n
  {
    if n > 0 {
      BlankRunOf(s[1..], n - 1);
    }
  }

  lemma {:induction false} LineEndOf(s: string, i: nat, n: nat)
    requires i + n <= |s|
    requires forall j :: i <= j < i + n ==> !IsLineBreak(s[j])
    requires i + n == |s| || IsLineBreak(s[i + n])
    decreases n
    ensures LineEnd(s, i) == i + n
  {
    if n > 0 {
      LineEndOf(s, i + 1, n - 1);
    }
  }

  /** One step of the comment pass where a closed block comment starts
      after the leading blanks. */
  lemma StripAtBlockComment(s: string, b: nat, e: nat)
    requires b + 1 < |s| && !IsQuote(s[0]) && BlankRun(s) == b && s[b] == '/' && s[b + 1] == '*'
    requires BlockClose(s, b + 2) == Some(e)
    ensures StripComments(s) == StripComments(s[e..])
  {
  }

  /** Where the parts of a block comment sit in the text. */
  lemma BlockCommentLayout(blanks: string, comment: string, t: string)
    requires forall i :: 0 <= i < |blanks| ==> IsBlank(blanks[i])
    requires forall j :: 0 <= j < |comment| - 1 ==> !(comment[j] == '*' && comment[j + 1] == '/')
    ensures var s := blanks + "/*" + comment + "*/" + t;
            var b := |blanks|;
            && b + 1 < |s| && !IsQuote(s[0]) && BlankRun(s) == b && s[b] == '/' && s[b + 1] == '*'
            && BlockClose(s, b + 2) == Some(b + 4 + |comment|) && s[b + 4 + |comment|..] == t
  {
    var s := blanks + "/*" + comment + "*/" + t;
    var b := |blanks|;
    BlankRunOf(s, b);
    BlockCloseOf(s, b + 2, |comment|);
  }

  /** A block comment whose body holds no star-slash, with the blanks
      before it, disappears even across lines. */
  lemma StripBlockComment(blanks: string, comment: string, t: string)
    requires forall i :: 0 <= i < |blanks| ==> IsBlank(blanks[i])
    requires forall j :: 0 <= j < |comment| - 1 ==> !(comment[j] == '*' && comment[j + 1] == '/')
    ensures StripComments(blanks + "/*" + comment + "*/" + t) == StripComments(t)
  {
    BlockCommentLayout(blanks, comment, t);
    StripAtBlockComment(blanks + "/*" + comment + "*/" + t, |blanks|, |blanks| + 4 + |comment|);
  }

  lemma {:induction false} BlockCloseOf(s: string, i: nat, n: nat)
    requires i + n + 2 <= |s| && s[i + n] == '*' && s[i + n + 1] == '/'
    requires forall j :: i <= j < i + n - 1 ==> !(s[j] == '*' && s[j + 1] == '/')
    requires n > 0 ==> s[i + n - 1] != '*' || s[i + n] != '/'
    decreases n
    ensures BlockClose(s, i) == Some(i + n + 2)
  {
    if n > 0 {
      BlockCloseOf(s, i + 1, n - 1);
    }
  }

  /** Neither a quoted string nor a comment starts at the front. */
  predicate CopiesFirst(s: string)
  {
    s != [] && !IsQuote(s[0]) && (BlankRun(s) == |s| || s[BlankRun(s)] != '/')
  }

  lemma StripCopiesFirst(s: string)
    requires CopiesFirst(s)
    ensures StripComments(s) == [s[0]] + StripComments(s[1..])
  {
  }

  /** No quote and no slash: nothing that could start a string or a comment. */
  predicate Inert(p: string) { forall i :: 0 <= i < |p| ==> !IsQuote(p[i]) && p[i] != '/' }

  lemma InertTail(p: string)
    requires p != [] && Inert(p)
    ensures Inert(p[1..])
  {
    forall i | 0 <= i < |p[1..]| ensures !IsQuote(p[1..][i]) && p[1..][i] != '/' {
      assert p[1..][i] == p[i + 1];
    }
  }

  /** The trailing blanks of `p`, if any, do not run into a comment in `t`. */
  predicate BlanksEndClear(p: string, t: string)
  {
    p == [] || !IsBlank(p[|p| - 1]) || t == [] || (!IsBlank(t[0]) && t[0] != '/')
  }

  lemma PlainCopiesFirst(p: string, t: string)
    requires p != [] && Inert(p) && BlanksEndClear(p, t)
    ensures CopiesFirst(p + t)
  {
    var s := p + t;
    var b := BlankRun(s);
    if b >= |p| {
      assert IsBlank(p[|p| - 1]) by { assert s[|p| - 1] == p[|p| - 1]; }
      if t != [] {
        assert s[|p|] == t[0];
      }
    } else {
      assert s[b] == p[b];
    }
  }

  /** One step of StripPlainPrefix: the first character is copied, and what
      remains still meets the conditions. */
  lemma StripPlainStep(p: string, t: string)
    requires p != [] && Inert(p) && BlanksEndClear(p, t)
    ensures StripComments(p + t) == [p[0]] + StripComments(p[1..] + t)
    ensures Inert(p[1..]) && BlanksEndClear(p[1..], t)
  {
    var s := p + t;
    assert s[0] == p[0] && s[1..] == p[1..] + t;
    PlainCopiesFirst(p, t);
    StripCopiesFirst(s);
    InertTail(p);
    assert p[1..] == [] || p[1..][|p[1..]| - 1] == p[|p| - 1];
  }

  /** Text with no quote and no slash is copied as it is in front of
      whatever follows, unless its trailing blanks run into a comment. */
  lemma {:induction false} StripPlainPrefix(p: string, t: string)
    requires Inert(p) && BlanksEndClear(p, t)
    decreases |p|
    ensures StripComments(p + t) == p + StripComments(t)
  {
    if p == [] {
      assert p + t == t;
    } else {
      StripPlainStep(p, t);
      StripPlainPrefix(p[1..], t);
      calc {
        StripComments(p + t);
        [p[0]] + StripComments(p[1..] + t);
        [p[0]] + (p[1..] + StripComments(t));
        { assert [p[0]] + p[1..] == p; }
        p + StripComments(t);
      }
    }
  }

  /** Text with no quote and no slash has nothing to delete. */
  lemma StripPlainText(s: string)
    requires Inert(s)
    ensures StripComments(s) == s
  {
    StripPlainPrefix(s, "");
    assert s + "" == s;
  }

  /** Deleting comments never lengthens the text. */
  lemma {:induction false} StripShortens(s: string)
    decreases |s|
    ensures |StripComments(s)| <= |s|
  {
    if s != [] {
      QuotedEndBounds(s, 1, s[0]);
      var q := if IsQuote(s[0]) then QuotedEnd(s, 1, s[0]) else None;
      var b := BlankRun(s);
      if q.Some? {
        StripShortens(s[q.value..]);
      } else if b + 1 < |s| && s[b] == '/' && s[b + 1] == '/' {
        StripShortens(s[LineEnd(s, b + 2)..]);
      } else if b + 1 < |s| && s[b] == '/' && s[b + 1] == '*' && BlockClose(s, b + 2).Some? {
        StripShortens(s[BlockClose(s, b + 2).value..]);
      } else {
        StripShortens(s[1..]);
      }
    }
  }

  // ---------------------------------------------------------------------
  // The trailing-comma pass
  // ---------------------------------------------------------------------

  /** `(?=\s*[\]}])`: only whitespace before a closing bracket or brace. */
  predicate ClosesAfterSpace(t: string)
    decreases |t|
  {
    t != [] && (t[0] == ']' || t[0] == '}' || (IsSpace(t[0]) && ClosesAfterSpace(t[1..])))
  }

  /** A comma the pattern `,(?=\s*[\]}])` deletes. */
  predicate TrailingCommaAt(s: string, i: nat)
  {
    i < |s| && s[i] == ',' && ClosesAfterSpace(s[i + 1..])
  }

  /** `re.sub(r",(?=\s*[\]}])", "", text)` as written: every trailing
      comma goes, inside a quoted string or not. */
  function RemoveTrailingCommasAsWritten(s: string): string
    decreases |s|
  {
    if s == [] then ""
    else if TrailingCommaAt(s, 0) then RemoveTrailingCommasAsWritten(s[1..])
    else [s[0]] + RemoveTrailingCommasAsWritten(s[1..])
  }

  /** The trailing-comma pass that skips quoted strings, as the comment
      pass does. */
  function RemoveTrailingCommas(s: string): string
    decreases |s|
  {
    if s == [] then ""
    else
      var q := if IsQuote(s[0]) then QuotedEnd(s, 1, s[0]) else None;
      QuotedEndBounds(s, 1, s[0]);
      if q.Some? then s[..q.value] + RemoveTrailingCommas(s[q.value..])
      else if TrailingCommaAt(s, 0) then RemoveTrailingCommas(s[1..])
      else [s[0]] + RemoveTrailingCommas(s[1..])
  }

  /** The characters of a text other than commas, in order. */
  function NonCommas(s: string): string
    decreases |s|
  {
    if s == [] then "" else (if s[0] == ',' then "" else [s[0]]) + NonCommas(s[1..])
  }

  lemma {:induction false} NonCommasAppend(a: string, b: string)
    decreases |a|
    ensures NonCommas(a + b) == NonCommas(a) + NonCommas(b)
  {
    if a == [] {
      assert a + b == b;
    } else {
      assert (a + b)[0] == a[0] && (a + b)[1..] == a[1..] + b;
      NonCommasAppend(a[1..], b);
    }
  }

  /** Text with at least one trailing comma. */
  predicate HasTrailingComma(s: string)
  {
    exists i :: 0 <= i < |s| && TrailingCommaAt(s, i)
  }

  lemma TrailingCommaShift(s: string)
    requires s != []
    ensures HasTrailingComma(s) <==> TrailingCommaAt(s, 0) || HasTrailingComma(s[1..])
  {
    if HasTrailingComma(s) {
      var i :| 0 <= i < |s| && TrailingCommaAt(s, i);
      if i > 0 {
        assert s[1..][i - 1..] == s[i..] && s[1..][i..] == s[i + 1..];
        assert TrailingCommaAt(s[1..], i - 1);
      }
    }
    if HasTrailingComma(s[1..]) {
      var i :| 0 <= i < |s[1..]| && TrailingCommaAt(s[1..], i);
      assert s[1..][i + 1..] == s[i + 2..];
      assert TrailingCommaAt(s, i + 1);
    }
  }

  /** As written, only commas go, and the text is left as it is exactly
      when it has no trailing comma. */
  lemma {:induction false} AsWrittenRemovesOnlyTrailingCommas(s: string)
    decreases |s|
    ensures NonCommas(RemoveTrailingCommasAsWritten(s)) == NonCommas(s)
    ensures |RemoveTrailingCommasAsWritten(s)| <= |s|
    ensures RemoveTrailingCommasAsWritten(s) == s <==> !HasTrailingComma(s)
  {
    if s != [] {
      AsWrittenRemovesOnlyTrailingCommas(s[1..]);
      TrailingCommaShift(s);
      var rest := RemoveTrailingCommasAsWritten(s[1..]);
      NonCommasAppend([s[0]], rest);
      NonCommasAppend([s[0]], s[1..]);
      assert s == [s[0]] + s[1..];
      if TrailingCommaAt(s, 0) {
        assert NonCommas([s[0]]) == "";
        assert |RemoveTrailingCommasAsWritten(s)| < |s|;
      } else {
        assert RemoveTrailingCommasAsWritten(s) == [s[0]] + rest;
      }
    }
  }

  /** Without quotes in the text, the two passes agree. */
  lemma {:induction false} CommaPassesAgreeWithoutQuotes(s: string)
    requires forall i :: 0 <= i < |s| ==> !IsQuote(s[i])
    decreases |s|
    ensures RemoveTrailingCommas(s) == RemoveTrailingCommasAsWritten(s)
  {
    if s != [] {
      CommaPassesAgreeWithoutQuotes(s[1..]);
    }
  }

  /** The string-aware pass copies a quoted string as it is. */
  lemma RemoveTrailingCommasKeepsLiteral(q: string, t: string)
    requires QuotedLiteral(q)
    ensures RemoveTrailingCommas(q + t) == q + RemoveTrailingCommas(t)
  {
    QuotedEndExtends(q, t, 1, q[0]);
    var s := q + t;
    assert s[0] == q[0];
    assert s[..|q|] == q && s[|q|..] == t;
  }

  /** Text with no quote and no comma is copied as it is in front of
      whatever follows. */
  lemma {:induction false} CommasPlainPrefix(p: string, t: string)
    requires forall i :: 0 <= i < |p| ==> !IsQuote(p[i]) && p[i] != ','
    decreases |p|
    ensures RemoveTrailingCommas(p + t) == p + RemoveTrailingCommas(t)
  {
    if p == [] {
      assert p + t == t;
    } else {
      var s := p + t;
      assert s[0] == p[0] && s[1..] == p[1..] + t;
      CommasPlainPrefix(p[1..], t);
      assert p == [p[0]] + p[1..];
    }
  }

  /** A comma before only whitespace and a closing bracket or brace goes;
      any other comma stays. */
  lemma CommaStep(t: string)
    ensures ClosesAfterSpace(t) ==> RemoveTrailingCommas("," + t) == RemoveTrailingCommas(t)
    ensures !ClosesAfterSpace(t) ==> RemoveTrailingCommas("," + t) == "," + RemoveTrailingCommas(t)
  {
    var s := "," + t;
    assert s[0] == ',' && s[1..] == t;
  }

  /** The string-aware pass also removes only commas. */
  lemma {:induction false} RemoveTrailingCommasOnlyCommas(s: string)
    decreases |s|
    ensures NonCommas(RemoveTrailingCommas(s)) == NonCommas(s)
  {
    if s != [] {
      QuotedEndBounds(s, 1, s[0]);
      var q := if IsQuote(s[0]) then QuotedEnd(s, 1, s[0]) else None;
      if q.Some? {
        var n := q.value;
        RemoveTrailingCommasOnlyCommas(s[n..]);
        NonCommasAppend(s[..n], RemoveTrailingCommas(s[n..]));
        NonCommasAppend(s[..n], s[n..]);
        assert s == s[..n] + s[n..];
      } else {
        RemoveTrailingCommasOnlyCommas(s[1..]);
        NonCommasAppend([s[0]], RemoveTrailingCommas(s[1..]));
        NonCommasAppend([s[0]], s[1..]);
        assert s == [s[0]] + s[1..];
      }
    }
  }

  /** The as-written pass changes the string `"a,]"`, and so the value
      json5_load returns for `["a,]"]`; the string-aware pass keeps it. */
  lemma AsWrittenAltersQuotedComma()
    ensures QuotedLiteral("\"a,]\"")
    ensures RemoveTrailingCommasAsWritten("\"a,]\"") == "\"a]\""
    ensures RemoveTrailingCommas("\"a,]\"") == "\"a,]\""
  {
    var q := "\"a,]\"";
    assert QuotedEnd(q, 1, '"') == Some(5);
    assert TrailingCommaAt(q, 2);
    assert !TrailingCommaAt(q, 0) && !TrailingCommaAt(q, 1);
    assert q[1..][1..] == ",]\"" && q[1..][1..][1..] == "]\"";
    assert RemoveTrailingCommasAsWritten("]\"") == "]\"";
    RemoveTrailingCommasKeepsLiteral(q, "");
    assert q + "" == q;
  }

  // ---------------------------------------------------------------------
  // Texts read as a sequence of pieces
  // ---------------------------------------------------------------------

  /** A piece of JSON5 text: plain text with no quote, slash or comma; a
      quoted string; a line comment or a block comment with the blanks
      before it; or a comma. */
  datatype Piece =
    | Plain(text: string)
    | Quoted(text: string)
    | LineComment(blanks: string, body: string)
    | BlockComment(blanks: string, body: string)
    | Comma

  function PieceText(p: Piece): string
  {
    match p
    case Plain(text) => text
    case Quoted(text) => text
    case LineComment(blanks, body) => blanks + "//" + body
    case BlockComment(blanks, body) => blanks + "/*" + body + "*/"
    case Comma => ","
  }

  function Render(ps: seq<Piece>): string
    decreases |ps|
  {
    if ps == [] then "" else PieceText(ps[0]) + Render(ps[1..])
  }

  lemma RenderCons(p: Piece, ps: seq<Piece>)
    ensures Render([p] + ps) == PieceText(p) + Render(ps)
  {
    assert ([p] + ps)[0] == p && ([p] + ps)[1..] == ps;
  }

  predicate AllBlank(s: string) { forall i :: 0 <= i < |s| ==> IsBlank(s[i]) }

  predicate Unbroken(s: string) { forall i :: 0 <= i < |s| ==> !IsLineBreak(s[i]) }

  predicate NoBlockClose(s: string) { forall j :: 0 <= j < |s| - 1 ==> !(s[j] == '*' && s[j + 1] == '/') }

  predicate PlainText(s: string) { forall i :: 0 <= i < |s| ==> !IsQuote(s[i]) && s[i] != '/' && s[i] != ',' }

  /** Each piece is what its kind says, given the character that follows
      it (None at the end of the text): non-empty plain text whose trailing
      blanks do not run into a comment, a whole quoted string, a line
      comment that a line break or the end of the text closes, a block
      comment whose body holds no star-slash. */
  predicate PieceFits(p: Piece, next: Option<char>)
  {
    match p
    case Plain(text) =>
      text != [] && PlainText(text)
      && (!IsBlank(text[|text| - 1]) || next.None? || (!IsBlank(next.value) && next.value != '/'))
    case Quoted(text) => QuotedLiteral(text)
    case LineComment(blanks, body) => AllBlank(blanks) && Unbroken(body) && (next.None? || IsLineBreak(next.value))
    case BlockComment(blanks, body) => AllBlank(blanks) && NoBlockClose(body)
    case Comma => true
  }

  /** The first character of the piece after index `i`. */
  function NextChar(ps: seq<Piece>, i: nat): Option<char>
  {
    if i + 1 < |ps| && PieceText(ps[i + 1]) != [] then Some(PieceText(ps[i + 1])[0]) else None
  }

  predicate PiecesFit(ps: seq<Piece>)
  {
    forall i :: 0 <= i < |ps| ==> PieceFits(ps[i], NextChar(ps, i))
  }

  lemma PiecesFitTail(ps: seq<Piece>)
    requires ps != [] && PiecesFit(ps)
    ensures PiecesFit(ps[1..])
    ensures PieceText(ps[0]) != []
    ensures var rest := Render(ps[1..]);
            PieceFits(ps[0], if rest == [] then None else Some(rest[0]))
  {
    forall i | 0 <= i < |ps[1..]| ensures PieceFits(ps[1..][i], NextChar(ps[1..], i)) {
      assert NextChar(ps[1..], i) == NextChar(ps, i + 1);
    }
    if |ps| > 1 {
      assert PieceFits(ps[1], NextChar(ps, 1));
      assert PieceText(ps[1]) != [];
      assert Render(ps[1..]) == PieceText(ps[1]) + Render(ps[2..]) by { assert ps[1..][1..] == ps[2..]; }
    }
  }

  predicate IsComment(p: Piece) { p.LineComment? || p.BlockComment? }

  /** The pieces without the comments. */
  function Uncommented(ps: seq<Piece>): seq<Piece>
    decreases |ps|
  {
    if ps == [] then [] else (if IsComment(ps[0]) then [] else [ps[0]]) + Uncommented(ps[1..])
  }

  /** One piece of StripPieces. */
  lemma StripPiece(p: Piece, rest: string)
    requires PieceFits(p, if rest == [] then None else Some(rest[0]))
    ensures StripComments(PieceText(p) + rest) == (if IsComment(p) then "" else PieceText(p)) + StripComments(rest)
  {
    match p
    case Plain(text) =>
      StripPlainPrefix(text, rest);
    case Quoted(text) =>
      StripKeepsLiteral(text, rest);
    case LineComment(blanks, body) =>
      StripLineComment(blanks, body, rest);
      assert "" + StripComments(rest) == StripComments(rest);
    case BlockComment(blanks, body) =>
      StripBlockComment(blanks, body, rest);
      assert "" + StripComments(rest) == StripComments(rest);
    case Comma =>
      StripPlainPrefix(",", rest);
  }

  lemma UncommentedRender(ps: seq<Piece>)
    requires ps != []
    ensures Render(Uncommented(ps)) == (if IsComment(ps[0]) then "" else PieceText(ps[0])) + Render(Uncommented(ps[1..]))
  {
    if IsComment(ps[0]) {
      assert Uncommented(ps) == [] + Uncommented(ps[1..]) == Uncommented(ps[1..]);
      assert "" + Render(Uncommented(ps[1..])) == Render(Uncommented(ps[1..]));
    } else {
      RenderCons(ps[0], Uncommented(ps[1..]));
    }
  }

  /** The comment pass deletes exactly the comment pieces. */
  lemma {:induction false} StripPieces(ps: seq<Piece>)
    requires PiecesFit(ps)
    decreases |ps|
    ensures StripComments(Render(ps)) == Render(Uncommented(ps))
  {
    if ps != [] {
      PiecesFitTail(ps);
      StripPieces(ps[1..]);
      StripPiece(ps[0], Render(ps[1..]));
      UncommentedRender(ps);
    }
  }

  /** What the comma pass needs of a piece: plain text with no quote, slash
      or comma, a whole quoted string, or a comma. */
  predicate CommaReady(p: Piece)
  {
    match p
    case Plain(text) => PlainText(text)
    case Quoted(text) => QuotedLiteral(text)
    case Comma => true
    case _ => false
  }

  /** The pieces left by the comment pass are ready for the comma pass. */
  lemma {:induction false} UncommentedReady(ps: seq<Piece>)
    requires PiecesFit(ps)
    decreases |ps|
    ensures forall i :: 0 <= i < |Uncommented(ps)| ==> CommaReady(Uncommented(ps)[i])
  {
    if ps != [] {
      PiecesFitTail(ps);
      UncommentedReady(ps[1..]);
      var head: seq<Piece> := if IsComment(ps[0]) then [] else [ps[0]];
      assert Uncommented(ps) == head + Uncommented(ps[1..]);
      assert PieceFits(ps[0], NextChar(ps, 0));
    }
  }

  predicate AllSpace(s: string) { forall i :: 0 <= i < |s| ==> IsSpace(s[i]) }

  /** Whether a closing bracket or brace follows, after only whitespace,
      read on the pieces. */
  function ClosesAfter(ps: seq<Piece>): bool
    decreases |ps|
  {
    ps != [] && ps[0].Plain? && (ClosesAfterSpace(ps[0].text) || (AllSpace(ps[0].text) && ClosesAfter(ps[1..])))
  }

  lemma {:induction false} ClosesAfterSpaceAppend(t: string, u: string)
    decreases |t|
    ensures ClosesAfterSpace(t + u) == (ClosesAfterSpace(t) || (AllSpace(t) && ClosesAfterSpace(u)))
  {
    if t == [] {
      assert t + u == u;
    } else {
      assert (t + u)[0] == t[0] && (t + u)[1..] == t[1..] + u;
      ClosesAfterSpaceAppend(t[1..], u);
      assert AllSpace(t) == (IsSpace(t[0]) && AllSpace(t[1..]));
    }
  }

  /** Whitespace alone closes nothing. */
  lemma {:induction false} SpacesDoNotClose(t: string)
    requires AllSpace(t)
    decreases |t|
    ensures !ClosesAfterSpace(t)
  {
    if t != [] {
      assert AllSpace(t[1..]) by {
        forall i | 0 <= i < |t[1..]| ensures IsSpace(t[1..][i]) {
          assert t[1..][i] == t[i + 1];
        }
      }
      SpacesDoNotClose(t[1..]);
      assert IsSpace(t[0]);
    }
  }

  lemma {:induction false} ClosesAfterRender(ps: seq<Piece>)
    requires forall i :: 0 <= i < |ps| ==> CommaReady(ps[i])
    decreases |ps|
    ensures ClosesAfter(ps) == ClosesAfterSpace(Render(ps))
  {
    if ps != [] {
      ClosesAfterRender(ps[1..]);
      var t := PieceText(ps[0]);
      ClosesAfterSpaceAppend(t, Render(ps[1..]));
      if !ps[0].Plain? {
        assert t[0] == '"' || t[0] == '\'' || t[0] == ',';
        assert !ClosesAfterSpace(t) && !AllSpace(t);
      }
    }
  }

  /** The pieces without the commas that only precede a closing bracket or
      brace. */
  function Decommaed(ps: seq<Piece>): seq<Piece>
    decreases |ps|
  {
    if ps == [] then []
    else if ps[0].Comma? && ClosesAfter(ps[1..]) then Decommaed(ps[1..])
    else [ps[0]] + Decommaed(ps[1..])
  }

  /** The string-aware comma pass deletes exactly the commas that close. */
  lemma {:induction false} CommaPieces(ps: seq<Piece>)
    requires forall i :: 0 <= i < |ps| ==> CommaReady(ps[i])
    decreases |ps|
    ensures RemoveTrailingCommas(Render(ps)) == Render(Decommaed(ps))
  {
    if ps != [] {
      var rest := Render(ps[1..]);
      CommaPieces(ps[1..]);
      assert CommaReady(ps[0]);
      if !(ps[0].Comma? && ClosesAfter(ps[1..])) {
        RenderCons(ps[0], Decommaed(ps[1..]));
      }
      match ps[0]
      case Plain(text) =>
        CommasPlainPrefix(text, rest);
      case Quoted(text) =>
        RemoveTrailingCommasKeepsLiteral(text, rest);
      case Comma =>
        ClosesAfterRender(ps[1..]);
        CommaStep(rest);
    }
  }

  predicate NoComments(ps: seq<Piece>) { forall i :: 0 <= i < |ps| ==> !IsComment(ps[i]) }

  predicate NoCommas(ps: seq<Piece>) { forall i :: 0 <= i < |ps| ==> !ps[i].Comma? }

  /** The comment pass works piece by piece, so it distributes over joins. */
  lemma {:induction false} UncommentedAppend(a: seq<Piece>, b: seq<Piece>)
    decreases |a|
    ensures Uncommented(a + b) == Uncommented(a) + Uncommented(b)
  {
    if a == [] {
      assert a + b == b;
    } else {
      assert (a + b)[0] == a[0] && (a + b)[1..] == a[1..] + b;
      UncommentedAppend(a[1..], b);
      var head: seq<Piece> := if IsComment(a[0]) then [] else [a[0]];
      assert Uncommented(a + b) == head + Uncommented(a[1..] + b);
      assert head + (Uncommented(a[1..]) + Uncommented(b)) == (head + Uncommented(a[1..])) + Uncommented(b);
    }
  }

  /** Pieces with no comment among them are all kept. */
  lemma {:induction false} UncommentedKeepsAll(ps: seq<Piece>)
    requires NoComments(ps)
    decreases |ps|
    ensures Uncommented(ps) == ps
  {
    if ps != [] {
      assert NoComments(ps[1..]) by {
        forall i | 0 <= i < |ps[1..]| ensures !IsComment(ps[1..][i]) {
          assert ps[1..][i] == ps[i + 1];
        }
      }
      UncommentedKeepsAll(ps[1..]);
      assert !IsComment(ps[0]);
      assert [ps[0]] + ps[1..] == ps;
    }
  }

  /** Removing one comment piece from between comment-free pieces. */
  lemma UncommentedDropsOne(a: seq<Piece>, c: Piece, b: seq<Piece>)
    requires NoComments(a) && IsComment(c) && NoComments(b)
    ensures Uncommented(a + ([c] + b)) == a + b
  {
    calc {
      Uncommented(a + ([c] + b));
      { UncommentedAppend(a, [c] + b); }
      Uncommented(a) + Uncommented([c] + b);
      { UncommentedKeepsAll(a);
        assert ([c] + b)[0] == c && ([c] + b)[1..] == b; }
      a + Uncommented(b);
      { UncommentedKeepsAll(b); }
      a + b;
    }
  }

  lemma {:induction false} RenderAppend(a: seq<Piece>, b: seq<Piece>)
    decreases |a|
    ensures Render(a + b) == Render(a) + Render(b)
  {
    if a == [] {
      assert a + b == b;
    } else {
      assert (a + b)[0] == a[0] && (a + b)[1..] == a[1..] + b;
      RenderAppend(a[1..], b);
    }
  }

  /** Pieces before the first comma pass through the comma pass untouched. */
  lemma {:induction false} DecommaedAppend(a: seq<Piece>, b: seq<Piece>)
    requires NoCommas(a)
    decreases |a|
    ensures Decommaed(a + b) == a + Decommaed(b)
  {
    if a == [] {
      assert a + b == b;
    } else {
      assert (a + b)[0] == a[0] && (a + b)[1..] == a[1..] + b;
      assert NoCommas(a[1..]) by {
        forall i | 0 <= i < |a[1..]| ensures !a[1..][i].Comma? {
          assert a[1..][i] == a[i + 1];
        }
      }
      DecommaedAppend(a[1..], b);
      assert !a[0].Comma?;
      assert [a[0]] + (a[1..] + Decommaed(b)) == a + Decommaed(b) by {
        assert [a[0]] + a[1..] == a;
      }
    }
  }

  /** A comma goes exactly when a closing bracket or brace follows it. */
  lemma DecommaedComma(rest: seq<Piece>)
    ensures Decommaed([Comma] + rest) == if ClosesAfter(rest) then Decommaed(rest) else [Comma] + Decommaed(rest)
  {
    assert ([Comma] + rest)[0] == Comma && ([Comma] + rest)[1..] == rest;
  }

  lemma ClosesAfterCons(p: Piece, rest: seq<Piece>)
    ensures ClosesAfter([p] + rest) == (p.Plain? && (ClosesAfterSpace(p.text) || (AllSpace(p.text) && ClosesAfter(rest))))
  {
    assert ([p] + rest)[0] == p && ([p] + rest)[1..] == rest;
  }

  // ---------------------------------------------------------------------
  // json5_load up to the JSON parser
  // ---------------------------------------------------------------------

  /** The text json5_load hands to json.loads: the comment pass, then the
      trailing-comma pass as written, over the whole text. */
  function Json5CleanAsWritten(source: TextSource, lineSeparator: string): string
  {
    RemoveTrailingCommasAsWritten(StripComments(GetText(source, lineSeparator)))
  }

  /** The corrected cleaning pass: the trailing-comma pass skips quoted
      strings, as the comment pass does. */
  function Json5Clean(source: TextSource, lineSeparator: string): string
  {
    RemoveTrailingCommas(StripComments(GetText(source, lineSeparator)))
  }

  /** A whole text made of fitting pieces reaches the JSON parser without
      its comments and without the commas that precede a closing bracket or
      brace, and with every other piece as it was. */
  lemma Json5CleanPieces(ps: seq<Piece>, lineSeparator: string)
    requires PiecesFit(ps)
    ensures Json5Clean(Whole(Render(ps)), lineSeparator) == Render(Decommaed(Uncommented(ps)))
  {
    StripPieces(ps);
    UncommentedReady(ps);
    CommaPieces(Uncommented(ps));
  }

  /** Every quoted string among the pieces is free of commas that only
      precede a closing bracket or brace. */
  predicate LiteralsKeepCommas(ps: seq<Piece>)
  {
    forall p :: p in ps && p.Quoted? ==> !HasTrailingComma(p.text)
  }

  lemma LiteralsKeepCommasAppend(a: seq<Piece>, b: seq<Piece>)
    requires LiteralsKeepCommas(a) && LiteralsKeepCommas(b)
    ensures LiteralsKeepCommas(a + b)
  {
    forall p | p in a + b && p.Quoted? ensures !HasTrailingComma(p.text) {
      assert p in a || p in b;
    }
  }

  /** Pieces that are not quoted strings keep commas trivially. */
  lemma NoLiterals(ps: seq<Piece>)
    requires forall i :: 0 <= i < |ps| ==> !ps[i].Quoted?
    ensures LiteralsKeepCommas(ps)
  {
  }

  /** The comment pass only drops pieces. */
  lemma {:induction false} UncommentedSubset(ps: seq<Piece>)
    decreases |ps|
    ensures forall p :: p in Uncommented(ps) ==> p in ps
  {
    if ps != [] {
      UncommentedSubset(ps[1..]);
      var head: seq<Piece> := if IsComment(ps[0]) then [] else [ps[0]];
      assert Uncommented(ps) == head + Uncommented(ps[1..]);
      forall p | p in Uncommented(ps) ensures p in ps {
        if p in Uncommented(ps[1..]) {
          var i :| 0 <= i < |ps[1..]| && ps[1..][i] == p;
          assert ps[i + 1] == p;
        }
      }
    }
  }

  /** Each comma of a text is followed, within the text, by something
      other than whitespace that does not close a bracket or brace. */
  predicate CommasStay(p: string)
  {
    forall i :: 0 <= i < |p| && p[i] == ',' ==> !ClosesAfterSpace(p[i + 1..]) && !AllSpace(p[i + 1..])
  }

  /** The as-written pass copies such a text as it is, whatever follows. */
  lemma {:induction false} AsWrittenKeepsPrefix(p: string, t: string)
    requires CommasStay(p)
    decreases |p|
    ensures RemoveTrailingCommasAsWritten(p + t) == p + RemoveTrailingCommasAsWritten(t)
  {
    if p == [] {
      assert p + t == t;
    } else {
      var s := p + t;
      assert s[0] == p[0] && s[1..] == p[1..] + t;
      assert CommasStay(p[1..]) by {
        forall i | 0 <= i < |p[1..]| && p[1..][i] == ','
          ensures !ClosesAfterSpace(p[1..][i + 1..]) && !AllSpace(p[1..][i + 1..])
        {
          assert p[1..][i + 1..] == p[i + 2..];
        }
      }
      AsWrittenKeepsPrefix(p[1..], t);
      if p[0] == ',' {
        ClosesAfterSpaceAppend(p[1..], t);
        assert !TrailingCommaAt(s, 0);
      }
      assert p == [p[0]] + p[1..];
    }
  }

  /** A quoted string ends in its quote, so a comma inside it that does not
      close within it does not close whatever follows either. */
  lemma QuotedCommasStay(q: string)
    requires QuotedLiteral(q) && !HasTrailingComma(q)
    ensures CommasStay(q)
  {
    QuotedEndBounds(q, 1, q[0]);
    forall i | 0 <= i < |q| && q[i] == ',' ensures !ClosesAfterSpace(q[i + 1..]) && !AllSpace(q[i + 1..]) {
      assert !TrailingCommaAt(q, i);
      assert q[i + 1..][|q| - i - 2] == q[|q| - 1];
    }
  }

  /** A text without commas has no trailing comma. */
  lemma NoCommaNoTrailing(s: string)
    requires ',' !in s
    ensures !HasTrailingComma(s)
  {
  }

  lemma CommaStepAsWritten(t: string)
    ensures ClosesAfterSpace(t) ==> RemoveTrailingCommasAsWritten("," + t) == RemoveTrailingCommasAsWritten(t)
    ensures !ClosesAfterSpace(t) ==> RemoveTrailingCommasAsWritten("," + t) == "," + RemoveTrailingCommasAsWritten(t)
  {
    var s := "," + t;
    assert s[0] == ',' && s[1..] == t;
  }

  /** The as-written comma pass deletes exactly the commas that close, as
      long as no quoted string holds such a comma. */
  lemma {:induction false} CommaPiecesAsWritten(ps: seq<Piece>)
    requires forall i :: 0 <= i < |ps| ==> CommaReady(ps[i])
    requires LiteralsKeepCommas(ps)
    decreases |ps|
    ensures RemoveTrailingCommasAsWritten(Render(ps)) == Render(Decommaed(ps))
  {
    if ps != [] {
      var rest := Render(ps[1..]);
      assert LiteralsKeepCommas(ps[1..]) by {
        forall p | p in ps[1..] && p.Quoted? ensures !HasTrailingComma(p.text) {
          var i :| 0 <= i < |ps[1..]| && ps[1..][i] == p;
          assert ps[i + 1] == p;
        }
      }
      CommaPiecesAsWritten(ps[1..]);
      assert CommaReady(ps[0]) && ps[0] in ps;
      if !(ps[0].Comma? && ClosesAfter(ps[1..])) {
        RenderCons(ps[0], Decommaed(ps[1..]));
      }
      match ps[0]
      case Plain(text) =>
        AsWrittenKeepsPrefix(text, rest);
      case Quoted(text) =>
        QuotedCommasStay(text);
        AsWrittenKeepsPrefix(text, rest);
      case Comma =>
        ClosesAfterRender(ps[1..]);
        CommaStepAsWritten(rest);
    }
  }

  /** json5_load as written hands the JSON parser the fitting pieces without
      their comments and without the commas before a closing bracket or
      brace, and so agrees with the corrected pass, when no quoted string
      holds such a comma. */
  lemma Json5CleanAsWrittenPieces(ps: seq<Piece>, lineSeparator: string)
    requires PiecesFit(ps) && LiteralsKeepCommas(ps)
    ensures Json5CleanAsWritten(Whole(Render(ps)), lineSeparator) == Render(Decommaed(Uncommented(ps)))
    ensures Json5CleanAsWritten(Whole(Render(ps)), lineSeparator) == Json5Clean(Whole(Render(ps)), lineSeparator)
  {
    StripPieces(ps);
    UncommentedReady(ps);
    UncommentedSubset(ps);
    CommaPiecesAsWritten(Uncommented(ps));
    Json5CleanPieces(ps, lineSeparator);
  }
}
