/** The samples json5_load is run on in the repository's tests, each
    written as pieces whose quoted strings are parameters. */
module Json5Examples {
  import opened Parsing
  import opened Json5

  /** A member that starts with blanks that do not close and a quoted key
      does not close what precedes it. */
  lemma MemberDoesNotClose(member: seq<Piece>, rest: seq<Piece>)
    requires |member| >= 2 && member[0].Plain? && !ClosesAfterSpace(member[0].text) && member[1].Quoted?
    ensures !ClosesAfter(member + rest)
  {
    assert member + rest == [member[0]] + ([member[1]] + (member[2..] + rest));
    ClosesAfterCons(member[0], [member[1]] + (member[2..] + rest));
    ClosesAfterCons(member[1], member[2..] + rest);
  }

  /** A comma right before the closing text goes. */
  lemma ClosingCommaGoes(close: string)
    requires ClosesAfterSpace(close)
    ensures Decommaed([Comma, Plain(close)]) == [Plain(close)]
  {
    ClosesAfterCons(Plain(close), []);
    DecommaedComma([Plain(close)]);
    DecommaedAppend([Plain(close)], []);
  }

  /** The last comma of an object goes and the one between its members
      stays. */
  lemma DropsLastComma(first: seq<Piece>, second: seq<Piece>, close: string)
    requires NoCommas(first) && NoCommas(second)
    requires |second| >= 2 && second[0].Plain? && !ClosesAfterSpace(second[0].text) && second[1].Quoted?
    requires ClosesAfterSpace(close)
    ensures Decommaed(first + ([Comma] + (second + [Comma, Plain(close)]))) == first + ([Comma] + (second + [Plain(close)]))
  {
    var closing := [Comma, Plain(close)];
    DecommaedAppend(first, [Comma] + (second + closing));
    MemberDoesNotClose(second, closing);
    DecommaedComma(second + closing);
    DecommaedAppend(second, closing);
    ClosingCommaGoes(close);
  }

  // ---------------------------------------------------------------------
  // {"a": "simple", // comment
  //  "b": "text",}
  // ---------------------------------------------------------------------

  /** `lead`, then a member whose key and value are quoted strings. */
  function Member(lead: string, key: string, value: string): seq<Piece>
  {
    [Plain(lead), Quoted(key), Plain(": "), Quoted(value)]
  }

  /** `lead`, then a member with a quoted key and the plain text `tail`
      after it. */
  function NumberMember(lead: string, key: string, tail: string): seq<Piece>
  {
    [Plain(lead), Quoted(key), Plain(tail)]
  }

  lemma MemberKeepsCommas(lead: string, key: string, value: string)
    requires !HasTrailingComma(key) && !HasTrailingComma(value)
    ensures LiteralsKeepCommas(Member(lead, key, value))
  {
  }

  lemma NumberMemberKeepsCommas(lead: string, key: string, tail: string)
    requires !HasTrailingComma(key)
    ensures LiteralsKeepCommas(NumberMember(lead, key, tail))
  {
  }

  function CommentedObject(k1: string, v1: string, comment: string, k2: string, v2: string): seq<Piece>
  {
    Member("{", k1, v1) + ([Comma] + ([LineComment(" ", comment)] + (Member("\n ", k2, v2) + [Comma, Plain("}")])))
  }

  function CommentedObjectCleaned(k1: string, v1: string, k2: string, v2: string): seq<Piece>
  {
    Member("{", k1, v1) + ([Comma] + (Member("\n ", k2, v2) + [Plain("}")]))
  }

  lemma CommentedObjectFits(k1: string, v1: string, comment: string, k2: string, v2: string)
    requires QuotedLiteral(k1) && QuotedLiteral(v1) && QuotedLiteral(k2) && QuotedLiteral(v2) && Unbroken(comment)
    ensures PiecesFit(CommentedObject(k1, v1, comment, k2, v2))
  {
    var s := CommentedObject(k1, v1, comment, k2, v2);
    forall i | 0 <= i < |s| ensures PieceFits(s[i], NextChar(s, i)) {
      if i == 0 {
      } else if i == 1 {
      } else if i == 2 {
      } else if i == 3 {
      } else if i == 4 {
      } else if i == 5 {
      } else if i == 6 {
      } else if i == 7 {
      } else if i == 8 {
      } else if i == 9 {
      } else if i == 10 {
      } else {
      }
    }
  }

  lemma CommentedObjectUncommented(k1: string, v1: string, comment: string, k2: string, v2: string)
    ensures Uncommented(CommentedObject(k1, v1, comment, k2, v2))
         == Member("{", k1, v1) + ([Comma] + (Member("\n ", k2, v2) + [Comma, Plain("}")]))
  {
    var first := Member("{", k1, v1) + [Comma];
    var rest := Member("\n ", k2, v2) + [Comma, Plain("}")];
    assert CommentedObject(k1, v1, comment, k2, v2) == first + ([LineComment(" ", comment)] + rest);
    UncommentedDropsOne(first, LineComment(" ", comment), rest);
  }

  /** The comment goes with the blank before it, the last comma goes, and
      the two quoted strings of each member are kept as they are. */
  lemma CommentedObjectCleans(k1: string, v1: string, comment: string, k2: string, v2: string, lineSeparator: string)
    requires QuotedLiteral(k1) && QuotedLiteral(v1) && QuotedLiteral(k2) && QuotedLiteral(v2) && Unbroken(comment)
    ensures Json5Clean(Whole(Render(CommentedObject(k1, v1, comment, k2, v2))), lineSeparator)
         == Render(CommentedObjectCleaned(k1, v1, k2, v2))
    ensures !HasTrailingComma(k1) && !HasTrailingComma(v1) && !HasTrailingComma(k2) && !HasTrailingComma(v2) ==>
              (Json5CleanAsWritten(Whole(Render(CommentedObject(k1, v1, comment, k2, v2))), lineSeparator)
               == Render(CommentedObjectCleaned(k1, v1, k2, v2)))
  {
    var ps := CommentedObject(k1, v1, comment, k2, v2);
    CommentedObjectFits(k1, v1, comment, k2, v2);
    Json5CleanPieces(ps, lineSeparator);
    CommentedObjectUncommented(k1, v1, comment, k2, v2);
    CommentedObjectDecommaed(k1, v1, k2, v2);
    if !HasTrailingComma(k1) && !HasTrailingComma(v1) && !HasTrailingComma(k2) && !HasTrailingComma(v2) {
      var m1 := Member("{", k1, v1);
      var m2 := Member("\n ", k2, v2);
      MemberKeepsCommas("{", k1, v1);
      MemberKeepsCommas("\n ", k2, v2);
      NoLiterals([Comma]);
      NoLiterals([LineComment(" ", comment)]);
      NoLiterals([Comma, Plain("}")]);
      LiteralsKeepCommasAppend(m2, [Comma, Plain("}")]);
      LiteralsKeepCommasAppend([LineComment(" ", comment)], m2 + [Comma, Plain("}")]);
      LiteralsKeepCommasAppend([Comma], [LineComment(" ", comment)] + (m2 + [Comma, Plain("}")]));
      LiteralsKeepCommasAppend(m1, [Comma] + ([LineComment(" ", comment)] + (m2 + [Comma, Plain("}")])));
      Json5CleanAsWrittenPieces(ps, lineSeparator);
    }
  }

  lemma CommentedObjectDecommaed(k1: string, v1: string, k2: string, v2: string)
    ensures Decommaed(Member("{", k1, v1) + ([Comma] + (Member("\n ", k2, v2) + [Comma, Plain("}")])))
         == CommentedObjectCleaned(k1, v1, k2, v2)
  {
    DropsLastComma(Member("{", k1, v1), Member("\n ", k2, v2), "}");
  }

  lemma FirstSample()
    ensures Json5CleanAsWritten(Whole(Render(CommentedObject("\"a\"", "\"simple\"", " comment", "\"b\"", "\"text\""))), "\n")
         == Render(CommentedObjectCleaned("\"a\"", "\"simple\"", "\"b\"", "\"text\""))
  {
    assert QuotedLiteral("\"a\"") && QuotedLiteral("\"simple\"") && QuotedLiteral("\"b\"") && QuotedLiteral("\"text\"");
    NoCommaNoTrailing("\"a\""); NoCommaNoTrailing("\"simple\""); NoCommaNoTrailing("\"b\""); NoCommaNoTrailing("\"text\"");
    CommentedObjectCleans("\"a\"", "\"simple\"", " comment", "\"b\"", "\"text\"", "\n");
  }

  // ---------------------------------------------------------------------
  // {"q": "has quote: \"inner\"", "x": 1,}
  // ---------------------------------------------------------------------

  function FlatObject(k1: string, v1: string, k2: string): seq<Piece>
  {
    Member("{", k1, v1) + ([Comma] + (NumberMember(" ", k2, ": 1") + [Comma, Plain("}")]))
  }

  function FlatObjectCleaned(k1: string, v1: string, k2: string): seq<Piece>
  {
    Member("{", k1, v1) + ([Comma] + (NumberMember(" ", k2, ": 1") + [Plain("}")]))
  }

  lemma FlatObjectFits(k1: string, v1: string, k2: string)
    requires QuotedLiteral(k1) && QuotedLiteral(v1) && QuotedLiteral(k2)
    ensures PiecesFit(FlatObject(k1, v1, k2))
  {
    var s := FlatObject(k1, v1, k2);
    forall i | 0 <= i < |s| ensures PieceFits(s[i], NextChar(s, i)) {
      if i == 0 {
      } else if i == 1 {
      } else if i == 2 {
      } else if i == 3 {
      } else if i == 4 {
      } else if i == 5 {
      } else if i == 6 {
      } else if i == 7 {
      } else if i == 8 {
      } else {
      }
    }
  }

  lemma FlatObjectUncommented(k1: string, v1: string, k2: string)
    ensures Uncommented(FlatObject(k1, v1, k2)) == FlatObject(k1, v1, k2)
  {
    UncommentedKeepsAll(FlatObject(k1, v1, k2));
  }

  lemma FlatObjectDecommaed(k1: string, v1: string, k2: string)
    ensures Decommaed(FlatObject(k1, v1, k2)) == FlatObjectCleaned(k1, v1, k2)
  {
    DropsLastComma(Member("{", k1, v1), NumberMember(" ", k2, ": 1"), "}");
  }

  /** Escaped quotes inside a string do not end it; only the last comma
      goes. */
  lemma FlatObjectCleans(k1: string, v1: string, k2: string, lineSeparator: string)
    requires QuotedLiteral(k1) && QuotedLiteral(v1) && QuotedLiteral(k2)
    ensures Json5Clean(Whole(Render(FlatObject(k1, v1, k2))), lineSeparator) == Render(FlatObjectCleaned(k1, v1, k2))
    ensures !HasTrailingComma(k1) && !HasTrailingComma(v1) && !HasTrailingComma(k2) ==>
              (Json5CleanAsWritten(Whole(Render(FlatObject(k1, v1, k2))), lineSeparator) == Render(FlatObjectCleaned(k1, v1, k2)))
  {
    var ps := FlatObject(k1, v1, k2);
    FlatObjectFits(k1, v1, k2);
    Json5CleanPieces(ps, lineSeparator);
    FlatObjectUncommented(k1, v1, k2);
    FlatObjectDecommaed(k1, v1, k2);
    if !HasTrailingComma(k1) && !HasTrailingComma(v1) && !HasTrailingComma(k2) {
      var m1 := Member("{", k1, v1);
      var m2 := NumberMember(" ", k2, ": 1");
      MemberKeepsCommas("{", k1, v1);
      NumberMemberKeepsCommas(" ", k2, ": 1");
      NoLiterals([Comma]);
      NoLiterals([Comma, Plain("}")]);
      LiteralsKeepCommasAppend(m2, [Comma, Plain("}")]);
      LiteralsKeepCommasAppend([Comma], m2 + [Comma, Plain("}")]);
      LiteralsKeepCommasAppend(m1, [Comma] + (m2 + [Comma, Plain("}")]));
      Json5CleanAsWrittenPieces(ps, lineSeparator);
    }
  }

  lemma SecondSample()
    ensures Json5CleanAsWritten(Whole(Render(FlatObject("\"q\"", "\"has quote: \\\"inner\\\"\"", "\"x\""))), "\n")
         == Render(FlatObjectCleaned("\"q\"", "\"has quote: \\\"inner\\\"\"", "\"x\""))
  {
    var v := "\"has quote: \\\"inner\\\"\"";
    QuotedEndSkips(v, 1, 12, '"');
    QuotedEndSkips(v, 14, 19, '"');
    assert QuotedLiteral("\"q\"") && QuotedLiteral(v) && QuotedLiteral("\"x\"");
    NoCommaNoTrailing("\"q\""); NoCommaNoTrailing(v); NoCommaNoTrailing("\"x\"");
    FlatObjectCleans("\"q\"", "\"has quote: \\\"inner\\\"\"", "\"x\"", "\n");
  }

  // ---------------------------------------------------------------------
  // {"b": "escaped backslash: \\", "y": 2, // comment
  // }
  // ---------------------------------------------------------------------

  function CommentBeforeClose(k1: string, v1: string, k2: string, comment: string): seq<Piece>
  {
    Member("{", k1, v1) + ([Comma] + (NumberMember(" ", k2, ": 2") + ([Comma] + ([LineComment(" ", comment)] + [Plain("\n}")]))))
  }

  function CommentBeforeCloseCleaned(k1: string, v1: string, k2: string): seq<Piece>
  {
    Member("{", k1, v1) + ([Comma] + (NumberMember(" ", k2, ": 2") + [Plain("\n}")]))
  }

  lemma CommentBeforeCloseFits(k1: string, v1: string, k2: string, comment: string)
    requires QuotedLiteral(k1) && QuotedLiteral(v1) && QuotedLiteral(k2) && Unbroken(comment)
    ensures PiecesFit(CommentBeforeClose(k1, v1, k2, comment))
  {
    var s := CommentBeforeClose(k1, v1, k2, comment);
    forall i | 0 <= i < |s| ensures PieceFits(s[i], NextChar(s, i)) {
      if i == 0 {
      } else if i == 1 {
      } else if i == 2 {
      } else if i == 3 {
      } else if i == 4 {
      } else if i == 5 {
      } else if i == 6 {
      } else if i == 7 {
      } else if i == 8 {
      } else if i == 9 {
      } else {
      }
    }
  }

  lemma CommentBeforeCloseUncommented(k1: string, v1: string, k2: string, comment: string)
    ensures Uncommented(CommentBeforeClose(k1, v1, k2, comment))
         == Member("{", k1, v1) + ([Comma] + (NumberMember(" ", k2, ": 2") + [Comma, Plain("\n}")]))
  {
    var first := Member("{", k1, v1) + ([Comma] + (NumberMember(" ", k2, ": 2") + [Comma]));
    assert CommentBeforeClose(k1, v1, k2, comment) == first + ([LineComment(" ", comment)] + [Plain("\n}")]);
    UncommentedDropsOne(first, LineComment(" ", comment), [Plain("\n}")]);
  }

  /** With the comment gone, the comma before it precedes only a line
      break and the closing brace, so it goes too. */
  lemma CommentBeforeCloseCleans(k1: string, v1: string, k2: string, comment: string, lineSeparator: string)
    requires QuotedLiteral(k1) && QuotedLiteral(v1) && QuotedLiteral(k2) && Unbroken(comment)
    ensures Json5Clean(Whole(Render(CommentBeforeClose(k1, v1, k2, comment))), lineSeparator)
         == Render(CommentBeforeCloseCleaned(k1, v1, k2))
    ensures !HasTrailingComma(k1) && !HasTrailingComma(v1) && !HasTrailingComma(k2) ==>
              (Json5CleanAsWritten(Whole(Render(CommentBeforeClose(k1, v1, k2, comment))), lineSeparator)
               == Render(CommentBeforeCloseCleaned(k1, v1, k2)))
  {
    var ps := CommentBeforeClose(k1, v1, k2, comment);
    CommentBeforeCloseFits(k1, v1, k2, comment);
    Json5CleanPieces(ps, lineSeparator);
    CommentBeforeCloseUncommented(k1, v1, k2, comment);
    CommentBeforeCloseDecommaed(k1, v1, k2);
    if !HasTrailingComma(k1) && !HasTrailingComma(v1) && !HasTrailingComma(k2) {
      var m1 := Member("{", k1, v1);
      var m2 := NumberMember(" ", k2, ": 2");
      var tail := [Comma] + ([LineComment(" ", comment)] + [Plain("\n}")]);
      MemberKeepsCommas("{", k1, v1);
      NumberMemberKeepsCommas(" ", k2, ": 2");
      NoLiterals([Comma]);
      NoLiterals(tail);
      LiteralsKeepCommasAppend(m2, tail);
      LiteralsKeepCommasAppend([Comma], m2 + tail);
      LiteralsKeepCommasAppend(m1, [Comma] + (m2 + tail));
      Json5CleanAsWrittenPieces(ps, lineSeparator);
    }
  }

  lemma CommentBeforeCloseDecommaed(k1: string, v1: string, k2: string)
    ensures Decommaed(Member("{", k1, v1) + ([Comma] + (NumberMember(" ", k2, ": 2") + [Comma, Plain("\n}")])))
         == CommentBeforeCloseCleaned(k1, v1, k2)
  {
    DropsLastComma(Member("{", k1, v1), NumberMember(" ", k2, ": 2"), "\n}");
  }

  lemma ThirdSample()
    ensures Json5CleanAsWritten(Whole(Render(CommentBeforeClose("\"b\"", "\"escaped backslash: \\\\\"", "\"y\"", " comment"))), "\n")
         == Render(CommentBeforeCloseCleaned("\"b\"", "\"escaped backslash: \\\\\"", "\"y\""))
  {
    var v := "\"escaped backslash: \\\\\"";
    QuotedEndSkips(v, 1, 20, '"');
    assert QuotedLiteral("\"b\"") && QuotedLiteral(v) && QuotedLiteral("\"y\"");
    NoCommaNoTrailing("\"b\""); NoCommaNoTrailing(v); NoCommaNoTrailing("\"y\"");
    CommentBeforeCloseCleans("\"b\"", "\"escaped backslash: \\\\\"", "\"y\"", " comment", "\n");
  }

  // ---------------------------------------------------------------------
  // The same over several lines, indented by `outer` and `inner`:
  //         {
  //             "msg": "Line1\\nLine2", // multi-line escape
  //             "num": 5,
  //         }
  // ---------------------------------------------------------------------

  /** A line of indentation, a bracket and what follows it. */
  lemma IndentedBracket(outer: string, bracket: char, inner: string)
    requires AllSpace(outer) && AllSpace(inner) && (bracket == '{' || bracket == '}')
    ensures PlainText(outer + [bracket] + inner)
    ensures bracket == '}' ==> ClosesAfterSpace(outer + [bracket] + inner)
  {
    var t := outer + [bracket] + inner;
    forall i | 0 <= i < |t| ensures !IsQuote(t[i]) && t[i] != '/' && t[i] != ',' {
      if i < |outer| {
        assert t[i] == outer[i];
      } else if i > |outer| {
        assert t[i] == inner[i - |outer| - 1];
      }
    }
    assert outer + [bracket] + inner == outer + ([bracket] + inner);
    ClosesAfterSpaceAppend(outer, [bracket] + inner);
  }

  function IndentedObject(outer: string, inner: string, k1: string, v1: string, comment: string, k2: string): seq<Piece>
  {
    Member(outer + "{" + inner, k1, v1)
      + ([Comma] + ([LineComment(" ", comment)] + (NumberMember(inner, k2, ": 5") + [Comma, Plain(outer + "}" + outer)])))
  }

  function IndentedObjectCleaned(outer: string, inner: string, k1: string, v1: string, k2: string): seq<Piece>
  {
    Member(outer + "{" + inner, k1, v1) + ([Comma] + (NumberMember(inner, k2, ": 5") + [Plain(outer + "}" + outer)]))
  }

  lemma IndentedObjectFits(outer: string, inner: string, k1: string, v1: string, comment: string, k2: string)
    requires AllSpace(outer) && AllSpace(inner) && inner != [] && IsLineBreak(inner[0])
    requires QuotedLiteral(k1) && QuotedLiteral(v1) && QuotedLiteral(k2) && Unbroken(comment)
    ensures PiecesFit(IndentedObject(outer, inner, k1, v1, comment, k2))
  {
    var s := IndentedObject(outer, inner, k1, v1, comment, k2);
    IndentedBracket(outer, '{', inner);
    IndentedBracket(outer, '}', outer);
    IndentedBracket([], '{', inner);
    forall i | 0 <= i < |s| ensures PieceFits(s[i], NextChar(s, i)) {
      if i == 0 {
      } else if i == 1 {
      } else if i == 2 {
      } else if i == 3 {
      } else if i == 4 {
      } else if i == 5 {
      } else if i == 6 {
        assert PlainText(inner) by { assert [] + ['{'] + inner == ['{'] + inner; }
      } else if i == 7 {
      } else if i == 8 {
      } else if i == 9 {
      } else {
      }
    }
  }

  lemma IndentedObjectUncommented(outer: string, inner: string, k1: string, v1: string, comment: string, k2: string)
    ensures Uncommented(IndentedObject(outer, inner, k1, v1, comment, k2))
         == Member(outer + "{" + inner, k1, v1) + ([Comma] + (NumberMember(inner, k2, ": 5") + [Comma, Plain(outer + "}" + outer)]))
  {
    var first := Member(outer + "{" + inner, k1, v1) + [Comma];
    var rest := NumberMember(inner, k2, ": 5") + [Comma, Plain(outer + "}" + outer)];
    assert IndentedObject(outer, inner, k1, v1, comment, k2) == first + ([LineComment(" ", comment)] + rest);
    UncommentedDropsOne(first, LineComment(" ", comment), rest);
  }

  lemma IndentedObjectDecommaed(outer: string, inner: string, k1: string, v1: string, k2: string)
    requires AllSpace(outer) && AllSpace(inner)
    ensures Decommaed(Member(outer + "{" + inner, k1, v1) + ([Comma] + (NumberMember(inner, k2, ": 5") + [Comma, Plain(outer + "}" + outer)])))
         == IndentedObjectCleaned(outer, inner, k1, v1, k2)
  {
    IndentedBracket(outer, '}', outer);
    SpacesDoNotClose(inner);
    DropsLastComma(Member(outer + "{" + inner, k1, v1), NumberMember(inner, k2, ": 5"), outer + "}" + outer);
  }

  /** Line breaks and indentation are kept; the comment and the comma before
      the closing brace go. */
  lemma IndentedObjectCleans(outer: string, inner: string, k1: string, v1: string, comment: string, k2: string, lineSeparator: string)
    requires AllSpace(outer) && AllSpace(inner) && inner != [] && IsLineBreak(inner[0])
    requires QuotedLiteral(k1) && QuotedLiteral(v1) && QuotedLiteral(k2) && Unbroken(comment)
    ensures Json5Clean(Whole(Render(IndentedObject(outer, inner, k1, v1, comment, k2))), lineSeparator)
         == Render(IndentedObjectCleaned(outer, inner, k1, v1, k2))
    ensures !HasTrailingComma(k1) && !HasTrailingComma(v1) && !HasTrailingComma(k2) ==>
              (Json5CleanAsWritten(Whole(Render(IndentedObject(outer, inner, k1, v1, comment, k2))), lineSeparator)
               == Render(IndentedObjectCleaned(outer, inner, k1, v1, k2)))
  {
    var ps := IndentedObject(outer, inner, k1, v1, comment, k2);
    IndentedObjectFits(outer, inner, k1, v1, comment, k2);
    Json5CleanPieces(ps, lineSeparator);
    IndentedObjectUncommented(outer, inner, k1, v1, comment, k2);
    IndentedObjectDecommaed(outer, inner, k1, v1, k2);
    if !HasTrailingComma(k1) && !HasTrailingComma(v1) && !HasTrailingComma(k2) {
      var m1 := Member(outer + "{" + inner, k1, v1);
      var m2 := NumberMember(inner, k2, ": 5");
      var close := [Comma, Plain(outer + "}" + outer)];
      MemberKeepsCommas(outer + "{" + inner, k1, v1);
      NumberMemberKeepsCommas(inner, k2, ": 5");
      NoLiterals([Comma]);
      NoLiterals([LineComment(" ", comment)]);
      NoLiterals(close);
      LiteralsKeepCommasAppend(m2, close);
      LiteralsKeepCommasAppend([LineComment(" ", comment)], m2 + close);
      LiteralsKeepCommasAppend([Comma], [LineComment(" ", comment)] + (m2 + close));
      LiteralsKeepCommasAppend(m1, [Comma] + ([LineComment(" ", comment)] + (m2 + close)));
      Json5CleanAsWrittenPieces(ps, lineSeparator);
    }
  }

  lemma FourthSample()
    ensures Json5CleanAsWritten(Whole(Render(IndentedObject("\n        ", "\n            ", "\"msg\"", "\"Line1\\nLine2\"", " multi-line escape", "\"num\""))), "\n")
         == Render(IndentedObjectCleaned("\n        ", "\n            ", "\"msg\"", "\"Line1\\nLine2\"", "\"num\""))
  {
    assert AllSpace("\n        ") && AllSpace("\n            ");
    assert QuotedLiteral("\"msg\"") && QuotedLiteral("\"Line1\\nLine2\"") && QuotedLiteral("\"num\"");
    assert Unbroken(" multi-line escape");
    NoCommaNoTrailing("\"msg\""); NoCommaNoTrailing("\"Line1\\nLine2\""); NoCommaNoTrailing("\"num\"");
    IndentedObjectCleans("\n        ", "\n            ", "\"msg\"", "\"Line1\\nLine2\"", " multi-line escape", "\"num\"", "\n");
  }
}
