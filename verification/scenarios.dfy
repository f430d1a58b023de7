/** The builder's documented examples, worked out on the model. Each example lemma
    fixes a chain of calls and states the exact template and arguments it produces;
    `UnvalidatedFormat` shows a template the reader rejects, and the small lemmas
    between the examples are the string steps their proofs are built from. */
module Scenarios {
  import opened Wrappers
  import opened Escaping
  import opened FormattableSb
  import opened CompositeFormat
  import opened Decimal

  /** A fresh builder snapshots to an empty format with no arguments. */
  lemma EmptySnapshot<T>()
    ensures ToFormattableString(Empty<T>()).format == ""
    ensures ToFormattableString(Empty<T>()).ArgumentCount() == 0
  {
  }

  /** One value with neither alignment nor format gives `{0}`. */
  lemma SingleValue<T>(v: T)
    ensures var fs := ToFormattableString(AppendInterpolated(Empty(), [Value(v, 0, None)]));
      fs.format == "{0}" && fs.arguments == [v]
  {
  }

  /** Two separate appends share one counter: `{0}{1}`. */
  lemma TwoAppends<T>(v1: T, v2: T)
    ensures var b := AppendInterpolated(Empty(), [Value(v1, 0, None)]);
      var fs := ToFormattableString(AppendInterpolated(b, [Value(v2, 0, None)]));
      fs.format == "{0}{1}" && fs.arguments == [v1, v2]
  {
    var b := AppendInterpolated(Empty(), [Value(v1, 0, None)]);
    SingleValue(v1);
    assert b == Builder("{0}", [v1]);
    InterpolatedCons(b, Value(v2, 0, None), []);
    assert Placeholder(Item(1, 0, None)) == "{1}";
  }

  /** A non-zero alignment is written after a comma with its sign. */
  lemma NegativeAlignment<T>(v: T)
    ensures var fs := ToFormattableString(AppendInterpolated(Empty(), [Value(v, -1, None)]));
      fs.format == "{0,-1}" && fs.arguments == [v]
  {
  }

  /** A format is written after a colon, verbatim. */
  lemma FormatText<T>(v: T)
    ensures var fs := ToFormattableString(AppendInterpolated(Empty(), [Value(v, 0, Some("o"))]));
      fs.format == "{0:o}" && fs.arguments == [v]
  {
  }

  /** Alignment comes before format. */
  lemma AlignmentThenFormat<T>(v: T)
    ensures var fs := ToFormattableString(AppendInterpolated(Empty(), [Value(v, -1, Some("o"))]));
      fs.format == "{0,-1:o}" && fs.arguments == [v]
  {
    assert AlignmentClause(-1) == ",-1";
    assert Body(Item(0, -1, Some("o"))) == "0" + ",-1" + ":o";
  }

  /** An empty format still writes its colon; an absent one does not. */
  lemma EmptyFormatKeepsColon<T>(v: T)
    ensures var fs := ToFormattableString(AppendInterpolated(Empty(), [Value(v, 0, Some(""))]));
      fs.format == "{0:}" && fs.arguments == [v]
    ensures var fs := ToFormattableString(AppendInterpolated(Empty(), [Value(v, 0, None)]));
      fs.format == "{0}" && fs.arguments == [v]
  {
  }

  /** The handler does not validate its arguments: a format holding `}` is written
      verbatim and closes the placeholder early, so the template no longer reads back. */
  lemma UnvalidatedFormat<T>(v: T)
    ensures AppendFormatted(Empty(), v, 0, Some("}")).format == "{0:}}"
    ensures Parse("{0:}}") == None
  {
    assert Placeholder(Item(0, 0, Some("}"))) == "{0:}}";
    EarlyClose();
  }

  /** `{0:}` is a whole placeholder with an empty format; the `}` after it stands alone. */
  lemma EarlyClose()
    ensures Parse("{0:}}") == None
  {
    var s := "{0:}}";
    assert s[1..] == "0:}}";
    assert Find("}}", '}') == 0;
    assert Find(":}}", '}') == 1;
    assert Find("0:}}", '}') == 2;
    assert s[1..3] == "0:";
    assert ParseBody("0:") == Some(Item(0, 0, Some("")));
    assert Step(s) == Some((Hole(Item(0, 0, Some(""))), 4));
    assert s[4..] == "}";
    assert Step("}") == None;
  }

  // The one-line string equalities below (EscapeCloseOpen, MiddleText, BracesText,
  // RowsText, ...) are kept as separate lemmas rather than inline asserts: each
  // unfolds long string literals, and proving them inside the example lemmas would
  // push those proofs past the verifier's resource budget.

  lemma EscapeFirstLiteral()
    ensures Escape("{one} {") == "{{one}} {{"
  {
    assert "{one} {" == "{" + "one" + "} {";
    EscapeAppend("{", "one");
    EscapeAppend("{" + "one", "} {");
  }

  lemma EscapeCloseOpen()
    ensures Escape("} {{") == "}} {{{{"
  {
  }

  lemma EscapeCloseCloseOpen()
    ensures Escape("}} {{") == "}}}} {{{{"
  {
  }

  lemma EscapeMiddleLiteral()
    ensures Escape("} {{" + "three" + "}} {{") == "}} {{{{three}}}} {{{{"
  {
    var a, b, c := "} {{", "three", "}} {{";
    EscapeCloseOpen();
    EscapeIdentity(b);
    EscapeCloseCloseOpen();
    EscapeAppend(a, b);
    EscapeAppend(a + b, c);
    MiddleText();
  }

  lemma MiddleText()
    ensures "}} {{{{" + "three" + "}}}} {{{{" == "}} {{{{three}}}} {{{{"
  {
  }

  lemma EscapeLastLiteral()
    ensures Escape("}}") == "}}}}"
  {
  }

  lemma IndexPlaceholders()
    ensures Placeholder(Item(0, 0, None)) == "{0}"
    ensures Placeholder(Item(1, 0, None)) == "{1}"
    ensures Placeholder(Item(2, 0, None)) == "{2}"
  {
  }

  /** A three-piece fragment is its pieces appended one after the other. */
  lemma ThreePieces<T>(b: Builder<T>, p1: Piece<T>, p2: Piece<T>, p3: Piece<T>)
    ensures AppendInterpolated(b, [p1, p2, p3]) == AppendPiece(AppendPiece(AppendPiece(b, p1), p2), p3)
  {
    var b1 := AppendPiece(b, p1);
    var b2 := AppendPiece(b1, p2);
    InterpolatedCons(b2, p3, []);
    InterpolatedCons(b1, p2, [p3]);
    InterpolatedCons(b, p1, [p2, p3]);
    assert [p3] + [] == [p3];
    assert [p2] + [p3] == [p2, p3];
    assert [p1] + [p2, p3] == [p1, p2, p3];
  }

  /** A value between two literal texts. */
  lemma ValueBetweenLiterals<T>(b: Builder<T>, s1: string, v: T, s3: string)
    ensures AppendInterpolated(b, [Literal(s1), Value(v, 0, None), Literal(s3)])
      == Builder(b.format + Escape(s1) + Placeholder(Item(|b.arguments|, 0, None)) + Escape(s3), b.arguments + [v])
  {
    ThreePieces(b, Literal(s1), Value(v, 0, None), Literal(s3));
    var b1 := AppendPiece(b, Literal(s1));
    var b2 := AppendPiece(b1, Value(v, 0, None));
    assert b1 == Builder(b.format + Escape(s1), b.arguments);
    assert b2 == Builder(b1.format + Placeholder(Item(|b.arguments|, 0, None)), b.arguments + [v]);
  }

  /** A value followed by a literal text. */
  lemma ValueThenLiteral<T>(b: Builder<T>, v: T, s: string)
    ensures AppendInterpolated(b, [Value(v, 0, None), Literal(s)])
      == Builder(b.format + Placeholder(Item(|b.arguments|, 0, None)) + Escape(s), b.arguments + [v])
  {
    var p1: Piece<T> := Value(v, 0, None);
    var p2: Piece<T> := Literal(s);
    var none: seq<Piece<T>> := [];
    var b1 := AppendPiece(b, p1);
    InterpolatedCons(b, p1, [p2]);
    InterpolatedCons(b1, p2, none);
    assert [p2] + none == [p2];
    assert [p1] + [p2] == [p1, p2];
  }

  /** A fragment of two values between three literal texts. */
  lemma TwoValuesBetweenLiterals<T>(b: Builder<T>, s1: string, v1: T, s3: string, v2: T, s5: string)
    ensures var n := |b.arguments|;
      AppendInterpolated(b, [Literal(s1), Value(v1, 0, None), Literal(s3), Value(v2, 0, None), Literal(s5)])
      == Builder(b.format + Escape(s1) + Placeholder(Item(n, 0, None)) + Escape(s3)
                   + Placeholder(Item(n + 1, 0, None)) + Escape(s5), b.arguments + [v1] + [v2])
  {
    var f: seq<Piece<T>> := [Literal(s1), Value(v1, 0, None), Literal(s3)];
    var g: seq<Piece<T>> := [Value(v2, 0, None), Literal(s5)];
    assert f + g == [Literal(s1), Value(v1, 0, None), Literal(s3), Value(v2, 0, None), Literal(s5)];
    var n := |b.arguments|;
    var b3 := AppendInterpolated(b, f);
    assert b3 == Builder(b.format + Escape(s1) + Placeholder(Item(n, 0, None)) + Escape(s3), b.arguments + [v1]) by {
      ValueBetweenLiterals(b, s1, v1, s3);
    }
    assert AppendInterpolated(b3, g) == Builder(b3.format + Placeholder(Item(n + 1, 0, None)) + Escape(s5), b3.arguments + [v2]) by {
      ValueThenLiteral(b3, v2, s5);
    }
    assert AppendInterpolated(b, f + g) == AppendInterpolated(b3, g) by {
      InterpolatedConcat(b, f, g);
    }
  }

  lemma BracesText()
    ensures "{{one}} {{" + "{0}" + "}} {{{{three}}}} {{{{" + "{1}" + "}}}}"
      == "{{one}} {{{0}}} {{{{three}}}} {{{{{1}}}}}"
  {
  }

  /** Literal braces are doubled while the placeholders' own braces are not. The
      middle literal is the text `} {{three}} {{`, written in three parts. */
  lemma Braces<T>(v1: T, v2: T)
    ensures var frag := [Literal("{one} {"), Value(v1, 0, None), Literal("} {{" + "three" + "}} {{"),
                         Value(v2, 0, None), Literal("}}")];
      var fs := ToFormattableString(AppendInterpolated(Empty(), frag));
      fs.format == "{{one}} {{{0}}} {{{{three}}}} {{{{{1}}}}}" && fs.arguments == [v1, v2]
  {
    var e: Builder<T> := Empty();
    TwoValuesBetweenLiterals(e, "{one} {", v1, "} {{" + "three" + "}} {{", v2, "}}");
    assert e.arguments + [v1] + [v2] == [v1, v2] by {
      assert e.arguments == [];
    }
    BracesFormat();
  }

  /** The template of the braces example, piece by piece. */
  lemma BracesFormat()
    ensures "" + Escape("{one} {") + Placeholder(Item(0, 0, None)) + Escape("} {{" + "three" + "}} {{")
      + Placeholder(Item(1, 0, None)) + Escape("}}") == "{{one}} {{{0}}} {{{{three}}}} {{{{{1}}}}}"
  {
    assert "" + Escape("{one} {") == Escape("{one} {");
    EscapeFirstLiteral();
    EscapeMiddleLiteral();
    EscapeLastLiteral();
    IndexPlaceholders();
    BracesText();
  }

  /** Literal text without braces is appended as it is. */
  lemma PlainText<T>(b: Builder<T>, s: string)
    requires NoBraces(s)
    ensures AppendInterpolated(b, [Literal(s)]) == Builder(b.format + s, b.arguments)
  {
    EscapeIdentity(s);
    InterpolatedCons(b, Literal(s), []);
  }

  /** Parentheses are not braces and pass through escaping unchanged. */
  lemma EscapeParens()
    ensures Escape("(") == "(" && Escape(")") == ")"
  {
    EscapeIdentity("(");
    EscapeIdentity(")");
  }

  /** One row `(date)` of the statement, after a line break. */
  lemma Row<T>(b: Builder<T>, d: T, nl: string)
    ensures AppendInterpolated(AppendLine(b, nl), [Literal("("), Value(d, 0, None), Literal(")")])
      == Builder(b.format + nl + "(" + Placeholder(Item(|b.arguments|, 0, None)) + ")", b.arguments + [d])
  {
    ValueBetweenLiterals(AppendLine(b, nl), "(", d, ")");
    EscapeParens();
  }

  /** A row followed by its comma. */
  lemma RowWithComma<T>(b: Builder<T>, d: T, nl: string)
    ensures AppendInterpolated(AppendInterpolated(AppendLine(b, nl), [Literal("("), Value(d, 0, None), Literal(")")]), [Literal(",")])
      == Builder(b.format + nl + "(" + Placeholder(Item(|b.arguments|, 0, None)) + ")" + ",", b.arguments + [d])
  {
    Row(b, d, nl);
    var r := Builder(b.format + nl + "(" + Placeholder(Item(|b.arguments|, 0, None)) + ")", b.arguments + [d]);
    PlainText(r, ",");
  }

  lemma RowsText(f: string, nl: string)
    ensures f + nl + "(" + "{0}" + ")" + "," + nl + "(" + "{1}" + ")" + "," + nl + "(" + "{2}" + ")"
      == f + nl + "({0})," + nl + "({1})," + nl + "({2})"
  {
  }

  /** The multi-line INSERT statement: a brace-free header line (such as
      `INSERT INTO dbo.VacationDates (Date)`), then `VALUES`, then one row per
      date, lines separated by the raw terminator, one placeholder per date,
      numbered across calls. */
  lemma MultiLineStatement<T>(header: string, d0: T, d1: T, d2: T, nl: string)
    requires NoBraces(header)
    requires NoBraces(nl)
    ensures var b0 := AppendInterpolated(Empty(), [Literal(header)]);
      var b1 := AppendInterpolated(AppendLine(b0, nl), [Literal("VALUES")]);
      var b2 := AppendInterpolated(AppendInterpolated(AppendLine(b1, nl), [Literal("("), Value(d0, 0, None), Literal(")")]), [Literal(",")]);
      var b3 := AppendInterpolated(AppendInterpolated(AppendLine(b2, nl), [Literal("("), Value(d1, 0, None), Literal(")")]), [Literal(",")]);
      var b4 := AppendInterpolated(AppendLine(b3, nl), [Literal("("), Value(d2, 0, None), Literal(")")]);
      var fs := ToFormattableString(b4);
      && fs.format == header + nl + "VALUES" + nl + "({0})," + nl + "({1})," + nl + "({2})"
      && fs.arguments == [d0, d1, d2]
  {
    StatementHead<T>(header, nl);
    StatementRows(Builder(header + nl + "VALUES", []), d0, d1, d2, nl);
  }

  /** The header line followed by the `VALUES` line: no argument yet. */
  lemma StatementHead<T>(header: string, nl: string)
    requires NoBraces(header)
    ensures AppendInterpolated(AppendLine(AppendInterpolated(Empty<T>(), [Literal(header)]), nl), [Literal("VALUES")])
      == Builder(header + nl + "VALUES", [])
  {
    var e: Builder<T> := Empty();
    PlainText(e, header);
    assert "" + header == header;
    var b0: Builder<T> := Builder(header, []);
    PlainText(AppendLine(b0, nl), "VALUES");
  }

  /** The three rows, numbered from zero. */
  lemma StatementRows<T>(b1: Builder<T>, d0: T, d1: T, d2: T, nl: string)
    requires b1.arguments == []
    ensures var b2 := AppendInterpolated(AppendInterpolated(AppendLine(b1, nl), [Literal("("), Value(d0, 0, None), Literal(")")]), [Literal(",")]);
      var b3 := AppendInterpolated(AppendInterpolated(AppendLine(b2, nl), [Literal("("), Value(d1, 0, None), Literal(")")]), [Literal(",")]);
      AppendInterpolated(AppendLine(b3, nl), [Literal("("), Value(d2, 0, None), Literal(")")])
      == Builder(b1.format + nl + "({0})," + nl + "({1})," + nl + "({2})", [d0, d1, d2])
  {
    var b2 := AppendInterpolated(AppendInterpolated(AppendLine(b1, nl), [Literal("("), Value(d0, 0, None), Literal(")")]), [Literal(",")]);
    assert b2 == Builder(b1.format + nl + "(" + "{0}" + ")" + ",", [d0]) by {
      IndexPlaceholders();
      RowWithComma(b1, d0, nl);
      assert b1.arguments + [d0] == [d0];
    }
    var b3 := AppendInterpolated(AppendInterpolated(AppendLine(b2, nl), [Literal("("), Value(d1, 0, None), Literal(")")]), [Literal(",")]);
    assert b3 == Builder(b2.format + nl + "(" + "{1}" + ")" + ",", [d0, d1]) by {
      IndexPlaceholders();
      RowWithComma(b2, d1, nl);
      assert [d0] + [d1] == [d0, d1];
    }
    var b4 := AppendInterpolated(AppendLine(b3, nl), [Literal("("), Value(d2, 0, None), Literal(")")]);
    assert b4 == Builder(b3.format + nl + "(" + "{2}" + ")", [d0, d1, d2]) by {
      IndexPlaceholders();
      Row(b3, d2, nl);
      assert [d0, d1] + [d2] == [d0, d1, d2];
    }
    RowsText(b1.format, nl);
  }

}
