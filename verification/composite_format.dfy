/** The composite format grammar the builder writes: literal text with doubled
    braces, and placeholders `{index[,alignment][:format]}`. `Parse` reads a
    template back into characters and placeholders; it is the reference against
    which the builder's output is judged. */
module CompositeFormat {
  import opened Wrappers
  import opened Decimal
  import opened Escaping

  /** One placeholder: argument index, alignment (0 means none) and format text. */
  datatype Item = Item(index: nat, alignment: int, format: Option<string>)

  /** A template read back: a literal character, or a placeholder. */
  datatype Token = Char(c: char) | Hole(item: Item)

  /** The format text may not close the placeholder early. */
  predicate FormatFits(format: Option<string>) {
    format.None? || '}' !in format.value
  }

  /** `,alignment`, left out for alignment 0. */
  function AlignmentClause(alignment: int): (r: string)
    ensures r == "" <==> alignment == 0
  {
    if alignment != 0 then "," + IntToDecimal(alignment) else ""
  }

  /** `:format`, left out only when no format is given; an empty format still writes `:`. */
  function FormatClause(format: Option<string>): (r: string)
    ensures r == "" <==> format.None?
  {
    match format
    case None => ""
    case Some(f) => ":" + f
  }

  /** The text between the braces of a placeholder: it starts with the first digit
      of the index. */
  function Body(it: Item): (r: string)
    ensures NatToDecimal(it.index) <= r
    ensures |r| > 0 && IsDigit(r[0])
  {
    NatToDecimal(it.index) + AlignmentClause(it.alignment) + FormatClause(it.format)
  }

  /** The placeholder written for one value: its body between a `{` and a `}`. */
  function Placeholder(it: Item): (r: string)
    ensures |r| == |Body(it)| + 2
    ensures r[0] == '{' && r[|r| - 1] == '}'
    ensures r[1..|r| - 1] == Body(it)
  {
    "{" + Body(it) + "}"
  }

  /** Length of the longest all-digit prefix of `s`. */
  function DigitRun(s: string): (k: nat)
    ensures k <= |s|
    ensures AllDigits(s[..k])
    ensures k < |s| ==> !IsDigit(s[k])
  {
    if |s| > 0 && IsDigit(s[0]) then 1 + DigitRun(s[1..]) else 0
  }

  /** Position of the first `c` in `s`, or `|s|` when there is none. */
  function Find(s: string, c: char): (k: nat)
    ensures k <= |s|
    ensures k < |s| ==> s[k] == c
  {
    if |s| == 0 then 0 else if s[0] == c then 0 else 1 + Find(s[1..], c)
  }

  /** Reads a non-empty run of digits at the front of `s`; gives its value and what follows. */
  function ReadDigits(s: string): (r: Option<(nat, string)>)
    ensures r.Some? ==> |r.value.1| < |s| && r.value.1 == s[|s| - |r.value.1|..]
  {
    var n := DigitRun(s);
    if n == 0 then None else Some((DigitsValue(s[..n]), s[n..]))
  }

  /** Reads an optional `,alignment` clause; no clause means alignment 0. */
  function ParseAlignment(s: string): Option<(int, string)>
  {
    if |s| > 0 && s[0] == ',' then
      if |s| > 1 && s[1] == '-' then
        match ReadDigits(s[2..])
        case None => None
        case Some((m, rest)) => Some((-(m as int), rest))
      else
        match ReadDigits(s[1..])
        case None => None
        case Some((m, rest)) => Some((m as int, rest))
    else Some((0, s))
  }

  /** Reads an optional `:format` clause that runs to the end of the body. */
  function ParseFormatClause(s: string): Option<Option<string>>
  {
    if |s| == 0 then Some(None)
    else if s[0] == ':' then Some(Some(s[1..]))
    else None
  }

  /** Reads the text between the braces of a placeholder. */
  function ParseBody(s: string): Option<Item>
  {
    match ReadDigits(s)
    case None => None
    case Some((index, rest)) =>
      match ParseAlignment(rest)
      case None => None
      case Some((alignment, rest')) =>
        match ParseFormatClause(rest')
        case None => None
        case Some(format) => Some(Item(index, alignment, format))
  }

  function Prepend(t: Token, o: Option<seq<Token>>): Option<seq<Token>>
  {
    match o
    case None => None
    case Some(ts) => Some([t] + ts)
  }

  function Then(ts: seq<Token>, o: Option<seq<Token>>): Option<seq<Token>>
  {
    match o
    case None => None
    case Some(us) => Some(ts + us)
  }

  /** Reads the placeholder that the `{` at the front of `s` opens and the next `}`
      closes, and how many characters it takes. */
  function ReadHole(s: string): (r: Option<(Token, nat)>)
    requires |s| > 0
    ensures r.Some? ==> 0 < r.value.1 <= |s|
  {
    var k := Find(s[1..], '}');
    if k == |s| - 1 then None
    else
      match ParseBody(s[1..k + 1])
      case None => None
      case Some(it) => Some((Hole(it), k + 2))
  }

  /** Reads the one token at the front of a non-empty template, and how many
      characters it takes: `{{` and `}}` are literal braces, any other `{` opens a
      placeholder that the next `}` closes, a lone `}` is an error. */
  function Step(s: string): (r: Option<(Token, nat)>)
    requires |s| > 0
    ensures r.Some? ==> 0 < r.value.1 <= |s|
  {
    if |s| > 1 && s[0] == '{' && s[1] == '{' then Some((Char('{'), 2))
    else if |s| > 1 && s[0] == '}' && s[1] == '}' then Some((Char('}'), 2))
    else if s[0] == '}' then None
    else if s[0] == '{' then ReadHole(s)
    else Some((Char(s[0]), 1))
  }

  /** Reads a whole composite format template, token by token. */
  function Parse(s: string): Option<seq<Token>>
    decreases |s|
  {
    if |s| == 0 then Some([])
    else
      match Step(s)
      case None => None
      case Some((t, n)) => Prepend(t, Parse(s[n..]))
  }

  /** Literal characters as tokens. */
  function CharTokens(s: string): (ts: seq<Token>)
    ensures |ts| == |s|
    ensures forall i :: 0 <= i < |s| ==> ts[i] == Char(s[i])
  {
    seq(|s|, i requires 0 <= i < |s| => Char(s[i]))
  }

  lemma {:induction false} DigitRunAppend(d: string, rest: string)
    requires AllDigits(d)
    requires |rest| == 0 || !IsDigit(rest[0])
    ensures DigitRun(d + rest) == |d|
    decreases |d|
  {
    if |d| > 0 {
      assert (d + rest)[1..] == d[1..] + rest;
      DigitRunAppend(d[1..], rest);
    } else {
      assert d + rest == rest;
    }
  }

  lemma {:induction false} FindAppend(a: string, b: string, c: char)
    requires Find(a, c) < |a|
    ensures Find(a + b, c) == Find(a, c)
    decreases |a|
  {
    if a[0] != c {
      assert (a + b)[1..] == a[1..] + b;
      FindAppend(a[1..], b, c);
    }
  }

  lemma ReadDigitsOfDecimal(n: nat, rest: string)
    requires |rest| == 0 || !IsDigit(rest[0])
    ensures ReadDigits(NatToDecimal(n) + rest) == Some((n, rest))
  {
    var d := NatToDecimal(n);
    DigitRunAppend(d, rest);
    assert (d + rest)[..|d|] == d;
    assert (d + rest)[|d|..] == rest;
    DigitsValueOfNatToDecimal(n);
  }

  lemma ParsePositiveAlignment(alignment: int, rest: string)
    requires alignment > 0
    requires |rest| == 0 || rest[0] == ':'
    ensures ParseAlignment(AlignmentClause(alignment) + rest) == Some((alignment, rest))
  {
    var d := NatToDecimal(alignment);
    var s := "," + (d + rest);
    assert AlignmentClause(alignment) + rest == s;
    assert s[1..] == d + rest;
    assert s[1] != '-';
    ReadDigitsOfDecimal(alignment, rest);
  }

  /** `,-` followed by digits reads as the negated number. */
  lemma ReadNegative(t: string, m: nat, rest: string)
    requires ReadDigits(t) == Some((m, rest))
    ensures ParseAlignment("," + ("-" + t)) == Some((-(m as int), rest))
  {
    var s := "," + ("-" + t);
    assert s[0] == ',' && s[1] == '-';
    assert s[2..] == t;
  }

  lemma ParseNegativeAlignment(alignment: int, rest: string)
    requires alignment < 0
    requires |rest| == 0 || rest[0] == ':'
    ensures ParseAlignment(AlignmentClause(alignment) + rest) == Some((alignment, rest))
  {
    var m: nat := -alignment;
    var d := NatToDecimal(m);
    assert AlignmentClause(alignment) == "," + ("-" + d);
    assert ("," + ("-" + d)) + rest == "," + ("-" + (d + rest));
    ReadDigitsOfDecimal(m, rest);
    ReadNegative(d + rest, m, rest);
  }

  /** Reading an alignment clause gives back the alignment, 0 when the clause is absent. */
  lemma ParseAlignmentRoundTrip(alignment: int, rest: string)
    requires |rest| == 0 || rest[0] == ':'
    ensures ParseAlignment(AlignmentClause(alignment) + rest) == Some((alignment, rest))
  {
    if alignment > 0 {
      ParsePositiveAlignment(alignment, rest);
    } else if alignment < 0 {
      ParseNegativeAlignment(alignment, rest);
    } else {
      assert AlignmentClause(alignment) + rest == rest;
    }
  }

  lemma ParseFormatClauseRoundTrip(format: Option<string>)
    ensures ParseFormatClause(FormatClause(format)) == Some(format)
  {
  }

  lemma {:induction false} FindAfter(s: string, c: char)
    requires c !in s
    ensures Find(s + [c], c) == |s|
    decreases |s|
  {
    var t := s + [c];
    if |s| == 0 {
      assert t == [c];
    } else {
      assert t[0] == s[0] && s[0] in s;
      assert t[1..] == s[1..] + [c];
      assert c !in s[1..] by {
        assert forall x :: x in s[1..] ==> x in s;
      }
      FindAfter(s[1..], c);
    }
  }

  /** Reading the body of a placeholder gives back the item it was written from. */
  lemma ParseBodyRoundTrip(it: Item)
    ensures ParseBody(Body(it)) == Some(it)
  {
    var fmt := FormatClause(it.format);
    var tail := AlignmentClause(it.alignment) + fmt;
    assert Body(it) == NatToDecimal(it.index) + tail;
    ReadDigitsOfDecimal(it.index, tail);
    ParseAlignmentRoundTrip(it.alignment, fmt);
    ParseFormatClauseRoundTrip(it.format);
  }

  /** Everything in a placeholder body before the format text is free of `}`. */
  lemma BodyHasNoCloseBrace(it: Item)
    requires FormatFits(it.format)
    ensures '}' !in Body(it)
  {
    var digits := NatToDecimal(it.index);
    var align := AlignmentClause(it.alignment);
    var fmt := FormatClause(it.format);
    assert '}' !in digits;
    if it.alignment != 0 {
      var d := IntToDecimal(it.alignment);
      if it.alignment < 0 {
        assert d == "-" + NatToDecimal(-it.alignment);
      }
      assert '}' !in d;
      assert align == "," + d;
    }
    assert '}' !in align;
    assert '}' !in fmt;
    assert Body(it) == digits + align + fmt;
  }

  /** A `{` not followed by another `{` reads as a placeholder up to the next `}`. */
  lemma StepOpenBrace(s: string, k: nat, it: Item)
    requires |s| > 1 && s[0] == '{' && s[1] != '{'
    requires k == Find(s[1..], '}') && k < |s| - 1
    requires ParseBody(s[1..k + 1]) == Some(it)
    ensures Step(s) == Some((Hole(it), k + 2))
  {
    assert ReadHole(s) == Some((Hole(it), k + 2));
  }

  /** Inside a pair of braces. */
  lemma Braced(body: string)
    ensures ("{" + body + "}")[0] == '{'
    ensures |body| > 0 ==> ("{" + body + "}")[1] == body[0]
    ensures ("{" + body + "}")[1..] == body + "}"
    ensures ("{" + body + "}")[1..|body| + 1] == body
  {
  }

  /** The `}` that closes a placeholder is the first one after its `{`. */
  lemma PlaceholderCloses(it: Item)
    requires FormatFits(it.format)
    ensures Find(Placeholder(it)[1..], '}') == |Body(it)|
  {
    var body := Body(it);
    Braced(body);
    assert Find(body + "}", '}') == |body| by {
      BodyHasNoCloseBrace(it);
      FindAfter(body, '}');
    }
  }

  /** The first token of a placeholder is the whole placeholder. */
  lemma StepPlaceholder(it: Item)
    requires FormatFits(it.format)
    ensures Step(Placeholder(it)) == Some((Hole(it), |Body(it)| + 2))
  {
    var s := Placeholder(it);
    var body := Body(it);
    Braced(body);
    assert s[1] != '{';
    PlaceholderCloses(it);
    ParseBodyRoundTrip(it);
    StepOpenBrace(s, |body|, it);
  }

  /** A placeholder whose format text has no `}` reads back as exactly that placeholder. */
  lemma ParsePlaceholder(it: Item)
    requires FormatFits(it.format)
    ensures Parse(Placeholder(it)) == Some([Hole(it)])
  {
    var s := Placeholder(it);
    StepPlaceholder(it);
    assert s[|Body(it)| + 2..] == "";
    assert [Hole(it)] + [] == [Hole(it)];
  }

  lemma PrependThen(t: Token, ts: seq<Token>, o: Option<seq<Token>>)
    ensures Prepend(t, Then(ts, o)) == Then([t] + ts, o)
  {
    if o.Some? {
      assert [t] + (ts + o.value) == ([t] + ts) + o.value;
    }
  }

  /** A slice inside the first part of a concatenation. */
  lemma PrefixSlice(a: string, b: string, i: nat, j: nat)
    requires i <= j <= |a|
    ensures (a + b)[i..j] == a[i..j]
  {
  }

  /** Two texts whose first `}` after the opening `{` is at the same place, with the
      same body before it, read as the same placeholder. */
  lemma ReadHoleSameBody(a: string, s: string, k: nat)
    requires |a| > 0 && |s| >= |a|
    requires k == Find(a[1..], '}') == Find(s[1..], '}') && k < |a| - 1
    requires s[1..k + 1] == a[1..k + 1]
    ensures ReadHole(s) == ReadHole(a)
  {
    var pb := ParseBody(a[1..k + 1]);
    assert ReadHole(a) == if pb.None? then None else Some((Hole(pb.value), k + 2));
    assert s[1..k + 1] == a[1..k + 1];
    assert ReadHole(s) == if pb.None? then None else Some((Hole(pb.value), k + 2));
  }

  lemma ReadHoleAppend(a: string, b: string)
    requires |a| > 0 && ReadHole(a).Some?
    ensures ReadHole(a + b) == ReadHole(a)
  {
    var s := a + b;
    var k := Find(a[1..], '}');
    assert Find(s[1..], '}') == k by {
      assert s[1..] == a[1..] + b;
      FindAppend(a[1..], b, '}');
    }
    assert s[1..k + 1] == a[1..k + 1] by {
      assert k + 1 <= |a|;
      PrefixSlice(a, b, 1, k + 1);
    }
    ReadHoleSameBody(a, s, k);
  }

  /** A token read from a prefix is read the same way whatever follows it. */
  lemma StepAppend(a: string, b: string)
    requires |a| > 0 && Step(a).Some?
    ensures Step(a + b) == Step(a)
  {
    var s := a + b;
    assert s[0] == a[0];
    if |a| > 1 {
      assert s[1] == a[1];
    }
    if !(|a| > 1 && IsBrace(a[0]) && a[1] == a[0]) && a[0] == '{' {
      ReadHoleAppend(a, b);
    }
  }


  /** Parsing is compositional: once a prefix reads completely, the rest is read on its own. */
  lemma {:induction false} ParseAppend(a: string, b: string)
    requires Parse(a).Some?
    ensures Parse(a + b) == Then(Parse(a).value, Parse(b))
    decreases |a|
  {
    var s := a + b;
    if |a| == 0 {
      assert s == b;
      if Parse(b).Some? {
        assert [] + Parse(b).value == Parse(b).value;
      }
    } else {
      StepAppend(a, b);
      var (t, n) := Step(a).value;
      assert s[n..] == a[n..] + b;
      ParseAppend(a[n..], b);
      PrependThen(t, Parse(a[n..]).value, Parse(b));
    }
  }

  lemma ParseEscapeChar(c: char)
    ensures Parse(EscapeChar(c)) == Some([Char(c)])
  {
    var e := EscapeChar(c);
    if IsBrace(c) {
      assert e == [c, c];
      assert e[2..] == "";
      assert [Char(c)] + [] == [Char(c)];
    } else {
      assert e == [c];
      assert e[1..] == "";
      assert [Char(c)] + [] == [Char(c)];
    }
  }

  /** Escaped literal text reads back as exactly its characters. */
  lemma {:induction false} ParseEscape(s: string)
    ensures Parse(Escape(s)) == Some(CharTokens(s))
    decreases |s|
  {
    if |s| > 0 {
      var e := EscapeChar(s[0]);
      ParseEscapeChar(s[0]);
      ParseEscape(s[1..]);
      ParseAppend(e, Escape(s[1..]));
      assert CharTokens(s) == [Char(s[0])] + CharTokens(s[1..]);
    }
  }

  /** Text without braces, such as a line terminator, reads back as its characters. */
  lemma ParseBraceFree(s: string)
    requires NoBraces(s)
    ensures Parse(s) == Some(CharTokens(s))
  {
    EscapeIdentity(s);
    ParseEscape(s);
  }
}
