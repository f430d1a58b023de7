/** A mutable composite format string: a growing template and the list of
    arguments its placeholders refer to. The builder is modelled as an immutable
    value; every append returns the builder after the append. The compiler's
    interpolated-string handler, which calls `AppendLiteral` and `AppendFormatted`
    once per piece of an interpolated string, is replaced by an explicit fragment:
    the sequence of those pieces in source order. */
module FormattableSb {
  import opened Wrappers
  import opened Decimal
  import opened Escaping
  import opened CompositeFormat

  /** One piece of an interpolated string: literal text, or a value with its
      alignment (0 when none is written) and its format text (`None` for C# `null`). */
  datatype Piece<T> = Literal(text: string) | Value(value: T, alignment: int, format: Option<string>)

  /** The builder's state: the composite format written so far and the captured arguments. */
  datatype Builder<T> = Builder(format: string, arguments: seq<T>)

  /** The snapshot `ToFormattableString` hands out. */
  datatype FormattableString<T> = FormattableString(format: string, arguments: seq<T>) {
    function ArgumentCount(): nat {
      |arguments|
    }
  }

  /** One call on the builder: an interpolated string, or `AppendLine`. */
  datatype Op<T> = Interpolated(fragment: seq<Piece<T>>) | Line

  // ---------------------------------------------------------------------------
  // Tokens of a template, as the composite format parser reads them

  /** The placeholders of a token sequence, in order. */
  function Holes(ts: seq<Token>): seq<Item>
  {
    if |ts| == 0 then [] else (if ts[0].Hole? then [ts[0].item] else []) + Holes(ts[1..])
  }

  /** The literal characters of a token sequence, in order. */
  function Text(ts: seq<Token>): string
  {
    if |ts| == 0 then "" else (if ts[0].Char? then [ts[0].c] else "") + Text(ts[1..])
  }

  /** Placeholders numbered `from`, `from + 1`, ... in order. */
  predicate NumberedFrom(items: seq<Item>, from: nat)
  {
    forall i :: 0 <= i < |items| ==> items[i].index == from + i
  }

  /** The invariant of every builder: its template reads back completely, and its
      placeholders are `{0}`, `{1}`, ... in order, one per argument. */
  predicate WellFormed<T>(b: Builder<T>)
  {
    match Parse(b.format)
    case None => false
    case Some(ts) => |Holes(ts)| == |b.arguments| && NumberedFrom(Holes(ts), 0)
  }

  // ---------------------------------------------------------------------------
  // Reference definitions of what a fragment contributes

  /** The values of a fragment, in order. */
  function Values<T>(frag: seq<Piece<T>>): seq<T>
  {
    if |frag| == 0 then []
    else (if frag[0].Value? then [frag[0].value] else []) + Values(frag[1..])
  }

  /** The literal text of a fragment, unescaped. */
  function FragmentText<T>(frag: seq<Piece<T>>): string
  {
    if |frag| == 0 then ""
    else (if frag[0].Literal? then frag[0].text else "") + FragmentText(frag[1..])
  }

  /** Every format text in the fragment fits inside a placeholder. */
  predicate FormatsFit<T>(frag: seq<Piece<T>>)
  {
    forall i :: 0 <= i < |frag| ==> frag[i].Value? ==> FormatFits(frag[i].format)
  }

  /** The tokens one piece should read back as when a value in it gets index `next`. */
  function PieceTokens<T>(p: Piece<T>, next: nat): seq<Token>
  {
    match p
    case Literal(s) => CharTokens(s)
    case Value(_, alignment, format) => [Hole(Item(next, alignment, format))]
  }

  /** The tokens a fragment should read back as when its first value gets index `next`. */
  function FragmentTokens<T>(frag: seq<Piece<T>>, next: nat): seq<Token>
  {
    if |frag| == 0 then []
    else PieceTokens(frag[0], next) + FragmentTokens(frag[1..], if frag[0].Value? then next + 1 else next)
  }

  // ---------------------------------------------------------------------------
  // The builder's operations

  /** `new FormattableStringBuilder()`: empty template, no arguments. */
  function Empty<T>(): (b: Builder<T>)
    ensures WellFormed(b)
    ensures |b.format| == 0 && |b.arguments| == 0
  {
    Builder("", [])
  }

  /** `AppendLiteral`: the text, with `{` replaced by `{{` and then `}` by `}}`, is
      appended to the template; the arguments stay as they are. */
  function AppendLiteral<T>(b: Builder<T>, s: string): (r: Builder<T>)
    ensures r.arguments == b.arguments
    ensures r.format == b.format + Escape(s)
    ensures |r.format| == |b.format| + |s| + BraceCount(s)
  {
    TwoReplacesEscape(s);
    EscapeLength(s);
    Builder(b.format + Replace(Replace(s, '{', "{{"), '}', "}}"), b.arguments)
  }

  /** `AppendFormatted`: writes the placeholder whose index is the argument count
      before the call, then appends the value to the arguments. */
  function AppendFormatted<T>(b: Builder<T>, value: T, alignment: int, format: Option<string>): (r: Builder<T>)
    ensures b.format <= r.format
    ensures r.arguments == b.arguments + [value]
  {
    Builder(b.format + Placeholder(Item(|b.arguments|, alignment, format)), b.arguments + [value])
  }

  /** The text `AppendFormatted` adds reads back as exactly one placeholder, carrying
      the argument count before the call as its index, and the alignment and format given. */
  lemma FormattedDecodes<T>(b: Builder<T>, value: T, alignment: int, format: Option<string>)
    requires Parse(b.format).Some?
    requires FormatFits(format)
    ensures Parse(AppendFormatted(b, value, alignment, format).format)
      == Some(Parse(b.format).value + [Hole(Item(|b.arguments|, alignment, format))])
  {
    var it := Item(|b.arguments|, alignment, format);
    ParsePlaceholder(it);
    ParseAppend(b.format, Placeholder(it));
  }

  function AppendPiece<T>(b: Builder<T>, p: Piece<T>): (r: Builder<T>)
    ensures b.format <= r.format
    ensures r.arguments == b.arguments + (if p.Value? then [p.value] else [])
  {
    match p
    case Literal(s) => AppendLiteral(b, s)
    case Value(v, alignment, format) => AppendFormatted(b, v, alignment, format)
  }

  /** `AppendInterpolated`: the pieces of the fragment are appended in order. */
  function AppendInterpolated<T>(b: Builder<T>, frag: seq<Piece<T>>): (r: Builder<T>)
    ensures b.format <= r.format
    ensures r.arguments == b.arguments + Values(frag)
    decreases |frag|
  {
    if |frag| == 0 then b
    else
      var head := if frag[0].Value? then [frag[0].value] else [];
      var b' := AppendPiece(b, frag[0]);
      assert b'.arguments == b.arguments + head;
      var r := AppendInterpolated(b', frag[1..]);
      ConcatAssoc(b.arguments, head, Values(frag[1..]));
      r
  }

  /** `AppendLine`: the line terminator `nl` is appended unescaped; the arguments
      stay as they are. */
  function AppendLine<T>(b: Builder<T>, nl: string): (r: Builder<T>)
    ensures b.format <= r.format
    ensures r.arguments == b.arguments
  {
    Builder(b.format + nl, b.arguments)
  }

  /** A brace-free line terminator reads back as its own characters. */
  lemma LineDecodes<T>(b: Builder<T>, nl: string)
    requires Parse(b.format).Some?
    requires NoBraces(nl)
    ensures Parse(AppendLine(b, nl).format) == Some(Parse(b.format).value + CharTokens(nl))
  {
    ParseBraceFree(nl);
    ParseAppend(b.format, nl);
  }

  /** Escaped literal text reads back as its own characters. */
  lemma LiteralDecodes<T>(b: Builder<T>, s: string)
    requires Parse(b.format).Some?
    ensures Parse(AppendLiteral(b, s).format) == Some(Parse(b.format).value + CharTokens(s))
  {
    ParseEscape(s);
    ParseAppend(b.format, Escape(s));
  }

  /** `ToFormattableString`: a snapshot of the template and arguments. */
  function ToFormattableString<T>(b: Builder<T>): (fs: FormattableString<T>)
    ensures fs.format == b.format && fs.arguments == b.arguments
    ensures fs.ArgumentCount() == |b.arguments|
  {
    FormattableString(b.format, b.arguments)
  }

  function Apply<T>(b: Builder<T>, op: Op<T>, nl: string): Builder<T>
  {
    match op
    case Interpolated(frag) => AppendInterpolated(b, frag)
    case Line => AppendLine(b, nl)
  }

  /** A chain of calls on a builder, left to right. */
  function Run<T>(b: Builder<T>, ops: seq<Op<T>>, nl: string): (r: Builder<T>)
    ensures b.format <= r.format
    ensures b.arguments <= r.arguments
    decreases |ops|
  {
    if |ops| == 0 then b else Run(Apply(b, ops[0], nl), ops[1..], nl)
  }

  /** The values of a chain of calls, in order. */
  function OpsValues<T>(ops: seq<Op<T>>): seq<T>
  {
    if |ops| == 0 then []
    else (if ops[0].Interpolated? then Values(ops[0].fragment) else []) + OpsValues(ops[1..])
  }

  /** The literal text of a chain of calls, line terminators included, unescaped. */
  function OpsText<T>(ops: seq<Op<T>>, nl: string): string
  {
    if |ops| == 0 then ""
    else (if ops[0].Interpolated? then FragmentText(ops[0].fragment) else nl) + OpsText(ops[1..], nl)
  }

  predicate OpsFit<T>(ops: seq<Op<T>>)
  {
    forall i :: 0 <= i < |ops| ==> ops[i].Interpolated? ==> FormatsFit(ops[i].fragment)
  }

  // ---------------------------------------------------------------------------
  // Lemmas

  lemma ConcatAssoc<X>(a: seq<X>, b: seq<X>, c: seq<X>)
    ensures (a + b) + c == a + (b + c)
  {
  }

  lemma {:induction false} HolesAppend(a: seq<Token>, b: seq<Token>)
    ensures Holes(a + b) == Holes(a) + Holes(b)
    decreases |a|
  {
    if |a| == 0 {
      assert a + b == b;
    } else {
      var s := a + b;
      assert s[0] == a[0] && s[1..] == a[1..] + b;
      HolesAppend(a[1..], b);
      var h := if a[0].Hole? then [a[0].item] else [];
      ConcatAssoc(h, Holes(a[1..]), Holes(b));
    }
  }

  lemma {:induction false} TextAppend(a: seq<Token>, b: seq<Token>)
    ensures Text(a + b) == Text(a) + Text(b)
    decreases |a|
  {
    if |a| == 0 {
      assert a + b == b;
    } else {
      var s := a + b;
      assert s[0] == a[0] && s[1..] == a[1..] + b;
      TextAppend(a[1..], b);
      var h := if a[0].Char? then [a[0].c] else "";
      ConcatAssoc(h, Text(a[1..]), Text(b));
    }
  }

  /** Two numbered runs, the second starting where the first stops, make one run. */
  lemma NumberedAppend(xs: seq<Item>, ys: seq<Item>, from: nat)
    requires NumberedFrom(xs, from)
    requires NumberedFrom(ys, from + |xs|)
    ensures NumberedFrom(xs + ys, from)
  {
    var zs := xs + ys;
    assert forall i :: |xs| <= i < |zs| ==> zs[i] == ys[i - |xs|];
  }

  /** Literal characters hold no placeholder and spell the text back. */
  lemma {:induction false} CharTokensContent(s: string)
    ensures Holes(CharTokens(s)) == []
    ensures Text(CharTokens(s)) == s
    decreases |s|
  {
    if |s| > 0 {
      assert CharTokens(s) == [Char(s[0])] + CharTokens(s[1..]);
      HolesAppend([Char(s[0])], CharTokens(s[1..]));
      TextAppend([Char(s[0])], CharTokens(s[1..]));
      CharTokensContent(s[1..]);
    }
  }

  lemma PieceTokensContent<T>(p: Piece<T>, next: nat)
    ensures Holes(PieceTokens(p, next)) == if p.Value? then [Item(next, p.alignment, p.format)] else []
    ensures Text(PieceTokens(p, next)) == if p.Literal? then p.text else ""
  {
    if p.Literal? {
      CharTokensContent(p.text);
    }
  }

  /** A fragment's placeholders are numbered consecutively from the index of its
      first value, one per value. */
  lemma {:induction false} FragmentHoles<T>(frag: seq<Piece<T>>, next: nat)
    ensures |Holes(FragmentTokens(frag, next))| == |Values(frag)|
    ensures NumberedFrom(Holes(FragmentTokens(frag, next)), next)
    decreases |frag|
  {
    if |frag| > 0 {
      var next' := if frag[0].Value? then next + 1 else next;
      var head := PieceTokens(frag[0], next);
      var tail := FragmentTokens(frag[1..], next');
      PieceTokensContent(frag[0], next);
      HolesAppend(head, tail);
      FragmentHoles(frag[1..], next');
      NumberedAppend(Holes(head), Holes(tail), next);
    }
  }

  /** A fragment's literal text survives escaping and reading back. */
  lemma {:induction false} FragmentTextContent<T>(frag: seq<Piece<T>>, next: nat)
    ensures Text(FragmentTokens(frag, next)) == FragmentText(frag)
    decreases |frag|
  {
    if |frag| > 0 {
      var next' := if frag[0].Value? then next + 1 else next;
      PieceTokensContent(frag[0], next);
      TextAppend(PieceTokens(frag[0], next), FragmentTokens(frag[1..], next'));
      FragmentTextContent(frag[1..], next');
    }
  }

  lemma FormatsFitTail<T>(frag: seq<Piece<T>>)
    requires |frag| > 0 && FormatsFit(frag)
    ensures FormatsFit(frag[1..])
    ensures frag[0].Value? ==> FormatFits(frag[0].format)
  {
    forall i | 0 <= i < |frag| - 1
      ensures frag[1..][i].Value? ==> FormatFits(frag[1..][i].format)
    {
      assert frag[1..][i] == frag[i + 1];
    }
  }

  /** Appending one piece adds exactly that piece's tokens to what the template reads back as. */
  lemma PieceDecodes<T>(b: Builder<T>, p: Piece<T>)
    requires Parse(b.format).Some?
    requires p.Value? ==> FormatFits(p.format)
    ensures Parse(AppendPiece(b, p).format) == Some(Parse(b.format).value + PieceTokens(p, |b.arguments|))
  {
    match p
    case Literal(s) => LiteralDecodes(b, s);
    case Value(v, alignment, format) => FormattedDecodes(b, v, alignment, format);
  }

  /** Appending an interpolated string adds exactly the fragment's tokens to what the
      template reads back as, its placeholders numbered from the old argument count. */
  lemma {:induction false} InterpolatedDecodes<T>(b: Builder<T>, frag: seq<Piece<T>>)
    requires Parse(b.format).Some?
    requires FormatsFit(frag)
    ensures Parse(AppendInterpolated(b, frag).format)
      == Some(Parse(b.format).value + FragmentTokens(frag, |b.arguments|))
    decreases |frag|
  {
    var ts := Parse(b.format).value;
    if |frag| == 0 {
      assert ts + [] == ts;
    } else {
      var p := frag[0];
      var b' := AppendPiece(b, p);
      var head := PieceTokens(p, |b.arguments|);
      var tail := FragmentTokens(frag[1..], |b'.arguments|);
      assert Parse(b'.format) == Some(ts + head) by {
        FormatsFitTail(frag);
        PieceDecodes(b, p);
      }
      assert FragmentTokens(frag, |b.arguments|) == head + tail;
      assert AppendInterpolated(b, frag) == AppendInterpolated(b', frag[1..]);
      assert Parse(AppendInterpolated(b', frag[1..]).format) == Some((ts + head) + tail) by {
        FormatsFitTail(frag);
        InterpolatedDecodes(b', frag[1..]);
      }
      ConcatAssoc(ts, head, tail);
    }
  }

  /** A builder stays well formed when its template gains tokens whose placeholders
      continue the numbering, one per new argument. */
  lemma WellFormedExtend<T>(b: Builder<T>, b': Builder<T>, us: seq<Token>)
    requires WellFormed(b)
    requires Parse(b'.format) == Some(Parse(b.format).value + us)
    requires |b'.arguments| == |b.arguments| + |Holes(us)|
    requires NumberedFrom(Holes(us), |b.arguments|)
    ensures WellFormed(b')
    ensures Text(Parse(b'.format).value) == Text(Parse(b.format).value) + Text(us)
  {
    var ts := Parse(b.format).value;
    HolesAppend(ts, us);
    TextAppend(ts, us);
    NumberedAppend(Holes(ts), Holes(us), 0);
  }

  /** Appending an interpolated string keeps the builder well formed. */
  lemma InterpolatedPreservesWellFormed<T>(b: Builder<T>, frag: seq<Piece<T>>)
    requires WellFormed(b)
    requires FormatsFit(frag)
    ensures WellFormed(AppendInterpolated(b, frag))
    ensures Text(Parse(AppendInterpolated(b, frag).format).value)
      == Text(Parse(b.format).value) + FragmentText(frag)
  {
    InterpolatedDecodes(b, frag);
    FragmentHoles(frag, |b.arguments|);
    FragmentTextContent(frag, |b.arguments|);
    WellFormedExtend(b, AppendInterpolated(b, frag), FragmentTokens(frag, |b.arguments|));
  }

  /** `AppendLine` with a brace-free terminator keeps the builder well formed. */
  lemma LinePreservesWellFormed<T>(b: Builder<T>, nl: string)
    requires WellFormed(b)
    requires NoBraces(nl)
    ensures WellFormed(AppendLine(b, nl))
    ensures Text(Parse(AppendLine(b, nl).format).value) == Text(Parse(b.format).value) + nl
  {
    LineDecodes(b, nl);
    CharTokensContent(nl);
    WellFormedExtend(b, AppendLine(b, nl), CharTokens(nl));
  }

  lemma OpsFitTail<T>(ops: seq<Op<T>>)
    requires |ops| > 0 && OpsFit(ops)
    ensures OpsFit(ops[1..])
    ensures ops[0].Interpolated? ==> FormatsFit(ops[0].fragment)
  {
    forall i | 0 <= i < |ops| - 1
      ensures ops[1..][i].Interpolated? ==> FormatsFit(ops[1..][i].fragment)
    {
      assert ops[1..][i] == ops[i + 1];
    }
  }

  /** One call keeps the builder well formed and adds its values and its text. */
  lemma ApplyPreservesWellFormed<T>(b: Builder<T>, op: Op<T>, nl: string)
    requires WellFormed(b)
    requires NoBraces(nl)
    requires op.Interpolated? ==> FormatsFit(op.fragment)
    ensures WellFormed(Apply(b, op, nl))
    ensures Apply(b, op, nl).arguments == b.arguments + (if op.Interpolated? then Values(op.fragment) else [])
    ensures Text(Parse(Apply(b, op, nl).format).value)
      == Text(Parse(b.format).value) + (if op.Interpolated? then FragmentText(op.fragment) else nl)
  {
    match op
    case Interpolated(frag) =>
      InterpolatedPreservesWellFormed(b, frag);
    case Line =>
      LinePreservesWellFormed(b, nl);
      assert b.arguments + [] == b.arguments;
  }

  /** Across any chain of calls the builder stays well formed: the placeholders are
      `{0}`, `{1}`, ... in order, the arguments are the values in the order they were
      appended, and the template's literal text is the text that was appended. */
  lemma {:induction false} RunWellFormed<T>(b: Builder<T>, ops: seq<Op<T>>, nl: string)
    requires WellFormed(b)
    requires NoBraces(nl)
    requires OpsFit(ops)
    ensures WellFormed(Run(b, ops, nl))
    ensures Run(b, ops, nl).arguments == b.arguments + OpsValues(ops)
    ensures Text(Parse(Run(b, ops, nl).format).value) == Text(Parse(b.format).value) + OpsText(ops, nl)
    decreases |ops|
  {
    var text := Text(Parse(b.format).value);
    if |ops| == 0 {
      assert b.arguments + [] == b.arguments;
      assert text + "" == text;
    } else {
      var b' := Apply(b, ops[0], nl);
      var head := if ops[0].Interpolated? then FragmentText(ops[0].fragment) else nl;
      var vals := if ops[0].Interpolated? then Values(ops[0].fragment) else [];
      OpsFitTail(ops);
      ApplyPreservesWellFormed(b, ops[0], nl);
      RunWellFormed(b', ops[1..], nl);
      assert Run(b, ops, nl) == Run(b', ops[1..], nl);
      assert OpsValues(ops) == vals + OpsValues(ops[1..]);
      assert OpsText(ops, nl) == head + OpsText(ops[1..], nl);
      ConcatAssoc(b.arguments, vals, OpsValues(ops[1..]));
      ConcatAssoc(text, head, OpsText(ops[1..], nl));
    }
  }

  /** The argument count of a builder equals the number of values ever appended to it,
      and its placeholders are numbered `{0}` ... `{n-1}` in append order. */
  lemma {:induction false} ArgumentCountIsValueCount<T>(ops: seq<Op<T>>, nl: string)
    requires NoBraces(nl)
    requires OpsFit(ops)
    ensures var b := Run(Empty(), ops, nl);
      && b.arguments == OpsValues(ops)
      && WellFormed(b)
      && Text(Parse(b.format).value) == OpsText(ops, nl)
  {
    var e: Builder<T> := Empty();
    assert Parse(e.format) == Some([]);
    assert Text([]) == "";
    RunWellFormed(e, ops, nl);
    assert e.arguments + OpsValues(ops) == OpsValues(ops);
    assert "" + OpsText(ops, nl) == OpsText(ops, nl);
  }

  /** Along any chain of calls the arguments gain exactly the chain's values, in order,
      whatever the formats and the line terminator. */
  lemma {:induction false} RunArguments<T>(b: Builder<T>, ops: seq<Op<T>>, nl: string)
    ensures Run(b, ops, nl).arguments == b.arguments + OpsValues(ops)
    decreases |ops|
  {
    if |ops| == 0 {
      assert b.arguments + [] == b.arguments;
    } else {
      var vals := if ops[0].Interpolated? then Values(ops[0].fragment) else [];
      assert Apply(b, ops[0], nl).arguments == b.arguments + vals;
      RunArguments(Apply(b, ops[0], nl), ops[1..], nl);
      ConcatAssoc(b.arguments, vals, OpsValues(ops[1..]));
    }
  }

  /** Whatever the formats and the line terminator, the arguments of a new builder
      are exactly the values appended to it, in order, so their count is the number
      of value pieces. */
  lemma ArgumentsAreAppendedValues<T>(ops: seq<Op<T>>, nl: string)
    ensures Run(Empty(), ops, nl).arguments == OpsValues(ops)
    ensures |Run(Empty(), ops, nl).arguments| == |OpsValues(ops)|
  {
    var e: Builder<T> := Empty();
    RunArguments(e, ops, nl);
    assert e.arguments + OpsValues(ops) == OpsValues(ops);
  }

  /** An interpolated string is its first piece followed by the rest. */
  lemma InterpolatedCons<T>(b: Builder<T>, p: Piece<T>, rest: seq<Piece<T>>)
    ensures AppendInterpolated(b, [p] + rest) == AppendInterpolated(AppendPiece(b, p), rest)
  {
    assert ([p] + rest)[1..] == rest;
  }

  /** An interpolated string split in two is appended as its two halves, in order. */
  lemma {:induction false} InterpolatedConcat<T>(b: Builder<T>, f: seq<Piece<T>>, g: seq<Piece<T>>)
    ensures AppendInterpolated(b, f + g) == AppendInterpolated(AppendInterpolated(b, f), g)
    decreases |f|
  {
    if |f| == 0 {
      assert f + g == g;
    } else {
      assert f + g == [f[0]] + (f[1..] + g);
      InterpolatedCons(b, f[0], f[1..] + g);
      InterpolatedConcat(AppendPiece(b, f[0]), f[1..], g);
      InterpolatedCons(b, f[0], f[1..]);
      assert [f[0]] + f[1..] == f;
    }
  }

  /** Chaining calls is running them one after the other. */
  lemma {:induction false} RunConcat<T>(b: Builder<T>, ops1: seq<Op<T>>, ops2: seq<Op<T>>, nl: string)
    ensures Run(b, ops1 + ops2, nl) == Run(Run(b, ops1, nl), ops2, nl)
    decreases |ops1|
  {
    if |ops1| == 0 {
      assert ops1 + ops2 == ops2;
    } else {
      assert (ops1 + ops2)[1..] == ops1[1..] + ops2;
      RunConcat(Apply(b, ops1[0], nl), ops1[1..], ops2, nl);
    }
  }

  /** A snapshot taken earlier is a prefix of every later one: later appends extend the
      template and the arguments, and never change what was already there. */
  lemma SnapshotIsPrefix<T>(b: Builder<T>, ops1: seq<Op<T>>, ops2: seq<Op<T>>, nl: string)
    ensures var early := ToFormattableString(Run(b, ops1, nl));
      var late := ToFormattableString(Run(b, ops1 + ops2, nl));
      early.format <= late.format && early.arguments <= late.arguments
  {
    RunConcat(b, ops1, ops2, nl);
  }
}
