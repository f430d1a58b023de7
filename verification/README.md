# FormattableStringBuilder, modelled in Dafny

`FormattableStringBuilder` is a mutable `FormattableString`. It builds a .NET composite format string, such as `INSERT ... VALUES ({0}), ({1})`, together with the list of objects its placeholders refer to. The caller appends C# interpolated strings. The compiler's interpolated-string handler then sends each piece of such a string to the builder:

- a literal piece goes to `AppendLiteral`, which doubles every `{` and `}`;
- an interpolation hole goes to `AppendFormatted`, which writes `{index[,alignment][:format]}` and captures the value as the next argument.

`AppendLine` adds the line terminator. `ToFormattableString` hands out the template and the arguments.

The model has six modules:

- `Wrappers`: `Option`.
- `Decimal`: invariant-culture decimal text of integers, together with the value a run of digits denotes.
- `Escaping`: brace doubling. It holds the two ordinal `String.Replace` passes exactly as the source writes them, and the per-character escape they are proved equal to.
- `CompositeFormat`: the placeholder text the builder writes, and a reference reader `Parse`. The reader reads a template back into literal characters and placeholders. It is the independent definition that the builder's output is checked against.
- `FormattableSb`: the builder itself, as an immutable value `Builder(format, arguments)`.
  - Every append returns the builder after the append.
  - The compiler's handler is replaced by an explicit *fragment*: the sequence of `Literal` and `Value` pieces of one interpolated string, in source order.
  - A chain of calls is a sequence of `Op`s run from left to right.
  - The builder invariant `WellFormed` says two things. First, the template reads back completely. Second, its placeholders are `{0}`, `{1}`, … in order, one per argument.
- `Scenarios`: the repository's unit tests, worked out on the model. Each test lemma states the exact template and arguments a chain of calls produces. `UnvalidatedFormat` shows a template the reader rejects, and small helper lemmas hold the string steps the test proofs use.

The line terminator (`Environment.NewLine`) is a parameter `nl`. Argument values are of an arbitrary type `T`, which includes `null`.

## Model

| member | source | states |
|---|---|---|
| FormattableSb.Empty | src/FormattableSb/FormattableStringBuilder.cs:13-14 | A new builder has an empty template and no arguments, and it already satisfies the builder invariant. |
| FormattableSb.AppendLiteral | src/FormattableSb/FormattableStringBuilder.cs:61 | Appending a literal leaves the arguments untouched. It extends the template by the escaped text, which is exactly one character longer per brace in the input. |
| Escaping.TwoReplacesEscape | src/FormattableSb/FormattableStringBuilder.cs:61 | Replacing `{` by `{{` and then `}` by `}}` is the same as doubling each brace character where it stands. The second pass does not touch the braces the first pass wrote. |
| Escaping.Replace | src/FormattableSb/FormattableStringBuilder.cs:61 | An ordinal replacement leaves a text without the character unchanged. When the replacement holds no such character, none is left in the result. |
| Escaping.EscapeLength | src/FormattableSb/FormattableStringBuilder.cs:61 | The escaped text is as long as the input plus the number of braces in it. |
| Escaping.EscapeIdentity | src/FormattableSb/FormattableStringBuilder.cs:61 | Escaping leaves a text unchanged if and only if the text contains no brace. |
| Escaping.EscapeAppend | src/FormattableSb/FormattableStringBuilder.cs:61 | Escaping distributes over concatenation, so splitting a literal differently does not change the template. |
| CompositeFormat.ParseEscape | src/FormattableSb/FormattableStringBuilder.cs:61 | Escaped literal text reads back as exactly its own characters, with no placeholder among them. |
| FormattableSb.LiteralDecodes | src/FormattableSb/FormattableStringBuilder.cs:61 | After `AppendLiteral`, the template reads back as the old tokens followed by the literal's characters. |
| FormattableSb.AppendFormatted | src/FormattableSb/FormattableStringBuilder.cs:67-75 | Appending a value only extends the template, and adds the value at the end of the argument list. |
| FormattableSb.FormattedDecodes | src/FormattableSb/FormattableStringBuilder.cs:67-75 | The added text reads back as exactly one placeholder. Its index is the argument count before the call, and it carries the given alignment and format. |
| CompositeFormat.Body | src/FormattableSb/FormattableStringBuilder.cs:69-71 | The text between a placeholder's braces starts with the decimal text of the index, so it is never empty and its first character is a digit. |
| CompositeFormat.Placeholder | src/FormattableSb/FormattableStringBuilder.cs:69-72 | A placeholder is its body between an opening `{` and a closing `}`, two characters longer than the body. |
| CompositeFormat.ParsePlaceholder | src/FormattableSb/FormattableStringBuilder.cs:69-72 | A placeholder `{index[,alignment][:format]}` reads back as exactly the item it was written from, provided the format has no `}`. |
| CompositeFormat.StepPlaceholder | src/FormattableSb/FormattableStringBuilder.cs:69-72 | The reader takes a whole placeholder as one token, closed by the `}` the builder writes last. This holds provided the format has no `}`. |
| CompositeFormat.ParseBodyRoundTrip | src/FormattableSb/FormattableStringBuilder.cs:69-71 | The text between the braces reads back as the index, the alignment and the format it was written from. |
| CompositeFormat.BodyHasNoCloseBrace | src/FormattableSb/FormattableStringBuilder.cs:69-71 | Index, alignment clause and a fitting format contain no `}`, so nothing closes the placeholder early. |
| Decimal.NatToDecimal | src/FormattableSb/FormattableStringBuilder.cs:69 | The argument count is written as a non-empty run of decimal digits with no leading zero. |
| Decimal.DigitsValueOfNatToDecimal | src/FormattableSb/FormattableStringBuilder.cs:69 | The digits written for a count denote exactly that count. |
| CompositeFormat.ReadDigitsOfDecimal | src/FormattableSb/FormattableStringBuilder.cs:69 | The decimal text written for the argument count reads back as that count, leaving what follows it untouched. |
| Decimal.IntToDecimal | src/FormattableSb/FormattableStringBuilder.cs:70 | An alignment's invariant-culture text starts with `-` exactly when it is negative, and the rest is the decimal text of its magnitude. |
| CompositeFormat.ParseNegativeAlignment | src/FormattableSb/FormattableStringBuilder.cs:70 | A left-aligning clause `,-n` reads back as the negative alignment it was written from. |
| CompositeFormat.AlignmentClause | src/FormattableSb/FormattableStringBuilder.cs:70 | The `,alignment` clause is written exactly when the alignment is non-zero. |
| CompositeFormat.ParseAlignmentRoundTrip | src/FormattableSb/FormattableStringBuilder.cs:70 | The alignment clause reads back as the alignment. A missing clause reads as alignment 0. |
| CompositeFormat.FormatClause | src/FormattableSb/FormattableStringBuilder.cs:71 | The `:format` clause is written exactly when a format is given (not null), even an empty one. |
| FormattableSb.AppendPiece | src/FormattableSb/FormattableStringBuilder.cs:59-75 | One handler call extends the template. It adds the piece's value to the arguments when the piece is a hole, and adds nothing for a literal. |
| FormattableSb.PieceDecodes | src/FormattableSb/FormattableStringBuilder.cs:59-75 | One handler call adds exactly that piece's tokens to what the template reads back as. This holds provided no format in it contains `}`. |
| FormattableSb.AppendInterpolated | src/FormattableSb/FormattableStringBuilder.cs:22 | Appending an interpolated string only extends the template. Its values go to the end of the arguments, in source order. |
| FormattableSb.InterpolatedDecodes | src/FormattableSb/FormattableStringBuilder.cs:22 | After appending an interpolated string, the template reads back as the old tokens followed by the fragment's characters and placeholders. The placeholders are numbered from the old argument count. This holds provided no format in it contains `}`. |
| FormattableSb.FragmentHoles | src/FormattableSb/FormattableStringBuilder.cs:69 | A fragment's placeholders are numbered consecutively from the index of its first value, one per value. |
| FormattableSb.FragmentTextContent | src/FormattableSb/FormattableStringBuilder.cs:61 | The reference tokens of a fragment spell exactly its literal text. Together with `FormattableSb.InterpolatedDecodes`, this is the text the escaped template reads back as. |
| FormattableSb.InterpolatedConcat | src/FormattableSb/FormattableStringBuilder.cs:22 | An interpolated string split in two is appended as its first half and then its second. |
| FormattableSb.InterpolatedPreservesWellFormed | src/FormattableSb/FormattableStringBuilder.cs:22 | Appending an interpolated string keeps the builder invariant, and adds the fragment's literal text to the template's text. This holds provided no format in it contains `}`. |
| FormattableSb.AppendLine | src/FormattableSb/FormattableStringBuilder.cs:28-32 | `AppendLine` only extends the template, and leaves the arguments as they are. |
| FormattableSb.LineDecodes | src/FormattableSb/FormattableStringBuilder.cs:30 | A brace-free line terminator reads back as its own characters after the old tokens. |
| FormattableSb.LinePreservesWellFormed | src/FormattableSb/FormattableStringBuilder.cs:28-32 | `AppendLine` with a brace-free terminator keeps the builder invariant and adds the terminator to the template's text. |
| FormattableSb.ApplyPreservesWellFormed | src/FormattableSb/FormattableStringBuilder.cs:22-32 | Either public append keeps the invariant and adds its own values and text, and nothing else. This holds provided no format in it contains `}`. |
| FormattableSb.RunWellFormed | src/FormattableSb/FormattableStringBuilder.cs:13-14 | Any chain of appends keeps the invariant. The arguments gain exactly the appended values in order, and the template's text gains exactly the appended text. This holds provided no format in it contains `}`. |
| FormattableSb.ArgumentCountIsValueCount | src/FormattableSb/FormattableStringBuilder.cs:74 | From a new builder, the arguments are exactly the values ever appended, in order. The placeholders are `{0}` to `{n-1}`, one per argument; this placeholder half holds provided no format contains `}`. |
| FormattableSb.RunArguments | src/FormattableSb/FormattableStringBuilder.cs:74 | Along any chain of calls, whatever the formats and the terminator, the arguments gain exactly the chain's values, in order: `_arguments.Add(value)` does not depend on the format. |
| FormattableSb.ArgumentsAreAppendedValues | src/FormattableSb/FormattableStringBuilder.cs:74 | For every chain of calls, whatever the formats and the terminator, a new builder's arguments are exactly the appended values in order, so the argument count is the number of value pieces. |
| FormattableSb.ToFormattableString | src/FormattableSb/FormattableStringBuilder.cs:38 | The snapshot carries the current template and arguments, and its argument count is the number of arguments. |
| FormattableSb.Run | src/FormattableSb/FormattableStringBuilder.cs:22-32 | Along a chain of calls, each returning the same builder, the template and the argument list only grow: the builder before the chain is a prefix of the one after it. |
| FormattableSb.RunConcat | src/FormattableSb/FormattableStringBuilder.cs:31 | Calls chain: running two call sequences in turn equals running their concatenation. |
| FormattableSb.SnapshotIsPrefix | src/FormattableSb/FormattableStringBuilder.cs:38 | A snapshot taken earlier is a prefix of every later one, in both template and arguments. |
| Scenarios.EmptySnapshot | test/FormattableSb.Tests/FormattableStringBuilderTest.cs:11-19 | A new builder gives an empty format with no arguments. |
| Scenarios.SingleValue | test/FormattableSb.Tests/FormattableStringBuilderTest.cs:23-33 | One value gives `{0}` and that one argument. |
| Scenarios.TwoAppends | test/FormattableSb.Tests/FormattableStringBuilderTest.cs:44-55 | Two separate appends share one counter and give `{0}{1}`. |
| Scenarios.NegativeAlignment | test/FormattableSb.Tests/FormattableStringBuilderTest.cs:65-76 | Alignment -1 gives `{0,-1}`. |
| Scenarios.FormatText | test/FormattableSb.Tests/FormattableStringBuilderTest.cs:79-90 | Format `o` gives `{0:o}`. |
| Scenarios.AlignmentThenFormat | test/FormattableSb.Tests/FormattableStringBuilderTest.cs:93-104 | Alignment and format together give `{0,-1:o}`, alignment first. |
| Scenarios.EmptyFormatKeepsColon | src/FormattableSb/FormattableStringBuilder.cs:71 | An empty format still writes the colon, `{0:}`. An absent one writes `{0}`. |
| Scenarios.UnvalidatedFormat | src/FormattableSb/FormattableStringBuilder.cs:53 | The handler does not validate a format: a format `}` is written verbatim as `{0:}}`, and that template no longer reads back. |
| Scenarios.Braces | test/FormattableSb.Tests/FormattableStringBuilderTest.cs:107-118 | Literal braces are doubled and placeholder braces are not, giving `{{one}} {{{0}}} {{{{three}}}} {{{{{1}}}}}` with both arguments. |
| Scenarios.MultiLineStatement | test/FormattableSb.Tests/FormattableStringBuilderTest.cs:149-183 | The multi-line INSERT statement example gives header, `VALUES`, `({0}),`, `({1}),` and `({2})` on successive lines, with the three dates as arguments. |

## Left out

- The compiler side of interpolated strings is not modelled: lowering `$"..."` into handler calls, and the handler's `literalLength` and `formattedCount` parameters, which the source ignores. A fragment stands for the sequence of calls the compiler makes.
- Verbatim and raw interpolated strings (test lines 120-146 and 185-201) are not modelled separately. They lower to the same fragment as `Scenarios.SingleValue`.
- Rendering is not modelled. This covers `FormattableStringFactory.Create`, `FormattableString.ToString` and `String.Format`. The model stops at the template and arguments.
- `CultureInfo` is not modelled. The alignment is written in invariant culture, which is what `Decimal.IntToDecimal` writes. The argument count is never negative, so culture cannot change its digits.
- `Environment.NewLine` is a parameter. The lemmas about reading the template back require it to contain no brace, which holds for every platform's terminator.
- A `null` literal is not modelled. In the source, `AppendLiteral` would throw `NullReferenceException` from `value.Replace` (line 61). Compiler-generated calls never pass one, and a Dafny string cannot be null.
- Builder identity and mutation are not modelled. `return this` and aliasing of one builder between callers become value semantics: each call returns the builder after the call.
- FormattableSb.AppendFormatted: `_arguments.Count` and the alignment are 32-bit in the source. The model uses unbounded integers, because no arithmetic on them can wrap before the list itself runs out of memory.
- FormattableSb.FormattedDecodes: requires the format text to contain no `}`. The handler is meant to be called only by compiler-generated code and does not validate its arguments (FormattableStringBuilder.cs line 53). It writes any format verbatim, and a `}` inside it closes the placeholder early. `Scenarios.UnvalidatedFormat` shows such a template.
- FormattableSb.PieceDecodes: holds only for formats without `}`, for the reason given for `FormattableSb.FormattedDecodes`.
- FormattableSb.InterpolatedDecodes: holds only for formats without `}`, for the same reason.
- FormattableSb.InterpolatedPreservesWellFormed: holds only for formats without `}`, for the same reason.
- FormattableSb.ApplyPreservesWellFormed: holds only for formats without `}`, for the same reason.
- FormattableSb.RunWellFormed: holds only for formats without `}`, for the same reason.
- FormattableSb.ArgumentCountIsValueCount: the placeholder numbering and the read-back text hold only for formats without `}`, for the same reason. The argument half holds for every chain and is stated without conditions by `FormattableSb.RunArguments` and `FormattableSb.ArgumentsAreAppendedValues`.
- CompositeFormat.StepPlaceholder: holds only for formats without `}`, for the same reason; `Scenarios.UnvalidatedFormat` shows a template with such a format that does not read back.
- Scenarios.MultiLineStatement: the header line is any brace-free text instead of the one SQL string. The date loop is unrolled for its three dates, and date arithmetic is left out.
- Scenarios.Braces: the middle literal is written as the concatenation `"} {{" + "three" + "}} {{"`, which is the same text.
