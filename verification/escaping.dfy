/** Escaping of literal text for a composite format string: every `{` becomes `{{`
    and every `}` becomes `}}`, so that a renderer never reads literal braces as
    placeholder delimiters. */
module Escaping {

  predicate IsBrace(c: char) {
    c == '{' || c == '}'
  }

  predicate NoBraces(s: string) {
    forall i :: 0 <= i < |s| ==> !IsBrace(s[i])
  }

  /** The number of brace characters in `s`. */
  function BraceCount(s: string): nat
  {
    if |s| == 0 then 0 else (if IsBrace(s[0]) then 1 else 0) + BraceCount(s[1..])
  }

  /** Ordinal `String.Replace` of the single character `c` by `rep`, left to right. */
  function Replace(s: string, c: char, rep: string): (r: string)
    ensures c !in s ==> r == s
    ensures c !in rep ==> c !in r
  {
    if |s| == 0 then "" else (if s[0] == c then rep else [s[0]]) + Replace(s[1..], c, rep)
  }

  /** The escaped form of one character. */
  function EscapeChar(c: char): (r: string)
    ensures |r| == if IsBrace(c) then 2 else 1
    ensures forall i :: 0 <= i < |r| ==> r[i] == c
  {
    if IsBrace(c) then [c, c] else [c]
  }

  /** Literal text as it is written into the template: each brace doubled, every
      other character kept, in order. */
  function Escape(s: string): string
  {
    if |s| == 0 then "" else EscapeChar(s[0]) + Escape(s[1..])
  }

  /** Escaping lengthens the text by exactly one character per brace. */
  lemma {:induction false} EscapeLength(s: string)
    ensures |Escape(s)| == |s| + BraceCount(s)
    decreases |s|
  {
    if |s| > 0 {
      EscapeLength(s[1..]);
    }
  }

  lemma {:induction false} ReplaceAppend(a: string, b: string, c: char, rep: string)
    ensures Replace(a + b, c, rep) == Replace(a, c, rep) + Replace(b, c, rep)
    decreases |a|
  {
    if |a| > 0 {
      assert (a + b)[1..] == a[1..] + b;
      ReplaceAppend(a[1..], b, c, rep);
    } else {
      assert a + b == b;
    }
  }

  lemma {:induction false} EscapeAppend(a: string, b: string)
    ensures Escape(a + b) == Escape(a) + Escape(b)
    decreases |a|
  {
    if |a| > 0 {
      assert (a + b)[1..] == a[1..] + b;
      EscapeAppend(a[1..], b);
    } else {
      assert a + b == b;
    }
  }

  /** The two successive `Replace` passes of the source (first `{`, then `}`) give
      the same text as escaping each character on its own. */
  lemma {:induction false} TwoReplacesEscape(s: string)
    ensures Replace(Replace(s, '{', "{{"), '}', "}}") == Escape(s)
    decreases |s|
  {
    if |s| > 0 {
      var head := if s[0] == '{' then "{{" else [s[0]];
      assert Replace(s, '{', "{{") == head + Replace(s[1..], '{', "{{");
      ReplaceAppend(head, Replace(s[1..], '{', "{{"), '}', "}}");
      assert Replace(head, '}', "}}") == EscapeChar(s[0]) by {
        if s[0] == '{' {
          assert head == ['{'] + ['{'];
          ReplaceAppend(['{'], ['{'], '}', "}}");
        }
      }
      TwoReplacesEscape(s[1..]);
    }
  }

  /** Text without braces is written unchanged, and only such text is. */
  lemma {:induction false} EscapeIdentity(s: string)
    ensures Escape(s) == s <==> NoBraces(s)
    decreases |s|
  {
    if |s| > 0 {
      EscapeIdentity(s[1..]);
      if IsBrace(s[0]) {
        EscapeLength(s);
        assert |Escape(s)| > |s|;
      } else {
        assert Escape(s) == [s[0]] + Escape(s[1..]);
        if Escape(s) == s {
          assert Escape(s[1..]) == s[1..];
        }
      }
    }
  }
}
