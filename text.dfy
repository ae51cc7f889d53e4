/**
 * The few pieces of the Kotlin standard library the formatter relies on:
 * `Char.isWhitespace`, `CharSequence.isBlank` and `List.joinToString`.
 */
module Text {

  /**
   * Kotlin's `Char.isWhitespace`: a character of Unicode general category
   * Zs (space separator), Zl (line separator) or Zp (paragraph separator),
   * or one of the controls U+0009..U+000D and U+001C..U+001F.
   */
  predicate IsWhitespace(c: char) {
    || ('\t' <= c <= '\r')
    || ('\U{1C}' <= c <= '\U{1F}')
    || c == ' '
    || c == '\U{A0}'
    || c == '\U{1680}'
    || ('\U{2000}' <= c <= '\U{200A}')
    || c == '\U{2028}'
    || c == '\U{2029}'
    || c == '\U{202F}'
    || c == '\U{205F}'
    || c == '\U{3000}'
  }

  /** Kotlin's `isBlank`: the string is empty or consists of whitespace only. */
  predicate IsBlank(s: string) {
    |s| == 0 || (IsWhitespace(s[0]) && IsBlank(s[1..]))
  }

  /** The recursive definition agrees with "every character is whitespace". */
  lemma {:induction false} BlankIffAllWhitespace(s: string)
    ensures IsBlank(s) <==> forall i :: 0 <= i < |s| ==> IsWhitespace(s[i])
  {
    if |s| > 0 {
      BlankIffAllWhitespace(s[1..]);
      assert forall i :: 1 <= i < |s| ==> s[i] == s[1..][i - 1];
    }
  }

  /** A string whose first character is not whitespace is not blank. */
  lemma NotBlankByFirst(s: string)
    requires |s| > 0 && !IsWhitespace(s[0])
    ensures !IsBlank(s)
  {
  }

  /** Kotlin's `joinToString(sep)` with no prefix, postfix or limit. */
  function Join(values: seq<string>, sep: string): string
  {
    if |values| == 0 then ""
    else if |values| == 1 then values[0]
    else values[0] + sep + Join(values[1..], sep)
  }

  /** Joining two non-empty lists puts one separator between their joins, so the order of values is kept. */
  lemma {:induction false} JoinConcat(a: seq<string>, b: seq<string>, sep: string)
    requires |a| > 0 && |b| > 0
    ensures Join(a + b, sep) == Join(a, sep) + sep + Join(b, sep)
  {
    if |a| == 1 {
      assert (a + b)[1..] == b;
    } else {
      JoinConcat(a[1..], b, sep);
      assert (a + b)[1..] == a[1..] + b;
    }
  }

  /** Appending a value to a non-empty list appends the separator and that value. */
  lemma JoinSnoc(values: seq<string>, v: string, sep: string)
    requires |values| > 0
    ensures Join(values + [v], sep) == Join(values, sep) + sep + v
  {
    JoinConcat(values, [v], sep);
  }
}
