/**
 * Character classes and string helpers that the TypeScript sources rely on:
 * JavaScript's `\s` class and `String.prototype.trim` (which use the same set of
 * white-space characters), the ASCII `\d` class, and literal matching at a position.
 */
module Text {

  /**
   * JavaScript white space: the WhiteSpace and LineTerminator productions of
   * ECMAScript (tab, line tab, form feed, space, no-break space, byte order mark,
   * every Unicode space separator, LF, CR, LS, PS). `\s` and `trim` both use it.
   */
  predicate IsWhitespace(c: char) {
    || c == '\t' || c == '\n' || c == '\U{000B}' || c == '\U{000C}' || c == '\r' || c == ' '
    || c == '\U{00A0}' || c == '\U{1680}' || ('\U{2000}' <= c <= '\U{200A}')
    || c == '\U{2028}' || c == '\U{2029}' || c == '\U{202F}' || c == '\U{205F}'
    || c == '\U{3000}' || c == '\U{FEFF}'
  }

  /** JavaScript's `\d`: an ASCII decimal digit only. */
  predicate IsDigit(c: char) {
    '0' <= c <= '9'
  }

  /** Every character of `s` is white space (so `s.trim()` is empty). */
  predicate IsBlank(s: string) {
    forall i :: 0 <= i < |s| ==> IsWhitespace(s[i])
  }

  /** `s` neither starts nor ends with white space. */
  predicate IsTrimmed(s: string) {
    s == [] || (!IsWhitespace(s[0]) && !IsWhitespace(s[|s| - 1]))
  }

  /** Number of white-space characters at the start of `s`. */
  function LeadingSpace(s: string): (n: nat)
    ensures n <= |s|
    ensures forall i :: 0 <= i < n ==> IsWhitespace(s[i])
    ensures n == |s| || !IsWhitespace(s[n])
  {
    if s == [] || !IsWhitespace(s[0]) then 0 else 1 + LeadingSpace(s[1..])
  }

  /** Number of white-space characters at the end of `s`. */
  function TrailingSpace(s: string): (n: nat)
    ensures n <= |s|
    ensures forall i :: |s| - n <= i < |s| ==> IsWhitespace(s[i])
    ensures n == |s| || !IsWhitespace(s[|s| - 1 - n])
  {
    if s == [] || !IsWhitespace(s[|s| - 1]) then 0 else 1 + TrailingSpace(s[..|s| - 1])
  }

  /** `String.prototype.trim`: drop the white space at both ends. */
  function Trim(s: string): (r: string)
    ensures IsTrimmed(r)
    ensures r == [] <==> IsBlank(s)
    ensures IsTrimmed(s) ==> r == s
    ensures !IsBlank(s) ==> |r| == |s| - LeadingSpace(s) - TrailingSpace(s)
    ensures LeadingSpace(s) + |r| <= |s|
    ensures forall k :: 0 <= k < |r| ==> r[k] == s[LeadingSpace(s) + k]
  {
    var a := LeadingSpace(s);
    if a == |s| then
      []
    else
      var b := |s| - TrailingSpace(s);
      assert a < b;
      s[a..b]
  }

  /** Trimming twice is trimming once. */
  lemma TrimIdempotent(s: string)
    ensures Trim(Trim(s)) == Trim(s)
  {
  }

  /** The literal `lit` occurs in `s` starting at index `i`. */
  predicate LiteralAt(s: string, i: nat, lit: string)
    decreases |lit|
  {
    i + |lit| <= |s| && (|lit| == 0 || (s[i] == lit[0] && LiteralAt(s, i + 1, lit[1..])))
  }

  /** An occurrence, character by character and as a slice. */
  lemma {:induction false} LiteralAtMeaning(s: string, i: nat, lit: string)
    ensures LiteralAt(s, i, lit) <==> i + |lit| <= |s| && forall k :: 0 <= k < |lit| ==> s[i + k] == lit[k]
    ensures LiteralAt(s, i, lit) <==> i + |lit| <= |s| && s[i..i + |lit|] == lit
    decreases |lit|
  {
    if |lit| > 0 && i + |lit| <= |s| {
      LiteralAtMeaning(s, i + 1, lit[1..]);
      assert s[i..i + |lit|] == [s[i]] + s[i + 1..i + 1 + |lit[1..]|];
      assert lit == [lit[0]] + lit[1..];
      if forall k :: 0 <= k < |lit| ==> s[i + k] == lit[k] {
        assert forall k :: 0 <= k < |lit[1..]| ==> s[i + 1 + k] == lit[1..][k] by {
          forall k | 0 <= k < |lit[1..]| ensures s[i + 1 + k] == lit[1..][k] {
            assert s[i + (k + 1)] == lit[k + 1];
          }
        }
      }
    }
  }

  /** `s.startsWith(prefix)`. */
  predicate StartsWith(s: string, prefix: string) {
    LiteralAt(s, 0, prefix)
  }

  /** The end of the maximal run of white space that starts at `i` (what a greedy `\s*` consumes). */
  function SkipSpace(s: string, i: nat): (j: nat)
    requires i <= |s|
    ensures i <= j <= |s|
    ensures forall k :: i <= k < j ==> IsWhitespace(s[k])
    ensures j == |s| || !IsWhitespace(s[j])
    decreases |s| - i
  {
    if i == |s| || !IsWhitespace(s[i]) then i else SkipSpace(s, i + 1)
  }

  /** The end of the maximal run of digits that starts at `i` (what a greedy `\d+` consumes). */
  function DigitRunEnd(s: string, i: nat): (j: nat)
    requires i <= |s|
    ensures i <= j <= |s|
    ensures forall k :: i <= k < j ==> IsDigit(s[k])
    ensures j == |s| || !IsDigit(s[j])
    decreases |s| - i
  {
    if i == |s| || !IsDigit(s[i]) then i else DigitRunEnd(s, i + 1)
  }

  /** ASCII upper case of `c`; every other character is left as it is. */
  function UpperAscii(c: char): char {
    if 'a' <= c <= 'z' then (c as int - 32) as char else c
  }

  /**
   * `lit` occurs at `i` under a JavaScript `/i` regular expression, for a `lit`
   * whose letters are ASCII: a non-ASCII character never folds onto an ASCII one.
   */
  predicate LiteralAtIgnoreCase(s: string, i: nat, lit: string) {
    i + |lit| <= |s| && forall k :: 0 <= k < |lit| ==> UpperAscii(s[i + k]) == UpperAscii(lit[k])
  }
}
