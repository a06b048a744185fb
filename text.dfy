/** String helpers shared by the recognisers and the code generator. */
module Text {

  /** A slice that is empty when the bounds do not describe one, so that
      callers holding arbitrary positions need no precondition. */
  function Slice(s: string, i: nat, j: nat): (r: string)
    ensures i <= j <= |s| ==> r == s[i..j]
    ensures !(i <= j <= |s|) ==> r == ""
  {
    if i <= j <= |s| then s[i..j] else ""
  }

  /** `word` is written in `s` from position `i`. */
  predicate StartsAt(s: string, i: nat, word: string)
  {
    i + |word| <= |s| && s[i..i + |word|] == word
  }

  /** Swift's `joined(separator:)`: the parts in order with `separator` between neighbours. */
  function Join(parts: seq<string>, separator: string): string
  {
    if |parts| == 0 then ""
    else if |parts| == 1 then parts[0]
    else parts[0] + separator + Join(parts[1..], separator)
  }

  /** A join of parts that each hold a character is empty exactly when there are no parts. */
  lemma JoinEmptyIff(parts: seq<string>, separator: string)
    requires forall i :: 0 <= i < |parts| ==> |parts[i]| > 0
    ensures Join(parts, separator) == "" <==> |parts| == 0
  {
    if |parts| > 0 {
      assert |Join(parts, separator)| >= |parts[0]|;
    }
  }

  /** The decimal digits of `n`, as Swift's `"\(index)"` prints a non-negative `Int`. */
  function DecimalString(n: nat): (r: string)
    ensures |r| > 0
    ensures forall k :: 0 <= k < |r| ==> '0' <= r[k] <= '9'
    ensures DecimalValue(r) == n
    ensures |r| == 1 || r[0] != '0'
  {
    if n < 10 then [Digit(n)]
    else
      var front := DecimalString(n / 10);
      var r := front + [Digit(n % 10)];
      assert r[..|r| - 1] == front;
      r
  }

  /** The number a string of decimal digits denotes. */
  function DecimalValue(s: string): nat
  {
    if |s| == 0 then 0
    else
      var d := s[|s| - 1] as int - '0' as int;
      DecimalValue(s[..|s| - 1]) * 10 + (if 0 <= d then d else 0)
  }

  function Digit(d: nat): (c: char)
    requires d < 10
    ensures '0' <= c <= '9'
    ensures c as int - '0' as int == d
  {
    ['0', '1', '2', '3', '4', '5', '6', '7', '8', '9'][d]
  }

  /** Regex `\s`: a character with the Unicode White_Space property. */
  predicate IsWhitespace(c: char)
  {
    c == ' ' || c == '\t' || c == '\n' || c == '\r' || c == '\U{0B}' || c == '\U{0C}'
    || c == '\U{85}' || c == '\U{A0}' || c == '\U{1680}' || ('\U{2000}' <= c <= '\U{200A}')
    || c == '\U{2028}' || c == '\U{2029}' || c == '\U{202F}' || c == '\U{205F}' || c == '\U{3000}'
  }

  /** Regex `\w`, restricted to ASCII: a letter, a digit or an underscore. */
  predicate IsWordChar(c: char)
  {
    ('a' <= c <= 'z') || ('A' <= c <= 'Z') || ('0' <= c <= '9') || c == '_'
  }

  /** The characters that regex `.` does not match: Swift's newline characters. */
  predicate IsNewline(c: char)
  {
    c == '\n' || c == '\r' || c == '\U{0B}' || c == '\U{0C}' || c == '\U{85}'
    || c == '\U{2028}' || c == '\U{2029}'
  }

  /** The class `[\.\w\(\)\s]` that an override value is made of. */
  predicate IsValueChar(c: char)
  {
    c == '.' || IsWordChar(c) || c == '(' || c == ')' || IsWhitespace(c)
  }

  /** The character classes the override patterns repeat: `\w`, `\s` and the
      value class `[\.\w\(\)\s]`. */
  datatype CharClass = WordClass | SpaceClass | ValueClass

  predicate InClass(c: char, cls: CharClass)
  {
    match cls
    case WordClass => IsWordChar(c)
    case SpaceClass => IsWhitespace(c)
    case ValueClass => IsValueChar(c)
  }

  predicate AllChars(s: string, p: char -> bool)
  {
    forall k :: 0 <= k < |s| ==> p(s[k])
  }

  /** Every character of `s` is in the class `cls`. */
  predicate AllIn(s: string, cls: CharClass)
  {
    forall k :: 0 <= k < |s| ==> InClass(s[k], cls)
  }
}
