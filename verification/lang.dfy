/**
  The slice of Java semantics the services rely on: nullable strings,
  `trim().isEmpty()`, `startsWith`, `split(" ")`, ASCII case folding,
  `Long.parseLong`, decimal rendering, 32/64-bit wrap-around and the
  bitwise `^`/`|` on non-negative ints.
 */
module Lang {

  datatype Option<+T> = None | Some(value: T)

  /** A Java `String` reference: `None` is `null`. */
  type JString = Option<string>

  /** `s.trim().isEmpty()`: `trim` strips every char at or below U+0020. */
  predicate IsBlank(s: string) {
    forall i :: 0 <= i < |s| ==> s[i] <= ' '
  }

  /** `s == null || s.trim().isEmpty()` */
  predicate NullOrBlank(s: JString) {
    s.None? || IsBlank(s.value)
  }

  /** `s == null || s.isEmpty()` (no trim) */
  predicate NullOrEmpty(s: JString) {
    s.None? || |s.value| == 0
  }

  /** What `"" + s` renders: a null reference becomes the text "null". */
  function Render(s: JString): string {
    match s
    case None => "null"
    case Some(v) => v
  }

  predicate StartsWith(s: string, prefix: string) {
    |prefix| <= |s| && s[..|prefix|] == prefix
  }

  // ---------------------------------------------------------------------
  // Splitting on a separator character

  /** Tokens glued back together with `sep` between neighbours. */
  function Join(tokens: seq<string>, sep: char): string
    requires |tokens| >= 1
  {
    if |tokens| == 1 then tokens[0] else tokens[0] + [sep] + Join(tokens[1..], sep)
  }

  /**
    Every maximal run of non-separator characters, empty runs included.
    Java's `split` additionally drops trailing empty tokens; no caller
    looks for an empty token, so the difference never shows.
   */
  function Split(s: string, sep: char): (tokens: seq<string>)
    ensures |tokens| >= 1
    ensures forall i, j :: 0 <= i < |tokens| && 0 <= j < |tokens[i]| ==> tokens[i][j] != sep
    ensures Join(tokens, sep) == s
    decreases |s|
  {
    if |s| == 0 then [""]
    else
      var rest := Split(s[1..], sep);
      if s[0] == sep then
        assert Join([""] + rest, sep) == [sep] + Join(rest, sep) by {
          assert ([""] + rest)[1..] == rest;
        }
        assert s == [s[0]] + s[1..];
        [""] + rest
      else
        var tokens := [[s[0]] + rest[0]] + rest[1..];
        assert Join(tokens, sep) == [s[0]] + Join(rest, sep) by {
          if |rest| > 1 {
            assert tokens[1..] == rest[1..];
          }
        }
        assert s == [s[0]] + s[1..];
        tokens
  }

  // ---------------------------------------------------------------------
  // ASCII case folding (`equalsIgnoreCase`, `toUpperCase`)

  function AsciiLower(c: char): (r: char)
    ensures 'A' <= c <= 'Z' ==> r as int == c as int + 32
    ensures !('A' <= c <= 'Z') ==> r == c
  {
    if 'A' <= c <= 'Z' then (c as int + 32) as char else c
  }

  function AsciiUpper(c: char): (r: char)
    ensures 'a' <= c <= 'z' ==> r as int == c as int - 32
    ensures !('a' <= c <= 'z') ==> r == c
  {
    if 'a' <= c <= 'z' then (c as int - 32) as char else c
  }

  function LowerAscii(s: string): (r: string)
    ensures |r| == |s|
    ensures forall i :: 0 <= i < |s| ==> r[i] == AsciiLower(s[i])
  {
    seq(|s|, i requires 0 <= i < |s| => AsciiLower(s[i]))
  }

  function UpperAscii(s: string): (r: string)
    ensures |r| == |s|
    ensures forall i :: 0 <= i < |s| ==> r[i] == AsciiUpper(s[i])
  {
    seq(|s|, i requires 0 <= i < |s| => AsciiUpper(s[i]))
  }

  /** `a.equalsIgnoreCase(b)`: same length and every position equal after folding. */
  predicate EqualsIgnoreCase(a: string, b: string) {
    |a| == |b| && forall i :: 0 <= i < |a| ==> AsciiLower(a[i]) == AsciiLower(b[i])
  }

  /** Case-insensitive equality is equality of the lower-cased strings. */
  lemma EqualsIgnoreCaseIsLowerEquality(a: string, b: string)
    ensures EqualsIgnoreCase(a, b) <==> LowerAscii(a) == LowerAscii(b)
  {
    if LowerAscii(a) == LowerAscii(b) {
      forall i | 0 <= i < |a| ensures AsciiLower(a[i]) == AsciiLower(b[i]) {
        assert LowerAscii(a)[i] == LowerAscii(b)[i];
      }
    }
  }

  // ---------------------------------------------------------------------
  // Fixed-width integers

  const TWO_31: int := 0x8000_0000
  const TWO_32: int := 0x1_0000_0000
  const TWO_63: int := 0x8000_0000_0000_0000
  const TWO_64: int := 0x1_0000_0000_0000_0000

  predicate IsInt32(x: int) { -TWO_31 <= x < TWO_31 }
  predicate IsLong(x: int) { -TWO_63 <= x < TWO_63 }

  /** Java `int` / `Integer` */
  type Int32 = x: int | -TWO_31 <= x < TWO_31
  /** Java `long` */
  type Long = x: int | -TWO_63 <= x < TWO_63

  /** The `int` that Java arithmetic produces for the exact value `x`. */
  function Wrap32(x: int): (r: Int32)
    ensures (r - x) % TWO_32 == 0
    ensures IsInt32(x) ==> r == x
  {
    var m := x % TWO_32;
    if m >= TWO_31 then m - TWO_32 else m
  }

  /** The `long` that Java arithmetic produces for the exact value `x`. */
  function Wrap64(x: int): (r: Long)
    ensures (r - x) % TWO_64 == 0
    ensures IsLong(x) ==> r == x
  {
    var m := x % TWO_64;
    if m >= TWO_63 then m - TWO_64 else m
  }

  /** Adding to an already wrapped sum wraps like adding to the exact sum. */
  lemma Wrap32Add(x: int, y: int)
    ensures Wrap32(Wrap32(x) + y) == Wrap32(x + y)
  {
    var w := Wrap32(x);
    assert (w + y) % TWO_32 == (x + y) % TWO_32 by {
      assert (w - x) % TWO_32 == 0;
    }
  }

  // ---------------------------------------------------------------------
  // Decimal text

  predicate IsDigit(c: char) { '0' <= c <= '9' }

  predicate AllDigits(s: string) {
    forall i :: 0 <= i < |s| ==> IsDigit(s[i])
  }

  function DigitChar(d: nat): (c: char)
    requires d < 10
    ensures IsDigit(c) && c as int - '0' as int == d
  {
    ('0' as int + d) as char
  }

  /** The number a run of decimal digits denotes (most significant first). */
  function DigitsValue(s: string): nat
    requires AllDigits(s)
  {
    if |s| == 0 then 0 else DigitsValue(s[..|s| - 1]) * 10 + (s[|s| - 1] as int - '0' as int)
  }

  /** Shortest decimal rendering of a natural number. */
  function NatToString(n: nat): (s: string)
    ensures |s| >= 1 && AllDigits(s)
    ensures DigitsValue(s) == n
    ensures s[0] == '0' ==> n == 0
  {
    if n < 10 then [DigitChar(n)]
    else
      var s := NatToString(n / 10) + [DigitChar(n % 10)];
      assert s[..|s| - 1] == NatToString(n / 10);
      s
  }

  /** `String.valueOf(n)` / `%d` */
  function IntToString(n: int): (s: string)
    ensures |s| >= 1
    ensures n < 0 <==> s[0] == '-'
  {
    if n < 0 then "-" + NatToString(-n) else NatToString(n)
  }

  /**
    `Long.parseLong(s)`: an optional sign followed by at least one digit,
    and the value must fit a `long`; anything else (including `null`)
    is a `NumberFormatException`, here `None`.
   */
  function ParseLong(s: JString): (r: Option<Long>)
    ensures r.Some? ==> s.Some? && |s.value| >= 1
  {
    if s.None? || |s.value| == 0 then None
    else
      var t := s.value;
      var digits := if t[0] == '-' || t[0] == '+' then t[1..] else t;
      if |digits| == 0 || !AllDigits(digits) then None
      else
        var v: int := if t[0] == '-' then 0 - DigitsValue(digits) as int else DigitsValue(digits);
        if IsLong(v) then Some(v) else None
  }

  /** Rendering a `long` in decimal and parsing it back gives the same `long`. */
  lemma ParseLongOfIntToString(n: Long)
    ensures ParseLong(Some(IntToString(n))) == Some(n)
  {
    var t := IntToString(n);
    if n < 0 {
      assert t[1..] == NatToString(-(n as int));
    } else {
      assert t[0] != '-' && t[0] != '+';
    }
  }

  // ---------------------------------------------------------------------
  // Bitwise operators on non-negative ints

  /** `a ^ b` */
  function BitXor(a: nat, b: nat): nat
    decreases a + b
  {
    if a == 0 && b == 0 then 0 else 2 * BitXor(a / 2, b / 2) + (a + b) % 2
  }

  /** `a | b` */
  function BitOr(a: nat, b: nat): nat
    decreases a + b
  {
    if a == 0 && b == 0 then 0 else 2 * BitOr(a / 2, b / 2) + (if a % 2 == 1 || b % 2 == 1 then 1 else 0)
  }

  lemma {:induction false} BitXorZero(a: nat, b: nat)
    ensures BitXor(a, b) == 0 <==> a == b
    decreases a + b
  {
    if a != 0 || b != 0 {
      BitXorZero(a / 2, b / 2);
    }
  }

  lemma {:induction false} BitOrZero(a: nat, b: nat)
    ensures BitOr(a, b) == 0 <==> a == 0 && b == 0
    decreases a + b
  {
    if a != 0 || b != 0 {
      BitOrZero(a / 2, b / 2);
    }
  }
}
