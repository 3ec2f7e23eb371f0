/**
 * Decimal text of a count, as `u32::to_string` renders it in the export
 * (src-tauri/src/main.rs:65) and as `format!("Number {}", n)` renders the
 * drawn number (src-tauri/src/main.rs:42): base ten, no sign, no leading zero.
 * `Parse` is the reading direction, used to state that the text is faithful.
 */
module Decimal {
  import opened Wrappers

  predicate IsDigit(c: char) {
    '0' <= c <= '9'
  }

  predicate AllDigits(s: string) {
    forall i :: 0 <= i < |s| ==> IsDigit(s[i])
  }

  function DigitChar(d: nat): (c: char)
    requires d < 10
    ensures IsDigit(c) && DigitValue(c) == d
  {
    ('0' as int + d) as char
  }

  function DigitValue(c: char): nat
    requires IsDigit(c)
  {
    c as int - '0' as int
  }

  /** The decimal rendering of `n`. */
  function Text(n: nat): (s: string)
    ensures |s| >= 1 && AllDigits(s)
    ensures |s| > 1 ==> s[0] != '0'
    decreases n
  {
    if n < 10 then [DigitChar(n)] else Text(n / 10) + [DigitChar(n % 10)]
  }

  /** The value of a string of digits, most significant first. */
  function Value(s: string): nat
    requires AllDigits(s)
    decreases |s|
  {
    if s == [] then 0 else 10 * Value(s[..|s| - 1]) + DigitValue(s[|s| - 1])
  }

  /** Reads a decimal count back; anything but a non-empty digit string is rejected. */
  function Parse(s: string): Option<nat> {
    if s != [] && AllDigits(s) then Some(Value(s)) else None
  }

  /** Reading the rendering of a count gives that count back. */
  lemma {:induction false} ParseText(n: nat)
    ensures Parse(Text(n)) == Some(n)
    decreases n
  {
    if n >= 10 {
      var s := Text(n);
      ParseText(n / 10);
      assert s[..|s| - 1] == Text(n / 10);
      assert DigitValue(s[|s| - 1]) == n % 10;
      assert Value(s) == 10 * (n / 10) + n % 10;
    }
  }

  /** Distinct counts are rendered as distinct texts. */
  lemma TextInjective(a: nat, b: nat)
    ensures Text(a) == Text(b) ==> a == b
  {
    ParseText(a);
    ParseText(b);
  }
}
