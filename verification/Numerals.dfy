/** Decimal numerals: how a list index is written as a key, and read back (crates/vt-mirror/src/diff.rs:67-85). */
module Numerals {
  import opened Prelude

  function Decimal(i: nat): string {
    (if i < 10 then "" else Decimal(i / 10)) + [('0' as int + i % 10) as char]
  }

  function ParseDigits(s: string): Option<nat> {
    if s == "" then Some(0)
    else
      var c, rest := s[|s| - 1], ParseDigits(s[..|s| - 1]);
      if '0' <= c <= '9' && rest.Some? then Some(10 * rest.value + (c as int - '0' as int)) else None
  }

  /** Rust's `str::parse::<usize>`: one optional plus sign, then digits; overflow is not modelled. */
  function ParseIndex(s: string): Option<nat> {
    if s == "" || s == "+" then None
    else if s[0] == '+' then ParseDigits(s[1..])
    else ParseDigits(s)
  }

  lemma {:induction false} DecimalHead(i: nat)
    ensures Decimal(i) != "" && '0' <= Decimal(i)[0] <= '9'
  {
    if i >= 10 {
      DecimalHead(i / 10);
    }
  }

  lemma {:induction false} DecimalDigits(i: nat)
    ensures ParseDigits(Decimal(i)) == Some(i)
  {
    var front := if i < 10 then "" else Decimal(i / 10);
    assert Decimal(i)[..|Decimal(i)| - 1] == front;
    if i >= 10 {
      DecimalDigits(i / 10);
    }
    assert ParseDigits(front) == Some(i / 10);
  }

  lemma DecimalParses(i: nat)
    ensures ParseIndex(Decimal(i)) == Some(i)
  {
    DecimalHead(i);
    DecimalDigits(i);
  }
}
