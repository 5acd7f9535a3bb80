/** Whole numbers as text: how the Rust library prints and parses them. */
module Numbers {
  import opened Strings

  /** The largest `u32`, `u64` and `usize`. */
  const U32_MAX: nat := 0xFFFF_FFFF
  const U64_MAX: nat := 0xFFFF_FFFF_FFFF_FFFF
  const USIZE_MAX: nat := U64_MAX

  function Digit(v: nat): char
    requires v < 10
  {
    (v + '0' as int) as char
  }

  function Decimal(n: nat): (s: string)
    ensures s != [] && Every(s, IsDigit)
  {
    if n < 10 then [Digit(n)] else Decimal(n / 10) + [Digit(n % 10)]
  }

  function DigitsValue(s: string): nat
    requires Every(s, IsDigit)
  {
    if s == [] then 0 else DigitsValue(s[..|s| - 1]) * 10 + (s[|s| - 1] as int - '0' as int)
  }

  /** `str::parse::<usize>`: an optional `+`, then digits, within the width. */
  function ParseUsize(s: string): Option<nat> {
    var digits := if s != [] && s[0] == '+' then s[1..] else s;
    if digits == [] || !Every(digits, IsDigit) || DigitsValue(digits) > USIZE_MAX then None
    else Some(DigitsValue(digits))
  }

  lemma {:induction false} DecimalValue(n: nat)
    ensures DigitsValue(Decimal(n)) == n
  {
    if n < 10 {
      assert [Digit(n)][..0] == [];
    } else {
      DecimalValue(n / 10);
      assert Decimal(n)[..|Decimal(n)| - 1] == Decimal(n / 10);
    }
  }

  lemma DecimalParses(n: nat)
    requires n <= USIZE_MAX
    ensures ParseUsize(Decimal(n)) == Some(n)
  {
    DecimalValue(n);
    assert IsDigit(Decimal(n)[0]);
  }

  /** What parses: digits, with or without one `+` before them, whose value fits; and nothing else. */
  lemma ParsesExactly(s: string, digits: string)
    requires Every(digits, IsDigit) && digits != []
    ensures ParseUsize(digits) == if DigitsValue(digits) <= USIZE_MAX then Some(DigitsValue(digits)) else None
    ensures ParseUsize(['+'] + digits) == ParseUsize(digits)
    ensures ParseUsize(s).Some? ==>
      s != [] && (Every(s, IsDigit) || (s[0] == '+' && s[1..] != [] && Every(s[1..], IsDigit)))
  {
    assert IsDigit(digits[0]) && (['+'] + digits)[1..] == digits;
  }
}
