/** Decimal numbers as text: `{}` and `{:0N}` formatting, and the standard library's integer parsing. */
module Digits {
  import opened Sequences

  predicate IsDigit(c: char)
  {
    '0' <= c <= '9'
  }

  predicate AllDigits(s: string)
  {
    forall i :: 0 <= i < |s| ==> IsDigit(s[i])
  }

  function DigitChar(d: nat): char
    requires d < 10
  {
    (d + 48) as char
  }

  /** `format!("{n}")`. */
  function Decimal(n: nat): string
  {
    if n < 10 then [DigitChar(n)] else Decimal(n / 10) + [DigitChar(n % 10)]
  }

  function Zeros(k: nat): string
  {
    seq(k, _ => '0')
  }

  /** `format!("{n:0width}")`. */
  function Padded(n: nat, width: nat): string
  {
    var digits := Decimal(n);
    if |digits| < width then Zeros(width - |digits|) + digits else digits
  }

  function DigitsValue(s: string): nat
    requires AllDigits(s)
  {
    if s == [] then 0 else DigitsValue(s[..|s| - 1]) * 10 + (s[|s| - 1] as int - 48)
  }

  /** `str::parse` into an unsigned integer no greater than `max`: an optional `+`, then digits only. */
  function ParseUnsigned(s: string, max: nat): Option<nat>
  {
    var digits := if |s| > 1 && s[0] == '+' then s[1..] else s;
    if digits == [] || !AllDigits(digits) || DigitsValue(digits) > max then None else Some(DigitsValue(digits))
  }

  lemma {:induction false} DecimalValue(n: nat)
    ensures Decimal(n) != [] && AllDigits(Decimal(n)) && DigitsValue(Decimal(n)) == n
  {
    if n >= 10 {
      DecimalValue(n / 10);
      assert Decimal(n)[..|Decimal(n)| - 1] == Decimal(n / 10);
    }
  }

  lemma {:induction false} ZerosAddNothing(k: nat, s: string)
    requires AllDigits(s)
    ensures AllDigits(Zeros(k) + s) && DigitsValue(Zeros(k) + s) == DigitsValue(s)
    decreases |s|, k
  {
    var z := Zeros(k) + s;
    if s != [] {
      assert z[..|z| - 1] == Zeros(k) + s[..|s| - 1];
      ZerosAddNothing(k, s[..|s| - 1]);
    } else if k > 0 {
      assert z[..k - 1] == Zeros(k - 1) + s;
      ZerosAddNothing(k - 1, s);
    }
  }

  /** Padding to any width keeps the value readable. */
  lemma PaddedValue(n: nat, width: nat)
    ensures Padded(n, width) != [] && AllDigits(Padded(n, width)) && DigitsValue(Padded(n, width)) == n
  {
    DecimalValue(n);
    if |Decimal(n)| < width { ZerosAddNothing(width - |Decimal(n)|, Decimal(n)); }
  }

  lemma ParsePadded(n: nat, width: nat, max: nat)
    requires n <= max
    ensures ParseUnsigned(Padded(n, width), max) == Some(n)
  {
    PaddedValue(n, width);
    assert IsDigit(Padded(n, width)[0]);
  }

  // ---- What the digits are ----

  lemma {:induction false} DecimalStart(n: nat)
    ensures Decimal(n) != [] && (Decimal(n)[0] == '0' <==> n == 0)
  {
    if n >= 10 { DecimalStart(n / 10); }
  }

  lemma FirstFive()
    ensures DigitsValue("12345") == 12345
  {
    assert "12345"[..4] == "1234" && "1234"[..3] == "123" && "123"[..2] == "12" && "12"[..1] == "1" && "1"[..0] == "";
  }

  /** The digits in order, and numbers written without leading zeros. */
  lemma DigitsAsWritten(n: nat)
    ensures DigitsValue("1234567890") == 1234567890
    ensures Decimal(n)[0] == '0' <==> n == 0
    ensures Decimal(0) == "0"
  {
    DecimalStart(n);
    FirstFive();
    assert "1234567890"[..9] == "123456789" && "123456789"[..8] == "12345678" && "12345678"[..7] == "1234567";
    assert "1234567"[..6] == "123456" && "123456"[..5] == "12345";
  }

  /** Two digit strings of one length with one value are equal. */
  lemma {:induction false} DigitsInjective(s: string, t: string)
    requires AllDigits(s) && AllDigits(t) && |s| == |t| && DigitsValue(s) == DigitsValue(t)
    ensures s == t
  {
    if s != [] {
      var n := |s| - 1;
      assert DigitsValue(s) / 10 == DigitsValue(s[..n]) && DigitsValue(t) / 10 == DigitsValue(t[..n]);
      DigitsInjective(s[..n], t[..n]);
      assert s == s[..n] + [s[n]] && t == t[..n] + [t[n]];
    }
  }

  /** Padding adds zeros in front, up to the width and no further. */
  lemma PaddedIs(n: nat, width: nat)
    ensures |Padded(n, width)| == if |Decimal(n)| < width then width else |Decimal(n)|
    ensures var k := |Padded(n, width)| - |Decimal(n)|;
            Padded(n, width)[k..] == Decimal(n) && forall i :: 0 <= i < k ==> Padded(n, width)[i] == '0'
  {
    hide Decimal;
  }

  /** Exactly which texts are read as `n`: its digits, zeros in front or not, after an optional plus. */
  lemma ParseUnsignedIff(s: string, max: nat, n: nat)
    ensures ParseUnsigned(s, max) == Some(n) <==>
            n <= max && exists digits :: (s == digits || s == "+" + digits) && digits != [] && AllDigits(digits)
                                         && DigitsValue(digits) == n
  {
    if digits :| (s == digits || s == "+" + digits) && digits != [] && AllDigits(digits) && DigitsValue(digits) == n {
      if s == "+" + digits {
        assert s[1..] == digits;
      } else {
        assert IsDigit(s[0]);
      }
    }
    if ParseUnsigned(s, max).Some? && |s| > 1 && s[0] == '+' { assert s == "+" + s[1..]; }
  }
}
