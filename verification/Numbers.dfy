/** Decimal and hexadecimal text, as the C++ streams print it and as std::stoi reads it. */
module Numbers {
  import opened Wrappers

  const INT_LIMIT: int := 0x8000_0000
  const SIZE_LIMIT: int := 0x1_0000_0000_0000_0000

  function Min(a: nat, b: nat): nat {
    if a < b then a else b
  }

  type Base = b: nat | b == 10 || b == 16 witness 10

  /** What an int becomes when it is stored in a size_t. */
  function ToSize(i: int): nat
    requires -INT_LIMIT <= i < INT_LIMIT
  {
    if i < 0 then i + SIZE_LIMIT else i
  }

  function Digit(d: nat): (c: char)
    requires d < 16
    ensures DigitValue(c) == d
  {
    if d < 10 then ('0' as int + d) as char else ('a' as int + (d - 10)) as char
  }

  function DigitValue(c: char): nat {
    if '0' <= c <= '9' then c as nat - '0' as nat
    else if 'a' <= c <= 'f' then c as nat - 'a' as nat + 10
    else if 'A' <= c <= 'F' then c as nat - 'A' as nat + 10
    else 16
  }

  predicate IsDigit(c: char, base: Base) {
    DigitValue(c) < base
  }

  predicate IsSpace(c: char) {
    c == ' ' || 9 <= c as int <= 13
  }

  function Scale(v: nat, base: Base): nat {
    if base == 10 then v * 10 else v * 16
  }

  function Quotient(n: nat, base: Base): nat {
    if base == 10 then n / 10 else n / 16
  }

  function Remainder(n: nat, base: Base): nat {
    if base == 10 then n % 10 else n % 16
  }

  /** `n` in positional notation, lower case, without leading zeros. */
  function Print(n: nat, base: Base): (s: string)
    ensures |s| > 0 && forall i :: 0 <= i < |s| ==> IsDigit(s[i], base)
    ensures n > 0 ==> s[0] != '0'
  {
    if n < base then [Digit(n)] else Print(Quotient(n, base), base) + [Digit(Remainder(n, base))]
  }

  /** The number of leading digits. */
  function DigitRun(s: string, base: Base): (k: nat)
    ensures k <= |s|
    ensures forall i :: 0 <= i < k ==> IsDigit(s[i], base)
    ensures k < |s| ==> !IsDigit(s[k], base)
  {
    if s == "" || !IsDigit(s[0], base) then 0 else 1 + DigitRun(s[1..], base)
  }

  function Value(digits: string, base: Base): nat {
    if digits == "" then 0
    else Scale(Value(digits[..|digits| - 1], base), base) + DigitValue(digits[|digits| - 1])
  }

  function SkipSpace(s: string): (t: string)
    ensures |t| <= |s| && (t != "" ==> !IsSpace(t[0]))
  {
    if s != "" && IsSpace(s[0]) then SkipSpace(s[1..]) else s
  }

  function Sign(s: string): (k: nat)
    ensures k <= 1 && k <= |s|
  {
    if s != "" && (s[0] == '-' || s[0] == '+') then 1 else 0
  }

  function HexPrefix(s: string, base: Base): (k: nat)
    ensures k <= |s|
  {
    if base == 16 && |s| > 2 && s[0] == '0' && (s[1] == 'x' || s[1] == 'X') && IsDigit(s[2], 16) then 2 else 0
  }

  function Fit(i: int): (r: Option<int>)
    ensures r.Some? ==> -INT_LIMIT <= r.value < INT_LIMIT
  {
    if -INT_LIMIT <= i < INT_LIMIT then Some(i) else None
  }

  /**
    std::stoi: blanks, a sign, 0x in base 16, then digits up to the first non-digit; None stands for its exceptions.
   */
  function Stoi(s: string, base: Base): (r: Option<int>)
    ensures r.Some? ==> -INT_LIMIT <= r.value < INT_LIMIT
  {
    var signed := SkipSpace(s);
    var unsigned := signed[Sign(signed)..];
    var digits := unsigned[HexPrefix(unsigned, base)..];
    var k := DigitRun(digits, base);
    if k == 0 then None
    else Fit(if Sign(signed) == 1 && signed[0] == '-' then 0 - Value(digits[..k], base) else Value(digits[..k], base))
  }

  lemma {:induction false} ValueOfPrint(n: nat, base: Base)
    ensures Value(Print(n, base), base) == n
    decreases n
  {
    var s := Print(n, base);
    var last := DigitValue(s[|s| - 1]);
    assert Value(s, base) == Scale(Value(s[..|s| - 1], base), base) + last;
    if n < base {
      assert s[..|s| - 1] == "";
    } else {
      ValueOfPrint(Quotient(n, base), base);
      assert s[..|s| - 1] == Print(Quotient(n, base), base);
    }
  }

  /** Printing and reading back is the identity exactly below 2^31; beyond, std::stoi throws. */
  lemma StoiOfPrint(n: nat, base: Base)
    ensures Stoi(Print(n, base), base) == if n < INT_LIMIT then Some(n) else None
  {
    var s := Print(n, base);
    ValueOfPrint(n, base);
    PlainDigits(s, base);
  }

  lemma DigitIsPlain(c: char, base: Base)
    requires IsDigit(c, base)
    ensures !IsSpace(c) && c != '-' && c != '+' && c != 'x' && c != 'X' && c != '\r' && c != '\n'
  {
  }

  lemma PlainDigits(s: string, base: Base)
    requires s != "" && forall i :: 0 <= i < |s| ==> IsDigit(s[i], base)
    ensures Stoi(s, base) == Fit(Value(s, base))
  {
    DigitIsPlain(s[0], base);
    if |s| > 1 { DigitIsPlain(s[1], base); }
    assert SkipSpace(s) == s && Sign(s) == 0;
    assert s[0..] == s && HexPrefix(s, base) == 0;
    var k := DigitRun(s, base);
    assert k == |s| && s[..k] == s;
  }

  lemma PrintHasNoLineBytes(n: nat, base: Base)
    ensures forall i :: 0 <= i < |Print(n, base)| ==>
            Print(n, base)[i] != '\r' && Print(n, base)[i] != '\n' && !IsSpace(Print(n, base)[i])
  {
    var s := Print(n, base);
    forall i | 0 <= i < |s| ensures s[i] != '\r' && s[i] != '\n' && !IsSpace(s[i]) {
      DigitIsPlain(s[i], base);
    }
  }

  // ---------- reading any text ----------

  predicate Blanks(s: string) {
    forall i :: 0 <= i < |s| ==> IsSpace(s[i])
  }

  lemma {:induction false} SkipsBlanks(blanks: string, value: string)
    requires Blanks(blanks) && (value != "" ==> !IsSpace(value[0]))
    ensures SkipSpace(blanks + value) == value
    decreases |blanks|
  {
    if blanks == "" {
      assert "" + value == value;
    } else {
      assert (blanks + value)[1..] == blanks[1..] + value;
      SkipsBlanks(blanks[1..], value);
    }
  }

  lemma {:induction false} RunOfDigits(digits: string, tail: string, base: Base)
    requires (forall i :: 0 <= i < |digits| ==> IsDigit(digits[i], base)) && (tail != "" ==> !IsDigit(tail[0], base))
    ensures DigitRun(digits + tail, base) == |digits|
    decreases |digits|
  {
    if digits == "" {
      assert "" + tail == tail;
    } else {
      assert (digits + tail)[1..] == digits[1..] + tail;
      RunOfDigits(digits[1..], tail, base);
    }
  }

  /** What std::stoi makes of the text behind blanks and sign. */
  function Unsigned(s: string, negative: bool, base: Base): Option<int> {
    var digits := s[HexPrefix(s, base)..];
    var k := DigitRun(digits, base);
    if k == 0 then None else Fit(if negative then 0 - Value(digits[..k], base) else Value(digits[..k], base))
  }

  lemma BehindBlanks(blanks: string, sign: string, s: string, base: Base)
    requires Blanks(blanks) && sign in ["", "+", "-"]
    requires sign == "" && s != "" ==> !IsSpace(s[0]) && s[0] != '+' && s[0] != '-'
    ensures Stoi(blanks + (sign + s), base) == Unsigned(s, sign == "-", base)
  {
    var signed := sign + s;
    SkipsBlanks(blanks, signed);
    assert Sign(signed) == |sign| && signed[|sign|..] == s;
    hide Value, DigitRun, HexPrefix, SkipSpace;
  }

  /** std::stoi: behind blanks and a sign a number is read as far as its digits go, whatever stands behind them. */
  lemma StoiReads(blanks: string, sign: string, n: nat, tail: string)
    requires Blanks(blanks) && sign in ["", "+", "-"] && (tail != "" ==> !IsDigit(tail[0], 10))
    ensures var v := if sign == "-" then 0 - n else n;
            Stoi(blanks + (sign + (Print(n, 10) + tail)), 10) == if -INT_LIMIT <= v < INT_LIMIT then Some(v) else None
  {
    var digits := Print(n, 10);
    var s := digits + tail;
    DigitIsPlain(s[0], 10);
    BehindBlanks(blanks, sign, s, 10);
    RunOfDigits(digits, tail, 10);
    ValueOfPrint(n, 10);
    assert s[0..] == s && s[..|digits|] == digits;
    hide DigitRun, Value, Print, Stoi;
  }

  /** In base 16 the digits may stand behind 0x; without it, a number is one whose tail does not make it a prefix. */
  lemma StoiReadsHex(blanks: string, sign: string, prefix: string, n: nat, tail: string)
    requires Blanks(blanks) && sign in ["", "+", "-"] && prefix in ["", "0x", "0X"]
    requires tail != "" ==> !IsDigit(tail[0], 16) && (prefix == "" ==> tail[0] != 'x' && tail[0] != 'X')
    ensures var v := if sign == "-" then 0 - n else n;
            Stoi(blanks + (sign + (prefix + (Print(n, 16) + tail))), 16) ==
              if -INT_LIMIT <= v < INT_LIMIT then Some(v) else None
  {
    var digits := Print(n, 16);
    var s := prefix + (digits + tail);
    HexFront(prefix, digits, tail);
    BehindBlanks(blanks, sign, s, 16);
    RunOfDigits(digits, tail, 16);
    ValueOfPrint(n, 16);
    assert s[|prefix|..] == digits + tail && (digits + tail)[..|digits|] == digits;
    hide DigitRun, Value, Print, Stoi, HexPrefix;
  }

  lemma HexFront(prefix: string, digits: string, tail: string)
    requires prefix in ["", "0x", "0X"] && digits != "" && forall i :: 0 <= i < |digits| ==> IsDigit(digits[i], 16)
    requires tail != "" && prefix == "" ==> tail[0] != 'x' && tail[0] != 'X'
    ensures var s := prefix + (digits + tail);
            HexPrefix(s, 16) == |prefix| && !IsSpace(s[0]) && s[0] != '+' && s[0] != '-'
  {
    var s := prefix + (digits + tail);
    DigitIsPlain(digits[0], 16);
    if prefix == "" {
      assert s == digits + tail;
      if |digits| > 1 {
        DigitIsPlain(digits[1], 16);
        assert s[1] == digits[1];
      } else if tail != "" {
        assert s[1] == tail[0];
      }
    } else {
      assert s[0] == '0' && s[1] == prefix[1] && s[2] == digits[0];
    }
  }

  /** Without a digit behind blanks and sign std::stoi throws. */
  lemma StoiRefuses(blanks: string, sign: string, tail: string, base: Base)
    requires Blanks(blanks) && sign in ["", "+", "-"] && (tail != "" ==> !IsDigit(tail[0], base))
    requires sign == "" && tail != "" ==> !IsSpace(tail[0]) && tail[0] != '+' && tail[0] != '-'
    ensures Stoi(blanks + (sign + tail), base).None?
  {
    BehindBlanks(blanks, sign, tail, base);
    RunOfDigits("", tail, base);
    assert "" + tail == tail && HexPrefix(tail, base) == 0 && tail[0..] == tail;
    hide DigitRun, Value, Stoi;
  }
}
