/** Numbers as text: itoa, uitoa, uitoh and atoi over NUL-terminated character arrays. */
module Number {
  import opened Arith

  const INT_MIN: int := -0x8000_0000
  const INT_MAX: int := 0x7fff_ffff

  function Symbol(d: nat): char
    requires d < 16
  {
    if d < 10 then ('0' as int + d) as char else ('A' as int + (d - 10)) as char
  }

  function ValueOf(c: char): int {
    if '0' <= c <= '9' then c as int - '0' as int else if 'A' <= c <= 'F' then c as int - 'A' as int + 10 else -1
  }

  ghost predicate IsNumeral(s: string, base: nat) {
    && s != [] && (|s| > 1 ==> s[0] != '0')
    && forall k :: 0 <= k < |s| ==> 0 <= ValueOf(s[k]) < base
  }

  function Value(s: string, base: nat): int {
    if s == [] then 0 else Value(s[..|s| - 1], base) * base + ValueOf(s[|s| - 1])
  }

  /** The digits of `n`, most significant first. */
  function Digits(n: nat, base: nat): (s: string)
    requires 2 <= base <= 16
    ensures s != [] && forall k :: 0 <= k < |s| ==> s[k] != '\0' && s[k] != '-' && s[k] != '+'
    decreases n
  {
    if n < base then [Symbol(n)]
    else
      Shrinks(n, base);
      Digits(n / base, base) + [Symbol(n % base)]
  }

  lemma Shrinks(n: nat, base: nat)
    requires 2 <= base <= n
    ensures 0 < n / base < n
  {
    DivMod(n, base);
    if n / base >= n {
      ScaleGrows(2, base, n / base);
    }
  }

  /** The digits are a numeral of their number, without leading zeros ... */
  lemma {:induction false} DigitsHaveTheValue(n: nat, base: nat)
    requires 2 <= base <= 16
    ensures Value(Digits(n, base), base) == n && IsNumeral(Digits(n, base), base)
    ensures (n > 0 ==> Digits(n, base)[0] != '0')
    decreases n
  {
    if n < base {
      assert Digits(n, base)[..0] == [];
    } else {
      Shrinks(n, base);
      DivMod(n, base);
      DigitsHaveTheValue(n / base, base);
      var s := Digits(n / base, base);
      assert Digits(n, base)[..|s|] == s;
    }
  }

  /** ... and the only one. */
  lemma {:induction false} NumeralsAreUnique(s: string, base: nat)
    requires 2 <= base <= 16 && IsNumeral(s, base)
    ensures Value(s, base) >= 0 && s == Digits(Value(s, base), base)
    ensures s != "0" ==> Value(s, base) > 0
    decreases |s|
  {
    var front, last := s[..|s| - 1], s[|s| - 1];
    assert s == front + [last];
    SymbolOfValue(last);
    hide Digits, Symbol, ValueOf;
    if front == [] {
      OneDigit(ValueOf(last), base);
    } else {
      NumeralsAreUnique(front, base);
      DigitsGrow(Value(front, base), ValueOf(last), base);
    }
  }

  lemma OneDigit(low: nat, base: nat)
    requires 2 <= base <= 16 && low < base
    ensures Digits(low, base) == [Symbol(low)] && (Symbol(low) == '0' <==> low == 0)
  {
  }

  lemma DigitsGrow(high: nat, low: nat, base: nat)
    requires 2 <= base <= 16 && high > 0 && low < base
    ensures Digits(high * base + low, base) == Digits(high, base) + [Symbol(low)]
    ensures high * base + low > 0
  {
    Quotient(high, low, base);
    ScaleGrows(1, high, base);
  }

  lemma SymbolOfValue(c: char)
    requires 0 <= ValueOf(c) < 16
    ensures Symbol(ValueOf(c)) == c
  {
  }

  // ----- strings in arrays -----

  /** The text before the NUL at `n`. */
  ghost predicate Holds(s: array<char>, text: string)
    reads s
  {
    |text| < s.Length && s[..|text|] == text && s[|text|] == '\0' && '\0' !in text
  }

  function Reversed(s: string): (r: string)
    ensures |r| == |s|
    ensures forall k :: 0 <= k < |s| ==> r[k] == s[|s| - 1 - k]
  {
    seq(|s|, k requires 0 <= k < |s| => s[|s| - 1 - k])
  }

  /** strlen. */
  method StrLen(s: array<char>, ghost text: string) returns (n: nat)
    requires Holds(s, text)
    ensures n == |text|
  {
    n := 0;
    while s[n] != '\0'
      invariant n <= |text|
      decreases |text| - n
    {
      assert s[..|text|][n] == text[n];
      n := n + 1;
    }
  }

  /** reverse: in place, from both ends. */
  method Reverse(s: array<char>, ghost text: string)
    requires Holds(s, text)
    modifies s
    ensures Holds(s, Reversed(text))
  {
    var n := StrLen(s, text);
    var i, j := 0, n - 1;
    assert forall k :: 0 <= k < n ==> s[k] == text[k] by {
      assert forall k :: 0 <= k < n ==> s[..n][k] == text[k];
    }
    while i < j
      invariant 0 <= i <= j + 1 && j == n - 1 - i
      invariant forall k {:trigger s[k]} :: 0 <= k < n ==> s[k] == if i <= k <= j then text[k] else text[n - 1 - k]
      invariant s[n] == '\0'
    {
      s[i], s[j] := s[j], s[i];
      i, j := i + 1, j - 1;
    }
    forall k | 0 <= k < n
      ensures s[k] == Reversed(text)[k] && s[k] != '\0'
    {
      assert text[n - 1 - k] in text;
    }
    assert s[..n] == Reversed(text);
  }

  // ----- printing -----

  /** C's division, towards zero. */
  function CDiv(a: int, b: int): int
    requires b > 0
  {
    if a >= 0 then a / b else -(-a / b)
  }

  function CMod(a: int, b: int): int
    requires b > 0
  {
    if a >= 0 then a % b else -(-a % b)
  }

  /** What the digit loops print: the digits, or one stray character for a number still negative. */
  function Printed(n: int, base: nat): (s: string)
    requires 2 <= base <= 16
    ensures s != [] && '\0' !in s
  {
    if n >= 0 then Digits(n, base)
    else
      var code := '0' as int + CMod(n, base);
      [code as char]
  }

  function LastSymbol(m: int, base: nat): char
    requires 2 <= base <= 16
  {
    if m >= 0 then Symbol(m % base) else ('0' as int + CMod(m, base)) as char
  }

  lemma PrintStep(m: int, base: nat)
    requires 2 <= base <= 16
    ensures Printed(m, base) == (if CDiv(m, base) > 0 then Printed(CDiv(m, base), base) else []) + [LastSymbol(m, base)]
    ensures CDiv(m, base) > 0 ==> 0 < CDiv(m, base) < m
  {
    if m >= base {
      Shrinks(m, base);
    } else if m >= 0 {
      SmallQuotient(m, base);
    } else {
      QuotientIsNat(-m, base);
    }
  }

  lemma QuotientIsNat(m: nat, base: nat)
    requires base > 0
    ensures m / base >= 0
  {
  }

  lemma SmallQuotient(m: nat, base: nat)
    requires m < base
    ensures m / base == 0 && m % base == m
  {
  }

  lemma ReversedCons(c: char, s: string)
    ensures Reversed([c] + s) == Reversed(s) + [c]
  {
  }

  /** The do-while loop of itoa, uitoa and uitoh: digits, least significant first. */
  method PutDigits(n: int, base: nat, s: array<char>) returns (i: nat)
    requires 2 <= base <= 16 && |Printed(n, base)| <= s.Length
    modifies s
    ensures i == |Printed(n, base)| && s[..i] == Reversed(Printed(n, base))
  {
    hide Printed, CDiv, LastSymbol, Reversed;
    ghost var text := Printed(n, base);
    ghost var done: string := [];
    var m := n;
    i := 0;
    while true
      invariant i == |done| < |text| && s[..i] == Reversed(done) && text == Printed(m, base) + done
      decreases if m >= 0 then m else 0
    {
      PrintStep(m, base);
      ReversedCons(LastSymbol(m, base), done);
      done := [LastSymbol(m, base)] + done;
      s[i] := LastSymbol(m, base);
      i := i + 1;
      assert s[..i] == s[..i - 1] + [LastSymbol(m, base)];
      m := CDiv(m, base);
      if m <= 0 {
        break;
      }
    }
  }

  /** A text of digits in place, reversed and closed by a NUL. */
  method Finish(s: array<char>, i: nat, ghost text: string)
    requires i == |text| < s.Length && s[..i] == Reversed(text) && '\0' !in text
    modifies s
    ensures Holds(s, text)
  {
    s[i] := '\0';
    forall c | c in Reversed(text)
      ensures c != '\0'
    {
      var k :| 0 <= k < |text| && Reversed(text)[k] == c;
      assert text[|text| - 1 - k] in text;
    }
    Reverse(s, Reversed(text));
    assert Reversed(Reversed(text)) == text;
  }

  /** Negation of a 32-bit integer. */
  function Neg32(n: int): int {
    if n == INT_MIN then INT_MIN else -n
  }

  /** What itoa prints. */
  function IntText(n: int): (s: string)
    requires INT_MIN <= n <= INT_MAX
  {
    if n < 0 then "-" + Printed(Neg32(n), 10) else Printed(n, 10)
  }

  /** itoa. */
  method Itoa(n: int, s: array<char>)
    requires INT_MIN <= n <= INT_MAX && |IntText(n)| < s.Length
    modifies s
    ensures Holds(s, IntText(n))
  {
    var m := n;
    if n < 0 {
      m := Neg32(n);
    }
    var i := PutDigits(m, 10, s);
    if n < 0 {
      s[i] := '-';
      i := i + 1;
      assert Reversed(IntText(n)) == Reversed(Printed(m, 10)) + "-";
      assert s[..i] == s[..i - 1] + "-";
    }
    Finish(s, i, IntText(n));
  }

  /** uitoa, base 10, and uitoh, base 16. */
  method UnsignedToText(n: nat, base: nat, s: array<char>)
    requires n < W32 && (base == 10 || base == 16) && |Digits(n, base)| < s.Length
    modifies s
    ensures Holds(s, Digits(n, base))
  {
    var i := PutDigits(n, base, s);
    Finish(s, i, Digits(n, base));
  }

  // ----- reading -----

  function Wrap32(x: int): (r: int)
    ensures INT_MIN <= r <= INT_MAX && (INT_MIN <= x <= INT_MAX ==> r == x)
  {
    (x - INT_MIN) % W32 + INT_MIN
  }

  lemma WrapDigit(a: int, d: int)
    ensures Wrap32(Wrap32(a) * 10 + d) == Wrap32(a * 10 + d)
  {
    ModDrops(Wrap32(a) * 10 + d - INT_MIN, 10 * ((a - INT_MIN) / W32), W32);
  }

  lemma WrapNegated(a: int)
    ensures Wrap32(-Wrap32(a)) == Wrap32(-a)
  {
    ModDrops(-a - INT_MIN, (a - INT_MIN) / W32, W32);
  }

  predicate IsDigit(c: char) {
    '0' <= c <= '9'
  }

  /** The digits a text starts with. */
  function Leading(s: string): (d: string)
    ensures d <= s && (forall k :: 0 <= k < |d| ==> IsDigit(d[k])) && (|d| < |s| ==> !IsDigit(s[|d|]))
  {
    if s == [] || !IsDigit(s[0]) then [] else [s[0]] + Leading(s[1..])
  }

  lemma {:induction false} LeadingIs(s: string, k: nat)
    requires k <= |s| && (forall j :: 0 <= j < k ==> IsDigit(s[j])) && (k < |s| ==> !IsDigit(s[k]))
    ensures Leading(s) == s[..k]
    decreases k
  {
    if k > 0 {
      LeadingIs(s[1..], k - 1);
      assert s[..k] == [s[0]] + s[1..][..k - 1];
    }
  }

  /** What atoi returns: a '-', then a '+', then digits, all optional. */
  function ParsedInt(text: string): int {
    var minus := text != [] && text[0] == '-';
    var rest := if minus then text[1..] else text;
    var digits := Leading(if rest != [] && rest[0] == '+' then rest[1..] else rest);
    Wrap32(if minus then -Value(digits, 10) else Value(digits, 10))
  }

  /** atoi's digit loop. */
  method ReadDigits(s: array<char>, start: nat, ghost text: string) returns (res: int)
    requires start <= |text| && |text| < s.Length && (forall k :: 0 <= k < |text| ==> s[k] == text[k])
    requires s[|text|] == '\0'
    ensures res == Wrap32(Value(Leading(text[start..]), 10))
  {
    hide Wrap32, Leading;
    ghost var rest := text[start..];
    var p := start;
    res := 0;
    ghost var k := 0;
    while '0' <= s[p] <= '9'
      invariant p == start + k && k <= |rest|
      invariant (forall j :: 0 <= j < k ==> IsDigit(rest[j])) && res == Wrap32(Value(rest[..k], 10))
      decreases |rest| - k
    {
      assert k < |rest| && s[p] == rest[k];
      assert rest[..k + 1][..k] == rest[..k];
      WrapDigit(Value(rest[..k], 10), ValueOf(s[p]));
      res := Wrap32(res * 10 + (s[p] as int - '0' as int));
      p, k := p + 1, k + 1;
    }
    LeadingIs(rest, k);
  }

  /** atoi, with 32-bit wrap-around. */
  method Atoi(s: array<char>, ghost text: string) returns (r: int)
    requires Holds(s, text)
    ensures r == ParsedInt(text)
  {
    hide Wrap32, Leading;
    assert forall k :: 0 <= k < |text| ==> s[k] == text[k] by {
      assert forall k :: 0 <= k < |text| ==> s[..|text|][k] == text[k];
    }
    var p, sign := 0, 1;
    if s[p] == '-' {
      sign := -1;
      p := p + 1;
    }
    if s[p] == '+' {
      p := p + 1;
    }
    var res := ReadDigits(s, p, text);
    WrapNegated(Value(Leading(text[p..]), 10));
    r := if sign < 0 then Wrap32(-res) else res;
  }

  lemma DigitsReadBack(a: nat)
    ensures Leading(Digits(a, 10)) == Digits(a, 10) && Value(Digits(a, 10), 10) == a
  {
    var digits := Digits(a, 10);
    DigitsHaveTheValue(a, 10);
    forall k | 0 <= k < |digits|
      ensures IsDigit(digits[k])
    {
      assert 0 <= ValueOf(digits[k]) < 10;
    }
    LeadingIs(digits, |digits|);
    assert digits[..|digits|] == digits;
  }

  /** Reading back what was printed gives the number, except for the least one: its negation wraps
      back to itself, and "-(" reads as 0. */
  lemma AtoiInvertsItoa(n: int)
    requires INT_MIN <= n <= INT_MAX
    ensures ParsedInt(IntText(n)) == n <==> n != INT_MIN
  {
    var text := IntText(n);
    if n == INT_MIN {
      assert text == "-(";
      assert Leading(text[1..]) == [];
    } else {
      var a := if n < 0 then -n else n;
      hide Digits, Leading, Value;
      DigitsReadBack(a);
      assert n < 0 ==> text[1..] == Digits(a, 10);
    }
  }
}
