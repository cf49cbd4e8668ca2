/** Integers to text and back (`kernel/klib/conv.c`). */
module Conv {
  import opened PhysicalBytes

  const WORD: nat := 0x1_0000_0000
  const INT_LIMIT: int := 0x8000_0000
  const MINUS: Byte := 45

  predicate IsInt32(v: int) { -INT_LIMIT <= v < INT_LIMIT }

  // ---- What the text of a number is ----

  function Digit(d: nat): Byte
    requires d < 16
  {
    if d > 9 then d - 10 + 65 else d + 48
  }

  lemma Divided(n: nat, b: nat)
    requires b >= 2
    ensures n == n / b * b + n % b && n % b < b && (n > 0 ==> n / b < n)
  {
    var q := n / b;
    assert n == q * b + n % b;
    assert q * b >= 2 * q;
  }

  /** The digits of `n`, most significant first, and none for zero. */
  function Digits(n: nat, base: nat): seq<Byte>
    requires 2 <= base <= 16
  {
    if n == 0 then [] else
      Divided(n, base);
      Digits(n / base, base) + [Digit(n % base)]
  }

  lemma SplitDigits(n: nat, base: nat) returns (q: nat, r: nat)
    requires 2 <= base <= 16 && n > 0
    ensures q < n && r < base && n == q * base + r && Digits(n, base) == Digits(q, base) + [Digit(r)]
  {
    Divided(n, base);
    q, r := n / base, n % base;
  }

  lemma OneDigit(n: nat, base: nat)
    requires 2 <= base <= 16 && 0 < n < base
    ensures Digits(n, base) == [Digit(n)]
  {
    Small(n, base);
  }

  lemma Small(n: nat, b: nat)
    requires n < b
    ensures n / b == 0 && n % b == n
  {
  }

  /** A sign is written in base 10 only. */
  predicate Signed(v: int, base: nat) { base == 10 && v < 0 }

  /** The number whose digits are written: the magnitude in base 10, else the 32-bit pattern. */
  function Pattern(v: int, base: nat): nat
    requires IsInt32(v)
  {
    if v >= 0 then v else if base == 10 then -v else WORD + v
  }

  function Text(v: int, base: nat): seq<Byte>
    requires IsInt32(v) && 2 <= base <= 16
  {
    Sign(v, base) + Body(v, base)
  }

  function Sign(v: int, base: nat): seq<Byte> { if Signed(v, base) then [MINUS] else [] }

  function Body(v: int, base: nat): seq<Byte>
    requires IsInt32(v) && 2 <= base <= 16
  {
    if v == 0 then [48] else Digits(Pattern(v, base), base)
  }

  // ---- Lengths ----

  function Pow(b: nat, k: nat): nat { if k == 0 then 1 else b * Pow(b, k - 1) }

  lemma Below(q: nat, r: nat, b: nat, m: nat)
    requires b > 0 && q * b + r < b * m
    ensures q < m
  {
    assert q >= m ==> q * b >= m * b;
  }

  lemma {:induction false} DigitsShort(n: nat, base: nat, k: nat)
    requires 2 <= base <= 16 && n < Pow(base, k)
    ensures |Digits(n, base)| <= k
    decreases k
  {
    if n > 0 {
      var q, r := SplitDigits(n, base);
      Below(q, r, base, Pow(base, k - 1));
      DigitsShort(q, base, k - 1);
    }
  }

  lemma {:induction false} PowAdd(b: nat, j: nat, k: nat)
    ensures Pow(b, j + k) == Pow(b, j) * Pow(b, k)
    decreases j
  {
    if j > 0 {
      PowAdd(b, j - 1, k);
      assert b * (Pow(b, j - 1) * Pow(b, k)) == b * Pow(b, j - 1) * Pow(b, k);
    }
  }

  lemma Powers()
    ensures Pow(2, 32) == WORD && Pow(8, 11) == 2 * WORD && Pow(10, 10) == 10000000000 && Pow(16, 8) == WORD
  {
    PowAdd(2, 4, 4);
    PowAdd(2, 8, 8);
    PowAdd(2, 16, 16);
    PowAdd(8, 4, 4);
    PowAdd(8, 8, 3);
    PowAdd(10, 5, 5);
    PowAdd(16, 4, 4);
  }

  /** `CONV_MAX_CHARS_BASE_2`, `_8`, `_10` and `_16`. */
  function MaxChars(base: nat): nat {
    if base == 2 then 33 else if base == 8 then 12 else if base == 10 then 12 else 9
  }

  /** The text and its terminator fit the declared bounds. */
  lemma TextFits(v: int, base: nat)
    requires IsInt32(v) && base in {2, 8, 10, 16}
    ensures |Text(v, base)| + 1 <= MaxChars(base)
    ensures |Text(v, base)| + 1 <= (if base == 2 then 33 else if base == 16 then 9 else 12)
  {
    Powers();
    DigitsShort(Pattern(v, base), base, if base == 2 then 32 else if base == 8 then 11 else if base == 10 then 10 else 8);
  }

  // ---- Reading ----

  /** 255 for what is no digit. */
  function DigitValue(c: Byte): nat {
    if 48 <= c <= 57 then c - 48 else if 65 <= c <= 70 then c - 65 + 10 else if 97 <= c <= 102 then c - 97 + 10 else 255
  }

  /** Digits in both cases, and nothing else below base 16. */
  lemma DigitCharacters(d: nat)
    requires d < 16
    ensures Digit(d) == "0123456789ABCDEF"[d] as int
    ensures DigitValue("0123456789ABCDEF"[d] as int) == d && DigitValue("0123456789abcdef"[d] as int) == d
    ensures MINUS == '-' as int && DigitValue(MINUS) == 255
    ensures forall c: Byte :: DigitValue(c) < 16 ==>
      c == "0123456789ABCDEF"[DigitValue(c)] as int || c == "0123456789abcdef"[DigitValue(c)] as int
  {
    forall c: Byte | DigitValue(c) < 16
      ensures c == "0123456789ABCDEF"[DigitValue(c)] as int || c == "0123456789abcdef"[DigitValue(c)] as int
    {
      CharacterOf(c);
    }
  }

  lemma CharacterOf(c: Byte)
    requires DigitValue(c) < 16
    ensures c == "0123456789ABCDEF"[DigitValue(c)] as int || c == "0123456789abcdef"[DigitValue(c)] as int
  {
    var v := DigitValue(c);
    assert v < 10 ==> c == 48 + v;
  }

  /** The value of the leading digits, after those already worth `acc`. */
  function Parse(s: seq<Byte>, base: nat, acc: nat): nat {
    if s == [] || DigitValue(s[0]) >= base then acc else Parse(s[1..], base, acc * base + DigitValue(s[0]))
  }

  function Unsigned(s: seq<Byte>): seq<Byte> { if s != [] && s[0] == MINUS then s[1..] else s }

  function Number(s: seq<Byte>, base: nat): int {
    var n: int := Parse(Unsigned(s), base, 0);
    if s != [] && s[0] == MINUS then -n else n
  }

  lemma {:induction false} ParseGrows(s: seq<Byte>, base: nat, acc: nat)
    requires base > 0
    ensures Parse(s, base, acc) >= acc
  {
    if s != [] && DigitValue(s[0]) < base {
      Scaled(acc, base);
      ParseGrows(s[1..], base, acc * base + DigitValue(s[0]));
    }
  }

  lemma Scaled(a: nat, b: nat)
    requires b > 0
    ensures a * b >= a
  {
  }

  lemma DigitBack(d: nat, base: nat)
    requires d < base <= 16
    ensures DigitValue(Digit(d)) == d && Digit(d) != MINUS && Digit(d) != 0
  {
  }

  lemma ParseOne(d: Byte, rest: seq<Byte>, base: nat, acc: nat)
    requires DigitValue(d) < base
    ensures Parse([d] + rest, base, acc) == Parse(rest, base, acc * base + DigitValue(d))
  {
    assert ([d] + rest)[1..] == rest;
  }

  /** Reading digits takes back writing them. */
  lemma {:induction false} DigitsBack(n: nat, base: nat, rest: seq<Byte>)
    requires 2 <= base <= 16
    ensures Parse(Digits(n, base) + rest, base, 0) == Parse(rest, base, n)
  {
    if n == 0 {
      assert Digits(n, base) + rest == rest;
    } else {
      var q, r := SplitDigits(n, base);
      var d := Digit(r);
      assert Digits(n, base) + rest == Digits(q, base) + ([d] + rest);
      DigitsBack(q, base, [d] + rest);
      DigitBack(r, base);
      ParseOne(d, rest, base, q);
    }
  }

  lemma {:induction false} DigitsStart(n: nat, base: nat)
    requires 2 <= base <= 16 && n > 0
    ensures Digits(n, base) != [] && Digits(n, base)[0] != MINUS
  {
    var q, r := SplitDigits(n, base);
    DigitBack(r, base);
    if q > 0 { DigitsStart(q, base); }
  }

  lemma BodyBack(v: int, base: nat, end: seq<Byte>)
    requires IsInt32(v) && 2 <= base <= 16 && end != [] && end[0] == 0
    ensures Body(v, base) != [] && Body(v, base)[0] != MINUS
    ensures Parse(Body(v, base) + end, base, 0) == Pattern(v, base)
  {
    if v == 0 {
      ParseOne(48, end, base, 0);
    } else {
      DigitsStart(Pattern(v, base), base);
      DigitsBack(Pattern(v, base), base, end);
    }
  }

  lemma SignBack(sign: seq<Byte>, body: seq<Byte>, end: seq<Byte>)
    requires (sign == [] || sign == [MINUS]) && body != [] && body[0] != MINUS
    ensures Unsigned(sign + body + end) == body + end && ((sign + body + end)[0] == MINUS <==> sign != [])
  {
    assert sign + body + end == sign + (body + end);
  }

  /** What `conv_atoi` accumulates from the text of a number. */
  lemma TextBack(v: int, base: nat, rest: seq<Byte>)
    requires IsInt32(v) && 2 <= base <= 16
    ensures var s := Text(v, base) + [0] + rest;
      && Parse(Unsigned(s), base, 0) == Pattern(v, base)
      && (s[0] == MINUS <==> Signed(v, base))
  {
    var end := [0] + rest;
    BodyBack(v, base, end);
    Regrouped(Text(v, base), rest);
    SignBack(Sign(v, base), Body(v, base), end);
  }

  lemma Regrouped(text: seq<Byte>, rest: seq<Byte>)
    ensures text + [0] + rest == text + ([0] + rest)
  {
  }

  /**
   * The text of a number can be read back without leaving 32 bits exactly if the number is not
   * negative, or is written in base 10 and is not the least one; then it is the number itself.
   */
  lemma RoundTrip(v: int, base: nat, rest: seq<Byte>)
    requires IsInt32(v) && 2 <= base <= 16
    ensures var s := Text(v, base) + [0] + rest;
      && (Parse(Unsigned(s), base, 0) < INT_LIMIT <==> v >= 0 || (base == 10 && v > -INT_LIMIT))
      && (v >= 0 || base == 10 ==> Number(s, base) == v)
  {
    TextBack(v, base, rest);
  }

  /** Two texts that `conv_itoa` writes and whose value does not fit the integer that `conv_atoi` accumulates. */
  lemma OutOfRange(rest: seq<Byte>)
    ensures Parse(Unsigned(Text(-1, 16) + [0] + rest), 16, 0) == 0xFFFF_FFFF
    ensures Parse(Unsigned(Text(-0x8000_0000, 10) + [0] + rest), 10, 0) == 0x8000_0000 == INT_LIMIT
  {
    TextBack(-1, 16, rest);
    TextBack(-INT_LIMIT, 10, rest);
  }

  // ---- The program ----

  function Reversed(s: seq<Byte>): (r: seq<Byte>)
    ensures |r| == |s|
  {
    seq(|s|, i requires 0 <= i < |s| => s[|s| - 1 - i])
  }

  lemma ReversedMore(s: seq<Byte>, c: Byte)
    ensures Reversed(s + [c]) == [c] + Reversed(s)
  {
  }

  /** The loop that swaps the digits around their middle. */
  method Reverse(str: array<Byte>, start: nat, n: nat)
    requires start + n <= str.Length
    modifies str
    ensures str[start..start + n] == Reversed(old(str[start..start + n]))
    ensures str[..start] == old(str[..start]) && str[start + n..] == old(str[start + n..])
  {
    ghost var s, half := str[..], n / 2;
    for i := 0 to n / 2
      invariant forall k {:trigger str[k]} :: 0 <= k < str.Length ==>
        str[k] == if start <= k < start + i || start + n - i <= k < start + n then s[2 * start + n - 1 - k] else s[k]
    {
      var tmp := str[start + i];
      str[start + i] := str[start + n - 1 - i];
      str[start + n - 1 - i] := tmp;
    }
    assert n == 2 * half || n == 2 * half + 1;
    assert forall k {:trigger str[k]} :: start <= k < start + n ==> str[k] == s[2 * start + n - 1 - k];
    MirrorIsReversed(s, str[..], start, n);
  }

  lemma MirrorIsReversed(s: seq<Byte>, t: seq<Byte>, start: nat, n: nat)
    requires |s| == |t| && start + n <= |s| && forall k {:trigger t[k]} :: start <= k < start + n ==> t[k] == s[2 * start + n - 1 - k]
    ensures t[start..start + n] == Reversed(s[start..start + n])
  {
    var u := s[start..start + n];
    forall i | 0 <= i < n ensures t[start + i] == Reversed(u)[i] {
      assert t[start + i] == s[start + (n - 1 - i)];
    }
  }

  /** One digit off: `n % base` and `n /= base`. */
  method TakeDigit(n: nat, base: nat) returns (digit: Byte, rest: nat)
    requires 2 <= base <= 16 && n > 0
    ensures rest < n && Digits(n, base) == Digits(rest, base) + [digit]
  {
    Divided(n, base);
    digit, rest := Digit(n % base), n / base;
  }

  /** The loop that takes the digits off, least significant first. */
  method Extract(number: nat, str: array<Byte>, start: nat, base: nat, ghost all: seq<Byte>) returns (ptr: nat)
    requires 2 <= base <= 16 && all == Digits(number, base) && start + |all| < str.Length
    modifies str
    ensures ptr == start + |all| && Reversed(str[start..ptr]) == all
    ensures str[..start] == old(str[..start]) && str[ptr..] == old(str[ptr..])
  {
    var n := number;
    ghost var left, before := all, str[..];
    ptr := start;
    while n != 0
      invariant start <= ptr && ptr - start + |left| == |all| && left == Digits(n, base)
      invariant left + Reversed(str[start..ptr]) == all
      invariant str[..start] == before[..start] && str[ptr..] == before[ptr..]
      decreases n
    {
      var digit, rest := TakeDigit(n, base);
      ptr := PutDigit(str, start, ptr, digit, left, all);
      n := rest;
      left := left[..|left| - 1];
      assert str[ptr..] == before[ptr - 1..][1..];
    }
  }

  method PutDigit(str: array<Byte>, start: nat, at: nat, digit: Byte, ghost left: seq<Byte>, ghost all: seq<Byte>) returns (ptr: nat)
    requires start <= at < str.Length && left != [] && left[|left| - 1] == digit && left + Reversed(str[start..at]) == all
    modifies str
    ensures ptr == at + 1 && left[..|left| - 1] + Reversed(str[start..ptr]) == all
    ensures str[..start] == old(str[..start]) && str[ptr..] == old(str[at..])[1..]
  {
    ghost var done := str[start..at];
    ReversedMore(done, digit);
    str[at] := digit;
    ptr := at + 1;
    assert str[start..ptr] == done + [digit];
    assert left == left[..|left| - 1] + [digit];
  }

  /** `conv_itoa` */
  method Itoa(v: int, str: array<Byte>, base: nat)
    requires IsInt32(v) && 2 <= base <= 16 && |Text(v, base)| < str.Length
    modifies str
    ensures str[..|Text(v, base)| + 1] == Text(v, base) + [0]
    ensures str[|Text(v, base)| + 1..] == old(str[|Text(v, base)| + 1..])
  {
    var start := 0;
    if base == 10 && v < 0 {
      str[0] := MINUS;
      start := 1;
    }
    var n := Pattern(v, base);
    if n == 0 {
      str[0] := 48;
      str[1] := 0;
      return;
    }
    WriteNumber(n, str, start, base, Body(v, base));
    assert str[..start] == Sign(v, base);
    assert str[..|Text(v, base)| + 1] == str[..start] + str[start..start + |Body(v, base)| + 1];
  }

  method WriteNumber(n: nat, str: array<Byte>, start: nat, base: nat, ghost body: seq<Byte>)
    requires 2 <= base <= 16 && body == Digits(n, base) && start + |body| < str.Length
    modifies str
    ensures str[start..start + |body| + 1] == body + [0] && str[..start] == old(str[..start])
    ensures str[start + |body| + 1..] == old(str[start + |body| + 1..])
  {
    var ptr := Extract(n, str, start, base, body);
    ghost var digits := str[start..ptr];
    str[ptr] := 0;
    assert str[start..ptr] == digits;
    Reverse(str, start, ptr - start);
    assert str[start..ptr + 1] == str[start..ptr] + [str[ptr]];
  }

  lemma ZeroAhead(str: seq<Byte>, i: nat)
    requires i < |str| && str[i] != 0 && 0 in str[i..]
    ensures i + 1 < |str| && 0 in str[i + 1..] && str[i..] == [str[i]] + str[i + 1..]
  {
  }

  lemma ParseStep(d: Byte, rest: seq<Byte>, base: nat, acc: nat)
    requires DigitValue(d) < base
    ensures Parse(rest, base, acc * base + DigitValue(d)) == Parse([d] + rest, base, acc) >= acc * base + DigitValue(d) >= 0
  {
    ParseOne(d, rest, base, acc);
    Scaled(acc, base);
    ParseGrows(rest, base, acc * base + DigitValue(d));
  }

  method Accumulate(str: seq<Byte>, i: nat, base: nat, acc: nat, num: nat) returns (result: nat)
    requires i < |str| && str[i] != 0 && 0 in str[i..] && DigitValue(str[i]) == num < base
    ensures i + 1 < |str| && 0 in str[i + 1..] && result <= Parse(str[i..], base, acc) == Parse(str[i + 1..], base, result)
  {
    ZeroAhead(str, i);
    ParseStep(str[i], str[i + 1..], base, acc);
    result := acc * base + num;
  }

  /** `conv_atoi`, on a text whose digits stay within 32 bits. */
  method Atoi(str: seq<Byte>, base: nat) returns (result: int)
    requires 0 in str && 0 < base < 256 && Parse(Unsigned(str), base, 0) < INT_LIMIT
    ensures result == Number(str, base) && IsInt32(result)
  {
    var negative := str[0] == MINUS;
    var i := if negative then 1 else 0;
    ghost var goal := Parse(Unsigned(str), base, 0);
    result := 0;
    while str[i] != 0
      invariant i < |str| && 0 in str[i..] && 0 <= result < INT_LIMIT && Parse(str[i..], base, result) == goal
      decreases |str| - i
    {
      var num := DigitValue(str[i]);
      if num >= base {
        break;
      }
      result := Accumulate(str, i, base, result, num);
      i := i + 1;
    }
    if negative {
      result := -result;
    }
  }

  /** Writing a number and reading it again. */
  method WriteThenRead(v: int, str: array<Byte>, base: nat) returns (r: int)
    requires IsInt32(v) && 2 <= base <= 16 && |Text(v, base)| < str.Length && (v >= 0 || (base == 10 && v > -INT_LIMIT))
    modifies str
    ensures r == v
  {
    Itoa(v, str, base);
    ghost var n := |Text(v, base)| + 1;
    RoundTrip(v, base, str[n..]);
    assert str[..] == str[..n] + str[n..];
    r := Atoi(str[..], base);
  }
}
