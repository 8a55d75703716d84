/** Numbers as text: flopitoa and flopatoi of lib/str.c, memflopitoa of lib/logging.c. */
module Decimal {
  import opened Common

  const INT_MIN: int := -0x8000_0000
  const INT_MAX: int := 0x7FFF_FFFF
  const DIGITS: string := "0123456789ABCDEF"

  predicate IsDigit(c: char) {
    '0' <= c <= '9'
  }

  /** The value of a digit of any base up to 16. */
  function DigitValue(c: char): (d: nat)
    ensures d < 16
  {
    if IsDigit(c) then (c - '0') as nat else if 'A' <= c <= 'F' then (c - 'A') as nat + 10 else 0
  }

  lemma DigitOf(d: nat)
    requires d < 16
    ensures DigitValue(DIGITS[d]) == d && (d == 0 <==> DIGITS[d] == '0')
    ensures d < 10 ==> DIGITS[d] == '0' + d as char && IsDigit(DIGITS[d])
    ensures d >= 10 ==> DIGITS[d] == 'A' + (d - 10) as char
  {
  }

  /** Reading digits, highest first, on top of what has been read already. */
  ghost function Fold(high: nat, s: string, base: nat): nat
    decreases |s|
  {
    if s == [] then high else Fold(high * base + DigitValue(s[0]), s[1..], base)
  }

  /** The number that digits stand for. */
  ghost function Val(s: string, base: nat): nat {
    Fold(0, s, base)
  }

  /** The last digit counts once, and those before it `base` times as much as alone. */
  lemma ValLast(s: string, c: char, base: nat)
    ensures Val([], base) == 0
    ensures Val(s + [c], base) == Val(s, base) * base + DigitValue(c)
  {
    FoldLast(0, s, c, base);
  }

  lemma {:induction false} FoldLast(high: nat, s: string, c: char, base: nat)
    ensures Fold(high, s + [c], base) == Fold(high, s, base) * base + DigitValue(c)
    decreases |s|
  {
    if s == [] {
      assert [] + [c] == [c] && [c][1..] == [];
    } else {
      assert (s + [c])[0] == s[0] && (s + [c])[1..] == s[1..] + [c];
      FoldLast(high * base + DigitValue(s[0]), s[1..], c, base);
    }
  }

  ghost function Reversed(s: string): (r: string)
    ensures |r| == |s| && forall k {:trigger r[k]} | 0 <= k < |r| :: r[k] == s[|s| - 1 - k]
  {
    seq(|s|, k requires 0 <= k < |s| => s[|s| - 1 - k])
  }

  /** Splitting the lowest digit off and putting it in front of those split off before. */
  lemma OneDigit(value: nat, t: string, base: nat, c: char)
    requires base >= 2 && DigitValue(c) == value % base
    ensures Reversed(t + [c]) == [c] + Reversed(t)
    ensures Fold(value / base, Reversed(t + [c]), base) == Fold(value, Reversed(t), base)
  {
    var h := Reversed(t);
    assert Reversed(t + [c]) == [c] + h;
    assert ([c] + h)[1..] == h;
    assert value / base * base + value % base == value;
  }

  ghost function Power(base: nat, k: nat): nat {
    if k == 0 then 1 else base * Power(base, k - 1)
  }

  lemma SmallerQuotient(value: nat, base: nat, k: nat)
    requires base >= 2 && k > 0 && value < Power(base, k)
    ensures 0 <= value / base < Power(base, k - 1) && (value > 0 ==> value / base < value)
  {
    Quotient(value, base);
    var p, q := Power(base, k - 1), value / base;
    if q >= p {
      Products(p, base, q, base);
    }
  }

  lemma Quotient(value: nat, base: nat)
    requires base >= 2
    ensures value / base * base <= value && (value > 0 ==> value / base < value)
  {
    var q := value / base;
    assert q * base + value % base == value;
    Products(q, 2, q, base);
  }

  lemma Products(a: nat, b: nat, c: nat, d: nat)
    requires a <= c && b <= d
    ensures a * b <= c * d
  {
    assert a * b <= c * b <= c * d;
  }

  /** `s` reads as `v`: a minus sign if negative, then digits of that value, padded with zeros
      to the width and not any further. */
  ghost predicate Renders(s: string, v: int, width: int) {
    var sign := if v < 0 then 1 else 0;
    && |s| > sign && (v < 0 ==> s[0] == '-')
    && var d := s[sign..];
       && (forall k {:trigger d[k]} | 0 <= k < |d| :: IsDigit(d[k]))
       && Val(d, 10) == (if v < 0 then -v else v)
       && |s| >= width && (|s| > width && |d| > 1 ==> d[0] != '0')
  }

  predicate IsSpace(c: char) {
    c == ' ' || c == '\t' || c == '\n' || c == '\r' || c == '\U{0B}' || c == '\U{0C}'
  }

  /** The first position from `i` on that is no space. */
  ghost function SkipSpaces(s: string, i: nat): (j: nat)
    requires i <= |s|
    ensures i <= j <= |s|
    decreases |s| - i
  {
    if i < |s| && IsSpace(s[i]) then SkipSpaces(s, i + 1) else i
  }

  /** The first position from `i` on that is no digit. */
  ghost function SkipDigits(s: string, i: nat): (j: nat)
    requires i <= |s|
    ensures i <= j <= |s| && forall k {:trigger s[k]} | i <= k < j :: IsDigit(s[k])
    ensures j < |s| ==> !IsDigit(s[j])
    decreases |s| - i
  {
    if i < |s| && IsDigit(s[i]) then SkipDigits(s, i + 1) else i
  }

  ghost function SignEnd(s: string): nat
    ensures SignEnd(s) <= |s|
  {
    var i := SkipSpaces(s, 0);
    if i < |s| && (s[i] == '-' || s[i] == '+') then i + 1 else i
  }

  /** The digits flopatoi reads. */
  ghost function Digits(s: string): string {
    s[SignEnd(s)..SkipDigits(s, SignEnd(s))]
  }

  ghost predicate Negative(s: string) {
    SkipSpaces(s, 0) < |s| && s[SkipSpaces(s, 0)] == '-'
  }

  /** The number a string starts with. */
  ghost function Parsed(s: string): int {
    var n: int := Val(Digits(s), 10);
    if Negative(s) then -n else n
  }

  /** A space in front, of any of the six kinds, makes no difference. */
  lemma SpaceAside(c: char, s: string)
    requires c == ' ' || c == '\t' || c == '\n' || c == '\r' || c == '\U{0B}' || c == '\U{0C}'
    ensures Parsed([c] + s) == Parsed(s)
  {
    SignLater(c, s);
    DigitsLater(c, s, SignEnd(s));
    Later(c, s, SignEnd(s), SkipDigits(s, SignEnd(s)));
  }

  lemma SignLater(c: char, s: string)
    requires IsSpace(c)
    ensures SignEnd([c] + s) == 1 + SignEnd(s) && (Negative([c] + s) <==> Negative(s))
  {
    var t := [c] + s;
    SkipLater(c, s, 0);
    assert SkipSpaces(t, 0) == SkipSpaces(t, 1);
    assert forall i | 0 <= i < |s| :: t[1 + i] == s[i];
  }

  lemma Later(c: char, s: string, i: nat, j: nat)
    requires i <= j <= |s|
    ensures ([c] + s)[1 + i..1 + j] == s[i..j]
  {
  }

  lemma {:induction false} SkipLater(c: char, s: string, i: nat)
    requires i <= |s|
    ensures SkipSpaces([c] + s, 1 + i) == 1 + SkipSpaces(s, i)
    decreases |s| - i
  {
    if i < |s| && IsSpace(s[i]) {
      SkipLater(c, s, i + 1);
    }
  }

  lemma {:induction false} DigitsLater(c: char, s: string, i: nat)
    requires i <= |s|
    ensures SkipDigits([c] + s, 1 + i) == 1 + SkipDigits(s, i)
    decreases |s| - i
  {
    if i < |s| && IsDigit(s[i]) {
      DigitsLater(c, s, i + 1);
    }
  }

  /** Nor any number of them. */
  lemma {:induction false} SpacesAside(spaces: string, s: string)
    requires forall k {:trigger spaces[k]} | 0 <= k < |spaces| ::
               var c := spaces[k];
               c == ' ' || c == '\t' || c == '\n' || c == '\r' || c == '\U{0B}' || c == '\U{0C}'
    ensures Parsed(spaces + s) == Parsed(s)
    decreases |spaces|
  {
    if spaces == [] {
      assert spaces + s == s;
    } else {
      SpacesAside(spaces[1..], s);
      SpaceAside(spaces[0], spaces[1..] + s);
      assert spaces + s == [spaces[0]] + (spaces[1..] + s);
    }
  }

  /** A plus sign in front of digits makes no difference either, and a minus sign turns the number. */
  lemma SignAside(s: string)
    requires s != [] && '0' <= s[0] <= '9'
    ensures Parsed(['+'] + s) == Parsed(s) && Parsed(['-'] + s) == -Parsed(s)
  {
    assert SkipSpaces(s, 0) == 0 && SignEnd(s) == 0;
    SignedDigits('+', s);
    SignedDigits('-', s);
  }

  lemma SignedDigits(c: char, s: string)
    requires s != [] && '0' <= s[0] <= '9' && (c == '+' || c == '-')
    ensures Digits([c] + s) == Digits(s) && (Negative([c] + s) <==> c == '-')
  {
    var t := [c] + s;
    assert SkipSpaces(t, 0) == 0 && SignEnd(t) == 1;
    assert SkipSpaces(s, 0) == 0 && SignEnd(s) == 0;
    DigitsLater(c, s, 0);
  }

  /** A string that starts with anything else reads as 0. */
  lemma NoNumber(s: string)
    requires s != [] && !('0' <= s[0] <= '9') && s[0] !in [' ', '\t', '\n', '\r', '\U{0B}', '\U{0C}', '+', '-']
    ensures Parsed(s) == 0
  {
    assert !IsSpace(s[0]);
    assert SkipSpaces(s, 0) == 0 && SignEnd(s) == 0 && SkipDigits(s, 0) == 0;
  }

  /** flopatoi of null, or of a terminated string whose number fits an int. */
  method Flopatoi(text: Option<string>) returns (r: int)
    requires text.Some? ==> text.value != [] && text.value[|text.value| - 1] == '\0'
    requires text.Some? ==> Val(Digits(text.value), 10) <= INT_MAX
    ensures r == if text.None? then 0 else Parsed(text.value)
  {
    if text.None? {
      return 0;
    }
    var str := text.value;
    var i: nat := 0;
    while IsSpace(str[i])
      invariant i < |str| && SkipSpaces(str, i) == SkipSpaces(str, 0)
      decreases |str| - i
    {
      i := i + 1;
    }
    var sign: int := 1;
    if str[i] == '-' {
      sign := -1;
      i := i + 1;
    } else if str[i] == '+' {
      i := i + 1;
    }
    var result := ReadDigits(str, i);
    return result * sign;
  }

  /** The last loop of flopatoi. */
  method ReadDigits(str: string, start: nat) returns (result: nat)
    requires str != [] && str[|str| - 1] == '\0' && start < |str|
    ensures result == Val(str[start..SkipDigits(str, start)], 10)
  {
    ghost var e := SkipDigits(str, start);
    var i: nat := start;
    result := 0;
    while IsDigit(str[i])
      invariant i <= e < |str| && SkipDigits(str, i) == e
      invariant Fold(result, str[i..e], 10) == Val(str[start..e], 10)
      decreases |str| - i
    {
      assert str[i..e][1..] == str[i + 1..e];
      result := result * 10 + (str[i] - '0') as nat;
      i := i + 1;
    }
  }

  /** What flopitoa renders flopatoi reads back. */
  lemma RoundTrip(s: string, v: int, width: int)
    requires Renders(s, v, width)
    ensures Parsed(s + ['\0']) == v
  {
    var t, sign: nat := s + ['\0'], if v < 0 then 1 else 0;
    var d := s[sign..];
    assert IsDigit(d[0]) && t[sign] == d[0];
    assert v < 0 ==> t[0] == '-';
    assert SkipSpaces(t, 0) == 0;
    assert SignEnd(t) == sign;
    forall k | sign <= k < |s| ensures IsDigit(t[k]) {
      assert t[k] == d[k - sign];
    }
    var e := SkipDigits(t, sign);
    assert t[|s|] == '\0' && !IsDigit(t[|s|]);
    assert e == |s|;
    assert t[sign..e] == d;
  }

  /** The decimal digits `t`, lowest first, stand for `value`. */
  ghost predicate Split(value: nat, t: string) {
    && t != [] && (forall k {:trigger t[k]} | 0 <= k < |t| :: IsDigit(t[k]))
    && Val(Reversed(t), 10) == value
  }

  /** The first loop of flopitoa. */
  method LowDigits(number: nat, temp: array<char>) returns (i: nat)
    requires number <= INT_MAX && temp.Length == 12
    modifies temp
    ensures i <= 10 && Split(number, temp[..i]) && (i > 1 ==> temp[i - 1] != '0')
  {
    var value: nat := number;
    i := 0;
    assert Power(10, 10) > INT_MAX by { BillionsFit(); }
    while true
      invariant i < 10 && value < Power(10, 10 - i) && (i > 0 ==> value > 0)
      invariant forall k {:trigger temp[k]} | 0 <= k < i :: IsDigit(temp[k])
      invariant Fold(value, Reversed(temp[..i]), 10) == number
      decreases value + if i == 0 then 1 else 0
    {
      DigitOf(value % 10);
      OneDigit(value, temp[..i], 10, DIGITS[value % 10]);
      SmallerQuotient(value, 10, 10 - i);
      ghost var t := temp[..i];
      temp[i] := '0' + (value % 10) as char;
      assert temp[..i + 1] == t + [DIGITS[value % 10]];
      i := i + 1;
      if value / 10 == 0 {
        break;
      }
      value := value / 10;
    }
  }

  lemma BillionsFit()
    ensures Power(10, 10) == 10000000000
  {
    assert Power(10, 2) == 100;
    assert Power(10, 4) == 10000;
    assert Power(10, 6) == 1000000;
    assert Power(10, 8) == 100000000;
  }

  /** The padding loop of flopitoa. */
  method Pad(number: nat, temp: array<char>, start: nat, width: int) returns (i: nat)
    requires temp.Length == 12 && start <= 10 && width <= 12 && Split(number, temp[..start])
    modifies temp
    ensures start <= i <= 12 && Split(number, temp[..i]) && i >= width
    ensures i > start ==> i == width
    ensures i == start ==> temp[..] == old(temp[..])
  {
    i := start;
    var padding := width - i;
    while padding > 0
      invariant start <= i <= 12 && padding == width - i && Split(number, temp[..i])
      invariant i > start ==> i <= width
      invariant i == start ==> temp[..] == old(temp[..])
    {
      ghost var t := temp[..i];
      OneDigit(0, t, 10, '0');
      temp[i] := '0';
      assert temp[..i + 1] == t + ['0'];
      i := i + 1;
      padding := padding - 1;
    }
  }

  /** flopitoa.  Its scratch array takes twelve digits, which bounds the width. */
  method Flopitoa(v: int, buffer: array<char>, width: int) returns (len: nat)
    requires INT_MIN <= v <= INT_MAX && buffer.Length > Max(width, 11)
    requires v != INT_MIN ==> width <= if v < 0 then 13 else 12
    modifies buffer
    ensures len < buffer.Length && buffer[len] == '\0'
    ensures v != INT_MIN ==> Renders(buffer[..len], v, width)
    ensures v == INT_MIN ==> buffer[..len] == "-2147483648"
  {
    if v == INT_MIN {
      var text := "-2147483648";
      len := 0;
      while len < |text|
        invariant len <= |text| && buffer[..len] == text[..len]
      {
        buffer[len] := text[len];
        len := len + 1;
      }
      buffer[len] := '\0';
      return;
    }
    var isNegative := v < 0;
    var value: nat := if isNegative then -v else v;
    var temp := new char[12];
    var i := LowDigits(value, temp);
    i := Pad(value, temp, i, width - if isNegative then 1 else 0);
    len := 0;
    if isNegative {
      buffer[0] := '-';
      len := 1;
    }
    ghost var sign := len;
    len := Emit(buffer, len, temp, i);
    buffer[len] := '\0';
    assert buffer[..len][sign..] == Reversed(temp[..i]);
  }

  /** The last loop of flopitoa: the digits, highest first. */
  method Emit(buffer: array<char>, start: nat, temp: array<char>, n: nat) returns (len: nat)
    requires start + n < buffer.Length && n <= temp.Length && buffer != temp
    modifies buffer
    ensures len == start + n && buffer[..start] == old(buffer[..start])
    ensures buffer[start..len] == Reversed(temp[..n])
  {
    var i: nat := n;
    len := start;
    while i > 0
      invariant i <= n && len == start + n - i && buffer[..start] == old(buffer[..start])
      invariant forall k {:trigger buffer[k]} | start <= k < len :: buffer[k] == temp[n - 1 - (k - start)]
    {
      i := i - 1;
      buffer[len] := temp[i];
      len := len + 1;
    }
  }

  predicate IsDigitOf(c: char, base: nat) {
    DigitValue(c) < base && DIGITS[DigitValue(c)] == c
  }

  /** `s` are the digits of `value`, without a leading zero unless that is all. */
  ghost predicate InBase(s: string, value: nat, base: nat) {
    && s != [] && Val(s, base) == value && (|s| > 1 ==> s[0] != '0')
    && forall k {:trigger s[k]} | 0 <= k < |s| :: IsDigitOf(s[k], base)
  }

  lemma ZeroInBase(base: nat)
    requires base >= 2
    ensures InBase("0", 0, base)
  {
    assert "0"[1..] == [];
    assert Fold(0, "0", base) == Fold(0 * base + 0, [], base);
  }

  /** memflopitoa, into a buffer that has room for the digits and the terminator. */
  method Memflopitoa(number: nat, buffer: array<char>, base: nat) returns (len: nat)
    requires number < WORD && buffer.Length > 0
    requires 2 <= base <= 16 ==> buffer.Length >= 2 && number < Power(base, buffer.Length - 1)
    modifies buffer
    ensures len < buffer.Length && buffer[len] == '\0'
    ensures if 2 <= base <= 16 then InBase(buffer[..len], number, base) else len == 0
  {
    if base < 2 || base > 16 {
      buffer[0] := '\0';
      return 0;
    }
    if number == 0 {
      buffer[0] := '0';
      buffer[1] := '\0';
      ZeroInBase(base);
      assert buffer[..1] == "0";
      return 1;
    }
    len := DigitsUp(number, buffer, base);
    buffer[len] := '\0';
    Reverse(buffer, len);
  }

  /** Sixteen characters hold every 32-bit number in the two bases the kernel prints. */
  lemma SixteenSuffice(number: nat)
    requires number < WORD
    ensures number < Power(16, 15) && number < Power(10, 15)
  {
    BillionsFit();
    assert Power(10, 15) == 100000 * Power(10, 10) by {
      assert Power(10, 12) == 100 * Power(10, 10);
      assert Power(10, 14) == 100 * Power(10, 12);
    }
    assert Power(16, 4) == 65536;
    assert Power(16, 8) == 65536 * Power(16, 4) by {
      assert Power(16, 6) == 256 * Power(16, 4);
    }
    PowerGrows(16, 8, 15);
  }

  lemma {:induction false} PowerGrows(base: nat, j: nat, k: nat)
    requires base >= 2 && j <= k
    ensures 0 < Power(base, j) <= Power(base, k)
    decreases k
  {
    if j < k {
      PowerGrows(base, j, k - 1);
      Products(1, Power(base, k - 1), base, Power(base, k - 1));
    } else if k > 0 {
      PowerGrows(base, k - 1, k - 1);
      Products(1, Power(base, k - 1), base, Power(base, k - 1));
    }
  }

  /** The first loop of memflopitoa. */
  method DigitsUp(number: nat, buffer: array<char>, base: nat) returns (len: nat)
    requires 2 <= base <= 16 && buffer.Length >= 2 && 0 < number < Power(base, buffer.Length - 1)
    modifies buffer
    ensures 0 < len < buffer.Length && InBase(Reversed(buffer[..len]), number, base)
  {
    ghost var room := buffer.Length - 1;
    var value: nat := number;
    len := 0;
    while value != 0
      invariant len <= room && value < Power(base, room - len) && (len == 0 ==> value > 0)
      invariant forall k {:trigger buffer[k]} | 0 <= k < len :: IsDigitOf(buffer[k], base)
      invariant Fold(value, Reversed(buffer[..len]), base) == number
      invariant value == 0 ==> buffer[len - 1] != '0'
      decreases value
    {
      SmallerQuotient(value, base, room - len);
      PutDigit(value, buffer, len, base);
      len := len + 1;
      value := value / base;
    }
  }

  /** One digit of memflopitoa. */
  method PutDigit(value: nat, buffer: array<char>, len: nat, base: nat)
    requires value > 0 && len < buffer.Length && 2 <= base <= 16
    modifies buffer
    ensures buffer[..len] == old(buffer[..len]) && IsDigitOf(buffer[len], base) && (value / base == 0 ==> buffer[len] != '0')
    ensures Fold(value / base, Reversed(buffer[..len + 1]), base) == Fold(value, Reversed(old(buffer[..len])), base)
  {
    ghost var t := buffer[..len];
    DigitOf(value % base);
    OneDigit(value, t, base, DIGITS[value % base]);
    buffer[len] := DIGITS[value % base];
    assert buffer[..len + 1] == t + [DIGITS[value % base]];
  }

  /** The loop that turns the digits round in place. */
  method Reverse(buffer: array<char>, len: nat)
    requires 0 < len < buffer.Length
    modifies buffer
    ensures buffer[..len] == Reversed(old(buffer[..len])) && buffer[len..] == old(buffer[len..])
  {
    var ptr, end := 0, len - 1;
    while ptr < end
      invariant 0 <= ptr <= len && end == len - 1 - ptr && ptr <= end + 2
      invariant forall k {:trigger buffer[k]} | 0 <= k < len && (k < ptr || k > end) :: buffer[k] == old(buffer[len - 1 - k])
      invariant forall k {:trigger buffer[k]} | ptr <= k <= end || len <= k < buffer.Length :: buffer[k] == old(buffer[k])
    {
      buffer[ptr], buffer[end] := buffer[end], buffer[ptr];
      ptr := ptr + 1;
      end := end - 1;
    }
    assert buffer[..len] == Reversed(old(buffer[..len]));
  }
}
