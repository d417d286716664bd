/** Printing numbers (libc/string.c), proved to be read back as the number that was printed. */
module Numerals {
  import opened Machine
  import opened CStrings

  const BUFFER_SIZE := 32

  type Int32 = n: int | -0x8000_0000 <= n < 0x8000_0000

  // ---------------------------------------------------------------- reading numbers

  /** The value of a decimal or lower-case hexadecimal digit, 16 for anything else. */
  function DigitValue(c: char): nat {
    if '0' <= c <= '9' then c as int - '0' as int
    else if 'a' <= c <= 'f' then c as int - 'a' as int + 10
    else 16
  }

  /** The number that the digits denote, most significant first. */
  function Parse(s: string, hex: bool): Option<nat> {
    if s == [] then None
    else
      var n, d := |s| - 1, DigitValue(s[|s| - 1]);
      if d >= Base(hex) then None
      else if n == 0 then Some(d)
      else match Parse(s[..n], hex)
        case None => None
        case Some(v) => Some((if hex then 16 * v else 10 * v) + d)
  }

  /** Digits, in hexadecimal after a 0x prefix. */
  function ParseUnsigned(s: string, hex: bool): Option<nat> {
    if !hex then Parse(s, false)
    else if |s| >= 2 && s[..2] == "0x" then Parse(s[2..], true)
    else None
  }

  /** Reads a number that may start with a minus sign. */
  function ParseInt(s: string, hex: bool): Option<int> {
    if s != [] && s[0] == '-' then
      var v: Option<int> := ParseUnsigned(s[1..], hex);
      if v.Some? then Some(-v.value) else None
    else ParseUnsigned(s, hex)
  }

  function Base(hex: bool): nat {
    if hex then 16 else 10
  }

  // ---------------------------------------------------------------- the digits that are written

  /** C's quotient and remainder by the base. */
  function Quotient(n: int, hex: bool): (q: int)
    ensures q > 0 ==> n > q
  {
    if hex then TruncDiv(n, 16) else TruncDiv(n, 10)
  }

  function Remainder(n: int, hex: bool): (r: int)
    ensures -16 < r < 16 && (n >= 0 ==> 0 <= r < Base(hex))
    ensures n == Quotient(n, hex) * Base(hex) + r
  {
    if hex then TruncMod(n, 16) else TruncMod(n, 10)
  }

  function DigitChar(d: int): (c: char)
    requires -16 < d < 16
    ensures c != NUL
    ensures 0 <= d ==> DigitValue(c) == d
  {
    if d >= 10 then ('a' as int + (d - 10)) as char else ('0' as int + d) as char
  }

  /** The characters the printing loop writes, least significant first. */
  function LowChars(n: int, hex: bool): (s: string)
    ensures |s| >= 1 && NoNul(s)
    decreases if n < 0 then 0 else n
  {
    [DigitChar(Remainder(n, hex))] + if Quotient(n, hex) > 0 then LowChars(Quotient(n, hex), hex) else []
  }

  /** The printed digits, most significant first. */
  ghost function Printed(n: int, hex: bool): (s: string)
    ensures |s| == |LowChars(n, hex)|
  {
    Reversed(LowChars(n, hex))
  }

  lemma PrintedUnfolds(n: int, hex: bool)
    ensures Printed(n, hex) == (if Quotient(n, hex) > 0 then Printed(Quotient(n, hex), hex) else [])
                               + [DigitChar(Remainder(n, hex))]
  {
    var rest := if Quotient(n, hex) > 0 then LowChars(Quotient(n, hex), hex) else [];
    ReversedCons(DigitChar(Remainder(n, hex)), rest);
  }

  lemma ParseSnoc(s: string, c: char, hex: bool)
    requires Parse(s, hex).Some? && DigitValue(c) < Base(hex)
    ensures Parse(s + [c], hex)
         == Some((if hex then 16 * Parse(s, hex).value else 10 * Parse(s, hex).value) + DigitValue(c))
  {
    assert (s + [c])[..|s|] == s;
  }

  lemma {:induction false} ParsePrinted(n: nat, hex: bool)
    ensures Parse(Printed(n, hex), hex) == Some(n)
  {
    var s, q, r := Printed(n, hex), Quotient(n, hex), Remainder(n, hex);
    PrintedUnfolds(n, hex);
    assert n == (if hex then 16 * q else 10 * q) + r;
    if q > 0 {
      ParsePrinted(q, hex);
      ParseSnoc(Printed(q, hex), DigitChar(r), hex);
    }
  }

  lemma {:induction false} NoLeadingZero(n: nat, hex: bool)
    requires n > 0
    ensures Printed(n, hex)[0] != '0'
  {
    var q := Quotient(n, hex);
    PrintedUnfolds(n, hex);
    if q > 0 {
      NoLeadingZero(q, hex);
      assert Printed(n, hex)[0] == Printed(q, hex)[0];
    }
  }

  /** The text of a number: its printed digits after the prefix of its base. */
  ghost function Numeral(n: int, hex: bool): string {
    (if hex then "0x" else "") + Printed(n, hex)
  }

  lemma {:induction false} ParseStartsWithDigit(s: string, hex: bool)
    requires Parse(s, hex).Some?
    ensures s != [] && s[0] != '-'
    decreases |s|
  {
    if |s| > 1 {
      ParseStartsWithDigit(s[..|s| - 1], hex);
    }
  }

  lemma UnsignedNumeral(n: nat, hex: bool)
    ensures ParseUnsigned(Numeral(n, hex), hex) == Some(n) && Numeral(n, hex)[0] != '-'
  {
    ParsePrinted(n, hex);
    ParseStartsWithDigit(Printed(n, hex), hex);
    if hex {
      assert Numeral(n, hex)[..2] == "0x" && Numeral(n, hex)[2..] == Printed(n, hex);
    } else {
      assert Numeral(n, hex) == Printed(n, hex);
    }
  }

  /** The reader reads every number: as its numeral, or as a sign and the numeral of its absolute value. */
  lemma ReaderReadsAll(n: int, hex: bool)
    ensures ParseInt(if n >= 0 then Numeral(n, hex) else "-" + Numeral(-n, hex), hex) == Some(n)
  {
    UnsignedNumeral(if n >= 0 then n else -n, hex);
    assert n < 0 ==> ("-" + Numeral(-n, hex))[1..] == Numeral(-n, hex);
  }

  /** What the code prints for n is read back as n exactly when n is not negative: for a negative
      number it prints one character, of the truncated remainder, and no sign. */
  lemma NumeralReadsBack(n: int, hex: bool)
    ensures ParseInt(Numeral(n, hex), hex) == Some(n) <==> n >= 0
    ensures n < 0 ==> Printed(n, hex) == [DigitChar(Remainder(n, hex))]
  {
    if n >= 0 {
      ReaderReadsAll(n, hex);
    } else {
      PrintedUnfolds(n, hex);
      assert Printed(n, hex)[1..] == [];
      assert hex ==> Numeral(n, hex)[0] == '0';
    }
  }

  /** A number below base^k has at most k digits. */
  lemma {:induction false} DigitCount(n: int, hex: bool, k: nat)
    requires k >= 1 && n < Power(hex, k)
    ensures |LowChars(n, hex)| <= k
    decreases k
  {
    if Quotient(n, hex) > 0 {
      DigitCount(Quotient(n, hex), hex, k - 1);
    }
  }

  function Power(hex: bool, k: nat): nat {
    if k == 0 then 1 else if hex then 16 * Power(hex, k - 1) else 10 * Power(hex, k - 1)
  }

  lemma Int32Digits(n: Int32, hex: bool)
    ensures |LowChars(n, hex)| <= if hex then 8 else 10
  {
    if hex {
      assert Power(true, 8) == 0x1_0000_0000;
      DigitCount(n, hex, 8);
    } else {
      assert Power(false, 10) == 10_000_000_000;
      DigitCount(n, hex, 10);
    }
  }

  // ---------------------------------------------------------------- the printing functions

  /** The character the loops write for the lowest digit of num. */
  function LowChar(num: int, hex: bool): (c: char)
    ensures c == DigitChar(Remainder(num, hex))
  {
    if hex && TruncMod(num, 16) >= 10 then ('a' as int + TruncMod(num - 10, 16)) as char
    else ('0' as int + Remainder(num, hex)) as char
  }

  /** The first i characters are written, and what is left comes from num. */
  ghost predicate Written(cells: seq<char>, i: nat, all: string, num: int, hex: bool) {
    && i <= |all| && i <= |cells| && cells[..i] == all[..i]
    && all[i..] == if num > 0 then LowChars(num, hex) else []
  }

  lemma WrittenFirst(cells: seq<char>, n: int, hex: bool)
    requires |cells| > 0 && cells[0] == LowChar(n, hex)
    ensures Written(cells, 1, LowChars(n, hex), Quotient(n, hex), hex)
  {
  }

  lemma WrittenNext(cells: seq<char>, i: nat, all: string, num: int, hex: bool)
    requires Written(cells, i, all, num, hex) && num > 0 && i < |cells|
    ensures i < |all| && Written(cells[i := LowChar(num, hex)], i + 1, all, Quotient(num, hex), hex)
  {
    assert all[i] == all[i..][0] && all[i + 1..] == all[i..][1..];
  }

  lemma WrittenAll(cells: seq<char>, i: nat, all: string, num: int, hex: bool)
    requires Written(cells, i, all, num, hex) && num <= 0
    ensures i == |all| && cells[..i] == all
  {
  }

  /** The digit loop, which writes at least one digit and at most ten. */
  method WriteDigits(str: array<char>, n: Int32, hex: bool) returns (i: nat)
    requires str.Length == BUFFER_SIZE
    modifies str
    ensures i <= 10 && str[..i] == LowChars(n, hex)
  {
    Int32Digits(n, hex);
    ghost var all := LowChars(n, hex);
    str[0] := LowChar(n, hex);
    WrittenFirst(str[..], n, hex);
    i := 1;
    var num: int := Quotient(n, hex);
    while num > 0
      invariant Written(str[..], i, all, num, hex)
      decreases num
    {
      WrittenNext(str[..], i, all, num, hex);
      ghost var cells := str[..];
      str[i] := LowChar(num, hex);
      assert str[..] == cells[i := LowChar(num, hex)];
      i := i + 1;
      num := Quotient(num, hex);
    }
    WrittenAll(str[..], i, all, num, hex);
    assert str[..i] == str[..][..i];
  }

  /** The text in the buffer reads back as n exactly when n is not negative, and then has no leading
      zero; a negative number leaves one character. */
  method IntToString(str: array<char>, n: Int32)
    requires str.Length == BUFFER_SIZE
    modifies str
    ensures ParseInt(Text(str[..]), false) == Some(n) <==> n >= 0
    ensures n > 0 ==> Text(str[..])[0] != '0'
    ensures n == 0 ==> Text(str[..]) == "0"
    ensures n < 0 ==> Text(str[..]) == [('0' as int + TruncMod(n, 10)) as char]
  {
    var i := WriteDigits(str, n, false);
    str[i] := NUL;
    TextIs(str[..], i);
    Reverse(str);
    assert Text(str[..]) == Numeral(n, false);
    NumeralReadsBack(n, false);
    if n > 0 { NoLeadingZero(n, false); }
  }

  lemma PrefixReversed(digits: string)
    ensures Reversed(digits + "x0") == "0x" + Reversed(digits)
  {
  }

  /** The same for the hexadecimal text with its 0x prefix. */
  method IntToHexString(str: array<char>, n: Int32)
    requires str.Length == BUFFER_SIZE
    modifies str
    ensures ParseInt(Text(str[..]), true) == Some(n) <==> n >= 0
    ensures n > 0 ==> |Text(str[..])| > 2 && Text(str[..])[2] != '0'
    ensures n == 0 ==> Text(str[..]) == "0x0"
    ensures n < 0 ==> Text(str[..]) == "0x" + [('0' as int + TruncMod(n, 16)) as char]
  {
    var i := WriteDigits(str, n, true);
    ghost var digits := LowChars(n, true);
    str[i] := 'x';
    str[i + 1] := '0';
    str[i + 2] := NUL;
    assert str[..i + 2] == digits + "x0";
    TextIs(str[..], i + 2);
    Reverse(str);
    PrefixReversed(digits);
    assert Text(str[..]) == Numeral(n, true);
    NumeralReadsBack(n, true);
    if n > 0 { NoLeadingZero(n, true); }
  }
}
