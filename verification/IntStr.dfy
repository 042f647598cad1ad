// drivers/tty/printf.cpp: `__int_str`, which writes a number into a character buffer.
module IntStr {
  import opened CStrings

  const DECIMAL: seq<char> := "0123456789"
  const UPPER: seq<char> := DECIMAL + "ABCDEF"
  const LOWER: seq<char> := DECIMAL + "abcdef"
  const INT_LIMIT: int := 0x8000_0000_0000_0000

  // Base 17 stands for 16 in small letters. Other bases have only the ten decimal digits to use.
  predicate KnownBase(base: nat) { 2 <= base <= 10 || base == 16 || base == 17 }

  function Radix(base: nat): nat { if base == 17 then 16 else base }

  function DigitTable(base: nat): (t: seq<char>) { if base == 17 then LOWER else UPPER }

  // What makes a table of digits usable: it can be read back, and no digit looks like a sign or an end.
  ghost predicate GoodTable(table: seq<char>) {
    && |table| == 16
    && forall d: nat :: d < 16 ==> GoodDigit(table[d], d)
  }

  predicate GoodDigit(c: char, d: nat) {
    DigitValue(c) == d && (c == '0' <==> d == 0) && c != '-' && c != '+' && c != ' ' && c != NUL
  }

  lemma TableIsGood(base: nat)
    ensures GoodTable(DigitTable(base))
  {
  }

  // ----- numerals -----

  function Digits(n: nat, radix: nat, table: seq<char>): (d: seq<char>)
    requires 2 <= radix <= 16 && |table| == 16
    ensures |d| >= 1
  {
    if n < radix then [table[n]] else Digits(n / radix, radix, table) + [table[n % radix]]
  }

  function DigitValue(c: char): nat {
    if '0' <= c <= '9' then c as nat - '0' as nat
    else if 'A' <= c <= 'F' then c as nat - 'A' as nat + 10
    else if 'a' <= c <= 'f' then c as nat - 'a' as nat + 10
    else 0
  }

  function ParseDigits(s: seq<char>, radix: nat): nat {
    if s == [] then 0 else ParseDigits(s[..|s| - 1], radix) * radix + DigitValue(s[|s| - 1])
  }

  function Parse(s: seq<char>, radix: nat): int {
    if s != [] && s[0] == '-' then 0 - ParseDigits(s[1..], radix)
    else if s != [] && (s[0] == '+' || s[0] == ' ') then ParseDigits(s[1..], radix)
    else ParseDigits(s, radix)
  }

  lemma Division(n: nat, radix: nat)
    requires radix >= 2
    ensures n == n / radix * radix + n % radix && 0 <= n / radix && 0 <= n % radix < radix
    ensures n / radix == 0 <==> n < radix
    ensures n > 0 ==> n / radix < n
  {
  }

  lemma {:induction false} DigitsParseBack(n: nat, radix: nat, table: seq<char>)
    requires 2 <= radix <= 16 && GoodTable(table)
    ensures ParseDigits(Digits(n, radix, table), radix) == n
  {
    Division(n, radix);
    if n < radix {
      assert GoodDigit(table[n], n);
      assert [table[n]][..0] == [];
    } else {
      DigitsParseBack(n / radix, radix, table);
      assert GoodDigit(table[n % radix], n % radix);
      var front := Digits(n / radix, radix, table);
      assert (front + [table[n % radix]])[..|front|] == front;
    }
  }

  lemma {:induction false} DigitsAreDigits(n: nat, radix: nat, table: seq<char>)
    requires 2 <= radix <= 16 && GoodTable(table)
    ensures var d := Digits(n, radix, table);
      d[0] != '-' && d[0] != '+' && d[0] != ' ' && NUL !in d && (d[0] == '0' ==> n == 0)
  {
    Division(n, radix);
    if n < radix {
      assert GoodDigit(table[n], n);
    } else {
      DigitsAreDigits(n / radix, radix, table);
      assert GoodDigit(table[n % radix], n % radix);
    }
  }

  function Pow2(k: nat): (p: nat)
    ensures p >= 1
  {
    if k == 0 then 1 else 2 * Pow2(k - 1)
  }

  lemma {:induction false} DigitsAreFew(n: nat, radix: nat, table: seq<char>, k: nat)
    requires 2 <= radix <= 16 && |table| == 16 && n < Pow2(k) && k >= 1
    ensures |Digits(n, radix, table)| <= k
  {
    if n >= radix {
      Quotient(n, radix, Pow2(k - 1));
      Division(n, radix);
      if k > 1 {
        DigitsAreFew(n / radix, radix, table, k - 1);
      }
    }
  }

  lemma Quotient(n: nat, radix: nat, half: nat)
    requires radix >= 2 && n < 2 * half
    ensures n / radix < half
  {
  }

  lemma Pow2Eight(k: nat)
    ensures Pow2(k + 8) == 256 * Pow2(k)
  {
    assert Pow2(k + 2) == 4 * Pow2(k);
    assert Pow2(k + 4) == 16 * Pow2(k);
    assert Pow2(k + 6) == 64 * Pow2(k);
  }

  lemma Pow2OfSixtyThree()
    ensures Pow2(63) == INT_LIMIT
  {
    assert Pow2(2) == 4 && Pow2(4) == 16 && Pow2(6) == 64 && Pow2(7) == 128;
    Pow2Eight(7);
    Pow2Eight(15);
    Pow2Eight(23);
    Pow2Eight(31);
    Pow2Eight(39);
    Pow2Eight(47);
    Pow2Eight(55);
  }

  // ----- the formatted number -----

  function Sign(i: int, plusSign: bool, spaceSign: bool): seq<char> {
    if i < 0 then ['-'] else if plusSign then ['+'] else if spaceSign then [' '] else []
  }

  function Abs(i: int): nat { if i < 0 then -i else i }

  // The number without padding.
  function Numeral(i: int, base: nat, plusSign: bool, spaceSign: bool): seq<char>
    requires KnownBase(base)
  {
    TableIsGood(base);
    Sign(i, plusSign, spaceSign) + Digits(Abs(i), Radix(base), DigitTable(base))
  }

  function Repeat(c: char, n: nat): seq<char> { seq(n, _ => c) }

  function PaddingOf(text: seq<char>, width: int): nat { if width <= |text| then 0 else width - |text| }

  function Padded(text: seq<char>, width: int, justify: bool, zeroPad: bool): seq<char> {
    var padding := Repeat(if zeroPad then '0' else ' ', PaddingOf(text, width));
    if justify then text + padding else padding + text
  }

  // The text parses back to the number, has no superfluous leading zero, and carries its sign.
  lemma NumeralParsesBack(i: int, base: nat, plusSign: bool, spaceSign: bool)
    requires KnownBase(base)
    ensures var t, n := Numeral(i, base, plusSign, spaceSign), |Sign(i, plusSign, spaceSign)|;
      Parse(t, Radix(base)) == i && n < |t| && (t[n] == '0' ==> i == 0)
  {
    hide Digits, DigitTable, ParseDigits;
    TableIsGood(base);
    var radix, table := Radix(base), DigitTable(base);
    var d, s := Digits(Abs(i), radix, table), Sign(i, plusSign, spaceSign);
    DigitsParseBack(Abs(i), radix, table);
    DigitsAreDigits(Abs(i), radix, table);
    if s != [] {
      assert (s + d)[1..] == d;
    } else {
      assert s + d == d;
    }
  }

  lemma {:induction false} DigitsFromTable(n: nat, radix: nat, table: seq<char>, j: nat)
    requires 2 <= radix <= 16 && |table| == 16 && j < |Digits(n, radix, table)|
    ensures exists d: nat :: d < radix && Digits(n, radix, table)[j] == table[d]
  {
    Division(n, radix);
    if n >= radix && j < |Digits(n / radix, radix, table)| {
      DigitsFromTable(n / radix, radix, table, j);
    } else {
      assert Digits(n, radix, table)[j] == table[n % radix];
    }
  }

  // The characters a digit may have: capitals for base 16, small letters for 17.
  predicate DigitOf(c: char, base: nat) {
    '0' <= c <= '9' || (base == 16 && 'A' <= c <= 'F') || (base == 17 && 'a' <= c <= 'f')
  }

  lemma TableDigits(base: nat, d: nat)
    requires KnownBase(base) && d < 16 && (base <= 10 ==> d < base)
    ensures DigitOf(DigitTable(base)[d], base)
  {
  }

  // The text in characters: read to base 16 when 17 is asked for, signed by '-', '+', ' ' or nothing, and of digits of
  // the right case.
  lemma NumeralInCharacters(i: int, base: nat, plusSign: bool, spaceSign: bool)
    requires KnownBase(base)
    ensures var t := Numeral(i, base, plusSign, spaceSign);
      var n := if i < 0 || plusSign || spaceSign then 1 else 0;
      && n < |t| && Parse(t, if base == 17 then 16 else base) == i
      && (n == 1 ==> t[0] == if i < 0 then '-' else if plusSign then '+' else ' ')
      && forall j: nat :: n <= j < |t| ==> DigitOf(t[j], base)
  {
    hide Digits, DigitTable, DigitOf, Parse;
    NumeralParsesBack(i, base, plusSign, spaceSign);
    TableIsGood(base);
    var radix, table := Radix(base), DigitTable(base);
    var n := |Sign(i, plusSign, spaceSign)|;
    forall j: nat | n <= j < |Numeral(i, base, plusSign, spaceSign)|
      ensures DigitOf(Numeral(i, base, plusSign, spaceSign)[j], base)
    {
      DigitsFromTable(Abs(i), radix, table, j - n);
      var d: nat :| d < radix && Digits(Abs(i), radix, table)[j - n] == table[d];
      TableDigits(base, d);
    }
  }

  // Zero is written as the single digit 0.
  lemma ZeroIsOneDigit(base: nat, plusSign: bool, spaceSign: bool)
    requires KnownBase(base)
    ensures Numeral(0, base, plusSign, spaceSign) == Sign(0, plusSign, spaceSign) + ['0']
  {
  }

  lemma NumeralIsShort(i: int, base: nat, plusSign: bool, spaceSign: bool)
    requires KnownBase(base) && -INT_LIMIT < i < INT_LIMIT
    ensures |Numeral(i, base, plusSign, spaceSign)| <= 64
    ensures NUL !in Numeral(i, base, plusSign, spaceSign)
  {
    hide Digits, DigitTable;
    TableIsGood(base);
    Pow2OfSixtyThree();
    DigitsAreFew(Abs(i), Radix(base), DigitTable(base), 63);
    DigitsAreDigits(Abs(i), Radix(base), DigitTable(base));
  }

  // The padded text is the numeral with padding on the chosen side, max(width, natural length) long.
  lemma PaddedLength(text: seq<char>, width: int, justify: bool, zeroPad: bool)
    ensures |Padded(text, width, justify, zeroPad)| == if width <= |text| then |text| else width
    ensures justify ==> text <= Padded(text, width, justify, zeroPad)
    ensures !justify ==> Padded(text, width, justify, zeroPad)[PaddingOf(text, width)..] == text
  {
  }

  // Only zeros or only blanks are added, on the chosen side.
  lemma PaddedWith(text: seq<char>, width: int, justify: bool, zeroPad: bool)
    ensures var r, c := Padded(text, width, justify, zeroPad), if zeroPad then '0' else ' ';
      && |text| <= |r|
      && (justify ==> r[..|text|] == text && forall j: nat :: |text| <= j < |r| ==> r[j] == c)
      && (!justify ==> r[|r| - |text|..] == text && forall j: nat :: j < |r| - |text| ==> r[j] == c)
  {
  }

  // ----- the code -----

  // A string literal is its text and a NUL.
  lemma LiteralText(text: seq<char>)
    requires NUL !in text
    ensures Terminated(text + [NUL]) && Text(text + [NUL]) == text
  {
  }

  method BuildDigitTable(base: nat) returns (digit: array<char>)
    requires KnownBase(base)
    ensures fresh(digit) && digit.Length == 32
    ensures forall d :: 0 <= d < Radix(base) ==> digit[d] == DigitTable(base)[d]
  {
    hide Text;
    LiteralText(DECIMAL);
    LiteralText("ABCDEF");
    LiteralText("abcdef");
    digit := new char[32](_ => NUL);
    Strcpy(digit, DECIMAL + [NUL]);
    if base == 16 {
      Strcat(digit, "ABCDEF" + [NUL]);
    } else if base == 17 {
      Strcat(digit, "abcdef" + [NUL]);
    }
    ghost var text := Text(digit[..]);
    assert text == if base == 16 then UPPER else if base == 17 then LOWER else DECIMAL;
    assert forall d :: 0 <= d < |text| ==> digit[d] == text[d];
  }

  // The first pass: moves p forward by one place per digit.
  method CountDigits(n: nat, radix: nat, start: nat, ghost table: seq<char>) returns (p: nat)
    requires 2 <= radix <= 16 && |table| == 16
    ensures p == start + |Digits(n, radix, table)|
  {
    p := start;
    var shifter: nat := n;
    while true
      invariant p + |Digits(shifter, radix, table)| == start + |Digits(n, radix, table)|
      decreases shifter
    {
      Division(shifter, radix);
      p := p + 1;
      shifter := shifter / radix;
      if shifter == 0 {
        break;
      }
    }
  }

  // The second pass: writes the digits backward from p. It ends where the first one began.
  method WriteDigits(b: array<char>, n: nat, radix: nat, end: nat, digit: array<char>, ghost table: seq<char>)
    requires 2 <= radix <= 16 && |table| == 16 && b != digit
    requires digit.Length == 32 && forall d :: 0 <= d < radix ==> digit[d] == table[d]
    requires |Digits(n, radix, table)| <= end < b.Length
    modifies b
    ensures var start := end - |Digits(n, radix, table)|;
      && b[start..end] == Digits(n, radix, table)
      && (forall j :: 0 <= j < start ==> b[j] == old(b[j]))
      && (forall j :: end <= j < b.Length ==> b[j] == old(b[j]))
  {
    var p := end;
    var i: nat := n;
    ghost var start := end - |Digits(n, radix, table)|;
    while true
      invariant start + |Digits(i, radix, table)| == p <= end
      invariant Digits(i, radix, table) + b[p..end] == Digits(n, radix, table)
      invariant forall j :: 0 <= j < p || end <= j < b.Length ==> b[j] == old(b[j])
      invariant forall d :: 0 <= d < radix ==> digit[d] == table[d]
      decreases i
    {
      ghost var before, rest := i, b[p..end];
      Division(i, radix);
      p := p - 1;
      b[p] := digit[i % radix];
      assert b[p..end] == [table[before % radix]] + rest;
      i := i / radix;
      if i == 0 {
        break;
      }
      assert Digits(before, radix, table) + rest == Digits(i, radix, table) + ([table[before % radix]] + rest);
    }
  }

  ghost predicate ZeroBeyondText(s: seq<char>) {
    forall j :: |Text(s)| <= j < |s| ==> s[j] == NUL
  }

  lemma AppendOne(s: seq<char>, c: char)
    requires ZeroBeyondText(s) && c != NUL && |Text(s)| + 1 < |s|
    ensures var r := s[|Text(s)| := c]; Text(r) == Text(s) + [c] && ZeroBeyondText(r)
  {
    var n, r := |Text(s)|, s[|Text(s)| := c];
    assert r[..n + 1] == Text(s) + [c];
    TextIs(r, n + 1);
  }

  // `while (padding--) a[strlen(a)] = c`
  method AppendPadding(a: array<char>, padding: nat, c: char)
    requires ZeroBeyondText(a[..]) && c != NUL && |Text(a[..])| + padding < a.Length
    modifies a
    ensures Text(a[..]) == old(Text(a[..])) + Repeat(c, padding)
    ensures ZeroBeyondText(a[..])
  {
    hide Text, ZeroBeyondText, Terminated;
    ghost var text := Text(a[..]);
    for k := 0 to padding
      invariant Text(a[..]) == text + Repeat(c, k) && ZeroBeyondText(a[..])
    {
      ghost var s := a[..];
      EndOfText(s);
      var len := Strlen(a);
      a[len] := c;
      assert a[..] == s[len := c];
      AppendOne(s, c);
      assert Repeat(c, k + 1) == Repeat(c, k) + [c];
    }
  }

  lemma EndOfText(s: seq<char>)
    requires |Text(s)| < |s|
    ensures Terminated(s)
  {
  }

  // Sign and digits, without padding.
  method WriteNumeral(i: int, b: array<char>, base: nat, plusSignIfNeeded: bool, spaceSignIfNeeded: bool)
    requires -INT_LIMIT < i < INT_LIMIT && KnownBase(base) && b.Length == 256
    modifies b
    ensures Text(b[..]) == Numeral(i, base, plusSignIfNeeded, spaceSignIfNeeded)
    ensures forall j :: |Text(b[..])| < j < b.Length ==> b[j] == old(b[j])
    ensures |Text(b[..])| <= 64
  {
    hide Text, Digits, GoodTable;
    ghost var table := DigitTable(base);
    TableIsGood(base);
    NumeralIsShort(i, base, plusSignIfNeeded, spaceSignIfNeeded);
    var digit := BuildDigitTable(base);
    var radix := if base == 17 then 16 else base;

    var p, n := 0, i;
    if n < 0 {
      b[0] := '-';
      p := 1;
      n := n * -1;
    } else if plusSignIfNeeded {
      b[0] := '+';
      p := 1;
    } else if !plusSignIfNeeded && spaceSignIfNeeded {
      b[0] := ' ';
      p := 1;
    }
    ghost var sign, start := b[..p], p;
    assert sign == Sign(i, plusSignIfNeeded, spaceSignIfNeeded);
    p := CountDigits(n, radix, p, table);
    b[p] := NUL;
    WriteDigits(b, n, radix, p, digit, table);
    assert b[..p] == sign + b[start..p];
    TextIs(b[..], p);
  }

  method IntStr(i: int, b: array<char>, base: nat, plusSignIfNeeded: bool, spaceSignIfNeeded: bool,
                paddingNo: int, justify: bool, zeroPad: bool)
    requires -INT_LIMIT < i < INT_LIMIT && KnownBase(base) && paddingNo <= 255
    requires b.Length == 256
    requires justify ==> forall j :: 0 <= j < b.Length ==> b[j] == NUL
    modifies b
    ensures Text(b[..]) == Padded(Numeral(i, base, plusSignIfNeeded, spaceSignIfNeeded), paddingNo, justify, zeroPad)
  {
    hide Text, Numeral, Terminated, ZeroBeyondText;
    WriteNumeral(i, b, base, plusSignIfNeeded, spaceSignIfNeeded);
    EndOfText(b[..]);
    var len := Strlen(b);
    var padding := paddingNo - len;
    if padding < 0 {
      padding := 0;
    }
    var filler := if zeroPad then '0' else ' ';
    ghost var text := Text(b[..]);
    if justify {
      ZeroBeyond(b[..]);
      AppendPadding(b, padding, filler);
    } else {
      var a := new char[256](_ => NUL);
      AllZero(a[..]);
      AppendPadding(a, padding, filler);
      EndOfText(a[..]);
      Strcat(a, b[..]);
      assert Text(a[..]) == Repeat(filler, padding) + text;
      Strcpy(b, a[..]);
    }
  }

  lemma ZeroBeyond(s: seq<char>)
    requires forall j :: |Text(s)| <= j < |s| ==> s[j] == NUL
    ensures ZeroBeyondText(s)
  {
  }

  lemma AllZero(s: seq<char>)
    requires s != [] && forall j :: 0 <= j < |s| ==> s[j] == NUL
    ensures Text(s) == [] && ZeroBeyondText(s)
  {
  }
}
