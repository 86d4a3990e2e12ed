/** Reading back the numbers that dvsprintf writes. */
module Numerals {
  import opened Basics
  import opened Format

  // ----- numerals, most significant digit first

  /** The value of a digit; 16 for any other character. */
  function DigitValue(c: char): (d: nat)
    ensures d <= 16
  {
    if '0' <= c <= '9' then c as int - 48
    else if 'a' <= c <= 'f' then c as int - 87
    else 16
  }

  predicate Numeral(s: string, base: nat) {
    |s| > 0 && forall k :: 0 <= k < |s| ==> DigitValue(s[k]) < base
  }

  function Value(s: string, base: nat): (v: int) {
    if s == [] then 0 else base * Value(s[..|s| - 1], base) + DigitValue(s[|s| - 1])
  }

  function Trimmed(s: string): (t: string) {
    if s != [] && s[0] == ' ' then Trimmed(s[1..]) else s
  }

  /** Blanks, and then an unsigned numeral. */
  function ReadUnsigned(s: string, base: nat): (r: Option<int>) {
    if Numeral(Trimmed(s), base) then Some(Value(Trimmed(s), base)) else None
  }

  /** Blanks, perhaps a minus sign, and then a decimal numeral. */
  function ReadDecimal(s: string): (r: Option<int>) {
    var t := Trimmed(s);
    if t != [] && t[0] == '-' then
      if Numeral(t[1..], 10) then Some(-Value(t[1..], 10)) else None
    else ReadUnsigned(s, 10)
  }

  // ----- the same value, least significant digit first

  function Little(s: string, base: nat): (v: int) {
    if s == [] then 0 else DigitValue(s[0]) + base * Little(s[1..], base)
  }

  lemma {:induction false} ReversedValue(s: string, base: nat)
    ensures Value(Reversed(s), base) == Little(s, base)
  {
    if s != [] {
      ReversedValue(s[1..], base);
      var r := Reversed(s);
      assert r[..|r| - 1] == Reversed(s[1..]);
    }
  }

  lemma {:induction false} LeadingZeros(s: string, n: int, base: nat)
    ensures Little(s + Repeat('0', n), base) == Little(s, base)
    decreases |s|, n
  {
    var t := s + Repeat('0', n);
    if s != [] {
      LeadingZeros(s[1..], n, base);
      assert t[1..] == s[1..] + Repeat('0', n);
    } else if n > 0 {
      LeadingZeros(s, n - 1, base);
      assert t[1..] == s + Repeat('0', n - 1);
    } else {
      assert t == s;
    }
  }

  lemma ReversedConcat(s: string, t: string)
    ensures Reversed(s + t) == Reversed(t) + Reversed(s)
  {
  }

  lemma ReversedRepeat(c: char, n: int)
    ensures Reversed(Repeat(c, n)) == Repeat(c, n)
  {
  }

  lemma {:induction false} TrimmedBlanks(n: int, t: string)
    requires t != [] && t[0] != ' '
    ensures Trimmed(Repeat(' ', n) + t) == t
  {
    var s := Repeat(' ', n) + t;
    if n > 0 {
      TrimmedBlanks(n - 1, t);
      assert s[1..] == Repeat(' ', n - 1) + t;
    } else {
      assert s == t;
    }
  }

  lemma ReversedNumeral(s: string, base: nat)
    requires Numeral(s, base)
    ensures Numeral(Reversed(s), base)
  {
    var r := Reversed(s);
    forall k | 0 <= k < |r|
      ensures DigitValue(r[k]) < base
    {
      assert r[k] == s[|s| - 1 - k];
    }
  }

  /** Digits put backwards with blanks after them read back, once reversed, as their value. */
  lemma BlanksReadBack(s: string, n: int, base: nat)
    requires Numeral(s, base) && base <= 16
    ensures Trimmed(Reversed(s + Repeat(' ', n))) == Reversed(s)
    ensures ReadUnsigned(Reversed(s + Repeat(' ', n)), base) == Some(Little(s, base))
  {
    ReversedConcat(s, Repeat(' ', n));
    ReversedRepeat(' ', n);
    ReversedNumeral(s, base);
    TrimmedBlanks(n, Reversed(s));
    ReversedValue(s, base);
  }

  lemma ZerosReadBack(s: string, n: int, base: nat)
    requires Numeral(s, base) && 0 < base <= 16
    ensures ReadUnsigned(Reversed(s + Repeat('0', n)), base) == Some(Little(s, base))
  {
    var t := s + Repeat('0', n);
    assert Numeral(t, base);
    LeadingZeros(s, n, base);
    BlanksReadBack(t, 0, base);
    assert t + Repeat(' ', 0) == t;
  }

  // ----- decimal digits

  lemma {:induction false} DecimalsValue(n: nat)
    ensures Numeral(Decimals(n), 10) && Little(Decimals(n), 10) == n
  {
    var s := Decimals(n);
    assert DigitValue(s[0]) == n % 10;
    if n / 10 != 0 {
      DecimalsValue(n / 10);
      assert s[1..] == Decimals(n / 10);
    } else {
      assert s[1..] == [];
    }
  }

  /** %d, with any padding, reads back to its number. */
  lemma DecimalReadsBack(n: int, padding: int)
    ensures ReadDecimal(Whole(DecimalPieces(n, padding))) == Some(n)
  {
    hide Decimals, Whole, ReadDecimal, Reversed, Repeat;
    var digits := Decimals(Abs(n));
    DecimalsValue(Abs(n));
    WholeOne(DecimalPieces(n, padding));
    if n < 0 {
      MinusReadsBack(digits, padding - |digits|);
    } else {
      assert digits + "" == digits;
      PlusReadsBack(digits, padding - |digits|);
    }
  }

  lemma PlusReadsBack(digits: string, n: int)
    requires Numeral(digits, 10)
    ensures ReadDecimal(Reversed(digits + Repeat(' ', n))) == Some(Little(digits, 10))
  {
    hide Reversed, Repeat, Value, Little;
    BlanksReadBack(digits, n, 10);
    ReversedNumeral(digits, 10);
    assert DigitValue(Reversed(digits)[0]) < 10;
  }

  lemma MinusReadsBack(digits: string, n: int)
    requires Numeral(digits, 10)
    ensures ReadDecimal(Reversed(digits + "-" + Repeat(' ', n))) == Some(-Little(digits, 10))
  {
    hide Reversed, Repeat, Value, Little, Trimmed;
    ReversedNumeral(digits, 10);
    ReversedValue(digits, 10);
    MinusFirst(digits, n);
    var t := "-" + Reversed(digits);
    assert t[0] == '-' && t[1..] == Reversed(digits);
  }

  lemma MinusFirst(digits: string, n: int)
    ensures Trimmed(Reversed(digits + "-" + Repeat(' ', n))) == "-" + Reversed(digits)
  {
    hide Reversed, Repeat, Trimmed;
    ReversedConcat(digits + "-", Repeat(' ', n));
    ReversedConcat(digits, "-");
    assert Reversed("-") == "-";
    ReversedRepeat(' ', n);
    TrimmedBlanks(n, "-" + Reversed(digits));
  }

  lemma WholeOne(ps: seq<Piece>)
    requires |ps| == 1
    ensures Whole(ps) == Shown(ps[0])
  {
    assert ps[1..] == [];
  }

  // ----- %u, which divides a signed number

  /** The characters of a negative number: none above '0', and the last one below it. */
  lemma {:induction false} NegativeDecimals(n: int)
    requires n < 0
    ensures var s := Decimals(n);
            (forall k :: 0 <= k < |s| ==> ' ' < s[k] <= '0') && s[|s| - 1] < '0'
    decreases -n
  {
    var s := Decimals(n);
    if Quotient(n) != 0 {
      NegativeDecimals(Quotient(n));
      assert s[1..] == Decimals(Quotient(n));
    }
  }

  lemma {:induction false} NothingAboveZero(s: string)
    requires Numeral(s, 10) && forall k :: 0 <= k < |s| ==> s[k] <= '0'
    ensures Value(s, 10) == 0
  {
    var t := s[..|s| - 1];
    if t != [] {
      NothingAboveZero(t);
    }
    assert s[|s| - 1] == '0';
  }

  lemma NegativeUnreadable(s: string)
    requires s != [] && s[0] < '0' && forall k :: 0 <= k < |s| ==> ' ' < s[k] <= '0'
    ensures ReadDecimal(s) == None || ReadDecimal(s) == Some(0)
  {
    assert Trimmed(s) == s;
    if s[0] == '-' && Numeral(s[1..], 10) {
      NothingAboveZero(s[1..]);
    }
    assert DigitValue(s[0]) == 16;
  }

  lemma TrimmedPadding(s: string, n: int)
    requires s != [] && s[|s| - 1] != ' '
    ensures Trimmed(Reversed(s + Repeat(' ', n))) == Reversed(s)
  {
    ReversedConcat(s, Repeat(' ', n));
    ReversedRepeat(' ', n);
    TrimmedBlanks(n, Reversed(s));
  }

  lemma {:induction false} TrimmedOnce(s: string)
    ensures Trimmed(Trimmed(s)) == Trimmed(s)
  {
    if s != [] && s[0] == ' ' {
      TrimmedOnce(s[1..]);
    }
  }

  lemma NegativeLost(n: int, padding: int)
    requires n < 0
    ensures ReadDecimal(Whole(UnsignedPieces(n, padding))) in {None, Some(0)}
  {
    var s := Decimals(n);
    var t := Whole(UnsignedPieces(n, padding));
    WholeOne(UnsignedPieces(n, padding));
    NegativeDecimals(n);
    TrimmedPadding(s, padding - |s|);
    NegativeUnreadable(Reversed(s));
    TrimmedOnce(t);
    assert ReadDecimal(t) == ReadDecimal(Trimmed(t));
  }

  /** %u reads back to the signed number the code took exactly when that is not negative. */
  lemma UnsignedReadsBack(n: int, padding: int)
    ensures ReadDecimal(Whole(UnsignedPieces(n, padding))) == Some(n) <==> n >= 0
  {
    if n >= 0 {
      var digits := Decimals(n);
      DecimalsValue(n);
      WholeOne(UnsignedPieces(n, padding));
      ReversedNumeral(digits, 10);
      BlanksReadBack(digits, padding - |digits|, 10);
    } else {
      NegativeLost(n, padding);
    }
  }

  // ----- hexadecimal digits

  function Power16(n: nat): (p: nat)
    ensures p > 0
  {
    if n == 0 then 1 else 16 * Power16(n - 1)
  }

  lemma MultipleBeyond(m: nat, d: int)
    ensures (d >= 1 ==> m * d >= m) && (d <= -1 ==> m * d <= 0 - m)
  {
    if d >= 1 {
      assert m * d == m + m * (d - 1);
    } else if d <= -1 {
      assert m * d == m * (d + 1) - m;
    }
  }

  lemma ModUnique(n: nat, m: nat, q: nat, r: nat)
    requires r < m && n == m * q + r
    ensures n % m == r
  {
    var d := n / m - q;
    assert n == m * (n / m) + n % m;
    assert m * d == r - n % m;
    MultipleBeyond(m, d);
  }

  lemma LowDigits(n: nat, p: nat)
    requires p > 0
    ensures n % (16 * p) == 16 * ((n / 16) % p) + n % 16
  {
    var a, b := n / 16 / p, (n / 16) % p;
    assert n / 16 == p * a + b;
    assert n == (16 * p) * a + (16 * b + n % 16);
    ModUnique(n, 16 * p, a, 16 * b + n % 16);
  }

  lemma HexesFirst(n: nat, most: nat)
    ensures DigitValue(HexDigit(n % 16)) == n % 16
    ensures var s := Hexes(n, most);
            s[0] == HexDigit(n % 16) &&
            s[1..] == if most > 1 && n / 16 != 0 then Hexes(n / 16, most - 1) else []
  {
  }

  lemma {:induction false} HexesValue(n: nat, most: nat)
    requires most > 0
    ensures Numeral(Hexes(n, most), 16) && Little(Hexes(n, most), 16) == n % Power16(most)
  {
    hide Hexes, HexDigit, DigitValue;
    HexesFirst(n, most);
    LowDigits(n, Power16(most - 1));
    var s := Hexes(n, most);
    if most > 1 && n / 16 != 0 {
      HexesValue(n / 16, most - 1);
      NumeralFrom(s, 16);
    } else {
      NumeralFrom(s, 16);
      ModSmall(n, Power16(most - 1), most);
    }
  }

  lemma NumeralFrom(s: string, base: nat)
    requires s != [] && DigitValue(s[0]) < base && (s[1..] == [] || Numeral(s[1..], base))
    ensures Numeral(s, base)
    ensures Little(s, base) == DigitValue(s[0]) + base * Little(s[1..], base)
    ensures s[1..] == [] ==> Little(s, base) == DigitValue(s[0])
  {
    forall k | 0 <= k < |s|
      ensures DigitValue(s[k]) < base
    {
      if k > 0 { assert s[k] == s[1..][k - 1]; }
    }
  }

  lemma ModSmall(n: nat, p: nat, most: nat)
    requires p > 0 && (most > 1 ==> n / 16 == 0) && (most <= 1 ==> p == 1)
    ensures (n / 16) % p == 0
  {
  }

  lemma Power16Width(width: nat)
    requires width == 4 || width == 8
    ensures Power16(2 * width) == if width == 4 then 0x1_0000_0000 else TWO_TO_64
  {
    assert Power16(8) == 0x1_0000_0000;
    assert Power16(16) == TWO_TO_64;
  }

  lemma PaddedReadsBack(s: string, zero: bool, n: int)
    requires Numeral(s, 16)
    ensures ReadUnsigned(Reversed(s + Repeat(if zero then '0' else ' ', n)), 16) == Some(Little(s, 16))
  {
    hide *;
    if zero { ZerosReadBack(s, n, 16); } else { BlanksReadBack(s, n, 16); }
  }

  lemma LowBits(n: int, width: nat)
    requires width == 4 || width == 8
    ensures (n % TWO_TO_64) % Power16(2 * width) == n % if width == 4 then 0x1_0000_0000 else TWO_TO_64
  {
    hide Power16;
    Power16Width(width);
    LowWord(n);
    var m := n % TWO_TO_64;
    assert m % TWO_TO_64 == m;
  }

  /** The low 32 bits of the low 64 bits. */
  lemma LowWord(n: int)
    ensures (n % TWO_TO_64) % 0x1_0000_0000 == n % 0x1_0000_0000
  {
    var q, m := n / TWO_TO_64, n % TWO_TO_64;
    var a, r := m / 0x1_0000_0000, m % 0x1_0000_0000;
    assert n == 0x1_0000_0000 * (0x1_0000_0000 * q + a) + r;
  }

  /** %x, with any flags and padding, reads back after its prefix to the low 8 * width bits of the number. */
  lemma HexReadsBack(n: int, sharp: bool, zero: bool, width: nat, padding: int)
    requires width == 4 || width == 8
    ensures var s := Whole(HexPieces(n, sharp, zero, width, padding));
            var prefix := if sharp then "0x" else "";
            |prefix| <= |s| && s[..|prefix|] == prefix &&
            ReadUnsigned(s[|prefix|..], 16) == Some(n % if width == 4 then 0x1_0000_0000 else TWO_TO_64)
  {
    hide Hexes, Whole, ReadUnsigned, Reversed, Repeat, Power16, Little, Numeral;
    var digits := Hexes(n % TWO_TO_64, 2 * width);
    HexesValue(n % TWO_TO_64, 2 * width);
    LowBits(n, width);
    PaddedReadsBack(digits, zero, padding - |digits|);
    var ps := HexPieces(n, sharp, zero, width, padding);
    WholeTwo(ps);
    var s := Whole(ps);
    var prefix := if sharp then "0x" else "";
    assert s[|prefix|..] == Shown(ps[1]);
  }

  lemma WholeTwo(ps: seq<Piece>)
    requires |ps| == 2
    ensures Whole(ps) == Shown(ps[0]) + Shown(ps[1])
  {
    WholeOne(ps[1..]);
  }

  // ----- whole formats

  /** The width that the flags of any directive select. */
  lemma {:induction false} ScanWidth(format: string, at: nat, args: seq<Arg>, f: Flags)
    requires at <= |format| && f.size == if f.l then 8 else 4
    ensures var r := Scan(format, at, args, f);
            r.Some? ==> r.value.flags.size == if r.value.flags.l then 8 else 4
    decreases |format| - at
  {
    hide DigitsEnd, Widened, IsDigit;
    var (e, g) := AfterDigits(format, at, f);
    if e < |format| {
      match format[e]
      case '*' =>
        if args != [] && args[0].Number? { ScanWidth(format, e + 1, args[1..], g.(padding := args[0].n)); }
      case '#' => ScanWidth(format, e + 1, args, g.(sharp := true));
      case '0' => ScanWidth(format, e + 1, args, g.(zero := true));
      case 'l' => ScanWidth(format, e + 1, args, if g.l then g.(ll := true, size := 8) else g.(l := true, size := 8));
      case _ =>
    }
  }

  /** A format that is one directive with its argument. */
  predicate Alone(format: string, args: seq<Arg>, c: char, n: int, f: Flags) {
    |format| > 1 && format[0] == '%' && format[|format| - 1] == c &&
    Scan(format, 1, args, NO_FLAGS) == Some(Scanned(|format| - 1, [Number(n)], f))
  }

  lemma AlonePieces(format: string, args: seq<Arg>, c: char, n: int, f: Flags)
    requires Alone(format, args, c, n, f) && Takes(c) && Handles(c, f, [Number(n)])
    ensures Pieces(format, 0, args) == Some(Convert(c, f, [Number(n)]))
  {
    hide Scan, Convert;
    var ps := Convert(c, f, [Number(n)]);
    assert Next(format, 0, args) == Some(Step(|format|, [Number(n)][1..], ps));
    assert ps + [] == ps;
  }

  /** Whatever flags and width it carries, a directive %d prints a text that reads back to its argument. */
  lemma DecimalDirective(format: string, args: seq<Arg>, n: int, f: Flags)
    requires Alone(format, args, 'd', n, f) && Delivered(n, f.l) && n != -TWO_TO_63
    ensures var ps := Pieces(format, 0, args);
            ps.Some? && ReadDecimal(Whole(ps.value)) == Some(n)
  {
    hide Scan, DecimalPieces;
    AlonePieces(format, args, 'd', n, f);
    DecimalReadsBack(n, f.padding);
  }

  /** And %x one that reads back to its argument as an unsigned number of its type. */
  lemma HexDirective(format: string, args: seq<Arg>, n: int, f: Flags)
    requires Alone(format, args, 'x', n, f) && Delivered(n, f.l)
    ensures var ps := Pieces(format, 0, args);
            ps.Some? &&
            var s := Whole(ps.value);
            var prefix := if f.sharp then "0x" else "";
            |prefix| <= |s| && s[..|prefix|] == prefix &&
            ReadUnsigned(s[|prefix|..], 16) == Some(AsUnsigned(n, f.l))
  {
    hide Scan, HexPieces, Pieces, Whole, ReadUnsigned;
    ScanWidth(format, 1, args, NO_FLAGS);
    AlonePieces(format, args, 'x', n, f);
    HexReadsBack(n, f.sharp, f.zero, f.size, f.padding);
    UnsignedIsLow(n, f.l);
  }

  /** The unsigned number with the bits of the signed n. */
  function AsUnsigned(n: int, long: bool): int {
    if n >= 0 then n else if long then n + TWO_TO_64 else n + 0x1_0000_0000
  }

  lemma UnsignedIsLow(n: int, long: bool)
    requires Delivered(n, long)
    ensures AsUnsigned(n, long) == n % if long then TWO_TO_64 else 0x1_0000_0000
  {
  }
}
