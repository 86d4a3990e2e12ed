/** The hash function of lookup.c against the one the System V ABI prescribes.
    Words are integers: masking and xor of the bits 28 to 31 and 4 to 7 are
    written as the digit arithmetic they are. */
module ElfHash {

  /** The characters of a C string, without the terminating zero. */
  type Name = seq<Char>
  newtype Char = c: int | 0 < c < 256 witness 1

  const WORD: int := 0x1_0000_0000
  const LONG: int := 0x1_0000_0000_0000_0000
  const TOP: int := 0x1000_0000   // 2^28

  /** The hexadecimal digit of x at bits 28 to 31, and at bits 4 to 7. */
  function TopDigit(x: int): (d: int) ensures 0 <= d < 16 { (x / TOP) % 16 }
  function LowDigit(x: int): (d: int) ensures 0 <= d < 16 { (x / 16) % 16 }

  function XorDigit(a: int, b: int): (d: int)
    requires 0 <= a < 16 && 0 <= b < 16
    ensures 0 <= d < 16
  {
    ((a as bv4) ^ (b as bv4)) as int
  }

  lemma XorDigitZero(a: int)
    requires 0 <= a < 16
    ensures XorDigit(a, 0) == a
  {
    var x := a as bv4;
    assert x ^ 0 == x;
  }

  /** x with the digit d xored into bits 4 to 7. */
  function XorLow(x: int, d: int): (y: int)
    requires 0 <= d < 16
  {
    x + 16 * (XorDigit(LowDigit(x), d) - LowDigit(x))
  }

  /** hash = (hash << 4) + c on 64-bit words. */
  function Shift(hash: int, c: Char): (s: int) { (16 * hash + c as int) % LONG }

  /** hash ^= hi; hash ^= hi >> 24. */
  function Fold(sum: int): (h: int) {
    XorLow(sum - TOP * TopDigit(sum), TopDigit(sum))
  }

  /** The ABI's round on 32-bit words: carries out of bit 31 are lost. */
  function AbiRound(h: int, c: Char): (r: int) {
    AbiFold((16 * h + c as int) % WORD)
  }

  /** if (g = h & 0xf0000000) h ^= g >> 24; h &= ~g. */
  function AbiFold(sum: int): (h: int) {
    var g := TopDigit(sum);
    var x := if g != 0 then XorLow(sum, g) else sum;
    x - TOP * TopDigit(x)
  }

  function AbiHashFrom(h: int, name: Name): (r: int)
    decreases |name|
  {
    if name == [] then h else AbiHashFrom(AbiRound(h, name[0]), name[1..])
  }

  /** The hash of the System V ABI, chapter 5, "Hash Table". */
  function AbiHash(name: Name): (r: int) { AbiHashFrom(0, name) }

  /** Xor at bits 4 to 7 changes neither the bits from 8 on nor the top digit. */
  lemma XorLowLocal(x: int, d: int)
    requires 0 <= d < 16
    ensures XorLow(x, d) / 256 == x / 256 && TopDigit(XorLow(x, d)) == TopDigit(x)
    ensures 0 <= x ==> 0 <= XorLow(x, d)
  {
    var y, e := XorLow(x, d), XorDigit(LowDigit(x), d);
    assert x == 256 * (x / 256) + 16 * LowDigit(x) + x % 16;
    assert y == 256 * (x / 256) + 16 * e + x % 16;
    assert x / TOP == (x / 256) / 0x10_0000 && y / TOP == (y / 256) / 0x10_0000;
  }

  lemma Mod16(y: int, q: int)
    ensures (y + 16 * q) % 16 == y % 16
  {
  }

  lemma Div16(x: int, q: int)
    ensures (x + 16 * q) / 16 == x / 16 + q
  {
  }

  lemma DivTop(x: int, q: int)
    ensures (x + TOP * q) / TOP == x / TOP + q
  {
  }

  /** Adding multiples of 2^28 leaves the low digit alone, multiples of 2^32 both. */
  lemma DigitsKept(x: int, q: int)
    ensures LowDigit(x + TOP * q) == LowDigit(x)
    ensures TopDigit(x + TOP * (16 * q)) == TopDigit(x)
  {
    Div16(x, 0x100_0000 * q);
    Mod16(x / 16, 0x10_0000 * q);
    DivTop(x, 16 * q);
    Mod16(x / TOP, q);
  }

  lemma DigitsOfLowWord(sum: int)
    ensures TopDigit(sum) == TopDigit(sum % WORD) && LowDigit(sum) == LowDigit(sum % WORD)
  {
    hide TopDigit, LowDigit;
    var k := sum / WORD;
    assert sum == sum % WORD + TOP * (16 * k);
    DigitsKept(sum % WORD, k);
    DigitsKept(sum % WORD, 16 * k);
  }

  /** Clearing the top digit leaves the low digit alone. */
  lemma FoldIs(sum: int)
    ensures var g, m := TopDigit(sum), LowDigit(sum);
      Fold(sum) == sum - TOP * g + 16 * (XorDigit(m, g) - m)
  {
    hide XorDigit, TopDigit, LowDigit;
    DigitsKept(sum, -TopDigit(sum));
  }

  /** The branch of the ABI's version makes no difference. */
  lemma AbiFoldIsFold(sum: int)
    requires 0 <= sum < WORD
    ensures AbiFold(sum) == Fold(sum) && 0 <= AbiFold(sum) < TOP
  {
    var g := TopDigit(sum);
    XorDigitZero(LowDigit(sum));
    hide XorDigit, Fold;
    XorLowLocal(sum, g);
    FoldIs(sum);
    AbiFoldBound(sum);
  }

  lemma AbiFoldBound(sum: int)
    requires 0 <= sum < WORD
    ensures 0 <= AbiFold(sum) < TOP
  {
    hide XorDigit;
    var g := TopDigit(sum);
    XorLowLocal(sum, g);
    var x := if g != 0 then XorLow(sum, g) else sum;
    assert 0 <= x / 256 < WORD / 256;
    assert 0 <= x < WORD;
    assert x / TOP < 16;
  }

  lemma FoldNatural(sum: int)
    requires 0 <= sum
    ensures 0 <= Fold(sum)
  {
    hide XorDigit, LowDigit;
    var d := TopDigit(sum);
    assert sum / TOP >= d && sum - TOP * d >= 0;
    XorLowLocal(sum - TOP * d, d);
  }

  /** What an accumulator carries beyond bit 31 does not reach its low word. */
  lemma FoldLow(sum: int)
    requires 0 <= sum
    ensures 0 <= Fold(sum) && Fold(sum) % WORD == Fold(sum % WORD) % WORD
  {
    hide XorDigit, LowDigit, TopDigit;
    var k, low := sum / WORD, sum % WORD;
    FoldNatural(sum);
    DigitsOfLowWord(sum);
    FoldIs(sum);
    FoldIs(low);
    hide Fold;
    assert Fold(sum) == k * WORD + Fold(low);
  }

  /** One round: the low word of the 64-bit accumulator follows the ABI, and stays
      below 2^28. */
  lemma RoundAgrees(hash: int, c: Char)
    requires 0 <= hash < LONG
    ensures 0 <= Fold(Shift(hash, c)) < LONG
    ensures Fold(Shift(hash, c)) % WORD == AbiRound(hash % WORD, c)
    ensures 0 <= AbiRound(hash % WORD, c) < TOP
  {
    hide Fold, AbiFold, Shift;
    var s, t := Shift(hash, c), (16 * (hash % WORD) + c as int) % WORD;
    ShiftLow(hash, c);
    FoldLow(s);
    AbiFoldIsFold(t);
    FoldBelow(s);
  }

  /** The low word of the shifted accumulator depends on its low word only. */
  lemma ShiftLow(hash: int, c: Char)
    ensures 0 <= Shift(hash, c) < LONG
    ensures Shift(hash, c) % WORD == (16 * (hash % WORD) + c as int) % WORD
  {
    var x, q := 16 * hash + c as int, hash / WORD;
    LowOfLong(x);
    assert x == 16 * (hash % WORD) + c as int + WORD * (16 * q);
    SameLow(16 * (hash % WORD) + c as int, 16 * q);
  }

  lemma LowOfLong(x: int)
    ensures (x % LONG) % WORD == x % WORD
  {
    var q := x / LONG;
    assert x == x % LONG + WORD * (WORD * q);
    SameLow(x % LONG, WORD * q);
  }

  lemma SameLow(x: int, k: int)
    ensures (x + WORD * k) % WORD == x % WORD
  {
  }

  lemma FoldBelow(sum: int)
    requires 0 <= sum < LONG
    ensures Fold(sum) < LONG
  {
    hide XorDigit;
    var d := TopDigit(sum);
    var rest := sum - TOP * d;
    XorLowLocal(rest, d);
    assert rest / 256 < LONG / 256;
  }

  lemma {:induction false} AbiHashAppend(h: int, name: Name, c: Char)
    ensures AbiHashFrom(h, name + [c]) == AbiRound(AbiHashFrom(h, name), c)
    decreases |name|
  {
    hide AbiRound;
    if name == [] {
      assert (name + [c])[1..] == [];
    } else {
      assert (name + [c])[1..] == name[1..] + [c];
      AbiHashAppend(AbiRound(h, name[0]), name[1..], c);
    }
  }

  /** elf_hash: a 64-bit accumulator, truncated to an unsigned int at the end.
      The result is the ABI's hash, and less than 2^28. */
  method Hash(name: Name) returns (r: int)
    ensures r == AbiHash(name) && 0 <= r < TOP
  {
    hide Fold, AbiRound;
    var hash := 0;
    var i := 0;
    while i < |name|
      invariant 0 <= i <= |name| && 0 <= hash < LONG
      invariant hash % WORD == AbiHash(name[..i]) && 0 <= hash % WORD < TOP
    {
      RoundAgrees(hash, name[i]);
      assert name[..i + 1] == name[..i] + [name[i]];
      AbiHashAppend(0, name[..i], name[i]);
      hash := FoldTop(Shift(hash, name[i]));
      i := i + 1;
    }
    assert name[..i] == name;
    r := hash % WORD;
  }

  /** The last three assignments of a round. */
  method FoldTop(sum: int) returns (hash: int)
    ensures hash == Fold(sum)
  {
    hash := sum;
    var hi := TopDigit(hash);
    hash := hash - TOP * hi;
    hash := XorLow(hash, hi);
  }

  /** A number below 2^28 from its last two digits and the rest. */
  lemma Composed(q: int, m: int, r: int)
    requires 0 <= m < 16 && 0 <= r < 16
    ensures var x := 256 * q + 16 * m + r;
      x % 16 == r && LowDigit(x) == m && x / 256 == q
  {
  }

  lemma Decomposed(x: int)
    ensures x == 256 * (x / 256) + 16 * LowDigit(x) + x % 16
  {
  }

  /** The digits of a folded sum: the top digit moves down onto the second one, by
      exclusive or, and nothing else changes. */
  lemma FoldedDigits(sum: int)
    requires 0 <= sum < WORD
    ensures 0 <= AbiFold(sum) < TOP
    ensures AbiFold(sum) % 16 == (sum % TOP) % 16
    ensures LowDigit(AbiFold(sum)) == XorDigit(LowDigit(sum), TopDigit(sum))
    ensures AbiFold(sum) / 256 == (sum % TOP) / 256
  {
    hide XorDigit, LowDigit, TopDigit, AbiFold, Fold, XorLow;
    var g, low := TopDigit(sum), sum % TOP;
    FoldShape(sum, low, g);
    var q, m, r, e := low / 256, LowDigit(low), low % 16, XorDigit(LowDigit(low), g);
    Decomposed(low);
    Composed(q, e, r);
    assert AbiFold(sum) == 256 * q + 16 * e + r;
  }

  lemma FoldShape(sum: int, low: int, g: int)
    requires 0 <= sum < WORD && low == sum % TOP && g == TopDigit(sum)
    ensures LowDigit(sum) == LowDigit(low) && 0 <= AbiFold(sum) < TOP
    ensures AbiFold(sum) == low + 16 * (XorDigit(LowDigit(low), g) - LowDigit(low))
  {
    hide XorDigit, LowDigit, TopDigit, AbiFold, Fold;
    AbiFoldIsFold(sum);
    FoldIs(sum);
    TopIs(sum);
    DigitsKept(low, g);
  }

  lemma TopIs(sum: int)
    requires 0 <= sum < WORD
    ensures sum == sum % TOP + TOP * TopDigit(sum)
  {
  }

  /** While nothing reaches the top digit, a round only appends. */
  lemma PlainRound(h: int, c: Char)
    requires 0 <= h && 16 * h + c as int < TOP
    ensures AbiRound(h, c) == 16 * h + c as int
  {
    hide XorDigit;
  }

  lemma FirstRound(h: int, name: Name)
    requires name != []
    ensures AbiHashFrom(h, name) == AbiHashFrom(AbiRound(h, name[0]), name[1..])
  {
  }

  /** The hash of "syscall", in whose last round the top digit is folded. */
  lemma KnownHash()
    ensures AbiHash([115, 121, 115, 99, 97, 108, 108]) == 0xb09985c
  {
    hide AbiRound, AbiHashFrom;
    var name: Name := [115, 121, 115, 99, 97, 108, 108];
    PlainRound(0, 115);
    PlainRound(0x73, 121);
    PlainRound(0x7a9, 115);
    PlainRound(0x7b03, 99);
    PlainRound(0x7b093, 97);
    PlainRound(0x7b0991, 108);
    LastRound();
    FirstRound(0, name[0..]);
    FirstRound(0x73, name[1..]);
    FirstRound(0x7a9, name[2..]);
    FirstRound(0x7b03, name[3..]);
    FirstRound(0x7b093, name[4..]);
    FirstRound(0x7b0991, name[5..]);
    FirstRound(0x7b0997c, name[6..]);
    assert name[0..] == name;
    NoRound(0xb09985c);
  }

  lemma NoRound(h: int)
    ensures AbiHashFrom(h, []) == h
  {
  }

  lemma LastRound()
    ensures AbiRound(0x7b0997c, 108) == 0xb09985c
  {
    var sum := 0x7b09982c;
    assert TopDigit(sum) == 7 && LowDigit(sum) == 2;
    DigitsXored();
    FoldedDigits(sum);
    hide XorDigit, AbiFold;
    Decomposed(AbiFold(sum));
  }

  lemma DigitsXored()
    ensures XorDigit(2, 7) == 5
  {
    assert (2 as bv4) ^ (7 as bv4) == (5 as bv4);
  }
}
