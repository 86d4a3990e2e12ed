/** The formatted output of lib.c: dvsprintf into a bounded buffer. */
module Format {
  import opened Basics

  function Abs(x: int): (a: nat) { if x < 0 then -x else x }

  function Reversed(s: string): (r: string)
    ensures |r| == |s| && forall k :: 0 <= k < |s| ==> r[k] == s[|s| - 1 - k]
  {
    if s == [] then [] else Reversed(s[1..]) + [s[0]]
  }

  function Repeat(c: char, n: int): (s: string)
    ensures |s| == (if n > 0 then n else 0) && forall k :: 0 <= k < |s| ==> s[k] == c
  {
    if n <= 0 then [] else [c] + Repeat(c, n - 1)
  }

  // ----- text in a buffer of `limit` bytes, one of them for the final zero

  function Room(text: string, limit: int): (n: int)
    ensures n >= 0
  {
    if |text| + 1 < limit then limit - 1 - |text| else 0
  }

  /** Appending s, as far as it fits. */
  function Fitted(text: string, s: string, limit: int): (t: string) {
    text + s[..Min(|s|, Room(text, limit))]
  }

  lemma FittedMore(text: string, s: string, t: string, limit: int)
    ensures Fitted(Fitted(text, s, limit), t, limit) == Fitted(text, s + t, limit)
  {
    var n, m := Room(text, limit), Room(Fitted(text, s, limit), limit);
    if |s| <= n {
      assert m == n - |s|;
      assert s[..|s|] == s;
      assert (s + t)[..Min(|s| + |t|, n)] == s + t[..Min(|t|, m)];
    } else {
      assert m == 0;
      assert (s + t)[..n] == s[..n];
    }
  }

  lemma FittedNothing(text: string, limit: int)
    ensures Fitted(text, [], limit) == text
  {
  }

  // ----- digits, least significant first, as the conversion loops emit them

  /** Division and remainder of C, which round towards zero. */
  function Quotient(n: int): (q: int)
    ensures q != 0 ==> Abs(q) < Abs(n)
  {
    if n < 0 then -(-n / 10) else n / 10
  }

  function Remainder(n: int): (r: int)
    ensures -9 <= r <= 9 && n == 10 * Quotient(n) + r
  {
    if n < 0 then -(-n % 10) else n % 10
  }

  function Decimals(n: int): (s: string)
    ensures |s| > 0
    decreases Abs(n)
  {
    [(48 + Remainder(n)) as char] + (if Quotient(n) != 0 then Decimals(Quotient(n)) else [])
  }

  lemma DecimalsStep(n: int, done: string)
    ensures var c := (48 + Remainder(n)) as char;
            done + Decimals(n) == done + [c] + if Quotient(n) != 0 then Decimals(Quotient(n)) else []
  {
  }

  function HexDigit(d: int): (c: char)
    requires 0 <= d < 16
  {
    if d > 9 then (97 + d - 10) as char else (48 + d) as char
  }

  function Hexes(n: nat, most: nat): (s: string)
    ensures |s| > 0
  {
    [HexDigit(n % 16)] + (if most > 1 && n / 16 != 0 then Hexes(n / 16, most - 1) else [])
  }

  lemma HexesStep(n: nat, most: nat, done: string)
    ensures var c := HexDigit(n % 16);
            done + Hexes(n, most) == done + [c] + if most > 1 && n / 16 != 0 then Hexes(n / 16, most - 1) else []
  {
  }

  // ----- what a format asks for

  datatype Arg = Number(n: int) | Str(s: string) | Null

  /** Characters in the order they are put; those of a backward piece are reversed in place afterwards. */
  datatype Piece = Forward(s: string) | Backward(s: string)

  datatype Flags = Flags(l: bool, ll: bool, sharp: bool, zero: bool, size: nat, padding: int)
  datatype Scanned = Scanned(at: nat, args: seq<Arg>, flags: Flags)

  const NO_FLAGS := Flags(false, false, false, false, 4, 0)
  const TWO_TO_63 := 0x8000_0000_0000_0000
  const TWO_TO_64 := 0x1_0000_0000_0000_0000

  predicate IsDigit(c: char) { '0' <= c <= '9' }

  function DigitsEnd(format: string, at: nat): (e: nat)
    requires at <= |format|
    ensures at <= e <= |format|
    ensures forall k :: at <= k < e ==> IsDigit(format[k])
    ensures e < |format| ==> !IsDigit(format[e])
    decreases |format| - at
  {
    if at < |format| && IsDigit(format[at]) then DigitsEnd(format, at + 1) else at
  }

  /** The padding after the digits format[at..e], read on from `padding`. */
  function Widened(format: string, at: nat, e: nat, padding: int): int
    requires at <= e <= |format|
    decreases e - at
  {
    if at == e then padding else Widened(format, at + 1, e, padding * 10 + format[at] as int - 48)
  }

  function AfterDigits(format: string, at: nat, flags: Flags): (r: (nat, Flags))
    requires at <= |format|
    ensures at <= r.0 <= |format|
  {
    if at < |format| && format[at] != '0' && IsDigit(format[at]) then
      var e := DigitsEnd(format, at);
      (e, flags.(padding := Widened(format, at, e, flags.padding)))
    else (at, flags)
  }

  /**
   * From the character after '%' to the conversion character. There is no
   * answer when the format ends before it, or `*` finds no integer.
   */
  function Scan(format: string, at: nat, args: seq<Arg>, flags: Flags): (r: Option<Scanned>)
    requires at <= |format|
    ensures r.Some? ==> at <= r.value.at < |format|
    decreases |format| - at
  {
    var (e, f) := AfterDigits(format, at, flags);
    if e == |format| then None
    else match format[e]
      case '*' =>
        if args != [] && args[0].Number? then Scan(format, e + 1, args[1..], f.(padding := args[0].n)) else None
      case '#' => Scan(format, e + 1, args, f.(sharp := true))
      case '0' => Scan(format, e + 1, args, f.(zero := true))
      case 'l' => Scan(format, e + 1, args, if f.l then f.(ll := true, size := 8) else f.(l := true, size := 8))
      case _ => Some(Scanned(e, args, f))
  }

  /** An argument that va_arg delivers for the flags: an int, or with `l` a long. */
  predicate Delivered(n: int, long: bool) {
    if long then -TWO_TO_63 <= n < TWO_TO_63 else -0x8000_0000 <= n < 0x8000_0000
  }

  function HexPieces(n: int, sharp: bool, zero: bool, width: nat, padding: int): (ps: seq<Piece>) {
    var digits := Hexes(n % TWO_TO_64, 2 * width);
    [Forward(if sharp then "0x" else ""),
     Backward(digits + Repeat(if zero then '0' else ' ', padding - |digits|))]
  }

  function DecimalPieces(n: int, padding: int): (ps: seq<Piece>) {
    var digits := Decimals(Abs(n));
    [Backward(digits + (if n < 0 then "-" else "") + Repeat(' ', padding - |digits|))]
  }

  function UnsignedPieces(n: int, padding: int): (ps: seq<Piece>) {
    var digits := Decimals(n);
    [Backward(digits + Repeat(' ', padding - |digits|))]
  }

  function StringOf(arg: Arg): string {
    if arg.Str? then arg.s else "(NULL)"
  }

  /** Does the conversion take an argument, and is it one that the code handles? */
  predicate Takes(c: char) { c in "pPxducs" }

  predicate Handles(c: char, f: Flags, args: seq<Arg>) {
    !Takes(c) ||
    (args != [] &&
     match args[0]
     case Number(n) => c != 's' && Delivered(n, c == 'p' || c == 'P' || (c != 'c' && f.l))
       && !(c == 'd' && n == -TWO_TO_63)
     case _ => c == 's')
  }

  function Convert(c: char, f: Flags, args: seq<Arg>): (ps: seq<Piece>)
    requires Handles(c, f, args)
  {
    match c
    case 'p' => HexPieces(args[0].n, true, f.zero, 8, f.padding)
    case 'P' => HexPieces(args[0].n, true, true, 8, 16)
    case 'x' => HexPieces(args[0].n, f.sharp, f.zero, f.size, f.padding)
    case 'd' => DecimalPieces(args[0].n, f.padding)
    case 'u' => UnsignedPieces(args[0].n, f.padding)
    case 'c' => [Forward([(args[0].n % 256) as char])]
    case 's' => [Forward(StringOf(args[0]) + Repeat(' ', f.padding - |StringOf(args[0])|))]
    case _ => [Forward([c])]
  }

  datatype Step = Step(at: nat, args: seq<Arg>, pieces: seq<Piece>)

  /** One character of the format, or one directive. */
  function Next(format: string, at: nat, args: seq<Arg>): (r: Option<Step>)
    requires at < |format|
    ensures r.Some? ==> at < r.value.at <= |format|
  {
    if format[at] != '%' then Some(Step(at + 1, args, [Forward([format[at]])]))
    else
      var scan := Scan(format, at + 1, args, NO_FLAGS);
      if scan.None? then None
      else
        var Scanned(e, rest, f) := scan.value;
        if !Handles(format[e], f, rest) then None
        else Some(Step(e + 1, if Takes(format[e]) then rest[1..] else rest, Convert(format[e], f, rest)))
  }

  /**
   * Everything a format asks for, from position `at` on. There is no answer when
   * the format ends inside a directive or an argument is missing, of another
   * type, or the one number that %d cannot negate.
   */
  function Pieces(format: string, at: nat, args: seq<Arg>): (r: Option<seq<Piece>>)
    requires at <= |format|
    decreases |format| - at
  {
    if at == |format| then Some([])
    else
      var next := Next(format, at, args);
      if next.None? then None
      else
        var rest := Pieces(format, next.value.at, next.value.args);
        if rest.None? then None else Some(next.value.pieces + rest.value)
  }

  // ----- pieces laid into a buffer

  function Lay(text: string, p: Piece, limit: int): (t: string) {
    match p
    case Forward(s) => Fitted(text, s, limit)
    case Backward(s) => text + Reversed(s[..Min(|s|, Room(text, limit))])
  }

  function Laid(text: string, ps: seq<Piece>, limit: int): (t: string)
    decreases |ps|
  {
    if ps == [] then text else Laid(Lay(text, ps[0], limit), ps[1..], limit)
  }

  function Shown(p: Piece): (s: string)
    ensures |s| == |p.s|
  {
    if p.Forward? then p.s else Reversed(p.s)
  }

  /** The output of an unlimited buffer. */
  function Whole(ps: seq<Piece>): (s: string) {
    if ps == [] then "" else Shown(ps[0]) + Whole(ps[1..])
  }

  lemma {:induction false} LaidMore(text: string, ps: seq<Piece>, qs: seq<Piece>, limit: int)
    ensures Laid(Laid(text, ps, limit), qs, limit) == Laid(text, ps + qs, limit)
    decreases |ps|
  {
    hide Lay;
    if ps == [] {
      assert ps + qs == qs;
    } else {
      LaidMore(Lay(text, ps[0], limit), ps[1..], qs, limit);
      assert (ps + qs)[1..] == ps[1..] + qs;
    }
  }

  lemma LayIsWhole(text: string, p: Piece, limit: int)
    requires |text| < limit
    ensures |Lay(text, p, limit)| == Min(|text| + |p.s|, limit - 1)
    ensures |text| + |p.s| < limit ==> Lay(text, p, limit) == text + Shown(p)
  {
    if |text| + |p.s| < limit {
      assert p.s[..|p.s|] == p.s;
    }
  }

  /** The output has the length of the whole rendering, cut at limit - 1, and is that rendering when it is not cut. */
  lemma {:induction false} LaidIsWhole(text: string, ps: seq<Piece>, limit: int)
    requires |text| < limit
    ensures |Laid(text, ps, limit)| == Min(|text| + |Whole(ps)|, limit - 1)
    ensures |text| + |Whole(ps)| < limit ==> Laid(text, ps, limit) == text + Whole(ps)
    decreases |ps|
  {
    hide Lay, Shown;
    if ps != [] {
      LayIsWhole(text, ps[0], limit);
      LaidIsWhole(Lay(text, ps[0], limit), ps[1..], limit);
    }
  }

  lemma BackwardLaid(text: string, s: string, limit: int)
    ensures var t := Fitted(text, s, limit);
            |text| <= |t| && t[..|text|] + Reversed(t[|text|..]) == Lay(text, Backward(s), limit)
  {
    var t := Fitted(text, s, limit);
    assert t[..|text|] == text;
    assert t[|text|..] == s[..Min(|s|, Room(text, limit))];
  }

  lemma LaidNothing(text: string, limit: int)
    ensures Laid(text, [], limit) == text
  {
  }

  lemma LaidOne(text: string, ps: seq<Piece>, limit: int)
    requires |ps| == 1
    ensures Laid(text, ps, limit) == Lay(text, ps[0], limit)
    ensures ps[0].Forward? ==> Laid(text, ps, limit) == Fitted(text, ps[0].s, limit)
  {
    hide Fitted;
    assert ps[1..] == [];
  }

  lemma LaidTwo(text: string, ps: seq<Piece>, limit: int)
    requires |ps| == 2 && ps[0].Forward?
    ensures Laid(text, ps, limit) == Lay(Fitted(text, ps[0].s, limit), ps[1], limit)
  {
    LaidOne(Lay(text, ps[0], limit), ps[1..], limit);
  }

  lemma PiecesEnd(format: string, args: seq<Arg>)
    ensures Pieces(format, |format|, args) == Some([])
  {
  }

  lemma PiecesStep(text: string, format: string, at: nat, args: seq<Arg>, limit: int)
    requires at < |format| && Pieces(format, at, args).Some?
    ensures Next(format, at, args).Some?
    ensures var Step(e, rest, ps) := Next(format, at, args).value;
            Pieces(format, e, rest).Some? &&
            Laid(Laid(text, ps, limit), Pieces(format, e, rest).value, limit)
            == Laid(text, Pieces(format, at, args).value, limit)
  {
    hide Laid, Next;
    var Step(e, rest, ps) := Next(format, at, args).value;
    LaidMore(text, ps, Pieces(format, e, rest).value, limit);
  }

  lemma ReversedEnd(s: string, t: string, from: int)
    requires |t| == |s| && 0 <= from <= |s| && t[..from] == s[..from]
    requires forall i :: from <= i < |s| ==> t[i] == s[from + |s| - 1 - i]
    ensures t == s[..from] + Reversed(s[from..])
  {
    var tail := Reversed(s[from..]);
    hide Reversed;
    forall i | from <= i < |s| ensures t[i] == tail[i - from] {
      assert tail[i - from] == s[from..][|s| - from - 1 - (i - from)];
    }
    assert t[from..] == tail;
  }

  /** A buffer that is being filled. */
  class Buffer {
    const data: array<char>
    const limit: int
    var size: int

    ghost predicate Valid()
      reads this
    {
      0 <= size < limit <= data.Length
    }

    ghost function Text(): string
      requires Valid()
      reads this, data
    {
      data[..size]
    }

    constructor (data: array<char>, limit: int)
      requires 1 <= limit <= data.Length
      ensures this.data == data && this.limit == limit && size == 0
    {
      this.data, this.limit, this.size := data, limit, 0;
    }

    /** Nothing beyond the first `limit` bytes was written. */
    twostate predicate Inside()
      reads this, data
    {
      forall i :: 0 <= i < data.Length && i >= limit ==> data[i] == old(data[i])
    }

    /** The macro PUT. */
    method Put(c: char)
      requires Valid()
      modifies this`size, data
      ensures Valid() && Text() == Fitted(old(Text()), [c], limit) && Inside()
    {
      if size + 1 >= limit {
      } else {
        data[size] := c;
        size := size + 1;
      }
    }

    /** A run of equal characters, as the padding loops put it. */
    method PutMany(c: char, n: int)
      requires Valid()
      modifies this`size, data
      ensures Valid() && Text() == Fitted(old(Text()), Repeat(c, n), limit) && Inside()
    {
      ghost var text := Text();
      var left := if n > 0 then n else 0;
      ghost var all := left;
      FittedNothing(text, limit);
      while left > 0
        invariant 0 <= left <= all && Valid() && Inside()
        invariant Text() == Fitted(text, Repeat(c, all - left), limit)
      {
        ghost var some := Repeat(c, all - left);
        FittedMore(text, some, [c], limit);
        assert some + [c] == Repeat(c, all - left + 1);
        Put(c);
        left := left - 1;
      }
      assert Repeat(c, all) == Repeat(c, n);
    }

    method PutString(s: string)
      requires Valid()
      modifies this`size, data
      ensures Valid() && Text() == Fitted(old(Text()), s, limit) && Inside()
    {
      ghost var text := Text();
      FittedNothing(text, limit);
      var i := 0;
      while i < |s|
        invariant 0 <= i <= |s| && Valid() && Inside()
        invariant Text() == Fitted(text, s[..i], limit)
      {
        FittedMore(text, s[..i], [s[i]], limit);
        assert s[..i] + [s[i]] == s[..i + 1];
        Put(s[i]);
        i := i + 1;
      }
      assert s[..i] == s;
    }

    /** The function reverse, from `from` to the end of the text: what lies at i was at from + size - 1 - i. */
    method Swap(from: int)
      requires Valid() && 0 <= from <= size
      modifies data
      ensures forall i :: 0 <= i < data.Length && (i < from || i >= size) ==> data[i] == old(data[i])
      ensures forall i :: from <= i < size ==> data[i] == old(data[from + size - 1 - i])
    {
      var s, t := from, size - 1;
      while s < t
        invariant from <= s <= t + 1 <= size && s + t == from + size - 1
        invariant forall i :: 0 <= i < data.Length && (i < from || i >= size || s <= i <= t) ==> data[i] == old(data[i])
        invariant forall i :: from <= i < s || t < i < size ==> data[i] == old(data[from + size - 1 - i])
      {
        var tmp := data[t];
        data[t] := data[s];
        data[s] := tmp;
        s, t := s + 1, t - 1;
      }
    }

    method ReverseFrom(from: int)
      requires Valid() && 0 <= from <= size
      modifies data
      ensures Valid() && Text() == old(Text())[..from] + Reversed(old(Text())[from..]) && Inside()
    {
      ghost var text := Text();
      Swap(from);
      ReversedEnd(text, Text(), from);
    }

    /** The digit loop of print_u and print_d. */
    method PutDecimals(number: int) returns (count: int)
      requires Valid()
      modifies this`size, data
      ensures Valid() && Text() == Fitted(old(Text()), Decimals(number), limit) && Inside()
      ensures count == |Decimals(number)|
    {
      hide Fitted, Decimals, Remainder, Quotient;
      ghost var text := Text();
      ghost var done := "";
      var n, more := number, true;
      count := 0;
      FittedNothing(text, limit);
      while more
        invariant Valid() && Inside() && count == |done|
        invariant Text() == Fitted(text, done, limit)
        invariant Decimals(number) == if more then done + Decimals(n) else done
        decreases more, Abs(n)
      {
        var c := (48 + Remainder(n)) as char;
        DecimalsStep(n, done);
        FittedMore(text, done, [c], limit);
        Put(c);
        done := done + [c];
        n := Quotient(n);
        count := count + 1;
        more := n != 0;
      }
    }

    /** The digit loop of print_x. */
    method PutHexes(number: nat, most: nat) returns (count: int)
      requires Valid()
      modifies this`size, data
      ensures Valid() && Text() == Fitted(old(Text()), Hexes(number, most), limit) && Inside()
      ensures count == |Hexes(number, most)|
    {
      hide Fitted, HexDigit, Hexes;
      ghost var text := Text();
      ghost var done := "";
      var n, more := number, true;
      count := 0;
      FittedNothing(text, limit);
      while more
        invariant Valid() && Inside() && count == |done|
        invariant more ==> count == 0 || count < most
        invariant Text() == Fitted(text, done, limit)
        invariant Hexes(number, most)
               == if more then done + Hexes(n, if count < most then most - count else 0) else done
        decreases more, n
      {
        var c := HexDigit(n % 16);
        HexesStep(n, if count < most then most - count else 0, done);
        FittedMore(text, done, [c], limit);
        Put(c);
        done := done + [c];
        n := n / 16;
        count := count + 1;
        more := count < most && n != 0;
      }
    }

    /** The reversal that ends print_u, print_x and print_d. */
    method Finish(from: int, ghost text: string, ghost s: string)
      requires Valid() && from == |text| && Text() == Fitted(text, s, limit)
      modifies data
      ensures Valid() && Text() == Lay(text, Backward(s), limit) && Inside()
    {
      hide Reversed, Room, Min;
      BackwardLaid(text, s, limit);
      ReverseFrom(from);
    }

    method PrintUnsigned(number: int, padding: int)
      requires Valid()
      modifies this`size, data
      ensures Valid() && Inside()
      ensures Text() == Laid(old(Text()), UnsignedPieces(number, padding), limit)
    {
      hide Fitted, Decimals, Lay, Laid, Repeat;
      ghost var text := Text();
      var from := size;
      var count := PutDecimals(number);
      PutMany(' ', padding - count);
      FittedMore(text, Decimals(number), Repeat(' ', padding - count), limit);
      Finish(from, text, Decimals(number) + Repeat(' ', padding - count));
      LaidOne(text, UnsignedPieces(number, padding), limit);
    }

    method PrintDecimal(number: int, padding: int)
      requires Valid()
      modifies this`size, data
      ensures Valid() && Inside()
      ensures Text() == Laid(old(Text()), DecimalPieces(number, padding), limit)
    {
      hide Fitted, Decimals, Lay, Laid, Repeat;
      ghost var text := Text();
      var from := size;
      var minus, n := number < 0, number;
      if minus { n := n * -1; }
      var count := PutDecimals(n);
      ghost var sign := if minus then "-" else "";
      if minus { Put('-'); } else { FittedNothing(Text(), limit); }
      FittedMore(text, Decimals(n), sign, limit);
      PutMany(' ', padding - count);
      FittedMore(text, Decimals(n) + sign, Repeat(' ', padding - count), limit);
      Finish(from, text, Decimals(n) + sign + Repeat(' ', padding - count));
      LaidOne(text, DecimalPieces(number, padding), limit);
    }

    method PrintHex(number: int, sharp: bool, zero: bool, width: nat, padding: int)
      requires Valid()
      modifies this`size, data
      ensures Valid() && Inside()
      ensures Text() == Laid(old(Text()), HexPieces(number, sharp, zero, width, padding), limit)
    {
      hide Fitted, Hexes, Lay, Laid, Repeat;
      ghost var first := Text();
      if sharp { PutString("0x"); } else { FittedNothing(first, limit); }
      ghost var text := Text();
      var from := size;
      var n := number % TWO_TO_64;
      var count := PutHexes(n, 2 * width);
      var fill := if zero then '0' else ' ';
      PutMany(fill, padding - count);
      FittedMore(text, Hexes(n, 2 * width), Repeat(fill, padding - count), limit);
      Finish(from, text, Hexes(n, 2 * width) + Repeat(fill, padding - count));
      LaidTwo(first, HexPieces(number, sharp, zero, width, padding), limit);
    }

    method PrintString(arg: Arg, padding: int)
      requires Valid()
      modifies this`size, data
      ensures Valid() && Inside()
      ensures Text() == Laid(old(Text()), [Forward(StringOf(arg) + Repeat(' ', padding - |StringOf(arg)|))], limit)
    {
      hide Fitted, Lay, Laid, Repeat;
      ghost var text := Text();
      var str := if arg.Str? then arg.s else "(NULL)";
      PutString(str);
      PutMany(' ', padding - |str|);
      FittedMore(text, str, Repeat(' ', padding - |str|), limit);
      LaidOne(text, [Forward(str + Repeat(' ', padding - |str|))], limit);
    }

    method PutChar(c: char)
      requires Valid()
      modifies this`size, data
      ensures Valid() && Inside()
      ensures Text() == Laid(old(Text()), [Forward([c])], limit)
    {
      hide Fitted, Lay, Laid;
      LaidOne(Text(), [Forward([c])], limit);
      Put(c);
    }

    /** The switch on the conversion character. */
    method Print(c: char, f: Flags, args: seq<Arg>)
      requires Valid() && Handles(c, f, args)
      modifies this`size, data
      ensures Valid() && Inside()
      ensures Text() == Laid(old(Text()), Convert(c, f, args), limit)
    {
      hide Laid, HexPieces, DecimalPieces, UnsignedPieces, StringOf, Repeat;
      match c {
        case 'p' => PrintHex(args[0].n, true, f.zero, 8, f.padding);
        case 'P' => PrintHex(args[0].n, true, true, 8, 16);
        case 'x' => PrintHex(args[0].n, f.sharp, f.zero, f.size, f.padding);
        case 'd' => PrintDecimal(args[0].n, f.padding);
        case 'u' => PrintUnsigned(args[0].n, f.padding);
        case 'c' => PutChar((args[0].n % 256) as char);
        case 's' => PrintString(args[0], f.padding);
        case _ => PutChar(c);
      }
    }
  }

  /** The digits of a width. */
  method ReadWidth(format: string, at: nat, padding: int) returns (e: nat, width: int)
    requires at <= |format|
    ensures e == DigitsEnd(format, at) && width == Widened(format, at, e, padding)
  {
    e, width := at, padding;
    while e < |format| && IsDigit(format[e])
      invariant at <= e <= |format|
      invariant DigitsEnd(format, at) == DigitsEnd(format, e)
      invariant Widened(format, at, DigitsEnd(format, at), padding) == Widened(format, e, DigitsEnd(format, e), width)
    {
      width := width * 10 + format[e] as int - 48;
      e := e + 1;
    }
  }

  /** The label cont and the jumps back to it. */
  method ReadFlags(format: string, start: nat, given: seq<Arg>) returns (at: nat, args: seq<Arg>, f: Flags)
    requires start <= |format| && Scan(format, start, given, NO_FLAGS).Some?
    ensures Scan(format, start, given, NO_FLAGS) == Some(Scanned(at, args, f))
  {
    hide DigitsEnd, Widened;
    at, args, f := start, given, NO_FLAGS;
    while true
      invariant at <= |format|
      invariant Scan(format, at, args, f) == Scan(format, start, given, NO_FLAGS)
      decreases |format| - at
    {
      if at < |format| && format[at] != '0' && IsDigit(format[at]) {
        var e, width := ReadWidth(format, at, f.padding);
        at, f := e, f.(padding := width);
      }
      match format[at] {
        case '*' => args, f := args[1..], f.(padding := args[0].n);
        case '#' => f := f.(sharp := true);
        case '0' => f := f.(zero := true);
        case 'l' => f := if f.l then f.(ll := true, size := 8) else f.(l := true, size := 8);
        case _ => return;
      }
      at := at + 1;
    }
  }

  /**
   * dvsprintf: nothing outside the buffer is written, the result is the length of
   * the text, a zero follows it, and the text is the whole rendering of the
   * format cut to limit - 1 characters.
   */
  method Dvsprintf(data: array<char>, limit: int, format: string, given: seq<Arg>) returns (size: int)
    requires 1 <= limit <= data.Length && Pieces(format, 0, given).Some?
    modifies data
    ensures 0 <= size < limit && data[size] == '\0'
    ensures data[..size] == Laid("", Pieces(format, 0, given).value, limit)
    ensures forall i :: limit <= i < data.Length ==> data[i] == old(data[i])
    ensures var whole := Whole(Pieces(format, 0, given).value);
            size == Min(|whole|, limit - 1) && (|whole| < limit ==> data[..size] == whole)
  {
    hide Laid, Convert, Whole, Scan, Pieces;
    ghost var all := Pieces(format, 0, given).value;
    var out := new Buffer(data, limit);
    var at, args := 0, given;
    while at < |format|
      invariant at <= |format| && out.Valid() && out.data == data && out.limit == limit
      invariant forall i :: limit <= i < data.Length ==> data[i] == old(data[i])
      invariant Pieces(format, at, args).Some?
      invariant Laid(out.Text(), Pieces(format, at, args).value, limit) == Laid("", all, limit)
      decreases |format| - at
    {
      PiecesStep(out.Text(), format, at, args, limit);
      if format[at] != '%' {
        out.PutChar(format[at]);
        at := at + 1;
      } else {
        var e, rest, f := ReadFlags(format, at + 1, args);
        out.Print(format[e], f, rest);
        at, args := e + 1, if Takes(format[e]) then rest[1..] else rest;
      }
    }
    PiecesEnd(format, args);
    LaidNothing(out.Text(), limit);
    data[out.size] := '\0';
    size := out.size;
    LaidIsWhole("", all, limit);
  }
}
