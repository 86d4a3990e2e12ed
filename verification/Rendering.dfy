/** What formats render: their parts one after the other, and each directive by itself. */
module Rendering {
  import opened Basics
  import opened Format
  import opened Numerals
  import Dependencies

  /** The arguments that a format leaves over. */
  function Remaining(format: string, at: nat, args: seq<Arg>): (rest: seq<Arg>)
    requires at <= |format| && Pieces(format, at, args).Some?
    decreases |format| - at
  {
    if at == |format| then args
    else
      var next := Next(format, at, args).value;
      Remaining(format, next.at, next.args)
  }

  /** The format takes exactly these arguments and renders as this text. */
  ghost predicate Renders(format: string, args: seq<Arg>, text: string) {
    Pieces(format, 0, args).Some? && Whole(Pieces(format, 0, args).value) == text && Remaining(format, 0, args) == []
  }

  // ----- a format followed by another

  lemma {:induction false} DigitsEndPrefix(f: string, g: string, at: nat)
    requires at <= |f| && DigitsEnd(f, at) < |f|
    ensures DigitsEnd(f + g, at) == DigitsEnd(f, at)
    decreases |f| - at
  {
    assert (f + g)[at] == f[at];
    if IsDigit(f[at]) { DigitsEndPrefix(f, g, at + 1); }
  }

  lemma {:induction false} WidenedPrefix(f: string, g: string, at: nat, e: nat, padding: int)
    requires at <= e <= |f|
    ensures Widened(f + g, at, e, padding) == Widened(f, at, e, padding)
    decreases e - at
  {
    if at < e {
      assert (f + g)[at] == f[at];
      WidenedPrefix(f, g, at + 1, e, padding * 10 + f[at] as int - 48);
    }
  }

  lemma {:induction false} ScanPrefix(f: string, g: string, at: nat, args: seq<Arg>, more: seq<Arg>, fl: Flags)
    requires at <= |f| && Scan(f, at, args, fl).Some?
    ensures var r := Scan(f, at, args, fl).value;
      Scan(f + g, at, args + more, fl) == Some(Scanned(r.at, r.args + more, r.flags))
    decreases |f| - at
  {
    hide DigitsEnd, Widened, IsDigit, AfterDigits;
    AfterDigitsPrefix(f, g, at, fl);
    var (e, h) := AfterDigits(f, at, fl);
    assert (f + g)[e] == f[e];
    match f[e]
    case '*' =>
      assert (args + more)[0] == args[0] && (args + more)[1..] == args[1..] + more;
      ScanPrefix(f, g, e + 1, args[1..], more, h.(padding := args[0].n));
    case '#' => ScanPrefix(f, g, e + 1, args, more, h.(sharp := true));
    case '0' => ScanPrefix(f, g, e + 1, args, more, h.(zero := true));
    case 'l' =>
      ScanPrefix(f, g, e + 1, args, more, if h.l then h.(ll := true, size := 8) else h.(l := true, size := 8));
    case _ =>
  }

  lemma AfterDigitsPrefix(f: string, g: string, at: nat, fl: Flags)
    requires at <= |f| && AfterDigits(f, at, fl).0 < |f|
    ensures AfterDigits(f + g, at, fl) == AfterDigits(f, at, fl)
  {
    hide DigitsEnd, Widened;
    assert (f + g)[at] == f[at];
    if f[at] != '0' && IsDigit(f[at]) {
      DigitsEndPrefix(f, g, at);
      WidenedPrefix(f, g, at, DigitsEnd(f, at), fl.padding);
    }
  }

  lemma HandlesMore(c: char, f: Flags, args: seq<Arg>, more: seq<Arg>)
    requires Handles(c, f, args)
    ensures Handles(c, f, args + more) && Convert(c, f, args + more) == Convert(c, f, args)
    ensures Takes(c) ==> args != [] && (args + more)[1..] == args[1..] + more
  {
    hide HexPieces, DecimalPieces, UnsignedPieces, StringOf, Repeat;
    assert args != [] ==> (args + more)[0] == args[0];
    if Takes(c) { assert (args + more)[1..] == args[1..] + more; }
  }

  lemma NextPrefix(f: string, g: string, at: nat, args: seq<Arg>, more: seq<Arg>)
    requires at < |f| && Next(f, at, args).Some?
    ensures var n := Next(f, at, args).value;
      Next(f + g, at, args + more) == Some(Step(n.at, n.args + more, n.pieces))
  {
    hide Scan, Handles, Convert, Takes;
    assert (f + g)[at] == f[at];
    if f[at] == '%' {
      ScanPrefix(f, g, at + 1, args, more, NO_FLAGS);
      var Scanned(e, rest, fl) := Scan(f, at + 1, args, NO_FLAGS).value;
      assert (f + g)[e] == f[e];
      HandlesMore(f[e], fl, rest, more);
    }
  }

  /** The pieces of a format come first when another follows it. */
  lemma {:induction false} PiecesPrefix(f: string, g: string, at: nat, args: seq<Arg>, more: seq<Arg>)
    requires at <= |f| && Pieces(f, at, args).Some? && Remaining(f, at, args) == []
    ensures var ps, qs := Pieces(f, at, args), Pieces(f + g, |f|, more);
      Pieces(f + g, at, args + more) == if qs.None? then None else Some(ps.value + qs.value)
    ensures Pieces(f + g, |f|, more).Some? ==>
      Pieces(f + g, at, args + more).Some? && Remaining(f + g, at, args + more) == Remaining(f + g, |f|, more)
    decreases |f| - at
  {
    hide Next;
    if at == |f| {
      assert args == [] && args + more == more;
      var none: seq<Piece> := [];
      assert Pieces(f, at, args).value == none;
      if qs :| Pieces(f + g, |f|, more) == Some(qs) { assert none + qs == qs; }
    } else {
      NextPrefix(f, g, at, args, more);
      var n := Next(f, at, args).value;
      PiecesPrefix(f, g, n.at, n.args, more);
      var rest := Pieces(f, n.at, n.args).value;
      if qs :| Pieces(f + g, |f|, more) == Some(qs) {
        assert n.pieces + (rest + qs) == (n.pieces + rest) + qs;
      }
    }
  }

  // ----- a format behind another

  lemma {:induction false} DigitsEndShift(f: string, g: string, i: nat)
    requires i <= |g|
    ensures DigitsEnd(f + g, |f| + i) == |f| + DigitsEnd(g, i)
    decreases |g| - i
  {
    if i < |g| {
      assert (f + g)[|f| + i] == g[i];
      if IsDigit(g[i]) { DigitsEndShift(f, g, i + 1); }
    }
  }

  lemma {:induction false} WidenedShift(f: string, g: string, i: nat, e: nat, padding: int)
    requires i <= e <= |g|
    ensures Widened(f + g, |f| + i, |f| + e, padding) == Widened(g, i, e, padding)
    decreases e - i
  {
    if i < e {
      assert (f + g)[|f| + i] == g[i];
      WidenedShift(f, g, i + 1, e, padding * 10 + g[i] as int - 48);
    }
  }

  /** A scan that started k characters further left. */
  function Later(r: Option<Scanned>, k: nat): (r': Option<Scanned>) {
    if r.None? then None else Some(r.value.(at := r.value.at + k))
  }

  lemma AfterDigitsShift(f: string, g: string, i: nat, fl: Flags)
    requires i <= |g|
    ensures var r := AfterDigits(g, i, fl); AfterDigits(f + g, |f| + i, fl) == (|f| + r.0, r.1)
  {
    hide DigitsEnd, Widened;
    if i < |g| {
      assert (f + g)[|f| + i] == g[i];
      DigitsEndShift(f, g, i);
      WidenedShift(f, g, i, DigitsEnd(g, i), fl.padding);
    }
  }

  lemma {:induction false} ScanShift(f: string, g: string, i: nat, args: seq<Arg>, fl: Flags)
    requires i <= |g|
    ensures Scan(f + g, |f| + i, args, fl) == Later(Scan(g, i, args, fl), |f|)
    decreases |g| - i
  {
    hide DigitsEnd, Widened, IsDigit, AfterDigits;
    AfterDigitsShift(f, g, i, fl);
    var (e, h) := AfterDigits(g, i, fl);
    if e < |g| {
      assert (f + g)[|f| + e] == g[e];
      match g[e]
      case '*' =>
        if args != [] && args[0].Number? { ScanShift(f, g, e + 1, args[1..], h.(padding := args[0].n)); }
      case '#' => ScanShift(f, g, e + 1, args, h.(sharp := true));
      case '0' => ScanShift(f, g, e + 1, args, h.(zero := true));
      case 'l' => ScanShift(f, g, e + 1, args, if h.l then h.(ll := true, size := 8) else h.(l := true, size := 8));
      case _ =>
    }
  }

  lemma NextShift(f: string, g: string, i: nat, args: seq<Arg>)
    requires i < |g|
    ensures var n := Next(g, i, args);
      Next(f + g, |f| + i, args) == if n.None? then None else Some(n.value.(at := n.value.at + |f|))
  {
    hide Scan, Handles, Convert, Takes;
    assert (f + g)[|f| + i] == g[i];
    if g[i] == '%' {
      ScanShift(f, g, i + 1, args, NO_FLAGS);
      var r := Scan(g, i + 1, args, NO_FLAGS);
      if r.Some? { assert (f + g)[|f| + r.value.at] == g[r.value.at]; }
    }
  }

  lemma {:induction false} PiecesShift(f: string, g: string, i: nat, args: seq<Arg>)
    requires i <= |g|
    ensures Pieces(f + g, |f| + i, args) == Pieces(g, i, args)
    ensures Pieces(g, i, args).Some? ==> Remaining(f + g, |f| + i, args) == Remaining(g, i, args)
    decreases |g| - i
  {
    hide Next;
    if i < |g| {
      NextShift(f, g, i, args);
      if Next(g, i, args).Some? {
        var n := Next(g, i, args).value;
        PiecesShift(f, g, n.at, n.args);
      }
    }
  }

  lemma {:induction false} WholeAppend(ps: seq<Piece>, qs: seq<Piece>)
    ensures Whole(ps + qs) == Whole(ps) + Whole(qs)
    decreases |ps|
  {
    hide Shown;
    if ps == [] {
      assert ps + qs == qs;
    } else {
      WholeAppend(ps[1..], qs);
      assert (ps + qs)[1..] == ps[1..] + qs;
    }
  }

  /** Formats one after the other, with their arguments one after the other, render
      as their texts one after the other. */
  lemma Concatenation(f: string, a: seq<Arg>, s: string, g: string, b: seq<Arg>, t: string)
    requires Renders(f, a, s) && Renders(g, b, t)
    ensures Renders(f + g, a + b, s + t)
  {
    hide Pieces, Remaining, Whole;
    PiecesPrefix(f, g, 0, a, b);
    PiecesShift(f, g, 0, b);
    WholeAppend(Pieces(f, 0, a).value, Pieces(g, 0, b).value);
  }

  // ----- single parts

  /** Text without directives renders as itself. */
  lemma {:induction false} Literal(f: string)
    requires forall i :: 0 <= i < |f| ==> f[i] != '%'
    ensures Renders(f, [], f)
    decreases |f|
  {
    if f == [] {
      assert Pieces(f, 0, []) == Some([]);
    } else {
      var g := f[1..];
      Literal(g);
      OneCharacter(f[0]);
      var none: seq<Arg> := [];
      assert f == [f[0]] + g && none + none == none;
      Concatenation([f[0]], none, [f[0]], g, none, g);
    }
  }

  lemma OneCharacter(c: char)
    requires c != '%'
    ensures Renders([c], [], [c])
  {
    var f := [c];
    assert Pieces(f, 1, []) == Some([]);
    assert Next(f, 0, []) == Some(Step(1, [], [Forward([c])]));
    assert [Forward([c])] + [] == [Forward([c])];
    WholeOne([Forward([c])]);
  }

  /** The format is one directive: '%', flags, and the conversion c at the end. */
  ghost predicate IsDirective(format: string, args: seq<Arg>, c: char, rest: seq<Arg>, fl: Flags) {
    && |format| > 1 && format[0] == '%' && format[|format| - 1] == c
    && Scan(format, 1, args, NO_FLAGS) == Some(Scanned(|format| - 1, rest, fl))
  }

  lemma OneDirective(format: string, args: seq<Arg>, c: char, rest: seq<Arg>, fl: Flags)
    requires IsDirective(format, args, c, rest, fl) && Handles(c, fl, rest) && |rest| == if Takes(c) then 1 else 0
    ensures Renders(format, args, Whole(Convert(c, fl, rest)))
  {
    hide Scan, Convert, Handles, Takes, Whole;
    var ps, e := Convert(c, fl, rest), |format|;
    var none := if Takes(c) then rest[1..] else rest;
    assert none == [];
    assert Next(format, 0, args) == Some(Step(e, none, ps));
    assert Pieces(format, e, none) == Some([]);
    assert Remaining(format, e, none) == [];
    assert ps + [] == ps;
  }

  /** %s: the string, and blanks up to the width; "(NULL)" for a null pointer. */
  lemma StringDirective(format: string, args: seq<Arg>, arg: Arg, fl: Flags)
    requires IsDirective(format, args, 's', [arg], fl) && !arg.Number?
    ensures var t := match arg case Str(s) => s case _ => "(NULL)";
      Renders(format, args, t + Repeat(' ', fl.padding - |t|))
  {
    hide Scan, Renders, Repeat, Whole;
    OneDirective(format, args, 's', [arg], fl);
    WholeOne(Convert('s', fl, [arg]));
  }

  /** %c: the character. */
  lemma CharacterDirective(format: string, args: seq<Arg>, n: int, fl: Flags)
    requires IsDirective(format, args, 'c', [Number(n)], fl) && Delivered(n, false)
    ensures Renders(format, args, [(n % 256) as char])
  {
    hide Scan, Renders, Whole;
    OneDirective(format, args, 'c', [Number(n)], fl);
    WholeOne(Convert('c', fl, [Number(n)]));
  }

  /** A conversion that is none renders as itself, %% in particular. */
  lemma OtherDirective(format: string, args: seq<Arg>, c: char, fl: Flags)
    requires IsDirective(format, args, c, [], fl) && c !in "pPxducs"
    ensures Renders(format, args, [c])
  {
    hide Scan, Renders, Whole;
    OneDirective(format, args, c, [], fl);
    WholeOne(Convert(c, fl, []));
  }

  /** %u: the number, if it is not negative, behind blanks. */
  lemma UnsignedDirective(format: string, args: seq<Arg>, n: int, fl: Flags) returns (text: string)
    requires IsDirective(format, args, 'u', [Number(n)], fl) && Delivered(n, fl.l) && 0 <= n
    ensures Renders(format, args, text) && ReadDecimal(text) == Some(n)
  {
    hide Scan, Renders, Whole, ReadDecimal;
    OneDirective(format, args, 'u', [Number(n)], fl);
    UnsignedReadsBack(n, fl.padding);
    text := Whole(Convert('u', fl, [Number(n)]));
  }

  /** %p and %P: 0x and all 64 bits of the address; with %P sixteen digits. */
  lemma PointerDirective(format: string, args: seq<Arg>, c: char, n: int, fl: Flags) returns (digits: string)
    requires (c == 'p' || c == 'P') && IsDirective(format, args, c, [Number(n)], fl) && Delivered(n, true)
    ensures Renders(format, args, "0x" + digits) && ReadUnsigned(digits, 16) == Some(n % TWO_TO_64)
    ensures c == 'P' ==> |digits| == 16 && forall i :: 0 <= i < 16 ==> digits[i] != ' '
  {
    hide Scan, Renders, ReadUnsigned, Hexes, Repeat, Whole;
    OneDirective(format, args, c, [Number(n)], fl);
    var zero, padding := c == 'P' || fl.zero, if c == 'P' then 16 else fl.padding;
    var ps := HexPieces(n, true, zero, 8, padding);
    HexReadsBack(n, true, zero, 8, padding);
    WholeTwo(ps);
    digits := Shown(ps[1]);
    assert Whole(ps)[2..] == digits;
    if c == 'P' { SixteenDigits(n); }
  }

  lemma {:induction false} HexesShort(n: nat, most: nat)
    requires most > 0
    ensures |Hexes(n, most)| <= most && forall i :: 0 <= i < |Hexes(n, most)| ==> Hexes(n, most)[i] != ' '
  {
    if most > 1 && n / 16 != 0 { HexesShort(n / 16, most - 1); }
  }

  lemma SixteenDigits(n: int)
    ensures var s := Shown(HexPieces(n, true, true, 8, 16)[1]);
      |s| == 16 && forall i :: 0 <= i < 16 ==> s[i] != ' '
  {
    hide Hexes;
    HexesShort(n % TWO_TO_64, 16);
  }

  // ----- widths

  /** No directive renders shorter than its width, nor longer than it must be. */
  lemma WidthsKept(n: int, padding: int)
    ensures |Whole(DecimalPieces(n, padding))| == Max(padding, |Decimals(Abs(n))|) + (if n < 0 then 1 else 0)
    ensures |Whole(UnsignedPieces(n, padding))| == Max(padding, |Decimals(n)|)
  {
    hide Decimals, Whole, Repeat;
    WholeOne(DecimalPieces(n, padding));
    WholeOne(UnsignedPieces(n, padding));
  }

  lemma HexWidthKept(n: int, sharp: bool, zero: bool, width: nat, padding: int)
    ensures |Whole(HexPieces(n, sharp, zero, width, padding))|
         == Max(padding, |Hexes(n % TWO_TO_64, 2 * width)|) + (if sharp then 2 else 0)
  {
    hide Hexes, Whole, Repeat;
    WholeTwo(HexPieces(n, sharp, zero, width, padding));
  }

  /** In reading order: the prefix, what fills the width, zeros with the flag 0 and
      blanks without, and then the digits. */
  lemma HexShape(n: int, sharp: bool, zero: bool, width: nat, padding: int)
    ensures var digits := Hexes(n % TWO_TO_64, 2 * width);
      Whole(HexPieces(n, sharp, zero, width, padding))
      == (if sharp then "0x" else "") + (Repeat(if zero then '0' else ' ', padding - |digits|) + Reversed(digits))
  {
    hide Hexes, Whole, Repeat, Reversed, Shown;
    var digits, fill := Hexes(n % TWO_TO_64, 2 * width), if zero then '0' else ' ';
    var ps := HexPieces(n, sharp, zero, width, padding);
    WholeTwo(ps);
    ShownAs(ps[0]);
    ShownAs(ps[1]);
    FilledFront(digits, fill, padding - |digits|);
  }

  lemma ShownAs(p: Piece)
    ensures Shown(p) == if p.Forward? then p.s else Reversed(p.s)
  {
  }

  /** Reversing puts what was appended in front. */
  lemma FilledFront(s: string, fill: char, n: int)
    ensures Reversed(s + Repeat(fill, n)) == Repeat(fill, n) + Reversed(s)
  {
    hide Repeat, Reversed;
    ReversedConcat(s, Repeat(fill, n));
    ReversedRepeat(fill, n);
  }

  /** And for %d: blanks, the sign, and the digits. */
  lemma DecimalShape(n: int, padding: int)
    ensures var digits := Decimals(Abs(n));
      Whole(DecimalPieces(n, padding))
      == Repeat(' ', padding - |digits|) + ((if n < 0 then "-" else "") + Reversed(digits))
  {
    hide Decimals, Whole, Repeat, Reversed, Shown;
    var digits, sign := Decimals(Abs(n)), if n < 0 then "-" else "";
    var ps := DecimalPieces(n, padding);
    WholeOne(ps);
    ShownAs(ps[0]);
    FilledFront(digits + sign, ' ', padding - |digits|);
    ReversedConcat(digits, sign);
    ReversedSign(n < 0);
  }

  lemma ReversedSign(minus: bool)
    ensures var sign := if minus then "-" else ""; Reversed(sign) == sign
  {
  }

  // ----- a buffer that is too small

  /** Text that is put forwards is cut at the end of the buffer and nowhere else. */
  lemma {:induction false} ForwardCut(text: string, ps: seq<Piece>, limit: int)
    requires |text| < limit && forall i :: 0 <= i < |ps| ==> ps[i].Forward?
    ensures Laid(text, ps, limit) == (text + Whole(ps))[..Min(|text| + |Whole(ps)|, limit - 1)]
    decreases |ps|
  {
    hide Lay;
    if ps == [] {
      assert text + "" == text;
    } else {
      var next := Lay(text, ps[0], limit);
      LayForward(text, ps[0], limit);
      LayIsWhole(text, ps[0], limit);
      ForwardCut(next, ps[1..], limit);
      CutAgain(text, ps[0].s, Whole(ps[1..]), limit);
    }
  }

  lemma LayForward(text: string, p: Piece, limit: int)
    requires |text| < limit && p.Forward?
    ensures Lay(text, p, limit) == (text + p.s)[..Min(|text| + |p.s|, limit - 1)]
  {
  }

  lemma CutAgain(text: string, s: string, t: string, limit: int)
    requires |text| < limit
    ensures var next := (text + s)[..Min(|text| + |s|, limit - 1)];
      (next + t)[..Min(|next| + |t|, limit - 1)]
      == (text + (s + t))[..Min(|text| + |s + t|, limit - 1)]
  {
    assert text + (s + t) == (text + s) + t;
  }

  function Max(x: int, y: int): (m: int) { if x < y then y else x }

  /** The digits of a number do not begin with a zero, except for zero itself. */
  lemma {:induction false} NoLeadingZero(n: nat)
    ensures var s := Decimals(n); '0' <= s[|s| - 1] <= '9' && (s[|s| - 1] == '0' <==> n == 0)
  {
    if n / 10 != 0 { NoLeadingZero(n / 10); }
  }

  // ----- flags

  /** Reading a width digit by digit gives its value. */
  lemma {:induction false} WidenedIs(s: string, e: nat)
    requires e <= |s|
    requires forall i :: 0 <= i < e ==> IsDigit(s[i])
    ensures Widened(s, 0, e, 0) == Value(s[..e], 10)
    decreases e
  {
    if e > 0 {
      WidenedIs(s, e - 1);
      WidenedLast(s, 0, e, 0);
      assert s[..e][..e - 1] == s[..e - 1];
    }
  }

  lemma {:induction false} WidenedLast(s: string, at: nat, e: nat, p: int)
    requires at < e <= |s|
    ensures Widened(s, at, e, p) == Widened(s, at, e - 1, p) * 10 + s[e - 1] as int - 48
    decreases e - at
  {
    if at + 1 < e { WidenedLast(s, at + 1, e, p * 10 + s[at] as int - 48); }
  }

  /** One flag in front of the rest of a directive. */
  lemma ScanFlag(c: char, g: string, args: seq<Arg>, fl: Flags)
    requires c == '#' || c == '0' || c == 'l'
    ensures Scan([c] + g, 0, args, fl) == Later(Scan(g, 0, args,
      if c == '#' then fl.(sharp := true)
      else if c == '0' then fl.(zero := true)
      else if fl.l then fl.(ll := true, size := 8) else fl.(l := true, size := 8)), 1)
  {
    hide DigitsEnd, Widened;
    var f, h := [c] + g, if c == '#' then fl.(sharp := true)
      else if c == '0' then fl.(zero := true)
      else if fl.l then fl.(ll := true, size := 8) else fl.(l := true, size := 8);
    assert f[0] == c;
    assert AfterDigits(f, 0, fl) == (0, fl);
    ScanShift([c], g, 0, args, h);
  }

  /** A width from the arguments. */
  lemma ScanStar(g: string, args: seq<Arg>, fl: Flags)
    requires args != [] && args[0].Number?
    ensures Scan(['*'] + g, 0, args, fl) == Later(Scan(g, 0, args[1..], fl.(padding := args[0].n)), 1)
  {
    hide DigitsEnd, Widened;
    var f := ['*'] + g;
    assert f[0] == '*';
    assert AfterDigits(f, 0, fl) == (0, fl);
    ScanShift(['*'], g, 0, args[1..], fl.(padding := args[0].n));
  }

  /** A width in digits, behind which something else comes. */
  lemma ScanWidthDigits(width: nat, g: string, args: seq<Arg>, fl: Flags)
    requires width > 0 && fl.padding == 0 && g != [] && !IsDigit(g[0])
    ensures var w := Reversed(Decimals(width));
      Scan(w + g, 0, args, fl) == Later(Scan(g, 0, args, fl.(padding := width)), |w|)
  {
    var w := Reversed(Decimals(width));
    var f := w + g;
    WidthDigits(width);
    DigitsEndIs(w, g, 0);
    WidenedPrefix(w, g, 0, |w|, 0);
    WidenedIs(w, |w|);
    assert w[..|w|] == w && f[0] == w[0];
    hide Decimals, Reversed, DigitsEnd, Widened;
    var h := fl.(padding := width);
    assert AfterDigits(f, 0, fl) == (|w|, h);
    ScanShift(w, g, 0, args, h);
    SameScan(f, |w|, args, fl, h, g);
  }

  /** Behind a width the scan goes on as if the width had been known. */
  lemma SameScan(f: string, e: nat, args: seq<Arg>, fl: Flags, h: Flags, g: string)
    requires e < |f| && AfterDigits(f, 0, fl) == (e, h) && !IsDigit(f[e])
    ensures Scan(f, 0, args, fl) == Scan(f, e, args, h)
  {
    hide DigitsEnd, Widened;
    assert AfterDigits(f, e, h) == (e, h);
  }

  lemma WidthDigits(width: nat)
    requires width > 0
    ensures var w := Reversed(Decimals(width));
      && |w| > 0 && w[0] != '0' && (forall i :: 0 <= i < |w| ==> IsDigit(w[i])) && Value(w, 10) == width
  {
    var s := Decimals(width);
    DecimalsValue(width);
    NoLeadingZero(width);
    ReversedValue(s, 10);
    hide Decimals;
    forall i | 0 <= i < |s| ensures IsDigit(Reversed(s)[i]) {
      assert DigitValue(s[|s| - 1 - i]) < 10;
    }
  }

  lemma {:induction false} DigitsEndIs(w: string, g: string, i: nat)
    requires i <= |w| && g != [] && !IsDigit(g[0]) && forall k :: 0 <= k < |w| ==> IsDigit(w[k])
    ensures DigitsEnd(w + g, i) == |w|
    decreases |w| - i
  {
    if i < |w| {
      assert (w + g)[i] == w[i];
      DigitsEndIs(w, g, i + 1);
    } else {
      assert (w + g)[i] == g[0];
    }
  }

  /** A directive written the usual way: # and 0, a width, l, and the conversion. */
  function Directive(sharp: bool, zero: bool, width: nat, long: bool, c: char): (format: string) {
    "%" + Flagged(sharp, '#') + Flagged(zero, '0') + (if width > 0 then Reversed(Decimals(width)) else "")
    + Flagged(long, 'l') + [c]
  }

  function Flagged(b: bool, c: char): (s: string) { if b then [c] else "" }

  /** Its parts mean what they are written for. */
  lemma DirectiveScanned(sharp: bool, zero: bool, width: nat, long: bool, c: char, args: seq<Arg>)
    requires c !in "*#0l" && !IsDigit(c)
    ensures IsDirective(Directive(sharp, zero, width, long, c), args, c, args,
                        Flags(long, false, sharp, zero, if long then 8 else 4, width))
  {
    hide Scan, IsDigit, Flagged, Reversed, Decimals;
    var w := if width > 0 then Reversed(Decimals(width)) else "";
    var e := Flagged(long, 'l') + [c];
    var d := w + e;
    var z := Flagged(zero, '0') + d;
    var s := Flagged(sharp, '#') + z;
    var f0 := NO_FLAGS.(sharp := sharp);
    var f1 := f0.(zero := zero);
    ScanEnd(long, c, args, f1.(padding := width));
    ScanWidthPart(width, e, args, f1);
    ScanFlagPart(zero, '0', d, args, f0);
    ScanFlagPart(sharp, '#', z, args, NO_FLAGS);
    ScanShift("%", s, 0, args, NO_FLAGS);
    DirectiveParts(sharp, zero, width, long, c);
  }

  lemma DirectiveParts(sharp: bool, zero: bool, width: nat, long: bool, c: char)
    ensures var w := if width > 0 then Reversed(Decimals(width)) else "";
      var s := Flagged(sharp, '#') + (Flagged(zero, '0') + (w + (Flagged(long, 'l') + [c])));
      Directive(sharp, zero, width, long, c) == "%" + s && s[|s| - 1] == c
  {
    hide Reversed, Decimals, Flagged;
  }

  lemma ScanFlagPart(b: bool, c: char, g: string, args: seq<Arg>, fl: Flags)
    requires c == '#' || c == '0'
    ensures Scan(Flagged(b, c) + g, 0, args, fl) == Later(Scan(g, 0, args,
      if !b then fl else if c == '#' then fl.(sharp := true) else fl.(zero := true)), |Flagged(b, c)|)
  {
    hide Scan;
    if b { ScanFlag(c, g, args, fl); } else { assert Flagged(b, c) + g == g; }
  }

  lemma ScanWidthPart(width: nat, g: string, args: seq<Arg>, fl: Flags)
    requires fl.padding == 0 && g != [] && !IsDigit(g[0])
    ensures var w := if width > 0 then Reversed(Decimals(width)) else "";
      Scan(w + g, 0, args, fl) == Later(Scan(g, 0, args, fl.(padding := width)), |w|)
  {
    hide Scan, Reversed, Decimals;
    if width > 0 { ScanWidthDigits(width, g, args, fl); } else { assert "" + g == g; }
  }

  lemma ScanEnd(long: bool, c: char, args: seq<Arg>, fl: Flags)
    requires c !in "*#0l" && !IsDigit(c) && !fl.l && !fl.ll && fl.size == 4
    ensures var e := Flagged(long, 'l') + [c];
      e != [] && !IsDigit(e[0])
      && Scan(e, 0, args, fl) == Some(Scanned(|e| - 1, args, if long then fl.(l := true, size := 8) else fl))
  {
    var h := if long then fl.(l := true, size := 8) else fl;
    LastCharacter(c, args, h);
    if long { ScanFlag('l', [c], args, fl); } else { assert Flagged(long, 'l') + [c] == [c]; }
  }

  lemma LastCharacter(c: char, args: seq<Arg>, fl: Flags)
    requires c !in "*#0l" && !IsDigit(c)
    ensures Scan([c], 0, args, fl) == Some(Scanned(0, args, fl))
  {
    hide DigitsEnd, Widened;
    var f := [c];
    assert AfterDigits(f, 0, fl) == (0, fl);
  }

  // ----- the name that open_path tries

  /** The format of open_path gives the name of a library in a directory. */
  lemma LibraryName(dir: string, soname: string)
    ensures Renders("%s/%s", [Str(dir), Str(soname)], Dependencies.InDir(dir, soname))
  {
    hide Renders;
    PlainString(dir);
    PlainString(soname);
    OneCharacter('/');
    Concatenation("%s", [Str(dir)], dir, "/", [], "/");
    Concatenation("%s" + "/", [Str(dir)] + [], dir + "/", "%s", [Str(soname)], soname);
    assert "%s" + "/" + "%s" == "%s/%s" && [Str(dir)] + [] + [Str(soname)] == [Str(dir), Str(soname)];
  }

  lemma PlainString(s: string)
    ensures Renders("%s", [Str(s)], s)
  {
    var args, fl := [Str(s)], Flags(false, false, false, false, 4, 0);
    DirectiveScanned(false, false, 0, false, 's', args);
    assert Directive(false, false, 0, false, 's') == "%s";
    StringDirective("%s", args, Str(s), fl);
    hide Renders;
    assert s + Repeat(' ', fl.padding - |s|) == s;
  }
}
