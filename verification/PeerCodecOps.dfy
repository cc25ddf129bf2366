/** osp2p_writef and osp2p_vsnscanf in place: a growing buffer and two cursors. */
module PeerCodecOps {
  import opened Options
  import opened PeerCodec

  /** strcpy of s, with its null byte, into buf at `at`. */
  method Copy(buf: array<Octet>, at: nat, s: seq<Octet>)
    requires at + |s| < buf.Length
    modifies buf
    ensures buf[..at + |s|] == old(buf[..at]) + s && buf[at + |s|] == 0
  {
    for i := 0 to |s|
      invariant buf[..at + i] == old(buf[..at]) + s[..i]
    {
      buf[at + i] := s[i];
      assert buf[..at + i + 1] == buf[..at + i] + [s[i]];
    }
    buf[at + |s|] := 0;
    assert buf[..at + |s|] == old(buf[..at]) + s;
  }

  /** http_quote: the quoted string fits the 3 * strlen(s) + 1 bytes allocated for it. */
  method HttpQuote(s: seq<Octet>) returns (os: array<Octet>, x: nat)
    requires 0 !in s
    ensures fresh(os) && os.Length == 3 * |s| + 1 && x < os.Length
    ensures os[..x] == Quote(s) && os[x] == 0
  {
    hide Quote, QuoteOne, Hex;
    os, x := new Octet[3 * |s| + 1], 0;
    assert os[..0] == [] && s[0..] == s;
    for i := 0 to |s|
      invariant x <= 3 * i && os[..x] + Quote(s[i..]) == Quote(s)
    {
      QuoteCons(s[i..]);
      assert s[i..][1..] == s[i + 1..];
      ghost var before := os[..x];
      var n := QuoteChar(os, x, s[i]);
      Assoc(before, QuoteOne(s[i]), Quote(s[i + 1..]));
      x := x + n;
    }
    QuoteNone(s[|s|..]);
    assert os[..x] + [] == os[..x];
    os[x] := 0;
  }

  lemma QuoteNone(s: seq<Octet>)
    requires s == []
    ensures Quote(s) == []
  {
  }

  /** One turn of http_quote's loop. */
  method QuoteChar(os: array<Octet>, x: nat, c: Octet) returns (n: nat)
    requires x + 3 <= os.Length
    modifies os
    ensures n == |QuoteOne(c)| && os[..x + n] == old(os[..x]) + QuoteOne(c)
  {
    hide Hex, Plain;
    if Plain(c) {
      os[x] := c;
      n := 1;
    } else {
      os[x] := PERCENT;
      os[x + 1] := Hex(c / 16);
      os[x + 2] := Hex(c % 16);
      n := 3;
    }
    assert os[..x + n] == old(os[..x]) + QuoteOne(c);
  }

  /** The capacity after ensure_buf asked for `need`. */
  function Room(capacity: nat, need: nat): (r: nat)
    ensures r > need && r >= capacity
  {
    if need >= capacity then need + 2048 else capacity
  }

  /** ensure_buf: room for more than `need` bytes, the first `used` of them kept. */
  method EnsureBuf(buf: array<Octet>, used: nat, need: nat) returns (big: array<Octet>)
    requires used <= buf.Length
    ensures big.Length == Room(buf.Length, need) && used <= big.Length && big[..used] == buf[..used]
    ensures if need < buf.Length then big == buf else fresh(big) && big.Length == need + 2048
  {
    if need >= buf.Length {
      big := new Octet[need + 2048];
      for i := 0 to used
        invariant big[..i] == buf[..i]
      {
        big[i] := buf[i];
      }
    } else {
      big := buf;
    }
  }

  /** What writef asks ensure_buf for, beyond the bytes written so far. */
  function Asked(a: Arg): nat {
    match a
    case AStr(s) => |Quote(s)|
    case AInt(_) => 10
    case AIp(_, _, _, _) => 16
  }

  /** Every conversion and its null byte are written inside the buffer, from len bytes written
      and this capacity on. */
  predicate Contained(items: seq<Item>, args: seq<Arg>, len: nat, capacity: nat)
    requires Fits(items, args)
    decreases |items|
  {
    if items == [] then true
    else if Converts(items[0]) then
      var text, room := |WriteArg(args[0])|, Room(capacity, len + Asked(args[0]));
      len + text < room && Contained(items[1..], args[1..], len + text, room)
    else Contained(items[1..], args, len + 1, Room(capacity, len + 1))
  }

  /** Ten characters at most: what a null byte after them leaves room for. */
  predicate Short(a: Arg) { a.AInt? ==> -999999999 <= a.i <= INT_MAX }

  function Pow10(k: nat): nat { if k == 0 then 1 else 10 * Pow10(k - 1) }

  lemma {:induction false} DigitsBound(n: nat, k: nat)
    requires k >= 1 && n < Pow10(k)
    ensures |Digits(n)| <= k
  {
    if n >= 10 { DigitsBound(n / 10, k - 1); }
  }

  lemma Powers()
    ensures Pow10(3) == 1000 && Pow10(9) == 1000000000 && Pow10(10) == 10000000000
  {
    assert Pow10(3) == 1000 && Pow10(6) == 1000 * Pow10(3) && Pow10(9) == 1000 * Pow10(6);
  }

  lemma DecimalShort(i: int)
    requires -999999999 <= i <= INT_MAX
    ensures |Decimal(i)| <= 10
  {
    Powers();
    if i < 0 { DigitsBound(-i, 9); } else { DigitsBound(i, 10); }
  }

  lemma QuadShort(a: Arg)
    requires a.AIp?
    ensures |WriteArg(a)| <= 15
  {
    Powers();
    DigitsBound(a.a, 3);
    DigitsBound(a.b, 3);
    DigitsBound(a.c, 3);
    DigitsBound(a.d, 3);
  }

  /** The item at the cursor and what follows it. */
  lemma ParseStep(f: seq<Octet>)
    requires f != []
    ensures var two := |f| >= 2 && f[0] == PERCENT
                       && (f[1] == 's' as int || f[1] == 'd' as int || f[1] == 'I' as int || f[1] == PERCENT);
            && Parse(f) != []
            && Parse(f)[0] == (if !two then Lit(f[0])
                               else if f[1] == 's' as int then Str
                               else if f[1] == 'd' as int then Int
                               else if f[1] == 'I' as int then Ip else Percent)
            && Parse(f)[1..] == Parse(if two then f[2..] else f[1..])
  {
  }

  /** One turn of writef's loop: the conversion at the cursor, and what is left to write. */
  lemma Turn(format: seq<Octet>, args: seq<Arg>)
    requires format != [] && Fits(Parse(format), args)
    ensures var items := Parse(format);
            && items != []
            && (if Converts(items[0]) then
                  && |format| >= 2 && args != [] && Match(items[0], args[0]) && Fits(Parse(format[2..]), args[1..])
                  && Write(items, args) == WriteArg(args[0]) + Write(Parse(format[2..]), args[1..])
                else if items[0].Percent? then
                  |format| >= 2 && Fits(Parse(format[2..]), args)
                    && Write(items, args) == [PERCENT] + Write(Parse(format[2..]), args)
                else
                  items[0] == Lit(format[0]) && Fits(Parse(format[1..]), args)
                  && Write(items, args) == [format[0]] + Write(Parse(format[1..]), args))
  {
    ParseStep(format);
    hide Parse, WriteArg, Match;
  }

  /** The same turn, as far as the buffer goes. */
  lemma TurnContained(format: seq<Octet>, args: seq<Arg>, len: nat, capacity: nat)
    requires format != [] && Fits(Parse(format), args)
    ensures var items := Parse(format);
            && items != []
            && Contained(items, args, len, capacity) ==
               if Converts(items[0]) then
                 && |format| >= 2 && args != [] && Fits(Parse(format[2..]), args[1..])
                 && var text, room := |WriteArg(args[0])|, Room(capacity, len + Asked(args[0]));
                    len + text < room && Contained(Parse(format[2..]), args[1..], len + text, room)
               else
                 var f := if items[0].Percent? && |format| >= 2 then format[2..] else format[1..];
                 Fits(Parse(f), args) && Contained(Parse(f), args, len + 1, Room(capacity, len + 1))
  {
    hide Room, Asked, WriteArg, Parse;
    ParseStep(format);
  }

  predicate Clean(args: seq<Arg>) { forall a | a in args :: a.AStr? ==> 0 !in a.s }

  /** Only %d can leave the buffer: it is written inside exactly when its characters and a null
      byte fit, which ensure_buf(len + 10) promises for ten characters. */
  lemma OnlyIntsOverrun(a: Arg, len: nat, capacity: nat)
    requires a.AInt? ==> -0x8000_0000 <= a.i < 0x8000_0000
    ensures !a.AInt? ==> len + |WriteArg(a)| < Room(capacity, len + Asked(a))
    ensures a.AInt? ==> (len + |WriteArg(a)| < Room(capacity, len + Asked(a))
                         <==> |Decimal(a.i)| <= 10 || len + 10 >= capacity || len + |Decimal(a.i)| < capacity)
  {
    hide Quote, Digits;
    if a.AIp? { QuadShort(a); }
    if a.AInt? {
      Powers();
      if a.i < 0 { DigitsBound(-a.i, 10); } else { DigitsBound(a.i, 10); }
    }
  }

  /** So ten-character numbers are always written inside the buffer. */
  lemma {:induction false} ShortContained(items: seq<Item>, args: seq<Arg>, len: nat, capacity: nat)
    requires Fits(items, args) && forall a | a in args :: Short(a)
    ensures Contained(items, args, len, capacity)
    decreases |items|
  {
    hide WriteArg, Room, Asked;
    if items == [] {
    } else if Converts(items[0]) {
      assert args[0] in args;
      OnlyIntsOverrun(args[0], len, capacity);
      if args[0].AInt? {
        DecimalShort(args[0].i);
        assert WriteArg(args[0]) == Decimal(args[0].i) by { IntText(args[0]); }
      }
      ShortContained(items[1..], args[1..], len + |WriteArg(args[0])|, Room(capacity, len + Asked(args[0])));
    } else {
      ShortContained(items[1..], args, len + 1, Room(capacity, len + 1));
    }
  }

  lemma IntText(a: Arg)
    requires a.AInt?
    ensures WriteArg(a) == Decimal(a.i)
  {
  }

  lemma {:induction false} Literals(n: nat, c: Octet, items: seq<Item>, args: seq<Arg>, len: nat, capacity: nat)
    requires Fits(items, args) && len + n < capacity
    ensures var all := seq(n, _ => Lit(c)) + items;
            Fits(all, args) && (Contained(all, args, len, capacity) <==> Contained(items, args, len + n, capacity))
    decreases n
  {
    var all := seq(n, _ => Lit(c)) + items;
    if n == 0 {
      assert all == items;
    } else {
      assert all[0] == Lit(c) && all[1..] == seq(n - 1, _ => Lit(c)) + items;
      Literals(n - 1, c, items, args, len + 1, capacity);
    }
  }

  /** The smallest such overrun of the first buffer: 3061 literal bytes and -1000000000. */
  lemma OverrunExample(c: Octet)
    ensures var items := seq(3061, _ => Lit(c)) + [Int];
            Fits(items, [AInt(-1000000000)]) && !Contained(items, [AInt(-1000000000)], 0, 1024 + 2048)
  {
    var args := [AInt(-1000000000)];
    assert Fits([Int], args);
    Literals(3061, c, [Int], args, 0, 3072);
    TenDigits();
    assert !Contained([Int], args, 3061, 3072);
  }

  lemma TenDigits()
    ensures |Decimal(-1000000000)| == 11
  {
    assert |Digits(1000)| == 4 && |Digits(1000000)| == 3 + |Digits(1000)|
      && |Digits(1000000000)| == 3 + |Digits(1000000)|;
  }

  /** The text of one argument, and the room asked for it. */
  method Convert(a: Arg) returns (piece: seq<Octet>, need: nat)
    requires a.AStr? ==> 0 !in a.s
    ensures piece == WriteArg(a) && need == Asked(a)
  {
    hide Quote, Decimal;
    match a
    case AStr(s) =>
      var os, x := HttpQuote(s);
      piece, need := os[..x], x;
    case AInt(i) =>
      piece, need := Decimal(i), 10;
    case AIp(_, _, _, _) =>
      piece, need := WriteArg(a), 16;
  }

  method AppendChar(buf: array<Octet>, len: nat, c: Octet) returns (big: array<Octet>)
    requires len <= buf.Length
    modifies buf
    ensures (big == buf || fresh(big)) && big.Length == Room(buf.Length, len + 1)
    ensures len + 1 <= big.Length && big[..len + 1] == old(buf[..len]) + [c]
  {
    big := EnsureBuf(buf, len, len + 1);
    big[len] := c;
  }

  /** What is left of format and arguments fits together. */
  ghost predicate Left(f: seq<Octet>, val: seq<Arg>) { Fits(Parse(f), val) && Clean(val) }

  /** What is left to write stays inside the buffer. */
  ghost predicate Inside(f: seq<Octet>, val: seq<Arg>, len: nat, capacity: nat) {
    Fits(Parse(f), val) && Contained(Parse(f), val, len, capacity)
  }

  /** The text of f with val is this piece before the text of f' with val'. */
  ghost predicate Emits(f: seq<Octet>, val: seq<Arg>, piece: seq<Octet>, f': seq<Octet>, val': seq<Arg>) {
    && Fits(Parse(f), val) && Fits(Parse(f'), val')
    && Write(Parse(f), val) == piece + Write(Parse(f'), val')
  }

  /** The text of f with val is what is to come after `done`. */
  ghost predicate Progress(all: seq<Octet>, done: seq<Octet>, f: seq<Octet>, val: seq<Arg>) {
    Fits(Parse(f), val) && done + Write(Parse(f), val) == all
  }

  lemma Emitted(all: seq<Octet>, done: seq<Octet>, f: seq<Octet>, val: seq<Arg>, piece: seq<Octet>,
        f': seq<Octet>, val': seq<Arg>)
    requires Progress(all, done, f, val) && Emits(f, val, piece, f', val')
    ensures Progress(all, done + piece, f', val')
  {
    hide Fits, Parse, Write;
    Assoc(done, piece, Write(Parse(f'), val'));
  }

  predicate AtConversion(f: seq<Octet>) {
    |f| >= 2 && f[0] == PERCENT && (f[1] == 's' as int || f[1] == 'd' as int || f[1] == 'I' as int)
  }

  predicate AtPercent(f: seq<Octet>) { |f| >= 2 && f[0] == PERCENT && f[1] == PERCENT }

  lemma ConversionTurn(f: seq<Octet>, val: seq<Arg>, len: nat, capacity: nat)
    requires Left(f, val) && AtConversion(f)
    ensures val != [] && (val[0].AStr? ==> 0 !in val[0].s) && Left(f[2..], val[1..])
    ensures Emits(f, val, WriteArg(val[0]), f[2..], val[1..])
    ensures var text, room := |WriteArg(val[0])|, Room(capacity, len + Asked(val[0]));
            Inside(f, val, len, capacity) <==> len + text < room && Inside(f[2..], val[1..], len + text, room)
  {
    hide Parse, Fits, Contained, Write, WriteArg, Room, Asked, Match;
    ConvertsAt(f);
    Turn(f, val);
    TurnContained(f, val, len, capacity);
    assert val[0] in val;
  }

  lemma PlainTurn(f: seq<Octet>, val: seq<Arg>, len: nat, capacity: nat)
    requires Left(f, val) && !AtConversion(f) && f != []
    ensures var (f', c) := if AtPercent(f) then (f[2..], PERCENT) else (f[1..], f[0]);
            && Left(f', val) && Emits(f, val, [c], f', val)
            && (Inside(f, val, len, capacity) <==> Inside(f', val, len + 1, Room(capacity, len + 1)))
  {
    hide Parse, Fits, Contained, Write, WriteArg, Room, Asked, Match;
    ConvertsAt(f);
    Turn(f, val);
    TurnContained(f, val, len, capacity);
  }

  lemma AtTwo(f: seq<Octet>)
    requires AtConversion(f)
    ensures |f| >= 2
  {
  }

  /** One turn of the formatting loop: f and val are what is left of the format and of the
      arguments; `over` when the piece does not fit into the buffer. */
  method WriteNext(f: seq<Octet>, val: seq<Arg>, buf: array<Octet>, len: nat)
    returns (over: bool, f': seq<Octet>, val': seq<Arg>, big: array<Octet>, piece: seq<Octet>)
    requires f != [] && len <= buf.Length && Left(f, val)
    modifies buf
    ensures over ==> !Inside(f, val, len, buf.Length)
    ensures !over ==> |f'| < |f| && (big == buf || fresh(big)) && Left(f', val') && Emits(f, val, piece, f', val')
    ensures !over ==> Inside(f, val, len, buf.Length) == Inside(f', val', len + |piece|, big.Length)
    ensures !over ==> len + |piece| <= big.Length && big[..len + |piece|] == old(buf[..len]) + piece
  {
    hide AtConversion, Left, Inside, Emits, Room, Asked, WriteArg;
    over, f', val', big, piece := false, f, val, buf, [];
    if AtConversion(f) {
      assert |f| >= 2 by { AtTwo(f); }
      ConversionTurn(f, val, len, buf.Length);
      over, big, piece := WriteArgument(val[0], buf, len);
      f', val' := f[2..], val[1..];
    } else {
      f', big, piece := WriteChar(f, val, buf, len);
    }
  }

  /** The branches of %s, %d and %I.  The code copies whether or not the text fits; this ends
      when it does not. */
  method WriteArgument(a: Arg, buf: array<Octet>, len: nat) returns (over: bool, big: array<Octet>, piece: seq<Octet>)
    requires len <= buf.Length && (a.AStr? ==> 0 !in a.s)
    modifies buf
    ensures over <==> len + |WriteArg(a)| >= Room(buf.Length, len + Asked(a))
    ensures !over ==> piece == WriteArg(a) && (big == buf || fresh(big))
    ensures !over ==> big.Length == Room(buf.Length, len + Asked(a))
    ensures !over ==> len + |piece| <= big.Length && big[..len + |piece|] == old(buf[..len]) + piece
  {
    hide WriteArg, Asked;
    var need;
    piece, need := Convert(a);
    big := EnsureBuf(buf, len, len + need);
    if len + |piece| >= big.Length { return true, big, piece; }
    Copy(big, len, piece);
    over := false;
  }

  /** The branches of %% and of all other characters. */
  method WriteChar(f: seq<Octet>, val: seq<Arg>, buf: array<Octet>, len: nat)
    returns (f': seq<Octet>, big: array<Octet>, piece: seq<Octet>)
    requires f != [] && !AtConversion(f) && len <= buf.Length && Left(f, val)
    modifies buf
    ensures |f'| < |f| && (big == buf || fresh(big)) && Left(f', val) && Emits(f, val, piece, f', val)
    ensures Inside(f, val, len, buf.Length) == Inside(f', val, len + |piece|, big.Length)
    ensures len + |piece| <= big.Length && big[..len + |piece|] == old(buf[..len]) + piece
  {
    hide Left, Inside, Room, Emits, AtConversion;
    PlainTurn(f, val, len, buf.Length);
    if AtPercent(f) {
      big := AppendChar(buf, len, PERCENT);
      f', piece := f[2..], [PERCENT];
    } else {
      big := AppendChar(buf, len, f[0]);
      f', piece := f[1..], [f[0]];
    }
  }

  lemma WriteNone(all: seq<Octet>, done: seq<Octet>, val: seq<Arg>, len: nat, capacity: nat)
    requires Progress(all, done, [], val)
    ensures done == all && Inside([], val, len, capacity)
  {
    assert Write(Parse([]), val) == [] && done + [] == done;
  }

  /** The formatting loop of osp2p_writef; the message is buf[..len], unless a text was copied
      past the end of the buffer. */
  method Writef(format: seq<Octet>, args: seq<Arg>) returns (over: bool, buf: array<Octet>, len: nat)
    requires Fits(Parse(format), args) && Clean(args)
    ensures over <==> !Contained(Parse(format), args, 0, 1024 + 2048)
    ensures !over ==> len <= buf.Length && buf[..len] == Write(Parse(format), args)
  {
    assert Left(format, args);
    ghost var contained := Contained(Parse(format), args, 0, 1024 + 2048);
    assert Inside(format, args, 0, 1024 + 2048) == contained;
    ghost var all := Write(Parse(format), args);
    assert Progress(all, [], format, args) by { assert [] + all == all; }
    hide Write, Fits, Parse, Left, Emits, Inside, Contained, Progress;
    over, buf, len := false, new Octet[1024 + 2048], 0;
    var f, val := format, args;
    assert buf[..0] == [];
    while f != []
      invariant fresh(buf) && len <= buf.Length && Left(f, val) && Progress(all, buf[..len], f, val)
      invariant Inside(f, val, len, buf.Length) == contained
      decreases |f|
    {
      ghost var done, f0, val0 := buf[..len], f, val;
      var piece: seq<Octet>;
      over, f, val, buf, piece := WriteNext(f, val, buf, len);
      if over { return; }
      Emitted(all, done, f0, val0, piece, f, val);
      len := len + |piece|;
    }
    WriteNone(all, buf[..len], val, len, buf.Length);
    over := false;
  }

  /** Which branch the cursor takes. */
  lemma ConvertsAt(f: seq<Octet>)
    requires f != []
    ensures Parse(f) != []
    ensures Converts(Parse(f)[0])
      <==> |f| >= 2 && f[0] == PERCENT && (f[1] == 's' as int || f[1] == 'd' as int || f[1] == 'I' as int)
    ensures Parse(f)[0].Percent? <==> |f| >= 2 && f[0] == PERCENT && f[1] == PERCENT
  {
    ParseStep(f);
    hide Parse;
  }
}
