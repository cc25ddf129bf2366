/** The message codec of lab4/writescan.c: osp2p_writef formats a message, osp2p_vsnscanf
    reads one back.  Characters are bytes of the C locale. */
module PeerCodec {
  import opened Options

  type Octet = x: nat | x < 256

  const INT_MAX: nat := 2147483647

  predicate IsDigit(c: Octet) { '0' as int <= c <= '9' as int }

  predicate IsSpace(c: Octet) { c == 32 || 9 <= c <= 13 }

  predicate IsAlnum(c: Octet) { IsDigit(c) || 'A' as int <= c <= 'Z' as int || 'a' as int <= c <= 'z' as int }

  predicate IsXDigit(c: Octet) { IsDigit(c) || 'A' as int <= c <= 'F' as int || 'a' as int <= c <= 'f' as int }

  const PERCENT: Octet := '%' as int
  const DOT: Octet := '.' as int
  const MINUS: Octet := '-' as int

  /** Characters http_quote leaves alone. */
  predicate Plain(c: Octet) {
    IsAlnum(c) || c as char in {'$', '-', '_', '.', '+', '!', '*', '\'', '(', ')', ','}
  }

  function Hex(v: nat): Octet
    requires v < 16
  {
    if v < 10 then '0' as int + v else 'A' as int + (v - 10)
  }

  /** xvalue, on a hexadecimal digit. */
  function XValue(c: Octet): nat
    requires IsXDigit(c)
  {
    if IsDigit(c) then c - '0' as int else if c <= 'F' as int then c - 'A' as int + 10 else c - 'a' as int + 10
  }

  function QuoteOne(c: Octet): (q: seq<Octet>)
    ensures 1 <= |q| <= 3
  {
    if Plain(c) then [c] else [PERCENT, Hex(c / 16), Hex(c % 16)]
  }

  function Quote(s: seq<Octet>): (q: seq<Octet>)
    ensures |s| <= |q| <= 3 * |s|
  {
    if s == [] then [] else QuoteOne(s[0]) + Quote(s[1..])
  }

  /** The %s conversion of the scanner, up to the next space or the end. */
  function TakeString(s: seq<Octet>): (seq<Octet>, seq<Octet>) {
    if s == [] || IsSpace(s[0]) then ([], s)
    else if s[0] == PERCENT && |s| >= 3 && IsXDigit(s[1]) && IsXDigit(s[2]) then
      var (str, rest) := TakeString(s[3..]);
      ([XValue(s[1]) * 16 + XValue(s[2])] + str, rest)
    else
      var (str, rest) := TakeString(s[1..]);
      ([s[0]] + str, rest)
  }

  predicate Ends(rest: seq<Octet>) { rest == [] || IsSpace(rest[0]) }

  lemma HexReads(v: nat)
    requires v < 16
    ensures IsXDigit(Hex(v)) && XValue(Hex(v)) == v
  {
  }

  lemma PlainIsSolid(c: Octet)
    ensures Plain(c) ==> c != PERCENT && !IsSpace(c)
    ensures !IsSpace(QuoteOne(c)[0])
  {
  }

  lemma TakePlain(c: Octet, more: seq<Octet>)
    requires c != PERCENT && !IsSpace(c)
    ensures TakeString([c] + more) == ([c] + TakeString(more).0, TakeString(more).1)
  {
    assert ([c] + more)[1..] == more;
  }

  lemma TakeHex(c: Octet, h: Octet, l: Octet, more: seq<Octet>)
    requires IsXDigit(h) && IsXDigit(l) && XValue(h) * 16 + XValue(l) == c
    ensures TakeString([PERCENT, h, l] + more) == ([c] + TakeString(more).0, TakeString(more).1)
  {
    hide IsXDigit, XValue;
    var q := [PERCENT, h, l] + more;
    assert q[3..] == more && q[0] == PERCENT && q[1] == h && q[2] == l && |q| >= 3;
    HexStep(q);
    hide TakeString;
  }

  lemma HexStep(s: seq<Octet>)
    requires |s| >= 3 && s[0] == PERCENT && IsXDigit(s[1]) && IsXDigit(s[2])
    ensures TakeString(s) == ([XValue(s[1]) * 16 + XValue(s[2])] + TakeString(s[3..]).0, TakeString(s[3..]).1)
  {
    hide IsXDigit, XValue;
  }

  lemma TakeOne(c: Octet, more: seq<Octet>)
    ensures TakeString(QuoteOne(c) + more) == ([c] + TakeString(more).0, TakeString(more).1)
  {
    PlainIsSolid(c);
    HexReads(c / 16);
    HexReads(c % 16);
    hide Hex, XValue, IsXDigit, TakeString, Plain, IsSpace;
    if Plain(c) { TakePlain(c, more); } else { TakeHex(c, Hex(c / 16), Hex(c % 16), more); }
  }

  /** Unquoting undoes quoting. */
  lemma {:induction false} QuoteTakes(str: seq<Octet>, rest: seq<Octet>)
    requires Ends(rest)
    ensures TakeString(Quote(str) + rest) == (str, rest)
  {
    if str == [] {
      assert Quote(str) + rest == rest;
    } else {
      QuoteCons(str);
      hide TakeString, Quote, QuoteOne;
      QuoteTakes(str[1..], rest);
      TakeOne(str[0], Quote(str[1..]) + rest);
      Assoc(QuoteOne(str[0]), Quote(str[1..]), rest);
      assert [str[0]] + str[1..] == str;
    }
  }

  lemma QuoteCons(str: seq<Octet>)
    requires str != []
    ensures Quote(str) == QuoteOne(str[0]) + Quote(str[1..])
  {
  }

  lemma Assoc(a: seq<Octet>, b: seq<Octet>, c: seq<Octet>)
    ensures (a + b) + c == a + (b + c)
  {
  }

  // -------------------------------------------------------------------------
  // Numbers
  // -------------------------------------------------------------------------

  function Digits(n: nat): (ds: seq<Octet>)
    ensures |ds| >= 1 && IsDigit(ds[0])
  {
    if n < 10 then ['0' as int + n] else Digits(n / 10) + ['0' as int + n % 10]
  }

  /** sprintf of %d. */
  function Decimal(i: int): seq<Octet> {
    if i < 0 then [MINUS] + Digits(-i) else Digits(i)
  }

  /** The digit loop of %d, and the check after it. */
  function ReadInt(s: seq<Octet>, value: nat): Option<(nat, seq<Octet>)> {
    if s != [] && IsDigit(s[0]) then
      var d := s[0] - '0' as int;
      if value < (INT_MAX - d) / 10 then ReadInt(s[1..], 10 * value + d) else None
    else Some((value, s))
  }

  function TakeInt(s: seq<Octet>): Option<(nat, seq<Octet>)> {
    if s == [] || !IsDigit(s[0]) then None else ReadInt(s, 0)
  }

  /** The largest number the digit loop accepts. */
  const LARGEST: nat := 2147483637

  lemma {:induction false} ReadsDigits(n: nat, rest: seq<Octet>)
    ensures ReadInt(Digits(n) + rest, 0) == if n <= LARGEST then ReadInt(rest, n) else None
  {
    var d: Octet := '0' as int + n % 10;
    if n < 10 {
      assert (Digits(n) + rest)[1..] == rest;
    } else {
      ReadsDigits(n / 10, [d] + rest);
      assert Digits(n) + rest == Digits(n / 10) + ([d] + rest);
      assert ([d] + rest)[1..] == rest;
    }
  }

  /** What the scanner makes of a printed number that no digit follows. */
  lemma TakesDecimal(i: int, rest: seq<Octet>)
    requires rest == [] || !IsDigit(rest[0])
    ensures TakeInt(Decimal(i) + rest) == if 0 <= i <= LARGEST then Some((i as nat, rest)) else None
  {
    if i >= 0 { ReadsDigits(i, rest); }
  }

  /** One number of a dotted quad: the loop stops once it exceeds 255. */
  function ReadByte(s: seq<Octet>, x: int): (int, seq<Octet>) {
    if s != [] && IsDigit(s[0]) && x <= 255 then ReadByte(s[1..], (if x < 0 then 0 else 10 * x) + (s[0] - '0' as int))
      else (x, s)
  }

  function TakeByte(s: seq<Octet>): Option<(Octet, seq<Octet>)> {
    var (x, rest) := ReadByte(s, -1);
    if 0 <= x <= 255 then Some((x, rest)) else None
  }

  lemma {:induction false} ReadsByteDigits(n: nat, rest: seq<Octet>)
    requires n < 256
    ensures ReadByte(Digits(n) + rest, -1) == ReadByte(rest, n)
  {
    var d: Octet := '0' as int + n % 10;
    if n < 10 {
      assert (Digits(n) + rest)[1..] == rest;
    } else {
      ReadsByteDigits(n / 10, [d] + rest);
      assert Digits(n) + rest == Digits(n / 10) + ([d] + rest);
      assert ([d] + rest)[1..] == rest;
    }
  }

  lemma TakesByte(n: Octet, rest: seq<Octet>)
    requires rest == [] || !IsDigit(rest[0])
    ensures TakeByte(Digits(n) + rest) == Some((n, rest))
  {
    ReadsByteDigits(n, rest);
  }

  // -------------------------------------------------------------------------
  // Formats
  // -------------------------------------------------------------------------

  /** A format, conversion by conversion; a lone % is a literal. */
  datatype Item = Lit(c: Octet) | Str | Int | Ip | Percent

  datatype Arg = AStr(s: seq<Octet>) | AInt(i: int) | AIp(a: Octet, b: Octet, c: Octet, d: Octet)

  function Parse(format: seq<Octet>): (items: seq<Item>)
    ensures |items| <= |format|
  {
    if format == [] then []
    else if |format| >= 2 && format[0] == PERCENT && format[1] == 's' as int then [Str] + Parse(format[2..])
    else if |format| >= 2 && format[0] == PERCENT && format[1] == 'd' as int then [Int] + Parse(format[2..])
    else if |format| >= 2 && format[0] == PERCENT && format[1] == 'I' as int then [Ip] + Parse(format[2..])
    else if |format| >= 2 && format[0] == PERCENT && format[1] == PERCENT then [Percent] + Parse(format[2..])
    else [Lit(format[0])] + Parse(format[1..])
  }

  predicate Converts(it: Item) { it.Str? || it.Int? || it.Ip? }

  predicate Match(it: Item, a: Arg) { (it.Str? && a.AStr?) || (it.Int? && a.AInt?) || (it.Ip? && a.AIp?) }

  /** The arguments that a format asks for. */
  predicate Fits(items: seq<Item>, args: seq<Arg>) {
    if items == [] then args == []
    else if Converts(items[0]) then args != [] && Match(items[0], args[0]) && Fits(items[1..], args[1..])
    else Fits(items[1..], args)
  }

  function WriteArg(a: Arg): seq<Octet> {
    match a
    case AStr(s) => Quote(s)
    case AInt(i) => Decimal(i)
    case AIp(x, y, z, w) => Digits(x) + [DOT] + Digits(y) + [DOT] + Digits(z) + [DOT] + Digits(w)
  }

  /** What osp2p_writef puts in its buffer. */
  function Write(items: seq<Item>, args: seq<Arg>): seq<Octet>
    requires Fits(items, args)
  {
    if items == [] then []
    else if Converts(items[0]) then WriteArg(args[0]) + Write(items[1..], args[1..])
    else [if items[0].Lit? then items[0].c else PERCENT] + Write(items[1..], args)
  }

  function SkipSpace(s: seq<Octet>): (r: seq<Octet>)
    ensures |r| <= |s| && (r == [] || !IsSpace(r[0]))
  {
    if s != [] && IsSpace(s[0]) then SkipSpace(s[1..]) else s
  }

  function SkipItems(items: seq<Item>): (r: seq<Item>)
    ensures |r| <= |items| && (r == [] || !(r[0].Lit? && IsSpace(r[0].c)))
  {
    if items != [] && items[0].Lit? && IsSpace(items[0].c) then SkipItems(items[1..]) else items
  }

  function TakeIp(s: seq<Octet>): Option<(Arg, seq<Octet>)> {
    var x := TakeByte(s);
    if x.None? || x.value.1 == [] || x.value.1[0] != DOT then None
    else
      var y := TakeByte(x.value.1[1..]);
      if y.None? || y.value.1 == [] || y.value.1[0] != DOT then None
      else
        var z := TakeByte(y.value.1[1..]);
        if z.None? || z.value.1 == [] || z.value.1[0] != DOT then None
        else
          var w := TakeByte(z.value.1[1..]);
          if w.None? then None else Some((AIp(x.value.0, y.value.0, z.value.0, w.value.0), w.value.1))
  }

  function Cons(a: Arg, more: Option<seq<Arg>>): Option<seq<Arg>> {
    if more.None? then None else Some([a] + more.value)
  }

  /** %n, which only the scanner knows; for the formatter it is two characters. */
  predicate PosItem(items: seq<Item>) { |items| >= 2 && items[0] == Lit(PERCENT) && items[1] == Lit('n' as int) }

  /** osp2p_vsnscanf with s left of a text of this length: None for -1, or what it stores. */
  function Scan(total: nat, s: seq<Octet>, items: seq<Item>): Option<seq<Arg>>
    decreases |items|
  {
    if items == [] then Some([])
    else
      match items[0]
      case Str =>
        var (str, rest) := TakeString(s);
        Cons(AStr(str), Scan(total, rest, items[1..]))
      case Int =>
        var r := TakeInt(s);
        if r.None? then None else Cons(AInt(r.value.0), Scan(total, r.value.1, items[1..]))
      case Ip =>
        var r := TakeIp(s);
        if r.None? then None else Cons(r.value.0, Scan(total, r.value.1, items[1..]))
      case Percent => if s == [] || s[0] != PERCENT then None else Scan(total, s[1..], items[1..])
      case Lit(c) =>
        if PosItem(items) then Cons(AInt(total - |s|), Scan(total, s, items[2..]))
        else if IsSpace(c) then
          if s == [] || !IsSpace(s[0]) then None else Scan(total, SkipSpace(s), SkipItems(items))
        else if s == [] || s[0] != c then None
        else Scan(total, s[1..], items[1..])
  }

  predicate SpaceItem(it: Item) { it.Lit? && IsSpace(it.c) }

  /** %s comes before a space or the end, %d and %I before a literal that is no digit or
      the end, and there is no %n. */
  predicate Sound(items: seq<Item>) {
    && (forall k | 0 <= k < |items| - 1 && items[k].Str? :: SpaceItem(items[k + 1]))
    && (forall k | 0 <= k < |items| - 1 && items[k] == Lit(PERCENT) :: items[k + 1] != Lit('n' as int))
    && (forall k | 0 <= k < |items| - 1 && (items[k].Int? || items[k].Ip?) ::
          items[k + 1].Percent? || (items[k + 1].Lit? && !IsDigit(items[k + 1].c)))
  }

  /** What can be read back: numbers from 0 to LARGEST, and an empty string only where the
      format has no space before it or none after it. */
  predicate Readable(items: seq<Item>, args: seq<Arg>, afterSpace: bool)
    requires Fits(items, args)
  {
    if items == [] then true
    else if Converts(items[0]) then
      && (args[0].AInt? ==> 0 <= args[0].i <= LARGEST)
      && (args[0].AStr? && args[0].s == [] && afterSpace ==> |items| == 1)
      && Readable(items[1..], args[1..], false)
    else Readable(items[1..], args, SpaceItem(items[0]))
  }

  // -------------------------------------------------------------------------
  // Round trip
  // -------------------------------------------------------------------------

  /** The first character written for a format that does not start with a space. */
  lemma FirstWritten(items: seq<Item>, args: seq<Arg>)
    requires Fits(items, args) && items != []
    ensures var w := Write(items, args);
            && (!Converts(items[0]) ==> w != [] && w[0] == if items[0].Lit? then items[0].c else PERCENT)
            && (Converts(items[0]) && !(args[0].AStr? && args[0].s == []) ==> w != [] && !IsSpace(w[0]))
  {
    if Converts(items[0]) {
      match args[0]
      case AStr(str) => if str != [] { PlainIsSolid(str[0]); }
      case AInt(i) =>
      case AIp(x, y, z, w) =>
    }
  }

  lemma TakesIp(x: Octet, y: Octet, z: Octet, w: Octet, rest: seq<Octet>)
    requires rest == [] || !IsDigit(rest[0])
    ensures TakeIp(WriteArg(AIp(x, y, z, w)) + rest) == Some((AIp(x, y, z, w), rest))
  {
    hide TakeByte, Digits;
    var s3 := Digits(w) + rest;
    var s2 := Digits(z) + ([DOT] + s3);
    var s1 := Digits(y) + ([DOT] + s2);
    var s0 := Digits(x) + ([DOT] + s1);
    assert WriteArg(AIp(x, y, z, w)) + rest == s0;
    TakesByte(w, rest);
    TakesByte(z, [DOT] + s3);
    TakesByte(y, [DOT] + s2);
    TakesByte(x, [DOT] + s1);
    assert ([DOT] + s3)[1..] == s3 && ([DOT] + s2)[1..] == s2 && ([DOT] + s1)[1..] == s1;
  }

  /** A run of spaces in the format is read as one. */
  lemma {:induction false} RunSkips(items: seq<Item>, args: seq<Arg>, afterSpace: bool)
    requires Fits(items, args) && items != [] && SpaceItem(items[0]) && Sound(items)
    ensures var tail := SkipItems(items);
            && |tail| < |items| && Fits(tail, args) && Sound(tail)
            && SkipSpace(Write(items, args)) == SkipSpace(Write(tail, args))
            && (Readable(items, args, afterSpace) <==> Readable(tail, args, true))
  {
    var w := Write(items, args);
    assert w[1..] == Write(items[1..], args);
    SoundTail(items);
    if |items| > 1 && SpaceItem(items[1]) {
      RunSkips(items[1..], args, true);
    } else {
      assert SkipItems(items) == items[1..];
    }
  }

  lemma SoundTail(items: seq<Item>)
    requires Sound(items) && items != []
    ensures Sound(items[1..])
  {
    var tail := items[1..];
    assert forall k | 0 <= k < |tail| :: tail[k] == items[k + 1];
  }

  /** What follows a conversion in the text, given what follows it in the format. */
  lemma Follows(items: seq<Item>, args: seq<Arg>)
    requires Fits(items, args) && Sound(items) && items != [] && Converts(items[0])
    ensures var rest := Write(items[1..], args[1..]);
            && (items[0].Str? ==> Ends(rest))
            && (!items[0].Str? ==> rest == [] || !IsDigit(rest[0]))
  {
    if |items| > 1 { FirstWritten(items[1..], args[1..]); }
  }

  lemma ConsIs(a: Arg, more: Option<seq<Arg>>, args: seq<Arg>)
    requires args != [] && args[0] == a
    ensures Cons(a, more) == Some(args) <==> more == Some(args[1..])
  {
    if more == Some(args[1..]) { assert [a] + args[1..] == args; }
    if Cons(a, more) == Some(args) { assert ([a] + more.value)[1..] == more.value; }
  }

  /** One conversion is undone, but for a number the digit loop does not accept. */
  lemma ScanConverts(total: nat, items: seq<Item>, args: seq<Arg>)
    requires Fits(items, args) && Sound(items) && items != [] && Converts(items[0])
    ensures Scan(total, Write(items, args), items) ==
            if args[0].AInt? && !(0 <= args[0].i <= LARGEST) then None
            else Cons(args[0], Scan(total, Write(items[1..], args[1..]), items[1..]))
  {
    var rest := Write(items[1..], args[1..]);
    Follows(items, args);
    hide TakeString, TakeInt, TakeIp, Quote, Decimal, Digits, Sound;
    match args[0]
    case AStr(str) => QuoteTakes(str, rest);
    case AInt(i) => TakesDecimal(i, rest);
    case AIp(x, y, z, v) => TakesIp(x, y, z, v, rest);
  }

  /** The scanner gives the arguments back exactly when they can be read back. */
  lemma {:induction false} RoundTripFrom(total: nat, items: seq<Item>, args: seq<Arg>)
    requires Fits(items, args) && Sound(items)
    ensures Scan(total, Write(items, args), items) == Some(args) <==> Readable(items, args, false)
    decreases |items|, 0
  {
    if items != [] {
      hide TakeString, TakeInt, TakeIp, Quote, Decimal, Sound;
      SoundTail(items);
      var w := Write(items, args);
      if Converts(items[0]) {
        var rest := Write(items[1..], args[1..]);
        RoundTripFrom(total, items[1..], args[1..]);
        ScanConverts(total, items, args);
        ConsIs(args[0], Scan(total, rest, items[1..]), args);
        hide Scan;
      } else if SpaceItem(items[0]) {
        RunSkips(items, args, false);
        RoundTripAfterSpace(total, SkipItems(items), args);
      } else {
        assert w[1..] == Write(items[1..], args);
        RoundTripFrom(total, items[1..], args);
      }
    }
  }

  lemma {:induction false} RoundTripAfterSpace(total: nat, items: seq<Item>, args: seq<Arg>)
    requires Fits(items, args) && Sound(items) && (items == [] || !SpaceItem(items[0]))
    ensures Scan(total, SkipSpace(Write(items, args)), items) == Some(args) <==> Readable(items, args, true)
    decreases |items|, 1
  {
    var w := Write(items, args);
    if items == [] {
    } else if items[0].Str? && args[0].s == [] && |items| > 1 {
      var s := SkipSpace(w);
      if s == [] {
        assert Scan(total, s, items[1..]) == None;
      } else {
        assert TakeString(s).0 != [];
      }
    } else {
      RoundTripFrom(total, items, args);
      FirstWritten(items, args);
      assert SkipSpace(w) == w;
    }
  }

  /** Scanning a written message with the same format gives back the arguments if and only if
      every %d argument is between 0 and 2147483637 and no empty string stands between two
      spaces of the format. */
  lemma RoundTrip(format: seq<Octet>, args: seq<Arg>)
    requires Fits(Parse(format), args) && Sound(Parse(format))
    ensures var w := Write(Parse(format), args);
            Scan(|w|, w, Parse(format)) == Some(args) <==> Readable(Parse(format), args, false)
  {
    RoundTripFrom(|Write(Parse(format), args)|, Parse(format), args);
  }
}
