/** osp2p_vsnscanf in place, on the memory that it reads. */
module PeerScan {
  import opened Options
  import opened PeerCodec
  import opened PeerCodecOps

  // -------------------------------------------------------------------------
  // Where the cursor of %s goes
  // -------------------------------------------------------------------------

  /** The loop of %s takes three bytes, and looks at the last two without asking where the text
      ends. */
  predicate Escape(m: seq<Octet>, p: nat)
    requires p + 2 < |m|
  {
    m[p] == PERCENT && IsXDigit(m[p + 1]) && IsXDigit(m[p + 2])
  }

  /** Where that loop stops from position p of memory m on, the text ending at e; None when the
      cursor passes e.  The code then goes on behind the text. */
  function Cursor(m: seq<Octet>, e: nat, p: nat): (q: Option<nat>)
    requires e + 2 <= |m|
    ensures q.Some? ==> p <= q.value <= e
    decreases e + 3 - p
  {
    if p > e then None
    else if p == e || IsSpace(m[p]) then Some(p)
    else Cursor(m, e, if Escape(m, p) then p + 3 else p + 1)
  }

  predicate HasSpace(s: seq<Octet>) { exists i :: 0 <= i < |s| && IsSpace(s[i]) }

  /** The text ends in no escape that the two bytes behind it complete. */
  predicate Whole(s: seq<Octet>, after: seq<Octet>)
    requires |after| >= 2
  {
    && (|s| >= 1 && s[|s| - 1] == PERCENT ==> !IsXDigit(after[0]) || !IsXDigit(after[1]))
    && (|s| >= 2 && s[|s| - 2] == PERCENT && IsXDigit(s[|s| - 1]) ==> !IsXDigit(after[0]))
  }

  /** The loop of %s stays in the text exactly when a space comes or the text ends in no cut
      escape that the memory behind it completes. */
  lemma {:induction false} CursorStays(s: seq<Octet>, after: seq<Octet>, p: nat)
    requires |after| >= 2 && p <= |s|
    ensures Cursor(s + after, |s|, p).Some? <==> HasSpace(s[p..]) || Whole(s[p..], after)
    decreases |s| - p
  {
    var m := s + after;
    if p < |s| && !IsSpace(m[p]) {
      var q := if Escape(m, p) then p + 3 else p + 1;
      if q <= |s| {
        CursorStays(s, after, q);
        Skipped(s, after, p, q);
      }
    }
  }

  lemma Skipped(s: seq<Octet>, after: seq<Octet>, p: nat, q: nat)
    requires |after| >= 2 && p < q <= |s| && !IsSpace(s[p]) && q == if Escape(s + after, p) then p + 3 else p + 1
    ensures HasSpace(s[q..]) <==> HasSpace(s[p..])
    ensures !HasSpace(s[p..]) ==> (Whole(s[q..], after) <==> Whole(s[p..], after))
  {
  }

  /** At every %s that is reached, the loop stays in the text. */
  predicate Keeps(s: seq<Octet>, after: seq<Octet>, items: seq<Item>)
    requires |after| >= 2
    decreases |items|
  {
    if items == [] then true
    else
      match items[0]
      case Str => (HasSpace(s) || Whole(s, after)) && Keeps(TakeString(s).1, after, items[1..])
      case Int => TakeInt(s).Some? ==> Keeps(TakeInt(s).value.1, after, items[1..])
      case Ip => TakeIp(s).Some? ==> Keeps(TakeIp(s).value.1, after, items[1..])
      case Percent => s != [] && s[0] == PERCENT ==> Keeps(s[1..], after, items[1..])
      case Lit(c) =>
        if PosItem(items) then Keeps(s, after, items[2..])
        else if IsSpace(c) then s != [] && IsSpace(s[0]) ==> Keeps(SkipSpace(s), after, SkipItems(items))
        else s != [] && s[0] == c ==> Keeps(s[1..], after, items[1..])
  }

  /** A null byte behind the text, as osp2p_sscanf has it, is enough for every format. */
  lemma {:induction false} NullKeeps(s: seq<Octet>, after: seq<Octet>, items: seq<Item>)
    requires |after| >= 2 && after[0] == 0
    ensures Keeps(s, after, items)
    decreases |items|
  {
    hide TakeString, TakeInt, TakeIp, SkipSpace, SkipItems, HasSpace;
    if items != [] {
      match items[0]
      case Str => NullKeeps(TakeString(s).1, after, items[1..]);
      case Int => if TakeInt(s).Some? { NullKeeps(TakeInt(s).value.1, after, items[1..]); }
      case Ip => if TakeIp(s).Some? { NullKeeps(TakeIp(s).value.1, after, items[1..]); }
      case Percent => if s != [] { NullKeeps(s[1..], after, items[1..]); }
      case Lit(c) =>
        if PosItem(items) {
          NullKeeps(s, after, items[2..]);
        } else if IsSpace(c) {
          FewerItems(items);
          NullKeeps(SkipSpace(s), after, SkipItems(items));
        } else if s != [] {
          NullKeeps(s[1..], after, items[1..]);
        }
    }
  }

  lemma FewerItems(items: seq<Item>)
    requires items != [] && SpaceItem(items[0])
    ensures |SkipItems(items)| < |items|
  {
  }

  /** The text "%" before the bytes "41" leaves a %s behind the text.  The text "a %" before them
      does not, and neither does "OK%" for the format "OK", though both end in the cut escape. */
  lemma CutEscape()
    ensures var behind: seq<Octet>, a: Octet := ['4' as int, '1' as int], 'a' as int;
            && Cursor([PERCENT] + behind, 1, 0) == None && !Keeps([PERCENT], behind, [Str])
            && Keeps([a, 32, PERCENT], behind, [Str]) && !Whole([a, 32, PERCENT], behind)
            && Keeps([a, a, PERCENT], behind, [Lit(a), Lit(a)]) && !Whole([a, a, PERCENT], behind)
  {
    var a: Octet := 'a' as int;
    assert IsSpace([a, 32, PERCENT][1]);
  }

  // -------------------------------------------------------------------------
  // The loops
  // -------------------------------------------------------------------------

  /** The loop of %s; `after` is what lies in memory behind the text.  It ends here when the
      cursor is behind the text. */
  method ScanString(s: seq<Octet>, after: seq<Octet>) returns (left: bool, str: seq<Octet>, rest: seq<Octet>)
    requires |after| >= 2
    ensures left <==> !HasSpace(s) && !Whole(s, after)
    ensures !left ==> (str, rest) == TakeString(s)
  {
    CursorStays(s, after, 0);
    hide HasSpace, Whole;
    assert s[0..] == s;
    var m, p := s + after, 0;
    str := [];
    assert str + TakeString(s).0 == TakeString(s).0;
    while p != |s| && !IsSpace(m[p])
      invariant p <= |s| && Cursor(m, |s|, p).Some? == Cursor(m, |s|, 0).Some?
      invariant TakeString(s) == (str + TakeString(s[p..]).0, TakeString(s[p..]).1)
      decreases |s| - p
    {
      ghost var before, r0 := str, s[p..];
      if Escape(m, p) {
        if p + 3 > |s| { return true, str, []; }
        str := str + [XValue(m[p + 1]) * 16 + XValue(m[p + 2])];
        p := p + 3;
      } else {
        str := str + [m[p]];
        p := p + 1;
      }
      TakeStep(r0);
      hide TakeString, XValue, IsXDigit, IsSpace;
      assert str == before + [str[|before|]];
      Assoc(before, [str[|before|]], TakeString(s[p..]).0);
    }
    assert str + [] == str;
    return false, str, s[p..];
  }

  lemma TakeStep(s: seq<Octet>)
    requires s != [] && !IsSpace(s[0])
    ensures var hex := s[0] == PERCENT && |s| >= 3 && IsXDigit(s[1]) && IsXDigit(s[2]);
            var c := if hex then XValue(s[1]) * 16 + XValue(s[2]) else s[0];
            var more := TakeString(if hex then s[3..] else s[1..]);
            TakeString(s) == ([c] + more.0, more.1)
  {
  }

  /** The loop of %d. */
  method ScanInt(s: seq<Octet>) returns (r: Option<(nat, seq<Octet>)>)
    ensures r == TakeInt(s)
  {
    if s == [] || !IsDigit(s[0]) { return None; }
    var value: nat, rest: seq<Octet> := 0, s;
    while rest != [] && IsDigit(rest[0]) && value < (INT_MAX - (rest[0] - '0' as int)) / 10
      invariant ReadInt(s, 0) == ReadInt(rest, value)
      decreases |rest|
    {
      value, rest := 10 * value + (rest[0] - '0' as int), rest[1..];
    }
    if rest != [] && IsDigit(rest[0]) { return None; }
    return Some((value, rest));
  }

  /** The inner loop of %I. */
  method ScanByte(s: seq<Octet>) returns (x: int, rest: seq<Octet>)
    ensures (x, rest) == ReadByte(s, -1)
  {
    x, rest := -1, s;
    while rest != [] && IsDigit(rest[0]) && x <= 255
      invariant ReadByte(s, -1) == ReadByte(rest, x)
      decreases |rest|
    {
      x, rest := (if x < 0 then 0 else 10 * x) + (rest[0] - '0' as int), rest[1..];
    }
  }

  /** The numbers of a dotted quad from the i'th on; i of them are read. */
  function TakeQuad(s: seq<Octet>, i: nat): Option<(seq<Octet>, seq<Octet>)>
    requires i < 4
    decreases 4 - i
  {
    var x := TakeByte(s);
    if x.None? || (i < 3 && (x.value.1 == [] || x.value.1[0] != DOT)) then None
    else if i == 3 then Some(([x.value.0], x.value.1))
    else
      var more := TakeQuad(x.value.1[1..], i + 1);
      if more.None? then None else Some(([x.value.0] + more.value.0, more.value.1))
  }

  lemma QuadIs(s: seq<Octet>)
    ensures var q := TakeQuad(s, 0);
            TakeIp(s) == if q.None? then None
                         else
                           var (b, rest) := q.value;
                           if |b| == 4 then Some((AIp(b[0], b[1], b[2], b[3]), rest)) else None
  {
    hide TakeByte;
    var x := TakeByte(s);
    if x.Some? && x.value.1 != [] && x.value.1[0] == DOT {
      QuadFrom(x.value.1[1..]);
    }
  }

  lemma QuadFrom(s: seq<Octet>)
    ensures var q := TakeQuad(s, 1);
            q.Some? ==> |q.value.0| == 3
    ensures var y := TakeByte(s);
            TakeQuad(s, 1).Some? <==>
              y.Some? && y.value.1 != [] && y.value.1[0] == DOT && TakeQuad(y.value.1[1..], 2).Some?
  {
    hide TakeByte;
  }

  /** The outer loop of %I. */
  method ScanIp(s: seq<Octet>) returns (r: Option<(Arg, seq<Octet>)>)
    ensures r == TakeIp(s)
  {
    hide TakeIp, ReadByte;
    QuadIs(s);
    var rest := s;
    var value: seq<Octet> := [];
    assert TakeQuad(s, 0).Some? ==> value + TakeQuad(s, 0).value.0 == TakeQuad(s, 0).value.0;
    for i := 0 to 4
      invariant |value| == i
      invariant i < 4 ==> TakeQuad(s, 0) == var m := TakeQuad(rest, i);
                          if m.None? then None else Some((value + m.value.0, m.value.1))
      invariant i == 4 ==> TakeQuad(s, 0) == Some((value, rest))
    {
      ghost var v0, r0 := value, rest;
      var x: int;
      x, rest := ScanByte(rest);
      if x < 0 || x > 255 || (i < 3 && (rest == [] || rest[0] != DOT)) { return None; }
      value := value + [x];
      if i < 3 {
        rest := rest[1..];
        ghost var m := TakeQuad(rest, i + 1);
        if m.Some? { assert v0 + ([x] + m.value.0) == value + m.value.0; }
      }
    }
    return Some((AIp(value[0], value[1], value[2], value[3]), rest));
  }

  /** Arguments read so far, before those still to come. */
  function Prepend(got: seq<Arg>, more: Option<seq<Arg>>): Option<seq<Arg>> {
    if more.None? then None else Some(got + more.value)
  }

  lemma PrependCons(got: seq<Arg>, a: Arg, more: Option<seq<Arg>>)
    ensures Prepend(got, Cons(a, more)) == Prepend(got + [a], more)
  {
    if more.Some? { assert got + ([a] + more.value) == got + [a] + more.value; }
  }

  lemma {:induction false} SkipParse(f: seq<Octet>)
    ensures SkipItems(Parse(f)) == Parse(SkipSpace(f))
  {
    if f != [] && IsSpace(f[0]) {
      assert Parse(f) == [Lit(f[0])] + Parse(f[1..]);
      assert Parse(f)[1..] == Parse(f[1..]);
      SkipParse(f[1..]);
    }
  }

  method SkipSpaces(s: seq<Octet>) returns (r: seq<Octet>)
    ensures r == SkipSpace(s)
  {
    r := s;
    while r != [] && IsSpace(r[0])
      invariant SkipSpace(r) == SkipSpace(s)
      decreases |r|
    {
      r := r[1..];
    }
  }

  /** One turn of the scanner's loop; `left` when the cursor is behind the text. */
  method ScanNext(total: nat, rest: seq<Octet>, after: seq<Octet>, f: seq<Octet>)
    returns (left: bool, ok: bool, rest': seq<Octet>, f': seq<Octet>, got: seq<Arg>)
    requires f != [] && |after| >= 2
    ensures left ==> !Keeps(rest, after, Parse(f))
    ensures !left && !ok ==> Scan(total, rest, Parse(f)) == None && Keeps(rest, after, Parse(f))
    ensures !left && ok ==> |f'| < |f| && Scan(total, rest, Parse(f)) == Prepend(got, Scan(total, rest', Parse(f')))
    ensures !left && ok ==> Keeps(rest, after, Parse(f)) == Keeps(rest', after, Parse(f'))
  {
    ParseStep(f);
    SkipParse(f);
    hide Parse, TakeString, ReadInt, TakeIp, SkipSpace, SkipItems, HasSpace, Whole;
    left, ok, rest', f', got := false, true, rest, f, [];
    if |f| >= 2 && f[0] == PERCENT && f[1] == 's' as int {
      var str, r;
      left, str, r := ScanString(rest, after);
      if left { return; }
      PrependCons([], AStr(str), Scan(total, r, Parse(f[2..])));
      rest', f', got := r, f[2..], [] + [AStr(str)];
    } else if |f| >= 2 && f[0] == PERCENT && f[1] == 'I' as int {
      var r := ScanIp(rest);
      if r.None? { return false, false, rest, f, []; }
      PrependCons([], r.value.0, Scan(total, r.value.1, Parse(f[2..])));
      rest', f', got := r.value.1, f[2..], [] + [r.value.0];
    } else if |f| >= 2 && f[0] == PERCENT && f[1] == 'd' as int {
      var r := ScanInt(rest);
      if r.None? { return false, false, rest, f, []; }
      PrependCons([], AInt(r.value.0), Scan(total, r.value.1, Parse(f[2..])));
      rest', f', got := r.value.1, f[2..], [] + [AInt(r.value.0)];
    } else if |f| >= 2 && f[0] == PERCENT && f[1] == 'n' as int {
      PosStep(f);
      PrependCons([], AInt(total - |rest|), Scan(total, rest, Parse(f[2..])));
      f', got := f[2..], [] + [AInt(total - |rest|)];
    } else if |f| >= 2 && f[0] == PERCENT && f[1] == PERCENT {
      if rest == [] || rest[0] != PERCENT { return false, false, rest, f, []; }
      rest', f' := rest[1..], f[2..];
    } else if IsSpace(f[0]) {
      if rest == [] || !IsSpace(rest[0]) { return false, false, rest, f, []; }
      rest' := SkipSpaces(rest);
      f' := SkipSpaces(f);
      Shorter(f);
    } else {
      NoPos(f);
      if rest == [] || rest[0] != f[0] { return false, false, rest, f, []; }
      rest', f' := rest[1..], f[1..];
    }
    PrependNothing(Scan(total, rest', Parse(f')));
    PrependNothing(Scan(total, rest, Parse(f)));
  }

  lemma PosStep(f: seq<Octet>)
    requires |f| >= 2 && f[0] == PERCENT && f[1] == 'n' as int
    ensures PosItem(Parse(f)) && Parse(f)[2..] == Parse(f[2..])
  {
    ParseStep(f);
    ParseStep(f[1..]);
    assert f[1..][1..] == f[2..];
    assert Parse(f)[2..] == Parse(f)[1..][1..];
    hide Parse;
  }

  lemma NoPos(f: seq<Octet>)
    requires f != [] && !(|f| >= 2 && f[0] == PERCENT && f[1] == 'n' as int)
    ensures !PosItem(Parse(f))
  {
    ParseStep(f);
    if |f| >= 2 { ParseStep(f[1..]); }
    hide Parse;
    if |Parse(f)| >= 2 { assert Parse(f)[1] == Parse(f)[1..][0]; }
  }

  lemma PrependNothing(more: Option<seq<Arg>>)
    ensures Prepend([], more) == more
  {
    if more.Some? { assert [] + more.value == more.value; }
  }

  lemma Shorter(f: seq<Octet>)
    requires f != [] && IsSpace(f[0])
    ensures |SkipSpace(f)| < |f|
  {
  }

  /** osp2p_vsnscanf on a text and what lies in memory behind it: None for -1, or the values
      stored; `left` when the cursor of a %s gets behind the text. */
  method VsnScanf(s: seq<Octet>, after: seq<Octet>, format: seq<Octet>) returns (left: bool, r: Option<seq<Arg>>)
    requires |after| >= 2
    ensures left <==> !Keeps(s, after, Parse(format))
    ensures !left ==> r == Scan(|s|, s, Parse(format))
  {
    hide Scan, Parse, Keeps;
    var rest, f := s, format;
    var got: seq<Arg> := [];
    PrependNothing(Scan(|s|, s, Parse(format)));
    while f != []
      invariant Scan(|s|, s, Parse(format)) == Prepend(got, Scan(|s|, rest, Parse(f)))
      invariant Keeps(s, after, Parse(format)) == Keeps(rest, after, Parse(f))
      decreases |f|
    {
      ghost var g0 := got;
      var ok, more: seq<Arg>;
      left, ok, rest, f, more := ScanNext(|s|, rest, after, f);
      if left { return true, None; }
      if !ok { return false, None; }
      got := got + more;
      PrependTwice(g0, more, Scan(|s|, rest, Parse(f)));
    }
    ScanEnd(|s|, rest, after);
    assert got + [] == got;
    return false, Some(got);
  }

  lemma PrependTwice(a: seq<Arg>, b: seq<Arg>, more: Option<seq<Arg>>)
    ensures Prepend(a, Prepend(b, more)) == Prepend(a + b, more)
  {
    if more.Some? { assert a + (b + more.value) == a + b + more.value; }
  }

  lemma ScanEnd(total: nat, rest: seq<Octet>, after: seq<Octet>)
    requires |after| >= 2
    ensures Scan(total, rest, Parse([])) == Some([]) && Keeps(rest, after, Parse([]))
  {
  }

  // -------------------------------------------------------------------------
  // What was written is read inside the text
  // -------------------------------------------------------------------------

  /** A quoted string ends in no cut escape. */
  lemma {:induction false} QuoteWhole(str: seq<Octet>, after: seq<Octet>)
    requires |after| >= 2
    ensures Whole(Quote(str), after)
  {
    if str != [] {
      QuoteWhole(str[1..], after);
      PlainIsSolid(str[0]);
      QuoteCons(str);
    }
  }

  /** A message whose arguments can be read back is read inside the text, whatever lies behind. */
  lemma {:induction false} SentKeeps(items: seq<Item>, args: seq<Arg>, after: seq<Octet>)
    requires Fits(items, args) && Sound(items) && Readable(items, args, false) && |after| >= 2
    ensures Keeps(Write(items, args), after, items)
    decreases |items|, 0
  {
    if items != [] {
      SoundTail(items);
      var w := Write(items, args);
      if Converts(items[0]) {
        SentKeeps(items[1..], args[1..], after);
        SentConverts(items, args, after);
      } else if SpaceItem(items[0]) {
        RunSkips(items, args, false);
        SentAfterSpace(SkipItems(items), args, after);
      } else {
        assert w[1..] == Write(items[1..], args);
        SentKeeps(items[1..], args, after);
      }
    }
  }

  lemma SentConverts(items: seq<Item>, args: seq<Arg>, after: seq<Octet>)
    requires Fits(items, args) && Sound(items) && Readable(items, args, false) && |after| >= 2
    requires items != [] && Converts(items[0]) && Keeps(Write(items[1..], args[1..]), after, items[1..])
    ensures Keeps(Write(items, args), after, items)
  {
    var rest, w := Write(items[1..], args[1..]), Write(items, args);
    Follows(items, args);
    hide TakeString, TakeInt, TakeIp, Quote, Decimal, Digits, Sound;
    match args[0]
    case AStr(str) =>
      QuoteTakes(str, rest);
      QuoteWhole(str, after);
      if rest == [] { assert w == Quote(str); } else { assert IsSpace(w[|Quote(str)|]); }
    case AInt(i) => TakesDecimal(i, rest);
    case AIp(x, y, z, v) => TakesIp(x, y, z, v, rest);
  }

  lemma {:induction false} SentAfterSpace(items: seq<Item>, args: seq<Arg>, after: seq<Octet>)
    requires Fits(items, args) && Sound(items) && Readable(items, args, true) && |after| >= 2
    requires items == [] || !SpaceItem(items[0])
    ensures Keeps(SkipSpace(Write(items, args)), after, items)
    decreases |items|, 1
  {
    if items != [] {
      FirstWritten(items, args);
      assert SkipSpace(Write(items, args)) == Write(items, args);
      SentKeeps(items, args, after);
    }
  }

  /** A message sent and read back, whatever lies behind it in memory. */
  method SendAndReceive(format: seq<Octet>, args: seq<Arg>, after: seq<Octet>)
    returns (over: bool, left: bool, r: Option<seq<Arg>>)
    requires Fits(Parse(format), args) && Sound(Parse(format)) && Clean(args) && |after| >= 2
    ensures over <==> !Contained(Parse(format), args, 0, 1024 + 2048)
    ensures !over ==> (!left && r == Some(args) <==> Readable(Parse(format), args, false))
  {
    hide Parse, Fits, Sound, Clean, Contained, Readable, Write, Scan, Keeps;
    var buf, len;
    over, buf, len := Writef(format, args);
    if over { return true, false, None; }
    left, r := VsnScanf(buf[..len], after, format);
    RoundTrip(format, args);
    if Readable(Parse(format), args, false) { SentKeeps(Parse(format), args, after); }
  }
}
