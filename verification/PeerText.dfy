/** The texts that the codec writes and reads, against literal alphabets and numerals. */
module PeerText {
  import opened Options
  import opened PeerCodec

  const HEX: string := "0123456789ABCDEF"
  const LOWHEX: string := "0123456789abcdef"

  /** The bytes of an ASCII text. */
  function Ascii(s: string): (b: seq<Octet>)
    requires forall i | 0 <= i < |s| :: s[i] < 128 as char
    ensures |b| == |s|
  {
    seq(|s|, i requires 0 <= i < |s| => s[i] as int)
  }

  // -------------------------------------------------------------------------
  // Quoting
  // -------------------------------------------------------------------------

  /** Letters, digits and $-_.+!*'(), */
  predicate Bare(c: Octet) {
    || 'a' <= c as char <= 'z' || 'A' <= c as char <= 'Z' || '0' <= c as char <= '9'
    || c as char in {'$', '-', '_', '.', '+', '!', '*', '\'', '(', ')', ','}
  }

  /** One character is written as itself, or as % and its two upper-case hexadecimal digits. */
  lemma QuotesOne(c: Octet)
    ensures QuoteOne(c) == if Bare(c) then [c] else [PERCENT, HEX[c / 16] as int, HEX[c % 16] as int]
  {
  }

  /** A text is quoted character by character. */
  lemma {:induction false} QuoteAppend(a: seq<Octet>, b: seq<Octet>)
    ensures Quote(a + b) == Quote(a) + Quote(b)
    ensures |a| == 1 ==> Quote(a) == QuoteOne(a[0])
  {
    if a == [] {
      assert a + b == b;
    } else {
      assert (a + b)[1..] == a[1..] + b;
      QuoteAppend(a[1..], b);
      hide QuoteOne;
      Assoc(QuoteOne(a[0]), Quote(a[1..]), Quote(b));
    }
  }

  lemma {:induction false} QuoteBare(s: seq<Octet>)
    requires forall i | 0 <= i < |s| :: Bare(s[i])
    ensures Quote(s) == s
  {
    if s != [] {
      QuotesOne(s[0]);
      QuoteBare(s[1..]);
      assert [s[0]] + s[1..] == s;
    }
  }

  // -------------------------------------------------------------------------
  // Unquoting
  // -------------------------------------------------------------------------

  /** A byte in either spelling of either hexadecimal digit is read back. */
  lemma UnquotesHex(v: Octet, h: Octet, l: Octet, rest: seq<Octet>)
    requires h as char == HEX[v / 16] || h as char == LOWHEX[v / 16]
    requires l as char == HEX[v % 16] || l as char == LOWHEX[v % 16]
    ensures var (str, left) := TakeString(rest);
            TakeString([PERCENT, h, l] + rest) == ([v] + str, left)
  {
    HexDigit(h, v / 16);
    HexDigit(l, v % 16);
    TakeHex(v, h, l, rest);
    hide TakeString, XValue, IsXDigit;
  }

  lemma HexDigit(c: Octet, v: nat)
    requires v < 16 && (c as char == HEX[v] || c as char == LOWHEX[v])
    ensures IsXDigit(c) && XValue(c) == v
  {
  }

  /** A hexadecimal digit. */
  predicate HexChar(c: Octet) { exists v | 0 <= v < 16 :: c as char == HEX[v] || c as char == LOWHEX[v] }

  lemma HexChars(c: Octet)
    ensures IsXDigit(c) <==> HexChar(c)
  {
    if IsXDigit(c) { assert c as char == HEX[XValue(c)] || c as char == LOWHEX[XValue(c)]; }
  }

  predicate Escaped(rest: seq<Octet>) { |rest| >= 2 && HexChar(rest[0]) && HexChar(rest[1]) }

  /** A % that no two hexadecimal digits follow is kept, and so is every other character but white
      space. */
  lemma KeepsOther(c: Octet, rest: seq<Octet>)
    requires c as char !in {' ', '\t', '\n', '\r'} && c != 11 && c != 12
    requires c as char == '%' ==> !Escaped(rest)
    ensures var (str, left) := TakeString(rest);
            TakeString([c] + rest) == ([c] + str, left)
  {
    if |rest| >= 2 {
      HexChars(rest[0]);
      HexChars(rest[1]);
    }
    hide IsXDigit, HexChar;
    assert ([c] + rest)[1..] == rest;
  }

  /** White space, as isspace() has it, ends a %s. */
  lemma StopsAtSpace(c: Octet, rest: seq<Octet>)
    requires c as char in {' ', '\t', '\n', '\r'} || c == 11 || c == 12
    ensures TakeString([c] + rest) == ([], [c] + rest) && TakeString([]) == ([], [])
  {
  }

  // -------------------------------------------------------------------------
  // Numbers
  // -------------------------------------------------------------------------

  predicate Numeral(ds: seq<Octet>) { forall i | 0 <= i < |ds| :: '0' <= ds[i] as char <= '9' }

  /** The number that decimal digits stand for. */
  function NumberOf(ds: seq<Octet>): nat
    requires Numeral(ds)
  {
    if ds == [] then 0 else 10 * NumberOf(ds[..|ds| - 1]) + (ds[|ds| - 1] - 48)
  }

  /** A number is printed in decimal digits, without a zero in front. */
  lemma {:induction false} DigitsNumber(n: nat)
    ensures Numeral(Digits(n)) && NumberOf(Digits(n)) == n && (n > 0 ==> Digits(n)[0] as char != '0')
    ensures Digits(0) == ['0' as int]
  {
    if n >= 10 {
      DigitsNumber(n / 10);
      var ds := Digits(n);
      assert ds[..|ds| - 1] == Digits(n / 10);
    } else {
      assert Digits(n)[..0] == [];
    }
  }

  /** %d prints a minus sign before a negative number. */
  lemma DecimalText(i: int)
    ensures Decimal(i) == if i < 0 then ['-' as int] + Digits(-i) else Digits(i)
  {
  }

  /** The digit loop over any digits, zeros in front included. */
  lemma {:induction false} ReadsRun(ds: seq<Octet>, rest: seq<Octet>)
    requires Numeral(ds)
    ensures ReadInt(ds + rest, 0) == if NumberOf(ds) <= 2147483637 then ReadInt(rest, NumberOf(ds)) else None
  {
    if ds == [] {
      assert ds + rest == rest;
    } else {
      var init, d := ds[..|ds| - 1], ds[|ds| - 1];
      ReadsRun(init, [d] + rest);
      assert ds + rest == init + ([d] + rest);
      assert ([d] + rest)[1..] == rest;
    }
  }

  /** What %d accepts: at least one digit, and a number up to 2147483637. */
  lemma TakesNumber(ds: seq<Octet>, rest: seq<Octet>)
    requires Numeral(ds) && (rest == [] || !Numeral([rest[0]]))
    ensures TakeInt(ds + rest) ==
              if ds != [] && NumberOf(ds) <= 2147483637 then Some((NumberOf(ds), rest)) else None
  {
    assert rest != [] ==> [rest[0]][0] == rest[0];
    if ds == [] {
      assert ds + rest == rest;
    } else {
      ReadsRun(ds, rest);
      assert (ds + rest)[0] == ds[0];
    }
  }

  lemma {:induction false} ReadsByteRun(ds: seq<Octet>, rest: seq<Octet>)
    requires Numeral(ds) && ds != []
    ensures NumberOf(ds) <= 255 ==> ReadByte(ds + rest, -1) == ReadByte(rest, NumberOf(ds))
    ensures NumberOf(ds) > 255 ==> ReadByte(ds + rest, -1).0 > 255
  {
    var init, d := ds[..|ds| - 1], ds[|ds| - 1];
    assert ([d] + rest)[1..] == rest;
    assert ds + rest == init + ([d] + rest);
    if init == [] {
      assert ds + rest == [d] + rest && NumberOf(init) == 0;
    } else {
      ReadsByteRun(init, [d] + rest);
    }
  }

  /** A decimal number of a byte. */
  predicate Small(ds: seq<Octet>) { Numeral(ds) && ds != [] && NumberOf(ds) <= 255 }

  /** One number of an address: at least one digit, and a value up to 255. */
  lemma TakesByteRun(ds: seq<Octet>, rest: seq<Octet>)
    requires Numeral(ds) && (rest == [] || !Numeral([rest[0]]))
    ensures TakeByte(ds + rest) == if Small(ds) then Some((NumberOf(ds), rest)) else None
  {
    assert rest != [] ==> [rest[0]][0] == rest[0];
    if ds == [] {
      assert ds + rest == rest;
    } else {
      ReadsByteRun(ds, rest);
    }
  }

  lemma TakesDotted(ds: seq<Octet>, more: seq<Octet>)
    requires Numeral(ds)
    ensures TakeByte(ds + ([DOT] + more)) == if Small(ds) then Some((NumberOf(ds), [DOT] + more)) else None
  {
    var after := [DOT] + more;
    assert after[0] == DOT && [after[0]][0] == DOT;
    TakesByteRun(ds, after);
  }

  lemma IpSteps(s0: seq<Octet>, s1: seq<Octet>, s2: seq<Octet>, s3: seq<Octet>, rest: seq<Octet>, v: seq<Octet>)
    requires |v| == 4
    requires TakeByte(s0) == Some((v[0], [DOT] + s1)) && TakeByte(s1) == Some((v[1], [DOT] + s2))
    requires TakeByte(s2) == Some((v[2], [DOT] + s3)) && TakeByte(s3) == Some((v[3], rest))
    ensures TakeIp(s0) == Some((AIp(v[0], v[1], v[2], v[3]), rest))
  {
    hide TakeByte;
    assert ([DOT] + s1)[1..] == s1 && ([DOT] + s2)[1..] == s2 && ([DOT] + s3)[1..] == s3;
  }

  lemma IpStops(s0: seq<Octet>, s1: seq<Octet>, s2: seq<Octet>, s3: seq<Octet>)
    requires TakeByte(s0).Some? ==> TakeByte(s0).value.1 == [DOT] + s1
    requires TakeByte(s1).Some? ==> TakeByte(s1).value.1 == [DOT] + s2
    requires TakeByte(s2).Some? ==> TakeByte(s2).value.1 == [DOT] + s3
    requires TakeByte(s0).None? || TakeByte(s1).None? || TakeByte(s2).None? || TakeByte(s3).None?
    ensures TakeIp(s0) == None
  {
    hide TakeByte;
    assert ([DOT] + s1)[1..] == s1 && ([DOT] + s2)[1..] == s2 && ([DOT] + s3)[1..] == s3;
  }

  /** Four such numbers with dots between them are an address. */
  lemma TakesQuad(a: seq<Octet>, b: seq<Octet>, c: seq<Octet>, d: seq<Octet>, rest: seq<Octet>)
    requires Numeral(a) && Numeral(b) && Numeral(c) && Numeral(d) && (rest == [] || !Numeral([rest[0]]))
    ensures TakeIp(a + ([DOT] + (b + ([DOT] + (c + ([DOT] + (d + rest))))))) ==
              if Small(a) && Small(b) && Small(c) && Small(d)
              then Some((AIp(NumberOf(a), NumberOf(b), NumberOf(c), NumberOf(d)), rest))
              else None
  {
    hide *;
    var s3 := d + rest;
    var s2 := c + ([DOT] + s3);
    var s1 := b + ([DOT] + s2);
    TakesByteRun(d, rest);
    TakesDotted(c, s3);
    TakesDotted(b, s2);
    TakesDotted(a, s1);
    if Small(a) && Small(b) && Small(c) && Small(d) {
      IpSteps(a + ([DOT] + s1), s1, s2, s3, rest, [NumberOf(a), NumberOf(b), NumberOf(c), NumberOf(d)]);
    } else {
      IpStops(a + ([DOT] + s1), s1, s2, s3);
    }
  }

  // -------------------------------------------------------------------------
  // Formats
  // -------------------------------------------------------------------------

  /** The part of a format before its first % is written as it stands. */
  lemma {:induction false} WritesLiterals(f: seq<Octet>, more: seq<Octet>, args: seq<Arg>)
    requires PERCENT !in f
    ensures Fits(Parse(f + more), args) == Fits(Parse(more), args)
    ensures Fits(Parse(more), args) ==> Write(Parse(f + more), args) == f + Write(Parse(more), args)
  {
    if f == [] {
      assert f + more == more;
      if Fits(Parse(more), args) { assert [] + Write(Parse(more), args) == Write(Parse(more), args); }
    } else {
      assert (f + more)[1..] == f[1..] + more && (f + more)[0] == f[0] != PERCENT;
      WritesLiterals(f[1..], more, args);
      LiteralFirst(f + more);
      hide Parse;
      if Fits(Parse(more), args) { Assoc([f[0]], f[1..], Write(Parse(more), args)); }
      assert [f[0]] + f[1..] == f;
    }
  }

  lemma LiteralFirst(f: seq<Octet>)
    requires f != [] && f[0] != PERCENT
    ensures Parse(f) == [Lit(f[0])] + Parse(f[1..]) && Parse(f)[1..] == Parse(f[1..])
  {
  }

  /** What each conversion writes before the rest of the format. */
  lemma WritesConversion(c: char, more: seq<Octet>, args: seq<Arg>)
    requires c in {'s', 'd', 'I', '%'} && (c != '%' ==> args != [])
    requires Fits(Parse(more), if c == '%' then args else args[1..])
    requires (c == 's' ==> args[0].AStr?) && (c == 'd' ==> args[0].AInt?) && (c == 'I' ==> args[0].AIp?)
    ensures var f: seq<Octet> := ['%' as int, c as int] + more;
            && Fits(Parse(f), args)
            && Write(Parse(f), args) ==
               match c
               case '%' => ['%' as int] + Write(Parse(more), args)
               case _ =>
                 (match args[0]
                  case AStr(s) => Quote(s)
                  case AInt(i) => Decimal(i)
                  case AIp(x, y, z, w) =>
                    var dot: seq<Octet> := ['.' as int];
                    Digits(x) + dot + Digits(y) + dot + Digits(z) + dot + Digits(w))
                 + Write(Parse(more), args[1..])
  {
    var f: seq<Octet> := ['%' as int, c as int] + more;
    assert f[2..] == more;
    hide Quote, Decimal, Digits;
    var item := if c == 's' then Str else if c == 'd' then Int else if c == 'I' then Ip else Percent;
    assert Parse(f) == [item] + Parse(more);
    hide Parse;
    assert ([item] + Parse(more))[1..] == Parse(more);
  }

  lemma AsciiAppend(a: string, b: string)
    requires (forall i | 0 <= i < |a| :: a[i] < 128 as char) && (forall i | 0 <= i < |b| :: b[i] < 128 as char)
    ensures forall i | 0 <= i < |a + b| :: (a + b)[i] < 128 as char
    ensures Ascii(a + b) == Ascii(a) + Ascii(b)
  {
  }

  lemma BareWord()
    ensures forall i | 0 <= i < |Ascii("filename")| :: Bare(Ascii("filename")[i])
  {
    assert forall i | 0 <= i < 8 :: 'a' <= "filename"[i] <= 'z';
  }

  lemma RequestParts()
    ensures Ascii("GET ") + (Ascii("filename") + Ascii(" OSP2P\n")) == Ascii("GET filename OSP2P\n")
    ensures PERCENT !in Ascii("GET ") && PERCENT !in Ascii(" OSP2P\n")
  {
    AsciiAppend("filename", " OSP2P\n");
    AsciiAppend("GET ", "filename OSP2P\n");
    assert "filename" + " OSP2P\n" == "filename OSP2P\n" && "GET " + "filename OSP2P\n" == "GET filename OSP2P\n";
  }

  lemma NothingWritten()
    ensures Parse([]) == [] && Fits(Parse([]), []) && Write(Parse([]), []) == []
  {
  }

  /** A format of two literal parts around a %s. */
  lemma WritesAround(a: seq<Octet>, file: seq<Octet>, b: seq<Octet>)
    requires PERCENT !in a && PERCENT !in b
    ensures var f := a + (['%' as int, 's' as int] + b);
            Fits(Parse(f), [AStr(file)]) && Write(Parse(f), [AStr(file)]) == a + (Quote(file) + b)
  {
    NothingWritten();
    WritesLiterals(b, [], []);
    assert b + [] == b && [AStr(file)][1..] == [];
    hide Parse, Fits, Write, Quote;
    WritesConversion('s', b, [AStr(file)]);
    WritesLiterals(a, ['%' as int, 's' as int] + b, [AStr(file)]);
  }

  /** For example, the request for a file. */
  lemma RequestText()
    ensures var f := Ascii("GET ") + (['%' as int, 's' as int] + Ascii(" OSP2P\n"));
            var args := [AStr(Ascii("filename"))];
            Fits(Parse(f), args) && Write(Parse(f), args) == Ascii("GET filename OSP2P\n")
  {
    RequestParts();
    BareWord();
    hide *;
    QuoteBare(Ascii("filename"));
    WritesAround(Ascii("GET "), Ascii("filename"), Ascii(" OSP2P\n"));
  }

  // -------------------------------------------------------------------------
  // Scanning literals and white space
  // -------------------------------------------------------------------------

  function Lits(f: seq<Octet>): (items: seq<Item>)
    ensures |items| == |f|
  {
    seq(|f|, i requires 0 <= i < |f| => Lit(f[i]))
  }

  lemma {:induction false} ParsesLiterals(f: seq<Octet>, more: seq<Octet>)
    requires PERCENT !in f
    ensures Parse(f + more) == Lits(f) + Parse(more)
  {
    if f == [] {
      assert f + more == more && Lits(f) + Parse(more) == Parse(more);
    } else {
      assert (f + more)[1..] == f[1..] + more && (f + more)[0] == f[0] != PERCENT;
      ParsesLiterals(f[1..], more);
      LiteralFirst(f + more);
      assert Lits(f) == [Lit(f[0])] + Lits(f[1..]);
    }
  }

  /** White space of isspace(). */
  predicate White(c: Octet) { c as char in {' ', '\t', '\n', '\r'} || c == 11 || c == 12 }

  /** Characters of the format other than white space and % must come in the text, in order. */
  lemma {:induction false} ScansWord(total: nat, f: seq<Octet>, s: seq<Octet>, items: seq<Item>)
    requires PERCENT !in f && forall i | 0 <= i < |f| :: !White(f[i])
    ensures Scan(total, s, Lits(f) + items) == if f <= s then Scan(total, s[|f|..], items) else None
  {
    if f == [] {
      assert Lits(f) + items == items && s[0..] == s;
    } else {
      var all := Lits(f) + items;
      assert all[0] == Lit(f[0]) && all[1..] == Lits(f[1..]) + items && !PosItem(all);
      if s != [] && s[0] == f[0] {
        ScansWord(total, f[1..], s[1..], items);
        assert f[1..] <= s[1..] ==> f <= s;
        assert f <= s ==> f[1..] <= s[1..] && s[1..][|f[1..]|..] == s[|f|..];
      }
    }
  }

  lemma {:induction false} SkipsWhite(w: seq<Octet>, t: seq<Octet>)
    requires (forall i | 0 <= i < |w| :: White(w[i])) && (t == [] || !White(t[0]))
    ensures SkipSpace(w + t) == t
  {
    if w == [] {
      assert w + t == t;
    } else {
      assert (w + t)[1..] == w[1..] + t;
      SkipsWhite(w[1..], t);
    }
  }

  lemma {:induction false} SkipsItems(w: seq<Octet>, items: seq<Item>)
    requires (forall i | 0 <= i < |w| :: White(w[i])) && (items == [] || !(items[0].Lit? && White(items[0].c)))
    ensures SkipItems(Lits(w) + items) == items
  {
    var all := Lits(w) + items;
    if w == [] {
      assert all == items;
    } else {
      assert all[0] == Lit(w[0]) && all[1..] == Lits(w[1..]) + items;
      SkipsItems(w[1..], items);
    }
  }

  /** White space in the format, however much, takes all white space in the text, at least one. */
  lemma ScansWhite(total: nat, w: seq<Octet>, v: seq<Octet>, t: seq<Octet>, items: seq<Item>)
    requires w != [] && (forall i | 0 <= i < |w| :: White(w[i])) && (forall i | 0 <= i < |v| :: White(v[i]))
    requires (t == [] || !White(t[0])) && (items == [] || !(items[0].Lit? && White(items[0].c)))
    ensures Scan(total, v + t, Lits(w) + items) == if v == [] then None else Scan(total, t, items)
  {
    SkipsWhite(v, t);
    SkipsItems(w, items);
    var all := Lits(w) + items;
    assert all[0] == Lit(w[0]) && !PosItem(all);
    if v == [] { assert v + t == t; } else { assert (v + t)[0] == v[0]; }
    hide SkipSpace, SkipItems;
  }

  /** The conversions, each with the number of bytes read so far for %n. */
  lemma ScansConversion(total: nat, c: char, s: seq<Octet>, more: seq<Octet>)
    requires c in {'s', 'd', 'I', 'n', '%'}
    ensures var f: seq<Octet> := ['%' as int, c as int] + more;
            Scan(total, s, Parse(f)) ==
              if c == 's' then Cons(AStr(TakeString(s).0), Scan(total, TakeString(s).1, Parse(more)))
              else if c == 'd' then
                if TakeInt(s).None? then None
                else Cons(AInt(TakeInt(s).value.0), Scan(total, TakeInt(s).value.1, Parse(more)))
              else if c == 'I' then
                if TakeIp(s).None? then None
                else Cons(TakeIp(s).value.0, Scan(total, TakeIp(s).value.1, Parse(more)))
              else if c == 'n' then Cons(AInt(total - |s|), Scan(total, s, Parse(more)))
              else if s == [] || s[0] as char != '%' then None
              else Scan(total, s[1..], Parse(more))
  {
    var f: seq<Octet> := ['%' as int, c as int] + more;
    assert f[2..] == more;
    if c == 'n' {
      assert f[1..] == ['n' as int] + more && f[1..][1..] == more;
      assert Parse(f[1..]) == [Lit('n' as int)] + Parse(more);
      assert Parse(f) == [Lit(PERCENT), Lit('n' as int)] + Parse(more);
    } else {
      var item := if c == 's' then Str else if c == 'd' then Int else if c == 'I' then Ip else Percent;
      assert Parse(f) == [item] + Parse(more);
      assert ([item] + Parse(more))[1..] == Parse(more);
    }
    hide Parse, TakeString, TakeInt, TakeIp;
  }

  /** The upload request with a file name in lower-case escapes: the name has a slash. */
  lemma RequestRead()
    ensures var sp: seq<Octet>, nl: seq<Octet>, ps: seq<Octet> := [' ' as int], ['\n' as int], ['%' as int, 's' as int];
            var f := Ascii("GET") + (sp + (ps + (sp + (Ascii("OSP2P") + nl))));
            var s := Ascii("GET") + (sp + (Ascii("a%2fb") + (sp + (Ascii("OSP2P") + nl))));
            Scan(|s|, s, Parse(f)) == Some([AStr(Ascii("a/b"))])
  {
    var sp: seq<Octet>, nl: seq<Octet>, get, osp := [' ' as int], ['\n' as int], Ascii("GET"), Ascii("OSP2P");
    var ps: seq<Octet> := ['%' as int, 's' as int];
    var tail := sp + (osp + nl);
    var s := get + (sp + (Ascii("a%2fb") + tail));
    NameRead(tail);
    Requests(get, osp, sp, nl);
    ScansAround(|s|, get, sp, Ascii("a%2fb"), Ascii("a/b"), osp, nl);
  }

  lemma Requests(get: seq<Octet>, osp: seq<Octet>, sp: seq<Octet>, nl: seq<Octet>)
    requires get == Ascii("GET") && osp == Ascii("OSP2P") && sp == [' ' as int] && nl == ['\n' as int]
    ensures Word(get) && Word(osp) && White(sp[0]) && White(nl[0]) && Word(Ascii("a%2fb"))
  {
  }

  /** No white space. */
  predicate Word(f: seq<Octet>) { f != [] && forall i | 0 <= i < |f| :: !White(f[i]) }

  lemma NameSteps(tail: seq<Octet>)
    requires tail != [] && White(tail[0])
    ensures var a: seq<Octet>, b: seq<Octet>, slash: seq<Octet> := ['a' as int], ['b' as int], ['/' as int];
            TakeString(a + ([PERCENT, '2' as int, 'f' as int] + (b + tail))) == (a + (slash + (b + [])), tail)
  {
    StopsAtSpace(tail[0], tail[1..]);
    assert [tail[0]] + tail[1..] == tail;
    KeepsOther('b' as int, tail);
    UnquotesHex('/' as int, '2' as int, 'f' as int, ['b' as int] + tail);
    KeepsOther('a' as int, [PERCENT, '2' as int, 'f' as int] + (['b' as int] + tail));
    hide *;
  }

  lemma NameRead(tail: seq<Octet>)
    requires tail != [] && White(tail[0])
    ensures TakeString(Ascii("a%2fb") + tail) == (Ascii("a/b"), tail)
  {
    NameSteps(tail);
    hide TakeString, White;
    var a: seq<Octet>, b: seq<Octet>, slash: seq<Octet> := ['a' as int], ['b' as int], ['/' as int];
    assert Ascii("a%2fb") + tail == a + ([PERCENT, '2' as int, 'f' as int] + (b + tail));
    assert Ascii("a/b") == a + (slash + (b + []));
  }

  /** Two words around a %s, with one white space between and after them. */
  lemma ScansAround(total: nat, a: seq<Octet>, sp: seq<Octet>, name: seq<Octet>, str: seq<Octet>,
        b: seq<Octet>, nl: seq<Octet>)
    requires Word(a) && Word(b) && Word(name) && PERCENT !in a && PERCENT !in b
    requires |sp| == |nl| == 1 && White(sp[0]) && White(nl[0])
    requires TakeString(name + (sp + (b + nl))) == (str, sp + (b + nl))
    ensures var f := a + (sp + (['%' as int, 's' as int] + (sp + (b + nl))));
            Scan(total, a + (sp + (name + (sp + (b + nl)))), Parse(f)) == Some([AStr(str)])
  {
    var ps: seq<Octet> := ['%' as int, 's' as int];
    var rest := sp + (b + nl);
    EndRead(total, sp, b, nl);
    ScansConversion(total, 's', name + rest, rest);
    assert Parse(ps + rest)[0] == Str by { assert (ps + rest)[1] == 's' as int; }
    ParsesLiterals(sp, ps + rest);
    ScansWhite(total, sp, sp, name + rest, Parse(ps + rest));
    ParsesLiterals(a, sp + (ps + rest));
    ScansWord(total, a, a + (sp + (name + rest)), Parse(sp + (ps + rest)));
    assert (a + (sp + (name + rest)))[|a|..] == sp + (name + rest);
    assert [AStr(str)] + [] == [AStr(str)];
    hide Parse, Scan, TakeString, Lits;
  }

  lemma EndRead(total: nat, sp: seq<Octet>, b: seq<Octet>, nl: seq<Octet>)
    requires Word(b) && PERCENT !in b && |sp| == |nl| == 1 && White(sp[0]) && White(nl[0])
    ensures Scan(total, sp + (b + nl), Parse(sp + (b + nl))) == Some([])
  {
    assert nl + [] == nl && Parse([]) == [];
    ParsesLiterals(nl, []);
    ScansWhite(total, nl, nl, [], []);
    ParsesLiterals(b, nl);
    ScansWord(total, b, b + nl, Parse(nl));
    assert (b + nl)[|b|..] == nl;
    ParsesLiterals(sp, b + nl);
    assert Parse(b + nl)[0] == Lit(b[0]);
    ScansWhite(total, sp, sp, b + nl, Parse(b + nl));
    hide Parse, Scan, Lits;
  }
}
