/** The buffered log formatter (tfmmakeproject/tfm_log_raw.c). */
module LogFormatter {
  import opened Digits

  const CHUNK: nat := 32
  const MARKER: string := "[Unsupported Tag]"

  /** The bits of a 32-bit argument. */
  type Word = n: nat | n < 0x1_0000_0000

  datatype Arg = Num(word: Word) | Str(text: string)

  datatype Kind = Number | Text

  /** The int32_t a word stands for. */
  function Signed(w: Word): int {
    if w < 0x8000_0000 then w else w - 0x1_0000_0000
  }

  /** -num in 32-bit arithmetic, read as unsigned. */
  function Negated(w: Word): Word {
    (0x1_0000_0000 - w) % 0x1_0000_0000
  }

  function Decimal(w: Word, signed: bool): string {
    if signed && Signed(w) < 0 then "-" + Show(Negated(w), Dec, false) else Show(w, Dec, false)
  }

  /** A string up to its terminator. */
  function CString(s: string): string {
    if s == [] || s[0] == '\0' then [] else [s[0]] + CString(s[1..])
  }

  predicate Ended(f: string) {
    f == [] || f[0] == '\0'
  }

  /** What a conversion character takes from the argument list; nothing for %% and for an unsupported tag. */
  function Takes(c: char): seq<Kind> {
    if c == 's' then [Text]
    else if c == 'd' || c == 'i' || c == 'u' || c == 'x' || c == 'X' || c == 'p' || c == 'c' then [Number]
    else []
  }

  /** The kinds of arguments a format takes, in order. */
  function Wanted(f: string): seq<Kind> {
    if Ended(f) then []
    else if f[0] != '%' then Wanted(f[1..])
    else if Ended(f[1..]) then []
    else Takes(f[1]) + Wanted(f[2..])
  }

  predicate Matches(args: seq<Arg>, kinds: seq<Kind>) {
    |args| >= |kinds| && forall i | 0 <= i < |kinds| :: args[i].Num? <==> kinds[i] == Number
  }

  /** Output of one conversion. */
  function Converted(c: char, arg: Arg): string
    requires arg.Str? <==> c == 's'
  {
    if c == 's' then CString(arg.text)
    else if c == 'x' then Show(arg.word, Hex, false)
    else if c == 'X' then Show(arg.word, Hex, true)
    else if c == 'p' then "0x" + Show(arg.word, Hex, false)
    else if c == 'c' then [(arg.word % 256) as char]
    else Decimal(arg.word, c != 'u')
  }

  /** The text a format and its arguments stand for; arguments are used front to back. */
  function Render(f: string, args: seq<Arg>): string
    requires Matches(args, Wanted(f))
  {
    if Ended(f) then []
    else if f[0] != '%' then [f[0]] + Render(f[1..], args)
    else if Ended(f[1..]) then MARKER
    else if f[1] == '%' then "%" + Render(f[2..], args)
    else if Takes(f[1]) == [] then MARKER + [f[1]] + Render(f[2..], args)
    else Converted(f[1], args[0]) + Render(f[2..], args[1..])
  }

  // What rendering means

  function Minus(n: int): int {
    -n
  }

  /** The number a signed decimal stands for. */
  function ReadDecimal(s: string): int {
    if s != [] && s[0] == '-' then Minus(Value(s[1..], Dec)) else Value(s, Dec)
  }

  lemma MinusSign(s: string)
    requires IsNumeral(s, Dec)
    ensures ReadDecimal(s) == Value(s, Dec) && ReadDecimal("-" + s) == Minus(Value(s, Dec))
  {
    assert DigitOf(s[0]) < 10;
    assert ("-" + s)[1..] == s;
  }

  lemma ShownReadsBack(n: Word)
    ensures var s := Show(n, Dec, false); ReadDecimal(s) == n && ReadDecimal("-" + s) == Minus(n) && |s| <= 10
  {
    ShowReadsBack(n, Dec, false);
    UnsignedWordDigits(n, false);
    MinusSign(Show(n, Dec, false));
  }

  /** Decimal output reads back as the number, the least one included, in at most eleven characters. */
  lemma DecimalReadsBack(w: Word, signed: bool)
    ensures ReadDecimal(Decimal(w, signed)) == if signed then Signed(w) else w
    ensures |Decimal(w, signed)| <= 11
  {
    if signed && Signed(w) < 0 {
      ShownReadsBack(Negated(w));
    } else {
      ShownReadsBack(w);
    }
  }

  /** Hexadecimal output reads back as the word. */
  lemma HexReadsBack(w: Word, upper: bool)
    ensures Value(Show(w, Hex, upper), Hex) == w && |Show(w, Hex, upper)| <= 8
  {
    ShowReadsBack(w, Hex, upper);
    UnsignedWordDigits(w, upper);
  }

  /** Doubles every percent sign. */
  function Escape(s: string): string {
    if s == [] then [] else (if s[0] == '%' then "%%" else [s[0]]) + Escape(s[1..])
  }

  /** Any text can be printed, without an argument, by escaping it. */
  lemma {:induction false} EscapedPrintsItself(s: string)
    requires forall i | 0 <= i < |s| :: s[i] != '\0'
    ensures Wanted(Escape(s)) == [] && Render(Escape(s), []) == s
  {
    if s != [] {
      EscapedPrintsItself(s[1..]);
      var e := Escape(s);
      assert s == [s[0]] + s[1..];
      if s[0] == '%' {
        assert e[1..] == "%" + Escape(s[1..]);
        assert e[2..] == Escape(s[1..]);
      } else {
        assert e[1..] == Escape(s[1..]);
      }
    }
  }

  /** Arguments beyond those the format takes do not matter. */
  lemma {:induction false} ExtraArgumentsIgnored(f: string, args: seq<Arg>, extra: seq<Arg>)
    requires Matches(args, Wanted(f))
    ensures Matches(args + extra, Wanted(f)) && Render(f, args + extra) == Render(f, args)
  {
    if Ended(f) {
    } else if f[0] != '%' {
      ExtraArgumentsIgnored(f[1..], args, extra);
    } else if !Ended(f[1..]) {
      if Takes(f[1]) == [] {
        ExtraArgumentsIgnored(f[2..], args, extra);
      } else {
        NextArgument(f, args);
        ExtraArgumentsIgnored(f[2..], args[1..], extra);
        assert (args + extra)[1..] == args[1..] + extra;
      }
    }
  }

  lemma NextArgument(f: string, args: seq<Arg>)
    requires Matches(args, Wanted(f)) && |f| >= 2 && f[0] == '%' && Takes(f[1]) != []
    ensures |args| > 0 && (args[0].Str? <==> f[1] == 's') && Matches(args[1..], Wanted(f[2..]))
  {
    var k := Wanted(f);
    assert k == Takes(f[1]) + Wanted(f[2..]);
    forall i | 0 <= i < |Wanted(f[2..])| ensures args[1..][i].Num? <==> Wanted(f[2..])[i] == Number {
      assert k[i + 1] == Wanted(f[2..])[i];
    }
    assert k[0] == Takes(f[1])[0];
  }

  /** One conversion on its own: its argument goes in, its text comes out. */
  lemma OneConversion(c: char, arg: Arg)
    requires Takes(c) != [] && (arg.Str? <==> c == 's')
    ensures Matches([arg], Wanted(['%', c])) && Render(['%', c], [arg]) == Converted(c, arg)
  {
    var f := ['%', c];
    assert f[1..] == [c] && f[2..] == [] && Wanted(f) == Takes(c) + [];
    assert [arg][1..] == [];
    assert Render(f, [arg]) == Converted(c, arg) + [];
  }

  lemma SignedText(w: Word)
    ensures ReadDecimal(Decimal(w, true)) == if w < 0x8000_0000 then w else w - 0x1_0000_0000
    ensures w < 0x8000_0000 ==> IsNumeral(Decimal(w, true), Dec)
  {
    DecimalReadsBack(w, true);
    if w < 0x8000_0000 {
      ShowReadsBack(w, Dec, false);
    }
  }

  lemma SignedTag(w: Word, f: string, c: char)
    requires f == ['%', c] && (c == 'd' || c == 'i')
    ensures Matches([Num(w)], Wanted(f)) && Render(f, [Num(w)]) == Decimal(w, true)
  {
    OneConversion(c, Num(w));
  }

  /** %u prints the number in decimal as an unsigned one. */
  lemma UnsignedTag(w: Word)
    ensures Matches([Num(w)], Wanted("%u"))
    ensures IsNumeral(Render("%u", [Num(w)]), Dec) && Value(Render("%u", [Num(w)]), Dec) == w
  {
    OneConversion('u', Num(w));
    assert ['%', 'u'] == "%u";
    ShowReadsBack(w, Dec, false);
  }

  /** %d and %i print it as a signed one, with a minus sign only if it is negative. */
  lemma DecimalTags(w: Word)
    ensures Matches([Num(w)], Wanted("%d")) && Matches([Num(w)], Wanted("%i"))
    ensures ReadDecimal(Render("%d", [Num(w)])) == if w < 0x8000_0000 then w else w - 0x1_0000_0000
    ensures w < 0x8000_0000 ==> IsNumeral(Render("%d", [Num(w)]), Dec)
    ensures Render("%i", [Num(w)]) == Render("%d", [Num(w)])
  {
    SignedTag(w, "%d", 'd');
    SignedTag(w, "%i", 'i');
    SignedText(w);
  }

  lemma HexText(w: Word, upper: bool)
    ensures var x := Show(w, Hex, upper);
      && IsNumeral(x, Hex) && Value(x, Hex) == w
      && (forall i | 0 <= i < |x| :: if upper then !('a' <= x[i] <= 'f') else !('A' <= x[i] <= 'F'))
  {
    ShowReadsBack(w, Hex, upper);
    ShowCase(w, Hex, upper);
    var x := Show(w, Hex, upper);
    forall i | 0 <= i < |x| ensures if upper then !('a' <= x[i] <= 'f') else !('A' <= x[i] <= 'F') {
      assert x[i] in x;
    }
  }

  /** %x prints the word in hexadecimal, without capital letters, and %X without small ones. */
  lemma HexTags(w: Word)
    ensures Matches([Num(w)], Wanted("%x")) && Matches([Num(w)], Wanted("%X"))
    ensures var x := Render("%x", [Num(w)]);
      IsNumeral(x, Hex) && Value(x, Hex) == w && forall i | 0 <= i < |x| :: !('A' <= x[i] <= 'F')
    ensures var x := Render("%X", [Num(w)]);
      IsNumeral(x, Hex) && Value(x, Hex) == w && forall i | 0 <= i < |x| :: !('a' <= x[i] <= 'f')
  {
    HexTag(w, "%x", 'x', false);
    HexTag(w, "%X", 'X', true);
  }

  lemma HexTag(w: Word, f: string, c: char, upper: bool)
    requires f == ['%', c] && c == if upper then 'X' else 'x'
    ensures Matches([Num(w)], Wanted(f))
    ensures var x := Render(f, [Num(w)]);
      && IsNumeral(x, Hex) && Value(x, Hex) == w
      && (forall i | 0 <= i < |x| :: if upper then !('a' <= x[i] <= 'f') else !('A' <= x[i] <= 'F'))
  {
    OneConversion(c, Num(w));
    HexText(w, upper);
  }

  /** %p prints what %x prints behind 0x. */
  lemma PointerTag(w: Word)
    ensures Matches([Num(w)], Wanted("%x")) && Matches([Num(w)], Wanted("%p"))
    ensures Render("%p", [Num(w)]) == ['0', 'x'] + Render("%x", [Num(w)])
  {
    OneConversion('x', Num(w));
    OneConversion('p', Num(w));
    assert ['%', 'x'] == "%x" && ['%', 'p'] == "%p" && ['0', 'x'] == "0x";
  }

  /** %c prints the character of the low byte, %s a string up to its terminator. */
  lemma TextTags(w: Word, s: string, rest: string)
    requires forall i | 0 <= i < |s| :: s[i] != '\0'
    ensures Matches([Num(w)], Wanted("%c")) && Render("%c", [Num(w)]) == [(w % 0x100) as char]
    ensures Matches([Str(s)], Wanted("%s")) && Render("%s", [Str(s)]) == s
    ensures Matches([Str(s + ['\0'] + rest)], Wanted("%s")) && Render("%s", [Str(s + ['\0'] + rest)]) == s
  {
    OneConversion('c', Num(w));
    OneConversion('s', Str(s));
    OneConversion('s', Str(s + ['\0'] + rest));
    assert ['%', 'c'] == "%c" && ['%', 's'] == "%s";
    NoTerminator(s);
    Terminated(s, rest);
  }

  lemma {:induction false} Terminated(s: string, rest: string)
    requires forall i | 0 <= i < |s| :: s[i] != '\0'
    ensures CString(s + ['\0'] + rest) == s
  {
    var all := s + ['\0'] + rest;
    if s != [] {
      Terminated(s[1..], rest);
      assert all[1..] == s[1..] + ['\0'] + rest;
      assert s == [s[0]] + s[1..];
    }
  }

  /** Any other tag, and a percent sign at the end, print the marker; the tag's character follows as text. */
  lemma OtherTags(c: char)
    requires c !in ['d', 'i', 'u', 'x', 'X', 'p', 's', 'c', '%', '\0']
    ensures Wanted(['%', c]) == [] && Render(['%', c], []) == "[Unsupported Tag]" + [c]
    ensures Wanted("%") == [] && Render("%", []) == "[Unsupported Tag]"
    ensures Wanted("%%") == [] && Render("%%", []) == "%"
  {
    var f := ['%', c];
    assert Takes(c) == [];
    assert f[1..] == [c] && f[2..] == [];
    assert Wanted(f) == [] + [];
    assert Render(f, []) == MARKER + [c] + [];
    assert "%%"[1..] == "%" && "%%"[2..] == "" && "%"[1..] == "";
    assert Render("%%", []) == "%" + [];
  }

  /** No terminator, and no tag cut off at the end. */
  predicate Complete(f: string) {
    if f == [] then true
    else if f[0] == '\0' then false
    else if f[0] != '%' then Complete(f[1..])
    else |f| > 1 && f[1] != '\0' && Complete(f[2..])
  }

  lemma {:induction false} WantedSplits(f: string, g: string)
    requires Complete(f)
    ensures Wanted(f + g) == Wanted(f) + Wanted(g)
  {
    if f == [] {
      assert f + g == g;
    } else if f[0] != '%' {
      WantedSplits(f[1..], g);
      assert (f + g)[1..] == f[1..] + g;
    } else {
      WantedSplits(f[2..], g);
      assert (f + g)[2..] == f[2..] + g && (f + g)[1] == f[1];
      assert Wanted(f + g) == Takes(f[1]) + (Wanted(f[2..]) + Wanted(g));
    }
  }

  // The buffer

  function Join(chunks: seq<string>): string {
    if chunks == [] then [] else Join(chunks[..|chunks| - 1]) + chunks[|chunks| - 1]
  }

  lemma JoinOne(chunks: seq<string>, c: string)
    ensures Join(chunks + [c]) == Join(chunks) + c
  {
    assert (chunks + [c])[..|chunks|] == chunks;
  }

  /** Joining puts the chunks one behind the other. */
  lemma {:induction false} JoinSplits(chunks: seq<string>, more: seq<string>, c: string)
    ensures Join([]) == [] && Join([c]) == c && Join(chunks + more) == Join(chunks) + Join(more)
  {
    var all := chunks + more;
    JoinOne([], c);
    assert [] + [c] == [c];
    if more == [] {
      assert all == chunks;
    } else {
      JoinSplits(chunks, more[..|more| - 1], c);
      assert all[..|all| - 1] == chunks + more[..|more| - 1];
    }
  }

  ghost predicate FullChunks(chunks: seq<string>) {
    forall i | 0 <= i < |chunks| :: |chunks[i]| == CHUNK
  }

  lemma {:induction false} FullLength(chunks: seq<string>)
    requires FullChunks(chunks)
    ensures |Join(chunks)| == CHUNK * |chunks|
  {
    if chunks != [] {
      FullLength(chunks[..|chunks| - 1]);
    }
  }

  /** Last character first. */
  function Backwards(s: string): string {
    if s == [] then [] else [s[|s| - 1]] + Backwards(s[..|s| - 1])
  }

  lemma BackwardsOne(s: string, c: char)
    ensures Backwards(s + [c]) == [c] + Backwards(s)
  {
    assert (s + [c])[..|s|] == s;
  }

  lemma FillStep(whole: string, n: nat, radix: Radix, upper: bool, q: nat, d: nat, written: string)
    requires q == radix.Over(n) && n == radix.Times(q) + d && whole == Show(n, radix, upper) + Backwards(written)
    ensures d < radix.Base()
    ensures q == 0 ==> whole == Backwards(written + [DigitChar(d, upper)])
    ensures q > 0 ==> whole == Show(q, radix, upper) + Backwards(written + [DigitChar(d, upper)])
    ensures q > 0 ==> |Show(q, radix, upper)| + 1 == |Show(n, radix, upper)|
    ensures |Show(n, radix, upper)| > 0
  {
    ShowStep(n, radix, upper, q, d);
    BackwardsOne(written, DigitChar(d, upper));
  }

  /** The digit loop of both number outputs: least significant digit first, in a buffer of twelve. */
  method FillDigits(number: Word, radix: Radix, upper: bool) returns (digits: array<char>, k: nat)
    requires radix == Dec || radix == Hex
    ensures fresh(digits) && digits.Length == 12 && k <= 10
    ensures Backwards(digits[..k]) == Show(number, radix, upper)
  {
    digits := new char[12](_ => '\0');
    k := 0;
    var n: Word, more := number, true;
    ghost var whole := Show(number, radix, upper);
    UnsignedWordDigits(number, upper);
    assert digits[..0] == [] && whole == whole + [];
    while more
      invariant k <= 10
      invariant more ==> whole == Show(n, radix, upper) + Backwards(digits[..k])
      invariant more ==> |Show(n, radix, upper)| + k <= 10
      invariant !more ==> whole == Backwards(digits[..k])
      decreases if more then n + 1 else 0
    {
      var q := radix.Over(n);
      var d := n - radix.Times(q);
      ghost var written := digits[..k];
      FillStep(whole, n, radix, upper, q, d, written);
      digits[k] := DigitChar(d, upper);
      k := k + 1;
      assert digits[..k] == written + [DigitChar(d, upper)];
      n := q;
      more := n != 0;
    }
  }

  class Buffer {
    var pos: nat
    const buf: array<char>
    /** What was handed to the UART, chunk by chunk. */
    var sent: seq<string>

    ghost predicate Valid()
      reads this, buf
    {
      buf.Length == CHUNK && pos < CHUNK && FullChunks(sent)
    }

    /** Everything put so far. */
    ghost function Text(): string
      requires Valid()
      reads this, buf
    {
      Join(sent) + buf[..pos]
    }

    constructor ()
      ensures Valid() && Text() == [] && fresh(buf)
    {
      buf := new char[CHUNK](_ => '\0');
      pos, sent := 0, [];
    }

    /** _tfm_flush_formatted_buffer. */
    method Put(data: char)
      requires Valid()
      modifies this, buf
      ensures Valid() && Text() == old(Text()) + [data]
    {
      buf[pos] := data;
      pos := pos + 1;
      assert buf[..pos] == old(buf[..pos]) + [data];
      if pos >= CHUNK {
        pos := 0;
        JoinOne(sent, buf[..]);
        sent := sent + [buf[..]];
      }
    }

    /** _tfm_string_output. */
    method PutString(s: string) returns (count: nat)
      requires Valid()
      modifies this, buf
      ensures Valid() && Text() == old(Text()) + CString(s) && count == |CString(s)|
    {
      count := 0;
      var i := 0;
      while i < |s| && s[i] != '\0'
        invariant Valid() && i <= |s|
        invariant Text() + CString(s[i..]) == old(Text()) + CString(s)
        invariant count + |CString(s[i..])| == |CString(s)|
      {
        assert s[i..][1..] == s[i + 1..];
        Put(s[i]);
        i := i + 1;
        count := count + 1;
      }
    }

    method PutMarker() returns (count: nat)
      requires Valid()
      modifies this, buf
      ensures Valid() && Text() == old(Text()) + MARKER && count == |MARKER|
    {
      var marker := MARKER;
      MarkerIsWhole(marker);
      count := PutString(marker);
    }

    /** The second loop of both number outputs. */
    method PutBackwards(digits: array<char>, k: nat)
      requires Valid() && k <= digits.Length && digits != buf
      modifies this, buf
      ensures Valid() && Text() == old(Text()) + Backwards(digits[..k])
    {
      var j: nat := k;
      assert digits[..0] == [];
      while j > 0
        invariant Valid() && 0 <= j <= k
        invariant Text() + Backwards(digits[..j]) == old(Text()) + Backwards(digits[..k])
      {
        j := j - 1;
        assert digits[..j + 1][..j] == digits[..j];
        Put(digits[j]);
      }
    }

    /** _tfm_dec_num_output. */
    method PutDecimal(w: Word, signed: bool) returns (count: nat)
      requires Valid()
      modifies this, buf
      ensures Valid() && Text() == old(Text()) + Decimal(w, signed) && count == |Decimal(w, signed)|
    {
      count := 0;
      var number := w;
      if signed && Signed(w) < 0 {
        Put('-');
        count := count + 1;
        number := Negated(w);
      }
      var digits, k := FillDigits(number, Dec, false);
      BackwardsLength(digits[..k]);
      PutBackwards(digits, k);
      count := count + k;
    }

    /** _tfm_hex_num_output. */
    method PutHex(w: Word, upper: bool) returns (count: nat)
      requires Valid()
      modifies this, buf
      ensures Valid() && Text() == old(Text()) + Show(w, Hex, upper) && count == |Show(w, Hex, upper)|
    {
      var digits, k := FillDigits(w, Hex, upper);
      BackwardsLength(digits[..k]);
      PutBackwards(digits, k);
      count := k;
    }

    method PutPointer(w: Word) returns (count: nat)
      requires Valid()
      modifies this, buf
      ensures Valid() && Text() == old(Text()) + ("0x" + Show(w, Hex, false)) && count == 2 + |Show(w, Hex, false)|
    {
      ghost var text := Text();
      NoTerminator("0x");
      var prefix := PutString("0x");
      count := PutHex(w, false);
      count := count + prefix;
      Regroup(text, "0x", Show(w, Hex, false));
    }

    /** The switch on the conversion character, for those that take an argument. */
    method PutConverted(c: char, arg: Arg) returns (count: nat)
      requires Valid() && Takes(c) != [] && (arg.Str? <==> c == 's')
      modifies this, buf
      ensures Valid() && Text() == old(Text()) + Converted(c, arg) && count == |Converted(c, arg)|
    {
      match c {
        case 'd' => count := PutDecimal(arg.word, true);
        case 'i' => count := PutDecimal(arg.word, true);
        case 'u' => count := PutDecimal(arg.word, false);
        case 'x' => count := PutHex(arg.word, false);
        case 'X' => count := PutHex(arg.word, true);
        case 'p' => count := PutPointer(arg.word);
        case 's' => count := PutString(arg.text);
        case _ =>
          Put((arg.word % 256) as char);
          count := 1;
      }
    }

    /** The final flush. */
    method Flush() returns (count: nat)
      requires Valid()
      modifies this
      ensures Join(sent) == old(Text()) && count == |Join(sent)| % CHUNK
      ensures forall i | 0 <= i < |sent| - 1 :: |sent[i]| == CHUNK
      ensures sent != [] ==> 0 < |sent[|sent| - 1]| <= CHUNK
    {
      ghost var full, rest := sent, buf[..pos];
      FullLength(full);
      Remainder(|full|, pos);
      JoinOne(full, rest);
      count := pos;
      if pos > 0 {
        sent := sent + [buf[..pos]];
      }
      assert Join(sent) == Join(full) + rest;
    }
  }

  lemma Remainder(chunks: nat, pos: nat)
    requires pos < CHUNK
    ensures (CHUNK * chunks + pos) % CHUNK == pos
  {
  }

  lemma {:induction false} BackwardsLength(s: string)
    ensures |Backwards(s)| == |s|
  {
    if s != [] {
      BackwardsLength(s[..|s| - 1]);
    }
  }

  // The format loop

  lemma PlainStep(f: string, args: seq<Arg>)
    requires Matches(args, Wanted(f)) && !Ended(f) && f[0] != '%'
    ensures Matches(args, Wanted(f[1..])) && Render(f, args) == [f[0]] + Render(f[1..], args)
  {
  }

  lemma PercentStep(f: string, args: seq<Arg>)
    requires Matches(args, Wanted(f)) && |f| >= 2 && f[0] == '%' && f[1] == '%'
    ensures Matches(args, Wanted(f[2..])) && Render(f, args) == ['%'] + Render(f[2..], args)
  {
    assert Wanted(f) == [] + Wanted(f[2..]);
  }

  lemma ConvertedStep(f: string, args: seq<Arg>)
    requires Matches(args, Wanted(f)) && |f| >= 2 && f[0] == '%' && Takes(f[1]) != []
    ensures |args| > 0 && (args[0].Str? <==> f[1] == 's') && Matches(args[1..], Wanted(f[2..]))
    ensures Render(f, args) == Converted(f[1], args[0]) + Render(f[2..], args[1..])
  {
    NextArgument(f, args);
  }

  /** The tag character itself is left in the format and printed as text. */
  lemma UnsupportedStep(f: string, args: seq<Arg>)
    requires Matches(args, Wanted(f)) && !Ended(f) && f[0] == '%'
    requires Ended(f[1..]) || (f[1] != '%' && Takes(f[1]) == [])
    ensures Matches(args, Wanted(f[1..])) && Render(f, args) == MARKER + Render(f[1..], args)
  {
    var g := f[1..];
    if !Ended(g) {
      assert Wanted(f) == [] + Wanted(f[2..]);
      assert g[1..] == f[2..];
      PlainStep(g, args);
      Regroup(MARKER, [f[1]], Render(f[2..], args));
    }
  }

  lemma MatchesJoin(args: seq<Arg>, more: seq<Arg>, front: seq<Kind>, back: seq<Kind>)
    requires |args| == |front| && Matches(args, front) && Matches(more, back)
    ensures Matches(args + more, front + back)
  {
  }

  /** A format is rendered piece by piece: the first piece takes its arguments, the second the ones behind. */
  lemma {:induction false} RenderSplits(f: string, g: string, args: seq<Arg>, more: seq<Arg>)
    requires Complete(f) && |args| == |Wanted(f)| && Matches(args, Wanted(f)) && Matches(more, Wanted(g))
    ensures Matches(args + more, Wanted(f + g)) && Render(f + g, args + more) == Render(f, args) + Render(g, more)
    decreases f, 1
  {
    WantedSplits(f, g);
    MatchesJoin(args, more, Wanted(f), Wanted(g));
    var whole, both := f + g, args + more;
    if f == [] {
      assert whole == g && both == more;
    } else if f[0] != '%' {
      assert whole[1..] == f[1..] + g;
      RenderSplits(f[1..], g, args, more);
      PlainStep(f, args);
      PlainStep(whole, both);
      Regroup([f[0]], Render(f[1..], args), Render(g, more));
    } else if f[1] == '%' {
      assert whole[2..] == f[2..] + g;
      PercentStep(f, args);
      RenderSplits(f[2..], g, args, more);
      PercentStep(whole, both);
      Regroup(['%'], Render(f[2..], args), Render(g, more));
    } else if Takes(f[1]) == [] {
      assert whole[1..] == f[1..] + g && f[1..][1..] == f[2..];
      UnsupportedStep(f, args);
      RenderSplits(f[1..], g, args, more);
      UnsupportedStep(whole, both);
      Regroup(MARKER, Render(f[1..], args), Render(g, more));
    } else {
      ConvertedSplits(f, g, args, more);
    }
  }

  lemma WantedCount(f: string)
    requires |f| >= 2 && f[0] == '%' && Takes(f[1]) != []
    ensures |Wanted(f)| == 1 + |Wanted(f[2..])|
  {
  }

  lemma ConvertedWhole(f: string, g: string, args: seq<Arg>, more: seq<Arg>, whole: string, both: seq<Arg>)
    requires |f| >= 2 && f[0] == '%' && Takes(f[1]) != [] && |args| > 0
    requires whole == f + g && both == args + more && Matches(both, Wanted(whole))
    ensures Matches(args[1..] + more, Wanted(f[2..] + g)) && (args[0].Str? <==> f[1] == 's')
    ensures Render(whole, both) == Converted(f[1], args[0]) + Render(f[2..] + g, args[1..] + more)
  {
    assert whole[2..] == f[2..] + g && whole[1] == f[1];
    assert both[1..] == args[1..] + more && both[0] == args[0];
    ConvertedStep(whole, both);
  }

  lemma {:induction false} ConvertedSplits(f: string, g: string, args: seq<Arg>, more: seq<Arg>)
    requires |f| >= 2 && f[0] == '%' && Takes(f[1]) != [] && Complete(f[2..])
    requires |args| == |Wanted(f)| && Matches(args, Wanted(f)) && Matches(more, Wanted(g))
    requires Matches(args + more, Wanted(f + g))
    ensures Render(f + g, args + more) == Render(f, args) + Render(g, more)
    decreases f, 0
  {
    WantedCount(f);
    ConvertedStep(f, args);
    ConvertedWhole(f, g, args, more, f + g, args + more);
    RenderSplits(f[2..], g, args[1..], more);
    Regroup(Converted(f[1], args[0]), Render(f[2..], args[1..]), Render(g, more));
  }

  lemma MarkerIsWhole(marker: string)
    requires marker == MARKER
    ensures CString(marker) == marker
  {
    assert forall i | 0 <= i < |marker| :: marker[i] != '\0';
    NoTerminator(marker);
  }

  lemma {:induction false} NoTerminator(s: string)
    requires forall i | 0 <= i < |s| :: s[i] != '\0'
    ensures CString(s) == s
  {
    if s != [] {
      NoTerminator(s[1..]);
      assert s == [s[0]] + s[1..];
    }
  }

  lemma Regroup(text: string, x: string, rest: string)
    ensures (text + x) + rest == text + (x + rest)
  {
  }

  /** One turn of the loop on what is left of the format: n characters and u arguments are used up. */
  method PutOne(b: Buffer, f: string, args: seq<Arg>) returns (n: nat, u: nat, count: nat)
    requires b.Valid() && !Ended(f) && Matches(args, Wanted(f))
    modifies b, b.buf
    ensures b.Valid() && 0 < n <= |f| && u <= |args| && Matches(args[u..], Wanted(f[n..]))
    ensures b.Text() + Render(f[n..], args[u..]) == old(b.Text()) + Render(f, args)
    ensures |b.Text()| == |old(b.Text())| + count
  {
    ghost var text, x := b.Text(), "";
    var c := if |f| > 1 then f[1] else '\0';
    n, u, count := 1, 0, 1;
    assert args[0..] == args;
    if f[0] != '%' {
      PlainStep(f, args);
      x := [f[0]];
      b.Put(f[0]);
    } else if Takes(c) != [] {
      ConvertedStep(f, args);
      x := Converted(c, args[0]);
      count := b.PutConverted(c, args[0]);
      n, u := 2, 1;
    } else if c == '%' {
      PercentStep(f, args);
      x := ['%'];
      b.Put('%');
      n := 2;
    } else {
      UnsupportedStep(f, args);
      x := MARKER;
      count := b.PutMarker();
    }
    Regroup(text, x, Render(f[n..], args[u..]));
  }

  /**
   * _tfm_log_vprintf: the chunks together are the rendered text, and all but the last are full. The result counts
   * the characters of the last, partial chunk twice.
   */
  method Vprintf(fmt: string, args: seq<Arg>) returns (sent: seq<string>, count: nat)
    requires Matches(args, Wanted(fmt))
    ensures Join(sent) == Render(fmt, args)
    ensures forall i | 0 <= i < |sent| - 1 :: |sent[i]| == 32
    ensures sent != [] ==> 0 < |sent[|sent| - 1]| <= 32
    ensures count == |Render(fmt, args)| + |Render(fmt, args)| % 32
  {
    var b := new Buffer();
    count := 0;
    var f, rest := fmt, args;
    while !Ended(f)
      invariant b.Valid() && fresh(b) && fresh(b.buf) && Matches(rest, Wanted(f))
      invariant b.Text() + Render(f, rest) == Render(fmt, args)
      invariant count == |b.Text()|
      decreases |f|
    {
      var n, u, more := PutOne(b, f, rest);
      f, rest, count := f[n..], rest[u..], count + more;
    }
    var last := b.Flush();
    sent, count := b.sent, count + last;
  }
}
