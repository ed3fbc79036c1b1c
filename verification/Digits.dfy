/** Positional numerals: the digits of a number and the number of some digits. */
module Digits {

  datatype Radix = Bin | Oct | Dec | Hex {

    function Base(): nat {
      match this case Bin => 2 case Oct => 8 case Dec => 10 case Hex => 16
    }

    function Times(n: nat): nat {
      match this case Bin => 2 * n case Oct => 8 * n case Dec => 10 * n case Hex => 16 * n
    }

    function Over(n: nat): (q: nat)
      ensures Times(q) <= n < Times(q) + Base()
      ensures n >= Base() ==> 0 < q < n
    {
      match this case Bin => n / 2 case Oct => n / 8 case Dec => n / 10 case Hex => n / 16
    }
  }

  /** Value of a digit up to 'f'; 16 for any other character. */
  function DigitOf(c: char): nat {
    if '0' <= c <= '9' then (c - '0') as nat
    else if 'a' <= c <= 'f' then (c - 'a') as nat + 10
    else if 'A' <= c <= 'F' then (c - 'A') as nat + 10
    else 16
  }

  function DigitChar(d: nat, upper: bool): char
    requires d < 16
  {
    if d < 10 then '0' + d as char else (if upper then 'A' else 'a') + (d - 10) as char
  }

  predicate IsNumeral(s: string, radix: Radix) {
    s != [] && forall i | 0 <= i < |s| :: DigitOf(s[i]) < radix.Base()
  }

  function Value(s: string, radix: Radix): nat {
    if s == [] then 0 else radix.Times(Value(s[..|s| - 1], radix)) + DigitOf(s[|s| - 1])
  }

  /** The shortest numeral of n. */
  function Show(n: nat, radix: Radix, upper: bool): string {
    var q := radix.Over(n);
    (if n < radix.Base() then [] else Show(q, radix, upper)) + [DigitChar(n - radix.Times(q), upper)]
  }

  lemma DigitRoundTrip(d: nat, upper: bool)
    requires d < 16
    ensures DigitOf(DigitChar(d, upper)) == d
    ensures DigitChar(d, upper) == '0' <==> d == 0
  {
  }

  lemma AppendDigit(t: string, radix: Radix, d: nat, upper: bool)
    requires d < radix.Base()
    ensures Value(t + [DigitChar(d, upper)], radix) == radix.Times(Value(t, radix)) + d
    ensures t == [] || IsNumeral(t, radix) ==> IsNumeral(t + [DigitChar(d, upper)], radix)
  {
    DigitRoundTrip(d, upper);
    assert (t + [DigitChar(d, upper)])[..|t|] == t;
  }

  lemma ShowStep(n: nat, radix: Radix, upper: bool, q: nat, d: nat)
    requires q == radix.Over(n) && n == radix.Times(q) + d
    ensures d < radix.Base()
    ensures n < radix.Base() ==> d == n && Show(n, radix, upper) == [DigitChar(d, upper)]
    ensures n >= radix.Base() ==> Show(n, radix, upper) == Show(q, radix, upper) + [DigitChar(d, upper)]
  {
  }

  lemma OneDigit(radix: Radix, d: nat, upper: bool)
    requires d < radix.Base()
    ensures Value([DigitChar(d, upper)], radix) == d && IsNumeral([DigitChar(d, upper)], radix)
  {
    AppendDigit([], radix, d, upper);
    assert [] + [DigitChar(d, upper)] == [DigitChar(d, upper)];
  }

  /** Reading the digits back gives the number, and no superfluous zero leads. */
  lemma {:induction false} ShowReadsBack(n: nat, radix: Radix, upper: bool)
    ensures IsNumeral(Show(n, radix, upper), radix)
    ensures Value(Show(n, radix, upper), radix) == n
    ensures Show(n, radix, upper)[0] == '0' <==> n == 0
  {
    var q := radix.Over(n);
    var d := n - radix.Times(q);
    ShowStep(n, radix, upper, q, d);
    DigitRoundTrip(d, upper);
    if n < radix.Base() {
      OneDigit(radix, d, upper);
    } else {
      ShowReadsBack(q, radix, upper);
      AppendDigit(Show(q, radix, upper), radix, d, upper);
    }
  }

  lemma DigitCase(d: nat, upper: bool)
    requires d < 16
    ensures var c := DigitChar(d, upper); '0' <= c <= '9' || (if upper then 'A' <= c <= 'F' else 'a' <= c <= 'f')
  {
  }

  /** Letters are of one case. */
  lemma {:induction false} ShowCase(n: nat, radix: Radix, upper: bool)
    ensures forall c | c in Show(n, radix, upper) ::
      '0' <= c <= '9' || (if upper then 'A' <= c <= 'F' else 'a' <= c <= 'f')
  {
    var q := radix.Over(n);
    var d := n - radix.Times(q);
    ShowStep(n, radix, upper, q, d);
    DigitCase(d, upper);
    if n >= radix.Base() {
      ShowCase(q, radix, upper);
    }
  }

  /** What a numeral stands for: each digit counts ten or sixteen times as much as the one behind it. */
  lemma ValueMeans(s: string, c: char)
    ensures Value("", Dec) == 0 && Value("", Hex) == 0 && Value("", Oct) == 0 && Value("", Bin) == 0
    ensures '0' <= c <= '7' ==> Value(s + [c], Oct) == 8 * Value(s, Oct) + (c as int - '0' as int)
    ensures '0' <= c <= '1' ==> Value(s + [c], Bin) == 2 * Value(s, Bin) + (c as int - '0' as int)
    ensures '0' <= c <= '9' ==>
      && Value(s + [c], Dec) == 10 * Value(s, Dec) + (c as int - '0' as int)
      && Value(s + [c], Hex) == 16 * Value(s, Hex) + (c as int - '0' as int)
    ensures 'a' <= c <= 'f' ==> Value(s + [c], Hex) == 16 * Value(s, Hex) + 10 + (c as int - 'a' as int)
    ensures 'A' <= c <= 'F' ==> Value(s + [c], Hex) == 16 * Value(s, Hex) + 10 + (c as int - 'A' as int)
  {
    assert (s + [c])[..|s|] == s;
  }

  function Pow(radix: Radix, k: nat): nat {
    if k == 0 then 1 else radix.Times(Pow(radix, k - 1))
  }

  /** A number below the k-th power of the base has at most k digits. */
  lemma {:induction false} ShowLength(n: nat, radix: Radix, upper: bool, k: nat)
    requires k > 0 && n < Pow(radix, k)
    ensures |Show(n, radix, upper)| <= k
  {
    if n >= radix.Base() {
      ShowLength(radix.Over(n), radix, upper, k - 1);
    }
  }

  lemma UnsignedWordDigits(n: nat, upper: bool)
    requires n < 0x1_0000_0000
    ensures |Show(n, Dec, upper)| <= 10 && |Show(n, Hex, upper)| <= 8
  {
    ShowLength(n, Dec, upper, 10);
    ShowLength(n, Hex, upper, 8);
  }
}
