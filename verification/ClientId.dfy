/** Client ID ranges of non-secure agents (tools/manifest_helpers/manifest_client_id_validate.py). */
module ClientId {
  import opened Wrappers
  import opened Digits

  const WORD: int := 0x1_0000_0000
  const SIGN: int := 0x8000_0000

  // Python's int(s, 0) on ASCII strings

  predicate IsSpace(c: char) {
    c == ' ' || '\t' <= c <= '\r'
  }

  function TrimLeft(s: string): string {
    if s != [] && IsSpace(s[0]) then TrimLeft(s[1..]) else s
  }

  function TrimRight(s: string): string {
    if s != [] && IsSpace(s[|s| - 1]) then TrimRight(s[..|s| - 1]) else s
  }

  /** Drops single underscores between digits; any other underscore is an error, and so is an empty string. */
  function Ungrouped(s: string): Option<string> {
    if s == [] || s[0] == '_' then None
    else if |s| == 1 then Some(s)
    else match Ungrouped(if s[1] == '_' then s[2..] else s[1..])
      case Some(r) => Some([s[0]] + r)
      case None => None
  }

  function PrefixRadix(u: string): (r: Option<Radix>)
    ensures r.Some? ==> |u| >= 2
  {
    if |u| < 2 || u[0] != '0' then None
    else if u[1] == 'x' || u[1] == 'X' then Some(Hex)
    else if u[1] == 'o' || u[1] == 'O' then Some(Oct)
    else if u[1] == 'b' || u[1] == 'B' then Some(Bin)
    else None
  }

  function Body(u: string): string {
    if PrefixRadix(u).None? then u
    else if |u| > 2 && u[2] == '_' then u[3..]
    else u[2..]
  }

  /** An unsigned literal; one that starts with 0 and has no prefix may only be zero. */
  function ParseUnsigned(u: string): (r: Option<int>)
    ensures r.Some? ==> r.value >= 0
  {
    var radix := if PrefixRadix(u).Some? then PrefixRadix(u).value else Dec;
    match Ungrouped(Body(u))
    case None => None
    case Some(digits) =>
      if !IsNumeral(digits, radix) then None
      else if radix == Dec && u[0] == '0' && Value(digits, radix) != 0 then None
      else Some(Value(digits, radix))
  }

  function ParseInt(s: string): Option<int> {
    var t := TrimRight(TrimLeft(s));
    if t == [] then None
    else if t[0] == '-' then Negated(ParseUnsigned(t[1..]))
    else ParseUnsigned(if t[0] == '+' then t[1..] else t)
  }

  function Negated(v: Option<int>): Option<int> {
    if v.Some? then Some(-v.value) else None
  }

  // Client IDs

  function Abs(v: int): nat {
    if v < 0 then -v else v
  }

  /** The range checks of _client_id_validate; the two's complement step is written as negate, mask, negate. */
  function Normalised(v: int, minus: bool): Option<int> {
    if Abs(v) > 0xFFFF_FFFF then None
    else if (minus && Abs(v) >= SIGN) || (!minus && v < SIGN) then None
    else if v >= SIGN then Some(-((-(v - 1) - 1) % WORD))
    else Some(v)
  }

  /** _client_id_validate. */
  function Validate(s: string): Option<int> {
    if ParseInt(s).None? || s == [] then None else Normalised(ParseInt(s).value, s[0] == '-')
  }

  lemma NormalisedMeaning(v: int, minus: bool)
    requires minus ==> v <= 0
    ensures Normalised(v, minus).Some? <==> (if minus then -SIGN < v else SIGN <= v < WORD)
    ensures Normalised(v, minus).Some? ==> Normalised(v, minus).value == if minus then v else v - WORD
  {
  }

  lemma {:induction false} TrimRightKeepsHead(s: string)
    requires s != [] && !IsSpace(s[0])
    ensures TrimRight(s) != [] && TrimRight(s)[0] == s[0]
  {
    if IsSpace(s[|s| - 1]) {
      TrimRightKeepsHead(s[..|s| - 1]);
    }
  }

  lemma MinusIsNotPositive(s: string)
    requires s != [] && s[0] == '-' && ParseInt(s).Some?
    ensures ParseInt(s).value <= 0
  {
    TrimRightKeepsHead(s);
  }

  /** Exactly which strings are accepted, and as what: the 32-bit value read as a signed one. */
  lemma ValidateMeaning(s: string)
    ensures Validate(s).Some? <==>
      (s != [] && ParseInt(s).Some?
      && (if s[0] == '-' then -0x8000_0000 < ParseInt(s).value else 0x8000_0000 <= ParseInt(s).value < 0x1_0000_0000))
    ensures Validate(s).Some? ==> -0x8000_0000 <= Validate(s).value <= 0
    ensures Validate(s).Some? ==> (Validate(s).value < 0 <==> ParseInt(s).value != 0)
    ensures Validate(s).Some? ==> ParseInt(s).value == Validate(s).value + if s[0] == '-' then 0 else 0x1_0000_0000
  {
    if s != [] && ParseInt(s).Some? {
      if s[0] == '-' {
        MinusIsNotPositive(s);
      }
      NormalisedMeaning(ParseInt(s).value, s[0] == '-');
    }
  }

  /** a and b are the same 32-bit word. */
  predicate SameWord(a: int, b: int) {
    a == b || a == b + WORD || b == a + WORD
  }

  /** Accepted spellings give the same ID if and only if they name the same 32-bit word. */
  lemma SameIdIffSameWord(s: string, t: string)
    requires Validate(s).Some? && Validate(t).Some?
    ensures Validate(s) == Validate(t) <==> SameWord(ParseInt(s).value, ParseInt(t).value)
  {
    ValidateMeaning(s);
    ValidateMeaning(t);
  }

  // Spellings

  function Mark(radix: Radix): char {
    match radix case Bin => 'b' case Oct => 'o' case Dec => '0' case Hex => 'x'
  }

  function Spelled(n: nat, radix: Radix, upper: bool): string {
    if radix == Dec then Show(n, radix, upper) else ['0', Mark(radix)] + Show(n, radix, upper)
  }

  lemma {:induction false} UngroupedPlain(s: string)
    requires s != [] && forall i | 0 <= i < |s| :: s[i] != '_'
    ensures Ungrouped(s) == Some(s)
  {
    if |s| > 1 {
      UngroupedPlain(s[1..]);
      assert [s[0]] + s[1..] == s;
    }
  }

  lemma NumeralIsPlain(s: string, radix: Radix)
    requires IsNumeral(s, radix)
    ensures Ungrouped(s) == Some(s) && s[0] != '_'
    ensures Bare(s)
  {
    assert forall i | 0 <= i < |s| :: s[i] != '_' by {
      assert forall i | 0 <= i < |s| :: DigitOf(s[i]) < 16;
    }
    UngroupedPlain(s);
    assert DigitOf(s[0]) < 16 && DigitOf(s[|s| - 1]) < 16;
  }

  lemma PrefixedParses(radix: Radix, d: string)
    requires IsNumeral(d, radix) && radix != Dec
    ensures ParseUnsigned(['0', Mark(radix)] + d) == Some(Value(d, radix))
    ensures Bare(['0', Mark(radix)] + d)
  {
    NumeralIsPlain(d, radix);
    MarkTells(radix, d);
  }

  lemma MarkTells(radix: Radix, d: string)
    requires radix != Dec && d != [] && d[0] != '_'
    ensures PrefixRadix(['0', Mark(radix)] + d) == Some(radix) && Body(['0', Mark(radix)] + d) == d
  {
    var u := ['0', Mark(radix)] + d;
    assert u[1] == Mark(radix) && u[2] == d[0];
    assert u[2..] == d;
  }

  lemma DecimalParses(d: string)
    requires IsNumeral(d, Dec) && (d[0] == '0' ==> Value(d, Dec) == 0)
    ensures ParseUnsigned(d) == Some(Value(d, Dec))
  {
    NumeralIsPlain(d, Dec);
    DecimalHasNoPrefix(d);
    assert Body(d) == d;
  }

  lemma DecimalHasNoPrefix(d: string)
    requires IsNumeral(d, Dec)
    ensures PrefixRadix(d) == None
  {
    if |d| > 1 {
      assert DigitOf(d[1]) < 10;
    }
  }

  /** No space at either end and no sign. */
  predicate Bare(s: string) {
    s != [] && !IsSpace(s[0]) && !IsSpace(s[|s| - 1]) && s[0] != '+' && s[0] != '-'
  }

  lemma SpelledParses(n: nat, radix: Radix, upper: bool)
    ensures ParseUnsigned(Spelled(n, radix, upper)) == Some(n) && Bare(Spelled(n, radix, upper))
  {
    var d := Show(n, radix, upper);
    ShowReadsBack(n, radix, upper);
    NumeralIsPlain(d, radix);
    if radix == Dec {
      DecimalParses(d);
    } else {
      PrefixedParses(radix, d);
    }
  }

  lemma BareInt(s: string)
    requires Bare(s)
    ensures ParseInt(s) == ParseUnsigned(s)
    ensures ParseInt("-" + s) == Negated(ParseUnsigned(s))
  {
    assert ("-" + s)[1..] == s;
  }

  /** The unsigned and the minus spelling of one value agree, in any two radices. */
  lemma SpellingsAgree(n: int, r: Radix, r': Radix, upper: bool, upper': bool)
    requires 0 < n < SIGN
    ensures Validate("-" + Spelled(n, r, upper)) == Some(-n)
    ensures Validate(Spelled(WORD - n, r', upper')) == Some(-n)
  {
    SpelledBoth(n, r, upper);
    SpelledBoth(WORD - n, r', upper');
    NormalisedMeaning(-n, true);
    NormalisedMeaning(WORD - n, false);
  }

  lemma SpelledBoth(n: int, r: Radix, upper: bool)
    requires 0 <= n
    ensures Validate(Spelled(n, r, upper)) == Normalised(n, false)
    ensures Validate("-" + Spelled(n, r, upper)) == Normalised(-n, true)
  {
    SpelledParses(n, r, upper);
    BareInt(Spelled(n, r, upper));
  }

  /** The lowest ID has no minus spelling, and minus zero is accepted although zero is not negative. */
  lemma EdgeSpellings(r: Radix, upper: bool)
    ensures Validate("-" + Spelled(SIGN, r, upper)) == None
    ensures Validate(Spelled(SIGN, r, upper)) == Some(-SIGN)
    ensures Validate("-" + Spelled(0, r, upper)) == Some(0)
    ensures Validate(Spelled(0, r, upper)) == None
  {
    SpelledBoth(SIGN, r, upper);
    SpelledBoth(0, r, upper);
  }

  /** What may stand around a literal: white space at either end, and a plus sign. */
  lemma Decorated(s: string, c: char)
    requires Bare(s) && c in [' ', '\t', '\n', '\U{B}', '\U{C}', '\r']
    ensures ParseInt([c] + s) == ParseInt(s) && ParseInt(s + [c]) == ParseInt(s)
    ensures ParseInt(['+'] + s) == ParseInt(s) && ParseInt("") == None && ParseInt("-") == None
  {
    var front, back, plus := [c] + s, s + [c], ['+'] + s;
    assert front[1..] == s && back[..|s|] == s && plus[1..] == s;
    assert TrimLeft(front) == TrimLeft(s) == s && TrimLeft(back) == back;
    assert TrimRight(back) == TrimRight(s) == s && TrimRight(plus) == plus;
  }

  /** A single underscore may stand between two digits, and nowhere else. */
  lemma {:induction false} Underscores(a: string, b: string)
    requires a != [] && b != [] && forall i | 0 <= i < |a| :: a[i] != '_'
    requires forall i | 0 <= i < |b| :: b[i] != '_'
    ensures Ungrouped(a + ['_'] + b) == Some(a + b)
    ensures Ungrouped(a + ['_', '_'] + b) == None && Ungrouped(a + ['_']) == None && Ungrouped(['_'] + b) == None
  {
    var one, two, end := a + ['_'] + b, a + ['_', '_'] + b, a + ['_'];
    if |a| == 1 {
      assert one[2..] == b && two[2..] == ['_'] + b && end[2..] == [] && a == [a[0]];
      UngroupedPlain(b);
    } else {
      Underscores(a[1..], b);
      assert one[1..] == a[1..] + ['_'] + b && two[1..] == a[1..] + ['_', '_'] + b && end[1..] == a[1..] + ['_'];
      assert [a[0]] + (a[1..] + b) == a + b;
    }
  }

  /** The prefixes of the radices, in either case. */
  lemma Prefixed(d: string, radix: Radix, c: char)
    requires IsNumeral(d, radix)
    requires match c
      case 'x' => radix == Hex case 'X' => radix == Hex
      case 'o' => radix == Oct case 'O' => radix == Oct
      case 'b' => radix == Bin case 'B' => radix == Bin
      case _ => false
    ensures ParseUnsigned(['0', c] + d) == Some(Value(d, radix))
  {
    NumeralIsPlain(d, radix);
    var u := ['0', c] + d;
    assert u[0] == '0' && u[1] == c && u[2] == d[0] && u[2..] == d;
  }

  /** Without a prefix a literal is decimal, and only zero may start with a zero. */
  lemma Unprefixed(d: string)
    requires IsNumeral(d, Dec)
    ensures ParseUnsigned(d) == if d[0] == '0' && Value(d, Dec) != 0 then None else Some(Value(d, Dec))
  {
    NumeralIsPlain(d, Dec);
    DecimalHasNoPrefix(d);
    assert Body(d) == d;
  }

  // The registry

  function Upper(s: string): (r: string)
    ensures |r| == |s|
  {
    seq(|s|, i requires 0 <= i < |s| => if 'a' <= s[i] <= 'z' then s[i] - 'a' + 'A' else s[i])
  }

  /** Two names become the same only if they differ in nothing but the case of ASCII letters. */
  lemma UpperSameIff(a: string, b: string)
    ensures Upper(a) == Upper(b) <==>
      |a| == |b| && forall i | 0 <= i < |a| :: a[i] == b[i] || CaseApart(a[i], b[i]) || CaseApart(b[i], a[i])
  {
    if Upper(a) == Upper(b) {
      forall i | 0 <= i < |a| ensures a[i] == b[i] || CaseApart(a[i], b[i]) || CaseApart(b[i], a[i]) {
        assert Upper(a)[i] == Upper(b)[i];
      }
    }
  }

  predicate CaseApart(lower: char, upper: char) {
    'a' <= lower <= 'z' && lower as int == upper as int + 32
  }

  datatype Range = Range(base: int, limit: int) {
    predicate WellFormed() {
      -SIGN <= base <= limit <= 0
    }

    predicate Meets(other: Range) {
      base <= other.limit && limit >= other.base
    }

    predicate Inside(other: Range) {
      other.base <= base && limit <= other.limit
    }

    predicate Has(id: int) {
      base <= id <= limit
    }
  }

  datatype Agent = Agent(name: string, ids: Range)

  datatype Request = Request(name: string, base: string, limit: string) {
    predicate Legal() {
      Validate(base).Some? && Validate(limit).Some? && Validate(base).value <= Validate(limit).value
    }

    function Recorded(): Agent
      requires Legal()
    {
      Agent(Upper(name), Range(Validate(base).value, Validate(limit).value))
    }
  }

  lemma LegalIsWellFormed(q: Request)
    ensures q.Legal() ==> q.Recorded().ids.WellFormed()
  {
    ValidateMeaning(q.base);
    ValidateMeaning(q.limit);
  }

  ghost predicate Sound(agents: seq<Agent>) {
    && (forall i | 0 <= i < |agents| :: agents[i].ids.WellFormed())
    && (forall i, j | 0 <= i < j < |agents| :: !agents[i].ids.Meets(agents[j].ids))
  }

  /** Meeting means sharing an ID, so in a sound list each ID has at most one owner. */
  lemma MeetsIsSharing(a: Range, b: Range)
    requires a.WellFormed() && b.WellFormed()
    ensures a.Meets(b) <==> exists id :: a.Has(id) && b.Has(id)
  {
    if a.Meets(b) {
      var id := if a.base >= b.base then a.base else b.base;
      assert a.Has(id) && b.Has(id);
    }
  }

  class Registry {
    var agents: seq<Agent>

    ghost predicate Valid()
      reads this
    {
      Sound(agents)
    }

    constructor ()
      ensures Valid() && agents == []
    {
      agents := [];
    }

    /** ns_agent_client_id_validate. */
    method Register(q: Request) returns (ok: bool)
      requires Valid()
      modifies this
      ensures Valid()
      ensures ok <==> Admissible(old(agents), q)
      ensures ok ==> agents == old(agents) + [q.Recorded()]
      ensures !ok ==> agents == old(agents)
    {
      var base, limit := Validate(q.base), Validate(q.limit);
      if base.None? || limit.None? || base.value > limit.value {
        return false;
      }
      LegalIsWellFormed(q);
      var ids := Range(base.value, limit.value);
      ok := MeetsNone(ids);
      if ok {
        agents := agents + [Agent(Upper(q.name), ids)];
      }
    }

    /** The loop over the agents recorded so far. */
    method MeetsNone(ids: Range) returns (ok: bool)
      ensures ok <==> forall i | 0 <= i < |agents| :: !ids.Meets(agents[i].ids)
    {
      for i := 0 to |agents|
        invariant forall j | 0 <= j < i :: !ids.Meets(agents[j].ids)
      {
        if ids.base <= agents[i].ids.limit && ids.limit >= agents[i].ids.base {
          return false;
        }
      }
      ok := true;
    }

    /** All agents of a manifest list; the first rejection ends the tool. */
    method RegisterAll(qs: seq<Request>) returns (ok: bool)
      requires Valid() && agents == []
      modifies this
      ensures Valid()
      ensures ok <==> Compatible(qs)
      ensures ok ==> Records(agents, qs)
    {
      for k := 0 to |qs|
        invariant Valid() && Records(agents, qs[..k])
      {
        NextRequest(agents, qs, k);
        ok := Register(qs[k]);
        if !ok {
          return;
        }
        assert qs[..k + 1] == qs[..k] + [qs[k]];
      }
      ok := true;
      assert qs[..|qs|] == qs;
      RecordsCompatible(agents, qs);
    }

    /** irq_client_id_validate: the last agent of that name decides. */
    method CheckIrq(q: Request) returns (ok: bool, ghost owner: nat)
      requires Valid()
      ensures ok <==>
        (q.Legal() && exists i :: IsLast(agents, Upper(q.name), i) && q.Recorded().ids.Inside(agents[i].ids))
      ensures ok ==>
        && owner < |agents| && IsLast(agents, Upper(q.name), owner)
        && q.Recorded().ids.Inside(agents[owner].ids)
      ensures ok ==> forall j | 0 <= j < |agents| && j != owner :: !q.Recorded().ids.Meets(agents[j].ids)
    {
      owner := 0;
      var base, limit := Validate(q.base), Validate(q.limit);
      if base.None? || limit.None? || base.value > limit.value {
        return false, owner;
      }
      var ids := Range(base.value, limit.value);
      var k := LastNamed(Upper(q.name));
      if k == 0 {
        return false, owner;
      }
      owner := k - 1;
      OnlyLast(agents, Upper(q.name), owner);
      var sp := agents[k - 1];
      ok := !(base.value < sp.ids.base || limit.value > sp.ids.limit);
      if ok {
        InsideMeetsNoOther(agents, ids, owner);
      }
    }

    /** One more than the position of the last agent of that name, or 0. */
    method LastNamed(name: string) returns (k: nat)
      ensures k <= |agents| && (k > 0 ==> IsLast(agents, name, k - 1))
      ensures k == 0 ==> forall i :: !IsLast(agents, name, i)
    {
      k := |agents|;
      while k > 0 && agents[k - 1].name != name
        invariant 0 <= k <= |agents|
        invariant forall j | k <= j < |agents| :: agents[j].name != name
      {
        k := k - 1;
      }
    }
  }

  /** A range inside one agent's range meets no other agent's. */
  lemma InsideMeetsNoOther(agents: seq<Agent>, ids: Range, owner: nat)
    requires Sound(agents) && owner < |agents| && ids.base <= ids.limit && ids.Inside(agents[owner].ids)
    ensures forall j | 0 <= j < |agents| && j != owner :: !ids.Meets(agents[j].ids)
  {
    forall j | 0 <= j < |agents| && j != owner ensures !ids.Meets(agents[j].ids) {
      assert !agents[if j < owner then j else owner].ids.Meets(agents[if j < owner then owner else j].ids);
    }
  }

  predicate IsLast(agents: seq<Agent>, name: string, i: int) {
    0 <= i < |agents| && agents[i].name == name && forall j | i < j < |agents| :: agents[j].name != name
  }

  lemma OnlyLast(agents: seq<Agent>, name: string, i: nat)
    requires IsLast(agents, name, i)
    ensures forall j | IsLast(agents, name, j) :: j == i
  {
  }

  /** Acceptance of a whole list, without mention of the order in which it is read. */
  ghost predicate Compatible(qs: seq<Request>) {
    && (forall i | 0 <= i < |qs| :: qs[i].Legal())
    && (forall i, j | 0 <= i < |qs| && 0 <= j < |qs| && i != j :: !qs[i].Recorded().ids.Meets(qs[j].Recorded().ids))
  }

  ghost predicate Records(agents: seq<Agent>, qs: seq<Request>) {
    |agents| == |qs| && forall i | 0 <= i < |qs| :: qs[i].Legal() && agents[i] == qs[i].Recorded()
  }

  ghost predicate Admissible(agents: seq<Agent>, q: Request) {
    q.Legal() && forall i | 0 <= i < |agents| :: !q.Recorded().ids.Meets(agents[i].ids)
  }

  /** A request is admissible if both ends validate, in that order, and its range lies beside every recorded one. */
  lemma AdmissibleMeans(agents: seq<Agent>, q: Request)
    ensures Admissible(agents, q) <==> match (Validate(q.base), Validate(q.limit))
      case (Some(lo), Some(hi)) => lo <= hi && forall i | 0 <= i < |agents| ::
        hi < agents[i].ids.base || agents[i].ids.limit < lo
      case _ => false
    ensures Admissible(agents, q) ==>
      && q.Recorded().name == Upper(q.name)
      && Some(q.Recorded().ids.base) == Validate(q.base) && Some(q.Recorded().ids.limit) == Validate(q.limit)
  {
  }

  /** An interrupt's range lies inside that of the last agent of its name. */
  lemma InsideLastMeans(agents: seq<Agent>, q: Request, i: nat)
    requires i < |agents|
    ensures q.Legal() && IsLast(agents, Upper(q.name), i) && q.Recorded().ids.Inside(agents[i].ids) <==>
      match (Validate(q.base), Validate(q.limit))
      case (Some(lo), Some(hi)) =>
        && agents[i].ids.base <= lo <= hi <= agents[i].ids.limit
        && agents[i].name == Upper(q.name) && (forall j | i < j < |agents| :: agents[j].name != Upper(q.name))
      case _ => false
  {
  }

  /** In a compatible list every next request is admissible. */
  lemma NextRequest(agents: seq<Agent>, qs: seq<Request>, k: nat)
    requires k < |qs| && Records(agents, qs[..k])
    ensures Compatible(qs) ==> Admissible(agents, qs[k])
  {
    forall i | Compatible(qs) && 0 <= i < k ensures !qs[k].Recorded().ids.Meets(agents[i].ids) {
      assert qs[..k][i] == qs[i];
    }
  }

  lemma RecordsCompatible(agents: seq<Agent>, qs: seq<Request>)
    requires Sound(agents) && Records(agents, qs)
    ensures Compatible(qs)
  {
    forall i, j | 0 <= i < |qs| && 0 <= j < |qs| && i != j
      ensures !qs[i].Recorded().ids.Meets(qs[j].Recorded().ids)
    {
      assert !agents[if i < j then i else j].ids.Meets(agents[if i < j then j else i].ids);
    }
  }
}
