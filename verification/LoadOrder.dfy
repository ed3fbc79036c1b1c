/** Dependency scores and load order of partitions (tools/tfm_parse_manifest_list.py, lines 244-337). */
module LoadOrder {

  datatype Priority = Lowest | Low | Normal | High | Highest

  /** What the load order looks at in a manifest; `deps` are the dependencies followed by the weak ones. */
  datatype Partition = Partition(name: string, deps: seq<string>, services: seq<string>, priority: Priority)

  type Partitions = seq<Partition>

  /** Index of the first partition from `from` on that offers the service, or |ps| if there is none. */
  function Owner(ps: Partitions, svc: string, from: nat): (j: nat)
    requires from <= |ps|
    ensures from <= j <= |ps|
    ensures j < |ps| ==> svc in ps[j].services
    ensures forall k | from <= k < j :: svc !in ps[k].services
    decreases |ps| - from
  {
    if from == |ps| || svc in ps[from].services then from else Owner(ps, svc, from + 1)
  }

  /** The distinct partitions that offer one of the named services. */
  function Owners(ps: Partitions, names: seq<string>): (s: set<nat>)
    ensures forall j | j in s :: j < |ps|
  {
    set svc | svc in names && Owner(ps, svc, 0) < |ps| :: Owner(ps, svc, 0)
  }

  lemma OwnersAppend(ps: Partitions, names: seq<string>, svc: string)
    ensures Owners(ps, names + [svc]) == Owners(ps, names) + if Owner(ps, svc, 0) < |ps| then {Owner(ps, svc, 0)}
      else {}
  {
    var all, j := names + [svc], Owner(ps, svc, 0);
    assert svc in all;
    forall x | x in Owners(ps, names) ensures x in Owners(ps, all) {
      var n :| n in names && Owner(ps, n, 0) < |ps| && Owner(ps, n, 0) == x;
      assert n in all;
    }
  }

  /** The distinct partitions that partition `i` depends on. */
  function Deps(ps: Partitions, i: nat): (s: set<nat>)
    requires i < |ps|
    ensures forall j | j in s :: j < |ps|
  {
    Owners(ps, ps[i].deps)
  }

  /** A dependency is the first partition that offers one of the services asked for. */
  lemma DepsMembers(ps: Partitions, i: nat, j: nat)
    requires i < |ps| && j < |ps|
    ensures j in Deps(ps, i) <==> exists svc ::
      svc in ps[i].deps && svc in ps[j].services && forall k | 0 <= k < j :: svc !in ps[k].services
  {
    forall svc | svc in ps[i].deps && svc in ps[j].services && (forall k | 0 <= k < j :: svc !in ps[k].services)
      ensures j in Deps(ps, i)
    {
      assert Owner(ps, svc, 0) == j;
    }
    if j in Deps(ps, i) {
      var svc :| svc in ps[i].deps && Owner(ps, svc, 0) < |ps| && Owner(ps, svc, 0) == j;
    }
  }

  /** A numbering of the partitions, dependencies first; it exists exactly when the check has passed. */
  ghost predicate Ranked(ps: Partitions, rank: seq<nat>) {
    && |rank| == |ps|
    && (forall i | 0 <= i < |ps| :: rank[i] < |ps|)
    && (forall i, j | 0 <= i < j < |ps| :: rank[i] != rank[j])
    && (forall i, j | 0 <= i < |ps| && j in Deps(ps, i) :: rank[j] < rank[i])
  }

  /** The score as documented: one, plus the scores of all distinct dependencies. */
  ghost function Score(ps: Partitions, rank: seq<nat>, i: nat): (s: nat)
    requires Ranked(ps, rank) && i < |ps|
    decreases rank[i], |ps| + 1
  {
    1 + SumOver(ps, rank, i, Deps(ps, i), |ps|)
  }

  /** Sum of the scores of those members of `s` that are below `k`. */
  ghost function SumOver(ps: Partitions, rank: seq<nat>, i: nat, s: set<nat>, k: nat): nat
    requires Ranked(ps, rank) && i < |ps| && s <= Deps(ps, i) && k <= |ps|
    decreases rank[i], k
  {
    if k == 0 then 0 else SumOver(ps, rank, i, s, k - 1) + if k - 1 in s then Score(ps, rank, k - 1) else 0
  }

  /** Each dependency is counted once, whatever the order they are visited in. */
  lemma {:induction false} SumAdd(ps: Partitions, rank: seq<nat>, i: nat, s: set<nat>, j: nat, k: nat)
    requires Ranked(ps, rank) && i < |ps| && s <= Deps(ps, i) && k <= |ps| && j in Deps(ps, i) && j !in s
    ensures SumOver(ps, rank, i, s + {j}, k) == SumOver(ps, rank, i, s, k) + if j < k then Score(ps, rank, j) else 0
  {
    if k > 0 {
      SumAdd(ps, rank, i, s, j, k - 1);
    }
  }

  lemma {:induction false} SumMember(ps: Partitions, rank: seq<nat>, i: nat, s: set<nat>, j: nat, k: nat)
    requires Ranked(ps, rank) && i < |ps| && s <= Deps(ps, i) && k <= |ps| && j in s && j < k
    ensures Score(ps, rank, j) <= SumOver(ps, rank, i, s, k)
  {
    if j < k - 1 {
      SumMember(ps, rank, i, s, j, k - 1);
    }
  }

  /** A dependency always has a smaller score than its dependent. */
  lemma DependencyScoresLess(ps: Partitions, rank: seq<nat>, i: nat, j: nat)
    requires Ranked(ps, rank) && i < |ps| && j in Deps(ps, i)
    ensures Score(ps, rank, j) < Score(ps, rank, i)
  {
    SumMember(ps, rank, i, Deps(ps, i), j, |ps|);
  }

  /** The score does not depend on which numbering witnesses that there is no cycle. */
  lemma {:induction false} ScoreUnique(ps: Partitions, rank: seq<nat>, rank': seq<nat>, i: nat)
    requires Ranked(ps, rank) && Ranked(ps, rank') && i < |ps|
    ensures Score(ps, rank, i) == Score(ps, rank', i)
    decreases rank[i], |ps| + 1
  {
    SumUnique(ps, rank, rank', i, Deps(ps, i), |ps|);
  }

  lemma {:induction false} SumUnique(ps: Partitions, rank: seq<nat>, rank': seq<nat>, i: nat, s: set<nat>, k: nat)
    requires Ranked(ps, rank) && Ranked(ps, rank') && i < |ps| && s <= Deps(ps, i) && k <= |ps|
    ensures SumOver(ps, rank, i, s, k) == SumOver(ps, rank', i, s, k)
    decreases rank[i], k
  {
    if k > 0 {
      SumUnique(ps, rank, rank', i, s, k - 1);
      if k - 1 in s {
        ScoreUnique(ps, rank, rank', k - 1);
      }
    }
  }

  function Pow2(n: nat): (r: nat)
    ensures r >= 1
  {
    if n == 0 then 1 else 2 * Pow2(n - 1)
  }

  /** Sum of 2^rank over those members of `s` that are below `k`. */
  ghost function PowSum(rank: seq<nat>, s: set<nat>, k: nat): nat
    requires k <= |rank|
  {
    if k == 0 then 0 else PowSum(rank, s, k - 1) + if k - 1 in s then Pow2(rank[k - 1]) else 0
  }

  lemma {:induction false} PowSumRemove(rank: seq<nat>, s: set<nat>, j: nat, k: nat)
    requires k <= |rank| && j in s && j < |rank|
    ensures PowSum(rank, s, k) == PowSum(rank, s - {j}, k) + if j < k then Pow2(rank[j]) else 0
  {
    if k > 0 {
      PowSumRemove(rank, s, j, k - 1);
    }
  }

  lemma {:induction false} PowSumEmpty(rank: seq<nat>, s: set<nat>, k: nat)
    requires k <= |rank| && forall j | j in s :: j >= |rank|
    ensures PowSum(rank, s, k) == 0
  {
    if k > 0 {
      PowSumEmpty(rank, s, k - 1);
    }
  }

  /** Distinct ranks below m sum to less than 2^m. */
  lemma {:induction false} PowSumBound(rank: seq<nat>, s: set<nat>, m: nat)
    requires forall i, j | 0 <= i < j < |rank| :: rank[i] != rank[j]
    requires forall j | j in s :: j < |rank| && rank[j] < m
    ensures PowSum(rank, s, |rank|) + 1 <= Pow2(m)
    decreases m
  {
    if s == {} {
      PowSumEmpty(rank, s, |rank|);
    } else if j :| j in s && rank[j] == m - 1 {
      PowSumRemove(rank, s, j, |rank|);
      forall k | k in s - {j} ensures rank[k] < m - 1 {
        assert rank[k] != rank[j];
      }
      PowSumBound(rank, s - {j}, m - 1);
    } else {
      var j :| j in s;
      PowSumBound(rank, s, m - 1);
    }
  }

  lemma {:induction false} SumBelowPowSum(ps: Partitions, rank: seq<nat>, i: nat, s: set<nat>, k: nat)
    requires Ranked(ps, rank) && i < |ps| && s <= Deps(ps, i) && k <= |ps|
    ensures SumOver(ps, rank, i, s, k) <= PowSum(rank, s, k)
    decreases rank[i], k
  {
    if k > 0 {
      SumBelowPowSum(ps, rank, i, s, k - 1);
      if k - 1 in s {
        ScoreBound(ps, rank, k - 1);
      }
    }
  }

  /** The score at most doubles with every rank. */
  lemma {:induction false} ScoreBound(ps: Partitions, rank: seq<nat>, i: nat)
    requires Ranked(ps, rank) && i < |ps|
    ensures Score(ps, rank, i) <= Pow2(rank[i])
    decreases rank[i], |ps| + 1
  {
    SumBelowPowSum(ps, rank, i, Deps(ps, i), |ps|);
    PowSumBound(rank, Deps(ps, i), rank[i]);
  }

  lemma {:induction false} Pow2Mono(a: nat, b: nat)
    requires a <= b
    ensures Pow2(a) <= Pow2(b)
  {
    if a < b {
      Pow2Mono(a, b - 1);
    }
  }

  /** With n partitions no score exceeds 2^(n-1). */
  lemma ScoreAtMost(ps: Partitions, rank: seq<nat>, i: nat)
    requires Ranked(ps, rank) && i < |ps|
    ensures Score(ps, rank, i) <= Pow2(|ps| - 1)
  {
    ScoreBound(ps, rank, i);
    Pow2Mono(rank[i], |ps| - 1);
  }

  function PriorityBase(p: Priority): nat {
    match p
    case Lowest => 0xFF * 0x100
    case Low => 0x7F * 0x100
    case Normal => 0x1F * 0x100
    case High => 0xF * 0x100
    case Highest => 0
  }

  /** Loading order value: priority in the high byte, the score masked to the low byte. */
  function OrderValue(p: Priority, score: nat): nat {
    score % 0x100 + PriorityBase(p)
  }

  /** Order values compare by priority first and by masked score second. */
  lemma OrderIsLexicographic(p: Priority, s: nat, q: Priority, t: nat)
    ensures OrderValue(p, s) < OrderValue(q, t) <==>
      (p == Highest && q != Highest) || (p == High && (q == Normal || q == Low || q == Lowest))
      || (p == Normal && (q == Low || q == Lowest)) || (p == Low && q == Lowest) || (p == q && s % 0x100 < t % 0x100)
  {
  }

  /** score_list: the memo of the recursion. */
  class ScoreList {
    const ps: Partitions
    var done: seq<bool>
    var score: seq<nat>

    ghost predicate Valid(rank: seq<nat>)
      reads this
    {
      && Ranked(ps, rank) && |done| == |score| == |ps|
      && forall i | 0 <= i < |ps| && done[i] :: score[i] == Score(ps, rank, i)
    }

    constructor (ps: Partitions, ghost rank: seq<nat>)
      requires Ranked(ps, rank)
      ensures Valid(rank) && this.ps == ps
    {
      this.ps := ps;
      done, score := seq(|ps|, _ => false), seq(|ps|, _ => 0);
    }

    /** The loop that maps dependencies to partition indices, duplicates removed. */
    method DependencyIndices(i: nat) returns (s: set<nat>)
      requires i < |ps|
      ensures s == Deps(ps, i)
    {
      s := {};
      for k := 0 to |ps[i].deps|
        invariant s == Owners(ps, ps[i].deps[..k])
      {
        var j := Owner(ps, ps[i].deps[k], 0);
        assert ps[i].deps[..k + 1] == ps[i].deps[..k] + [ps[i].deps[k]];
        OwnersAppend(ps, ps[i].deps[..k], ps[i].deps[k]);
        if j < |ps| {
          s := s + {j};
        }
      }
      assert ps[i].deps[..|ps[i].deps|] == ps[i].deps;
    }

    /** calc_partition_dependency_score; terminates because dependencies have smaller rank. */
    method Calc(i: nat, ghost rank: seq<nat>) returns (s: nat)
      requires Valid(rank) && i < |ps|
      modifies this`done, this`score
      ensures Valid(rank) && s == Score(ps, rank, i)
      decreases rank[i]
    {
      if done[i] {
        return score[i];
      }
      s := 1;
      var todo := DependencyIndices(i);
      ghost var seen: set<nat> := {};
      SumNone(ps, rank, i, |ps|);
      while todo != {}
        invariant Valid(rank) && seen !! todo && seen + todo == Deps(ps, i)
        invariant s == 1 + SumOver(ps, rank, i, seen, |ps|)
        decreases todo
      {
        var j :| j in todo;
        var t := Calc(j, rank);
        SumAdd(ps, rank, i, seen, j, |ps|);
        s, todo, seen := s + t, todo - {j}, seen + {j};
      }
      assert seen == Deps(ps, i);
      score, done := score[i := s], done[i := true];
    }
  }

  lemma {:induction false} SumNone(ps: Partitions, rank: seq<nat>, i: nat, k: nat)
    requires Ranked(ps, rank) && i < |ps| && k <= |ps|
    ensures SumOver(ps, rank, i, {}, k) == 0
  {
    if k > 0 {
      SumNone(ps, rank, i, k - 1);
    }
  }

  /** One for a partition without dependencies, and each dependency adds its own score. */
  lemma ScoreAddsUp(ps: Partitions, rank: seq<nat>, i: nat, j: nat, k: nat)
    requires Ranked(ps, rank) && i < |ps|
    ensures Deps(ps, i) == {} ==> Score(ps, rank, i) == 1
    ensures j < |ps| && Deps(ps, i) == {j} ==> Score(ps, rank, i) == 1 + Score(ps, rank, j)
    ensures j < |ps| && k < |ps| && j != k && Deps(ps, i) == {j, k}
      ==> Score(ps, rank, i) == 1 + Score(ps, rank, j) + Score(ps, rank, k)
  {
    SumNone(ps, rank, i, |ps|);
    if j in Deps(ps, i) {
      SumAdd(ps, rank, i, {}, j, |ps|);
      assert {} + {j} == {j};
      if k in Deps(ps, i) && j != k {
        SumAdd(ps, rank, i, {j}, k, |ps|);
        assert {j} + {k} == {j, k};
      }
    }
  }

  /** calc_partitions_load_order. */
  method CalcLoadOrder(ps: Partitions, ghost rank: seq<nat>) returns (order: seq<nat>)
    requires Ranked(ps, rank)
    ensures |order| == |ps|
    ensures forall i | 0 <= i < |ps| :: order[i] == OrderValue(ps[i].priority, Score(ps, rank, i))
    ensures forall i | 0 <= i < |ps| :: order[i] % 0x100 == Score(ps, rank, i) % 0x100
    ensures forall i | 0 <= i < |ps| ::
      && (ps[i].priority == Highest ==> order[i] / 0x100 == 0)
      && (ps[i].priority == High ==> order[i] / 0x100 == 0xF)
      && (ps[i].priority == Normal ==> order[i] / 0x100 == 0x1F)
      && (ps[i].priority == Low ==> order[i] / 0x100 == 0x7F)
      && (ps[i].priority == Lowest ==> order[i] / 0x100 == 0xFF)
    ensures forall i, j | 0 <= i < |ps| && 0 <= j < |ps| ::
      (ps[i].priority == Highest && ps[j].priority != Highest)
      || (ps[i].priority == High && ps[j].priority in {Normal, Low, Lowest})
      || (ps[i].priority == Normal && ps[j].priority in {Low, Lowest})
      || (ps[i].priority == Low && ps[j].priority == Lowest)
      ==> order[i] < order[j]
  {
    var scores := new ScoreList(ps, rank);
    order := [];
    for i := 0 to |ps|
      invariant scores.Valid(rank) && scores.ps == ps && |order| == i
      invariant forall k | 0 <= k < i :: order[k] == OrderValue(ps[k].priority, Score(ps, rank, k))
    {
      var s := scores.Calc(i, rank);
      order := order + [OrderValue(ps[i].priority, s)];
    }
  }

  /** The dependency of a partition of the same priority is loaded before it. */
  ghost predicate LoadsInOrder(ps: Partitions, rank: seq<nat>)
    requires Ranked(ps, rank)
  {
    forall i, j | 0 <= i < |ps| && j in Deps(ps, i) && ps[j].priority == ps[i].priority ::
      OrderValue(ps[j].priority, Score(ps, rank, j)) < OrderValue(ps[i].priority, Score(ps, rank, i))
  }

  /** As long as no score needs more than eight bits, dependencies load first. */
  lemma SmallScoresLoadInOrder(ps: Partitions, rank: seq<nat>)
    requires Ranked(ps, rank) && forall i | 0 <= i < |ps| :: Score(ps, rank, i) < 0x100
    ensures LoadsInOrder(ps, rank)
  {
    forall i, j | 0 <= i < |ps| && j in Deps(ps, i) && ps[j].priority == ps[i].priority
      ensures OrderValue(ps[j].priority, Score(ps, rank, j)) < OrderValue(ps[i].priority, Score(ps, rank, i))
    {
      DependencyScoresLess(ps, rank, i, j);
    }
  }

  /** A name of its own for every number. */
  function Name(i: nat): (s: string)
    ensures |s| == i
  {
    seq(i, _ => 'p')
  }

  function Names(n: nat): (r: seq<string>)
    ensures |r| == n && forall k | 0 <= k < n :: r[k] == Name(k)
  {
    seq(n, (k: nat) => Name(k))
  }

  /** n partitions, each depending on all before it. */
  function Tower(n: nat): (ps: Partitions)
    ensures |ps| == n
  {
    seq(n, (i: nat) => Partition(Name(i), Names(i), [Name(i)], Normal))
  }

  lemma TowerDeps(n: nat, i: nat)
    requires i < n
    ensures forall j :: j in Deps(Tower(n), i) <==> 0 <= j < i
  {
    var ps := Tower(n);
    assert ps[i].deps == Names(i);
    forall k: nat | k < i ensures Owner(ps, Name(k), 0) == k {
      var o := Owner(ps, Name(k), 0);
      assert Name(k) in ps[k].services;
      if o < n {
        assert ps[o].services == [Name(o)] && |Name(o)| == |Name(k)|;
      }
    }
    forall j: nat | j < i ensures j in Deps(ps, i) {
      assert ps[i].deps[j] == Name(j);
    }
    forall j | j in Deps(ps, i) ensures j < i {
      var svc :| svc in ps[i].deps && Owner(ps, svc, 0) == j;
      var k :| 0 <= k < i && ps[i].deps[k] == svc;
      assert svc == Name(k);
    }
  }

  function TowerRank(n: nat): (r: seq<nat>)
    ensures |r| == n
  {
    seq(n, i => i)
  }

  lemma TowerRanked(n: nat)
    ensures Ranked(Tower(n), TowerRank(n))
  {
    forall i, j | 0 <= i < n && j in Deps(Tower(n), i) ensures j < i {
      TowerDeps(n, i);
    }
  }

  lemma {:induction false} TowerScore(n: nat, i: nat)
    requires i < n
    ensures Ranked(Tower(n), TowerRank(n)) && Score(Tower(n), TowerRank(n), i) == Pow2(i)
    decreases i, n + 1
  {
    TowerRanked(n);
    TowerDeps(n, i);
    TowerSum(n, i, n);
  }

  lemma {:induction false} TowerSum(n: nat, i: nat, k: nat)
    requires i < n && k <= n && Ranked(Tower(n), TowerRank(n))
    requires forall j :: j in Deps(Tower(n), i) <==> 0 <= j < i
    ensures SumOver(Tower(n), TowerRank(n), i, Deps(Tower(n), i), k) + 1 == Pow2(if k < i then k else i)
    decreases i, k
  {
    if k > 0 {
      TowerSum(n, i, k - 1);
      if k <= i {
        TowerScore(n, k - 1);
      }
    }
  }

  /** The mask to eight bits is harmless for every set of n partitions if and only if n is at most eight. */
  lemma MaskHarmlessIff(n: nat)
    ensures (forall ps: Partitions, rank | |ps| == n && Ranked(ps, rank) :: LoadsInOrder(ps, rank)) <==> n <= 8
  {
    if n <= 8 {
      forall ps: Partitions, rank | |ps| == n && Ranked(ps, rank) ensures LoadsInOrder(ps, rank) {
        forall i | 0 <= i < |ps| ensures Score(ps, rank, i) < 0x100 {
          ScoreAtMost(ps, rank, i);
          Pow2Mono(n - 1, 7);
          assert Pow2(7) == 128;
        }
        SmallScoresLoadInOrder(ps, rank);
      }
    } else {
      var ps, rank := Tower(n), TowerRank(n);
      TowerRanked(n);
      TowerDeps(n, 8);
      TowerScore(n, 8);
      TowerScore(n, 0);
      assert Pow2(8) == 256 by { assert Pow2(4) == 16; }
      assert 0 in Deps(ps, 8);
      assert !LoadsInOrder(ps, rank);
    }
  }
}
