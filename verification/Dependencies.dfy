/**
 * The two dependency graphs of the manifest tool, one by name for the cycle check and one by index for the scores,
 * and the pass that checks the one before it recurses over the other (tools/tfm_parse_manifest_list.py, lines 536-603).
 */
module Dependencies {
  import opened PartitionGraph
  import opened LoadOrder

  ghost predicate DistinctNames(ps: Partitions) {
    forall i, j | 0 <= i < j < |ps| :: ps[i].name != ps[j].name
  }

  /** No service is offered by two partitions. */
  ghost predicate NoneShared(ps: Partitions) {
    forall i, j, svc | 0 <= i < j < |ps| && svc in ps[i].services :: svc !in ps[j].services
  }

  /** A partition whose name is taken again further down offers nothing. */
  ghost predicate NamesakesSilent(ps: Partitions) {
    forall i, j | 0 <= i < j < |ps| && ps[i].name == ps[j].name :: ps[i].services == []
  }

  /** Entry i is the last of the first k with its name. */
  ghost predicate LastOfName(ps: Partitions, k: nat, i: nat) {
    i < k <= |ps| && forall j | i < j < k :: ps[j].name != ps[i].name
  }

  ghost predicate Unique(ps: Partitions) {
    DistinctNames(ps) && NoneShared(ps)
  }

  function AddServices(m: map<string, string>, svcs: seq<string>, name: string): (r: map<string, string>)
    ensures forall s :: s in r <==> s in m || s in svcs
    ensures forall s | s in r :: r[s] == if s in svcs then name else m[s]
  {
    if svcs == [] then m else AddServices(m, svcs[..|svcs| - 1], name)[svcs[|svcs| - 1] := name]
  }

  /** service_partition_map after the first k manifests. */
  function ServiceMap(ps: Partitions, k: nat): map<string, string>
    requires k <= |ps|
  {
    if k == 0 then map[] else AddServices(ServiceMap(ps, k - 1), ps[k - 1].services, ps[k - 1].name)
  }

  /** The comprehension that replaces services by their owners and drops unknown ones. */
  function OwnerNames(m: map<string, string>, deps: seq<string>): (r: seq<string>)
    ensures forall x :: x in r <==> exists d :: d in deps && d in m && m[d] == x
  {
    if deps == [] then []
    else
      var d := deps[|deps| - 1];
      OwnerNames(m, deps[..|deps| - 1]) + if d in m then [m[d]] else []
  }

  /** dependency_table after the first k partitions. */
  function Table(ps: Partitions, m: map<string, string>, k: nat): Graph
    requires k <= |ps|
  {
    if k == 0 then map[] else Table(ps, m, k - 1)[ps[k - 1].name := OwnerNames(m, ps[k - 1].deps)]
  }

  function TableOf(ps: Partitions): Graph {
    Table(ps, ServiceMap(ps, |ps|), |ps|)
  }

  lemma {:induction false} ServiceMapOwners(ps: Partitions, k: nat, svc: string)
    requires NoneShared(ps) && k <= |ps|
    ensures svc in ServiceMap(ps, k) <==> Owner(ps, svc, 0) < k
    ensures svc in ServiceMap(ps, k) ==> ServiceMap(ps, k)[svc] == ps[Owner(ps, svc, 0)].name
  {
    if k > 0 {
      ServiceMapOwners(ps, k - 1, svc);
      var o := Owner(ps, svc, 0);
      if svc in ps[k - 1].services {
        assert o <= k - 1;
      }
    }
  }

  function NameSet(ps: Partitions, k: nat): set<string>
    requires k <= |ps|
  {
    set i | 0 <= i < k :: ps[i].name
  }

  lemma {:induction false} TableKeys(ps: Partitions, m: map<string, string>, k: nat)
    requires k <= |ps|
    ensures Table(ps, m, k).Keys == NameSet(ps, k) && |Table(ps, m, k)| <= k
  {
    if k > 0 {
      TableKeys(ps, m, k - 1);
      KeysStep(Table(ps, m, k - 1), ps[k - 1].name, OwnerNames(m, ps[k - 1].deps));
      NameSetStep(ps, k);
    }
  }

  lemma KeysStep(g: Graph, name: string, row: seq<string>)
    ensures g[name := row].Keys == g.Keys + {name} && |g[name := row]| <= |g| + 1
  {
    var all := g[name := row];
    forall x ensures x in all.Keys <==> x in g.Keys + {name} {
    }
    assert |all.Keys| <= |g.Keys| + 1;
  }

  lemma NameSetStep(ps: Partitions, k: nat)
    requires 0 < k <= |ps|
    ensures NameSet(ps, k) == NameSet(ps, k - 1) + {ps[k - 1].name}
  {
    forall x ensures x in NameSet(ps, k) <==> x in NameSet(ps, k - 1) + {ps[k - 1].name} {
    }
  }

  /** A later partition of the same name takes over the row. */
  lemma {:induction false} TableRow(ps: Partitions, m: map<string, string>, k: nat, i: nat)
    requires LastOfName(ps, k, i)
    ensures ps[i].name in Table(ps, m, k) && Table(ps, m, k)[ps[i].name] == OwnerNames(m, ps[i].deps)
  {
    if i < k - 1 {
      TableRow(ps, m, k - 1, i);
    }
  }

  lemma {:induction false} LastNamesake(ps: Partitions, k: nat, name: string) returns (i: nat)
    requires k <= |ps| && name in NameSet(ps, k)
    ensures LastOfName(ps, k, i) && ps[i].name == name
  {
    i := k - 1;
    if ps[i].name != name {
      NameSetStep(ps, k);
      i := LastNamesake(ps, k - 1, name);
    }
  }

  /** Both constructions describe the same graph. */
  lemma EdgesAgree(ps: Partitions, i: nat, j: nat)
    requires Unique(ps) && i < |ps| && j < |ps|
    ensures Edge(TableOf(ps), ps[i].name, ps[j].name) <==> j in Deps(ps, i)
  {
    var m := ServiceMap(ps, |ps|);
    TableRow(ps, m, |ps|, i);
    var row := OwnerNames(m, ps[i].deps);
    if ps[j].name in row {
      var d :| d in ps[i].deps && d in m && m[d] == ps[j].name;
      ServiceMapOwners(ps, |ps|, d);
      var o := Owner(ps, d, 0);
      assert o == j;
      assert o in Owners(ps, ps[i].deps);
    }
    if j in Deps(ps, i) {
      var d :| d in ps[i].deps && Owner(ps, d, 0) < |ps| && Owner(ps, d, 0) == j;
      ServiceMapOwners(ps, |ps|, d);
      assert ps[j].name in row;
    }
  }

  lemma {:induction false} ServiceMapNames(ps: Partitions, k: nat, svc: string)
    requires k <= |ps| && svc in ServiceMap(ps, k)
    ensures ServiceMap(ps, k)[svc] in NameSet(ps, k)
  {
    NameSetStep(ps, k);
    if svc !in ps[k - 1].services {
      ServiceMapNames(ps, k - 1, svc);
    }
  }

  lemma TableClosed(ps: Partitions)
    ensures Closed(TableOf(ps))
  {
    var m, g := ServiceMap(ps, |ps|), TableOf(ps);
    TableKeys(ps, m, |ps|);
    forall p, x | p in g && x in g[p] ensures x in g {
      var i := LastNamesake(ps, |ps|, p);
      TableRow(ps, m, |ps|, i);
      var d :| d in ps[i].deps && d in m && m[d] == x;
      ServiceMapNames(ps, |ps|, d);
    }
  }

  // The graph the scores follow, with the numbers of the partitions for names

  function OwnerNumbers(ps: Partitions, deps: seq<string>): seq<string> {
    if deps == [] then []
    else
      var o := Owner(ps, deps[|deps| - 1], 0);
      OwnerNumbers(ps, deps[..|deps| - 1]) + if o < |ps| then [Name(o)] else []
  }

  lemma {:induction false} OwnerNumbered(ps: Partitions, deps: seq<string>, d: string)
    requires d in deps && Owner(ps, d, 0) < |ps|
    ensures Name(Owner(ps, d, 0)) in OwnerNumbers(ps, deps)
  {
    if d != deps[|deps| - 1] {
      OwnerNumbered(ps, deps[..|deps| - 1], d);
    }
  }

  lemma {:induction false} NumberedOwner(ps: Partitions, deps: seq<string>, x: string) returns (d: string)
    requires x in OwnerNumbers(ps, deps)
    ensures d in deps && Owner(ps, d, 0) < |ps| && Name(Owner(ps, d, 0)) == x
  {
    var n := |deps| - 1;
    if x in OwnerNumbers(ps, deps[..n]) {
      d := NumberedOwner(ps, deps[..n], x);
    } else {
      d := deps[n];
    }
  }

  ghost function ScoreGraph(ps: Partitions): Graph {
    map x | x in Numbers(|ps|) :: OwnerNumbers(ps, ps[|x|].deps)
  }

  function Numbers(n: nat): (r: set<string>)
    ensures forall x :: x in r <==> |x| < n && x == Name(|x|)
  {
    set i: nat | i < n :: Name(i)
  }

  lemma {:induction false} NumbersCount(n: nat)
    ensures |Numbers(n)| == n
  {
    if n == 0 {
      assert Numbers(0) == {};
    } else {
      NumbersCount(n - 1);
      forall x ensures x in Numbers(n) <==> x in Numbers(n - 1) + {Name(n - 1)} {
      }
      assert Numbers(n) == Numbers(n - 1) + {Name(n - 1)};
    }
  }

  lemma ScoreEdge(ps: Partitions, i: nat, j: nat)
    requires i < |ps| && j < |ps|
    ensures Edge(ScoreGraph(ps), Name(i), Name(j)) <==> j in Deps(ps, i)
  {
    if Edge(ScoreGraph(ps), Name(i), Name(j)) {
      var d := NumberedOwner(ps, ps[i].deps, Name(j));
      assert |Name(Owner(ps, d, 0))| == j;
      assert Owner(ps, d, 0) in Owners(ps, ps[i].deps);
    }
    if j in Deps(ps, i) {
      var d :| d in ps[i].deps && Owner(ps, d, 0) < |ps| && Owner(ps, d, 0) == j;
      OwnerNumbered(ps, ps[i].deps, d);
      assert Name(i) in Numbers(|ps|);
    }
  }

  function IndexOf(order: seq<string>, x: string): (k: nat)
    requires x in order
    ensures k < |order| && order[k] == x
  {
    if order[0] == x then 0 else 1 + IndexOf(order[1..], x)
  }

  /** The score recursion is well founded. */
  ghost predicate Scorable(ps: Partitions) {
    exists rank :: Ranked(ps, rank)
  }

  /** It is if the graph it follows has no cycle. */
  lemma AcyclicIsScorable(ps: Partitions)
    requires !HasCycle(ScoreGraph(ps))
    ensures Scorable(ps)
  {
    var g, n := ScoreGraph(ps), |ps|;
    forall p, d | p in g && d in g[p] ensures d in g {
      var s := NumberedOwner(ps, ps[|p|].deps, d);
    }
    var order := AcyclicTopological(g, []);
    NumbersCount(n);
    DistinctFits(order, g.Keys);
    assert g.Keys == Numbers(n);
    forall i: nat | i < n ensures Name(i) in order {
      assert Name(i) in g;
    }
    var rank := seq(n, i requires 0 <= i < n => IndexOf(order, Name(i)));
    forall i, j | 0 <= i < n && j in Deps(ps, i) ensures rank[j] < rank[i] {
      RankDescends(ps, order, rank, i, j);
    }
    forall i, j | 0 <= i < j < n ensures rank[i] != rank[j] {
      assert order[rank[i]] == Name(i) && order[rank[j]] == Name(j) && |Name(i)| != |Name(j)|;
    }
    assert Ranked(ps, rank);
  }

  lemma RankDescends(ps: Partitions, order: seq<string>, rank: seq<nat>, i: nat, j: nat)
    requires Topological(ScoreGraph(ps), order) && |rank| == |ps|
    requires forall k | 0 <= k < |ps| :: rank[k] < |order| && order[rank[k]] == Name(k)
    requires i < |ps| && j in Deps(ps, i)
    ensures rank[j] < rank[i]
  {
    ScoreEdge(ps, i, j);
    var below := order[..rank[i]];
    assert Name(j) in below;
    var k :| 0 <= k < |below| && below[k] == Name(j);
    assert order[k] == order[rank[j]];
  }

  /** A partition that offers something and is not silenced by a namesake has the row of its name. */
  lemma GuardedEdge(ps: Partitions, i: nat, j: nat)
    requires NoneShared(ps) && NamesakesSilent(ps) && i < |ps| && j in Deps(ps, i) && ps[i].services != []
    ensures Edge(TableOf(ps), ps[i].name, ps[j].name)
  {
    var m := ServiceMap(ps, |ps|);
    assert LastOfName(ps, |ps|, i);
    TableRow(ps, m, |ps|, i);
    var d :| d in ps[i].deps && Owner(ps, d, 0) < |ps| && Owner(ps, d, 0) == j;
    ServiceMapOwners(ps, |ps|, d);
    assert ps[j].name in OwnerNames(m, ps[i].deps);
  }

  /** On a cycle every partition offers something, so a cycle of the score graph is one the check sees. */
  lemma CycleIsSeen(ps: Partitions)
    requires NoneShared(ps) && NamesakesSilent(ps) && HasCycle(ScoreGraph(ps))
    ensures HasCycle(TableOf(ps))
  {
    var g, n := ScoreGraph(ps), |ps|;
    var c :| IsCycle(g, c);
    forall k | 0 <= k < |c| ensures c[k] in Numbers(n) && ps[|c[k]|].services != [] {
      var before := if k == 0 then |c| - 2 else k - 1;
      assert Edge(g, c[before], c[before + 1]);
      var d := NumberedOwner(ps, ps[|c[before]|].deps, c[k]);
    }
    var names := seq(|c|, k requires 0 <= k < |c| => ps[|c[k]|].name);
    forall k | 0 <= k < |names| - 1 ensures Edge(TableOf(ps), names[k], names[k + 1]) {
      assert Edge(g, c[k], c[k + 1]);
      ScoreEdge(ps, |c[k]|, |c[k + 1]|);
      GuardedEdge(ps, |c[k]|, |c[k + 1]|);
    }
    assert IsCycle(TableOf(ps), names);
  }

  /** Once the check by name has passed, the recursion by index is well founded. */
  lemma CheckedIsScorable(ps: Partitions)
    requires NoneShared(ps) && NamesakesSilent(ps) && !HasCycle(TableOf(ps))
    ensures Scorable(ps)
  {
    if HasCycle(ScoreGraph(ps)) {
      CycleIsSeen(ps);
    }
    AcyclicIsScorable(ps);
  }

  method BuildServiceMap(ps: Partitions) returns (m: map<string, string>)
    ensures m == ServiceMap(ps, |ps|)
  {
    m := map[];
    for i := 0 to |ps|
      invariant m == ServiceMap(ps, i)
    {
      ghost var before := m;
      for k := 0 to |ps[i].services|
        invariant m == AddServices(before, ps[i].services[..k], ps[i].name)
      {
        m := m[ps[i].services[k] := ps[i].name];
        assert ps[i].services[..k + 1][..k] == ps[i].services[..k];
      }
      assert ps[i].services[..|ps[i].services|] == ps[i].services;
    }
  }

  method BuildTable(ps: Partitions, m: map<string, string>) returns (g: Graph, names: seq<string>)
    ensures g == Table(ps, m, |ps|)
    ensures forall p :: p in names <==> p in g
  {
    g, names := map[], [];
    for i := 0 to |ps|
      invariant g == Table(ps, m, i)
      invariant forall p :: p in names <==> p in g
    {
      if ps[i].name !in g {
        names := names + [ps[i].name];
      }
      g := g[ps[i].name := OwnerNames(m, ps[i].deps)];
    }
  }

  /** check_circular_dependency, then calc_partitions_load_order, for every list on which the tool comes to an end. */
  method OrderPartitions(ps: Partitions) returns (ok: bool, order: seq<nat>, ghost rank: seq<nat>)
    requires HasCycle(TableOf(ps)) || Scorable(ps)
    ensures ok <==> !HasCycle(TableOf(ps))
    ensures ok ==> Ranked(ps, rank) && |order| == |ps|
    ensures ok ==> forall i | 0 <= i < |ps| :: order[i] == OrderValue(ps[i].priority, Score(ps, rank, i))
    ensures ok && |ps| <= 8 ==>
      forall i, j | 0 <= i < |ps| && j in Deps(ps, i) && ps[j].priority == ps[i].priority :: order[j] < order[i]
  {
    order, rank := [], [];
    var m := BuildServiceMap(ps);
    var g, names := BuildTable(ps, m);
    TableClosed(ps);
    var table := new DependencyTable(g);
    ok := table.Check(names);
    if ok {
      rank :| Ranked(ps, rank);
      order := CalcLoadOrder(ps, rank);
      if |ps| <= 8 {
        MaskHarmlessIff(|ps|);
        assert LoadsInOrder(ps, rank);
      }
    }
  }

  /**
   * Service names are not checked for duplicates. With one service offered twice the check sees an edge to the last
   * owner while the scores follow the first, so a partition can pass the check and still depend on itself.
   */
  lemma DuplicateServiceEscapesCheck()
    ensures var ps := [Partition("A", ["s"], ["s"], Normal), Partition("B", [], ["s"], Normal)];
      !HasCycle(TableOf(ps)) && !Scorable(ps)
  {
    LoopEscapes([Partition("A", ["s"], ["s"], Normal), Partition("B", [], ["s"], Normal)], 0, 1, "s");
  }

  /** Nor are partition names: the row of the first "A" is overwritten, and its loop is not seen. */
  lemma DuplicateNameEscapesCheck()
    ensures var ps := [Partition("A", ["s"], ["s"], Normal), Partition("A", [], ["t"], Normal)];
      NoneShared(ps) && !HasCycle(TableOf(ps)) && !Scorable(ps)
  {
    LoopEscapes([Partition("A", ["s"], ["s"], Normal), Partition("A", [], ["t"], Normal)], 0, 1, "s");
  }

  lemma RankFalls(ps: Partitions, rank: seq<nat>, i: nat, j: nat)
    requires Ranked(ps, rank) && i < |ps| && j in Deps(ps, i)
    ensures rank[j] < rank[i]
  {
  }

  /** A partition that depends on itself cannot be numbered. */
  lemma SelfDependency(ps: Partitions, rank: seq<nat>, i: nat)
    requires i < |ps| && i in Deps(ps, i)
    ensures !Ranked(ps, rank)
  {
    if Ranked(ps, rank) {
      RankFalls(ps, rank, i, i);
    }
  }

  /** The same partitions and services, with any dependencies. */
  ghost predicate SameOffers(ps: Partitions, qs: Partitions) {
    |qs| == |ps| && forall i | 0 <= i < |ps| :: qs[i].name == ps[i].name && qs[i].services == ps[i].services
  }

  /** The check guards the scores of these partitions, whatever they depend on. */
  ghost predicate CheckGuards(ps: Partitions) {
    forall qs | SameOffers(ps, qs) && !HasCycle(TableOf(qs)) :: Scorable(qs)
  }

  /**
   * A passed check makes the score recursion terminate, for all dependency lists, exactly if no service is shared and
   * no partition that offers something has a namesake further down.
   */
  lemma CheckGuardsIff(ps: Partitions)
    ensures CheckGuards(ps) <==> NoneShared(ps) && NamesakesSilent(ps)
  {
    if NoneShared(ps) && NamesakesSilent(ps) {
      forall qs | SameOffers(ps, qs) && !HasCycle(TableOf(qs)) ensures Scorable(qs) {
        CheckedIsScorable(qs);
      }
    } else if !NoneShared(ps) {
      var i, j, svc :| 0 <= i < j < |ps| && svc in ps[i].services && svc in ps[j].services;
      var qs := OwnerEscapes(ps, svc, j);
    } else {
      var i, j :| 0 <= i < j < |ps| && ps[i].name == ps[j].name && ps[i].services != [];
      var svc := ps[i].services[0];
      assert Owner(ps, svc, 0) == i;
      var qs := OwnerEscapes(ps, svc, j);
    }
  }

  /**
   * Let the first owner of a service depend on that service: the score sees a self-loop. The check does not, if a
   * partition further down offers the service too or has the owner's name.
   */
  lemma OwnerEscapes(ps: Partitions, svc: string, j: nat) returns (qs: Partitions)
    requires Owner(ps, svc, 0) < j < |ps|
    requires svc in ps[j].services || ps[j].name == ps[Owner(ps, svc, 0)].name
    ensures SameOffers(ps, qs) && !HasCycle(TableOf(qs)) && !Scorable(qs)
  {
    var o := Owner(ps, svc, 0);
    qs := seq(|ps|, k requires 0 <= k < |ps| => ps[k].(deps := if k == o then [svc] else []));
    SameOwner(ps, qs, svc, 0);
    LoopEscapes(qs, o, j, svc);
  }

  lemma LoopEscapes(ps: Partitions, o: nat, j: nat, svc: string)
    requires o == Owner(ps, svc, 0) < j < |ps| && (svc in ps[j].services || ps[j].name == ps[o].name)
    requires forall k | 0 <= k < |ps| :: ps[k].deps == if k == o then [svc] else []
    ensures !HasCycle(TableOf(ps)) && !Scorable(ps)
  {
    LoopUnseen(ps, o, j, svc);
    assert svc in ps[o].deps && o in Owners(ps, ps[o].deps);
    forall rank ensures !Ranked(ps, rank) {
      SelfDependency(ps, rank, o);
    }
  }

  lemma LoopUnseen(ps: Partitions, o: nat, j: nat, svc: string)
    requires o < j < |ps| && (svc in ps[j].services || ps[j].name == ps[o].name)
    requires forall k | 0 <= k < |ps| :: ps[k].deps == if k == o then [svc] else []
    ensures !HasCycle(TableOf(ps))
  {
    if svc in ps[j].services {
      var l := LastOwner(ps, o, j, |ps|, svc);
    }
    if HasCycle(TableOf(ps)) {
      var c :| IsCycle(TableOf(ps), c);
      FirstEdges(TableOf(ps), c);
      OnlyEdge(ps, o, svc, c[0], c[1]);
      if |c| > 2 {
        OnlyEdge(ps, o, svc, c[1], c[2]);
      }
    }
  }

  lemma {:induction false} SameOwner(ps: Partitions, qs: Partitions, svc: string, from: nat)
    requires SameOffers(ps, qs) && from <= |ps|
    ensures Owner(ps, svc, from) == Owner(qs, svc, from)
    decreases |ps| - from
  {
    if from < |ps| {
      SameOwner(ps, qs, svc, from + 1);
    }
  }

  /** The service map names the last owner, which comes after o if any owner does. */
  lemma {:induction false} LastOwner(ps: Partitions, o: nat, j: nat, k: nat, svc: string) returns (l: nat)
    requires o < j < k <= |ps| && svc in ps[j].services
    ensures o < l < k && svc in ServiceMap(ps, k) && ServiceMap(ps, k)[svc] == ps[l].name
  {
    l := k - 1;
    if svc !in ps[k - 1].services {
      l := LastOwner(ps, o, j, k - 1, svc);
    }
  }

  /** With that one dependency the table has at most one edge. */
  lemma OnlyEdge(ps: Partitions, o: nat, svc: string, x: string, y: string)
    requires o < |ps| && forall k | 0 <= k < |ps| :: ps[k].deps == if k == o then [svc] else []
    requires Edge(TableOf(ps), x, y)
    ensures LastOfName(ps, |ps|, o) && x == ps[o].name
    ensures svc in ServiceMap(ps, |ps|) && y == ServiceMap(ps, |ps|)[svc]
  {
    var m := ServiceMap(ps, |ps|);
    TableKeys(ps, m, |ps|);
    var k := LastNamesake(ps, |ps|, x);
    TableRow(ps, m, |ps|, k);
    var d :| d in ps[k].deps && d in m && m[d] == y;
  }

  lemma FirstEdges(g: Graph, c: seq<string>)
    requires IsCycle(g, c)
    ensures Edge(g, c[0], c[1]) && (|c| > 2 ==> Edge(g, c[1], c[2]))
  {
    assert Edge(g, c[0], c[0 + 1]);
    if |c| > 2 {
      assert Edge(g, c[1], c[1 + 1]);
    }
  }
}
