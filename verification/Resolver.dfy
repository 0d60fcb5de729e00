/** Net naming in `solve_connectivity` (editor.py): a breadth-first flood fill
    from every terminal not yet visited, then one name per group (the first
    pin's name, else the first non-blank custom net name, else `N_<k>` from a
    running counter), and the netlist's lookup of a terminal's node. */
module Resolver {
  import opened Text
  import opened Geometry
  import opened Components
  import opened Document
  import opened Connectivity

  /** The points a sequence lists; recursive, so that the solver unfolds it
      only on demand. */
  function Elements(s: seq<Point>): set<Point> {
    if |s| == 0 then {} else Elements(s[..|s| - 1]) + {s[|s| - 1]}
  }

  lemma {:induction false} ElementsMembers(s: seq<Point>)
    ensures forall x :: x in Elements(s) <==> x in s
    decreases |s|
  {
    if |s| > 0 {
      ElementsMembers(s[..|s| - 1]);
      assert s == s[..|s| - 1] + [s[|s| - 1]];
    }
  }

  lemma ElementsAppend(s: seq<Point>, x: Point)
    ensures Elements(s + [x]) == Elements(s) + {x}
  {
    assert (s + [x])[..|s|] == s;
  }

  /** All points reachable from `p`: the net of `p`. */
  ghost function Net(adj: Adjacency, p: Point): iset<Point> {
    iset q | Reachable(adj, p, q)
  }

  /** Along a symmetric adjacency every member of a net has the same net. */
  lemma NetOfMember(adj: Adjacency, p: Point, q: Point)
    requires Symmetric(adj) && q in Net(adj, p)
    ensures Net(adj, q) == Net(adj, p)
  {
    ReachableSymmetric(adj, p, q);
    forall x | x in Net(adj, q)
      ensures x in Net(adj, p)
    {
      ReachableTrans(adj, p, q, x);
    }
    forall x | x in Net(adj, p)
      ensures x in Net(adj, q)
    {
      ReachableTrans(adj, q, p, x);
    }
  }

  // ---------------------------------------------------------------- flood fill

  /** No point occurs twice. */
  predicate NoRepeats(s: seq<Point>) {
    |s| == 0 || (s[|s| - 1] !in Elements(s[..|s| - 1]) && NoRepeats(s[..|s| - 1]))
  }

  lemma {:induction false} NoRepeatsPairwise(s: seq<Point>)
    ensures NoRepeats(s) <==> forall a, b :: 0 <= a < b < |s| ==> s[a] != s[b]
    decreases |s|
  {
    if |s| > 0 {
      var init := s[..|s| - 1];
      NoRepeatsPairwise(init);
      ElementsMembers(init);
      assert forall a :: 0 <= a < |init| ==> init[a] == s[a];
      if NoRepeats(s) {
        forall a, b | 0 <= a < b < |s|
          ensures s[a] != s[b]
        {
          if b == |s| - 1 {
            assert init[a] in init;
          }
        }
      }
      if forall a, b :: 0 <= a < b < |s| ==> s[a] != s[b] {
        forall a | 0 <= a < |init|
          ensures init[a] != s[|s| - 1]
        {
          assert init[a] == s[a];
        }
      }
    }
  }

  /** A repeat-free sequence has as many distinct points as entries. */
  lemma {:induction false} NoRepeatsCard(s: seq<Point>)
    requires NoRepeats(s)
    ensures |Elements(s)| == |s|
    decreases |s|
  {
    if |s| > 0 {
      NoRepeatsCard(s[..|s| - 1]);
    }
  }

  lemma SubsetCard(small: set<Point>, large: set<Point>)
    requires small <= large
    ensures |small| <= |large|
  {
    assert large == small + (large - small);
  }

  /** Every element of `s` is in `s2`. */
  predicate AllIn(s: seq<Point>, s2: set<Point>) {
    |s| == 0 || (s[|s| - 1] in s2 && AllIn(s[..|s| - 1], s2))
  }

  lemma {:induction false} AllInGrows(s: seq<Point>, small: set<Point>, large: set<Point>)
    requires AllIn(s, small) && small <= large
    ensures AllIn(s, large)
    decreases |s|
  {
    if |s| > 0 {
      AllInGrows(s[..|s| - 1], small, large);
    }
  }

  lemma AllInAppend(s: seq<Point>, x: Point, s2: set<Point>)
    requires AllIn(s, s2) && x in s2
    ensures AllIn(s + [x], s2)
  {
    assert (s + [x])[..|s|] == s;
  }

  lemma {:induction false} AllInMembers(s: seq<Point>, s2: set<Point>)
    requires AllIn(s, s2)
    ensures forall x :: x in s ==> x in s2
    decreases |s|
  {
    if |s| > 0 {
      var init := s[..|s| - 1];
      AllInMembers(init, s2);
      assert s == init + [s[|s| - 1]];
    }
  }

  /** Every point of `s` is new to `visited1` and a neighbour of `curr`. */
  predicate NewNeighbours(adj: Adjacency, curr: Point, visited1: set<Point>, s: seq<Point>) {
    |s| == 0 ||
    (s[|s| - 1] !in visited1 && Adjacent(adj, curr, s[|s| - 1]) && NewNeighbours(adj, curr, visited1, s[..|s| - 1]))
  }

  /** Every point of `s` is new to `visited0` and reachable from `seed`. */
  ghost predicate Discovered(adj: Adjacency, seed: Point, visited0: set<Point>, s: seq<Point>) {
    |s| == 0 ||
    (s[|s| - 1] !in visited0 && Reachable(adj, seed, s[|s| - 1]) && Discovered(adj, seed, visited0, s[..|s| - 1]))
  }

  lemma {:induction false} DiscoveredMembers(adj: Adjacency, seed: Point, visited0: set<Point>, s: seq<Point>)
    requires Discovered(adj, seed, visited0, s)
    ensures forall q :: q in s ==> q !in visited0 && Reachable(adj, seed, q)
    decreases |s|
  {
    if |s| > 0 {
      var init := s[..|s| - 1];
      DiscoveredMembers(adj, seed, visited0, init);
      assert s == init + [s[|s| - 1]];
    }
  }

  /** What holds of a partial search from `seed`: `group` lists, without
      repeats, points reachable from the seed and new to `visited0`, and
      `visited` is `visited0` plus the group. */
  ghost predicate FillState(adj: Adjacency, seed: Point, visited0: set<Point>, group: seq<Point>, visited: set<Point>) {
    && |group| > 0 && group[0] == seed
    && visited == visited0 + Elements(group)
    && Discovered(adj, seed, visited0, group)
    && NoRepeats(group)
  }

  /** The inner `for neighbor in adj_list[curr]` loop: the neighbours of
      `curr` not yet visited are appended, in adjacency-list order, and marked
      visited. */
  method VisitNeighbours(adj: Adjacency, curr: Point, visited1: set<Point>)
    returns (added: seq<Point>, visited: set<Point>)
    requires curr in adj
    ensures visited == visited1 + Elements(added)
    ensures NoRepeats(added)
    ensures NewNeighbours(adj, curr, visited1, added)
    ensures forall q :: Adjacent(adj, curr, q) ==> q in visited
  {
    added, visited := [], visited1;
    var neighbours := adj[curr];
    var m := 0;
    while m < |neighbours|
      invariant 0 <= m <= |neighbours|
      invariant visited == visited1 + Elements(added)
      invariant NoRepeats(added)
      invariant NewNeighbours(adj, curr, visited1, added)
      invariant AllIn(neighbours[..m], visited)
    {
      added, visited := VisitOne(adj, curr, visited1, neighbours[..m], neighbours[m], added, visited);
      assert neighbours[..m + 1] == neighbours[..m] + [neighbours[m]];
      m := m + 1;
    }
    assert neighbours[..m] == neighbours;
    AllInMembers(neighbours, visited);
  }

  /** One turn of the inner loop: neighbour `n` is appended and marked
      visited unless it is visited already; either way it joins the
      neighbours `done`. */
  method VisitOne(adj: Adjacency, curr: Point, visited1: set<Point>, done: seq<Point>, n: Point,
                  added0: seq<Point>, visited0: set<Point>)
    returns (added: seq<Point>, visited: set<Point>)
    requires Adjacent(adj, curr, n)
    requires visited0 == visited1 + Elements(added0) && NoRepeats(added0)
    requires NewNeighbours(adj, curr, visited1, added0) && AllIn(done, visited0)
    ensures visited == visited1 + Elements(added) && NoRepeats(added)
    ensures NewNeighbours(adj, curr, visited1, added) && AllIn(done + [n], visited)
    ensures n in visited0 ==> added == added0 && visited == visited0
    ensures n !in visited0 ==> added == added0 + [n] && visited == visited0 + {n}
  {
    added, visited := added0, visited0;
    if n !in visited {
      AllInGrows(done, visited, visited + {n});
      ElementsAppend(added, n);
      assert (added + [n])[..|added|] == added;
      visited := visited + {n};
      added := added + [n];
    }
    AllInAppend(done, n, visited);
  }

  /** Appending the neighbours of a reached point that `VisitNeighbours`
      found keeps the search state. */
  lemma {:induction false} ExtendFill(adj: Adjacency, seed: Point, visited0: set<Point>, curr: Point,
                                      group: seq<Point>, visited: set<Point>, added: seq<Point>, visited2: set<Point>)
    requires Reachable(adj, seed, curr) && FillState(adj, seed, visited0, group, visited)
    requires visited2 == visited + Elements(added) && NoRepeats(added)
    requires NewNeighbours(adj, curr, visited, added)
    ensures FillState(adj, seed, visited0, group + added, visited2)
    decreases |added|
  {
    if |added| == 0 {
      assert group + added == group;
    } else {
      var init, n := added[..|added| - 1], added[|added| - 1];
      ExtendFill(adj, seed, visited0, curr, group, visited, init, visited + Elements(init));
      ReachableStep(adj, seed, curr, n);
      AppendKeepsFillState(adj, seed, visited0, group + init, visited + Elements(init), n);
      assert added == init + [n];
      assert group + added == (group + init) + [n];
    }
  }

  lemma AppendKeepsFillState(adj: Adjacency, seed: Point, visited0: set<Point>,
                             group: seq<Point>, visited: set<Point>, n: Point)
    requires FillState(adj, seed, visited0, group, visited) && n !in visited && Reachable(adj, seed, n)
    ensures FillState(adj, seed, visited0, group + [n], visited + {n})
  {
    ElementsAppend(group, n);
    assert (group + [n])[..|group|] == group;
  }

  /** A point reached from `p` other than `p` itself is a key of the
      adjacency: it closes the last edge of the path. */
  lemma ReachedIsKey(adj: Adjacency, p: Point, q: Point)
    requires NeighboursAreKeys(adj) && Reachable(adj, p, q) && q != p
    ensures q in adj
  {
    var path :| IsPath(adj, path) && path[0] == p && path[|path| - 1] == q;
    assert Adjacent(adj, path[|path| - 2], path[|path| - 1]);
  }

  /** A search state never lists more points than the adjacency has keys,
      plus the seed: this bounds the outer loop. */
  lemma FillBound(adj: Adjacency, seed: Point, visited0: set<Point>, group: seq<Point>)
    requires NeighboursAreKeys(adj) && Discovered(adj, seed, visited0, group) && NoRepeats(group)
    ensures |group| <= |adj.Keys + {seed}|
  {
    DiscoveredMembers(adj, seed, visited0, group);
    ElementsMembers(group);
    forall q | q in Elements(group)
      ensures q in adj.Keys + {seed}
    {
      if q != seed {
        ReachedIsKey(adj, seed, q);
      }
    }
    NoRepeatsCard(group);
    SubsetCard(Elements(group), adj.Keys + {seed});
  }

  /** The breadth-first search of one group: `queue.pop(0)` is the index `k`
      walking along `group`, which doubles as the queue.  `visited` is shared
      with the groups found before; the caller keeps it closed. */
  method FloodFill(adj: Adjacency, seed: Point, visited0: set<Point>) returns (group: seq<Point>, visited: set<Point>)
    requires Symmetric(adj) && NeighboursAreKeys(adj)
    requires Closed(adj, visited0) && seed !in visited0
    ensures |group| > 0 && group[0] == seed
    ensures forall q :: q in group <==> q in Net(adj, seed)
    ensures forall q :: q in group ==> q !in visited0
    ensures NoRepeats(group)
    ensures visited == visited0 + Elements(group)
    ensures Closed(adj, visited)
  {
    group := [seed];
    visited := visited0 + {seed};
    ReachableRefl(adj, seed);
    ElementsAppend([], seed);
    assert [] + [seed] == group && group[..0] == [];
    FillBound(adj, seed, visited0, group);
    ghost var bound := |adj.Keys + {seed}|;
    var k := 0;
    while k < |group|
      invariant 0 <= k <= |group| <= bound
      invariant FillState(adj, seed, visited0, group, visited)
      invariant forall a, q :: 0 <= a < k && Adjacent(adj, group[a], q) ==> q in visited
      decreases bound - k
    {
      group, visited := Expand(adj, seed, visited0, k, group, visited);
      k := k + 1;
    }
    FillClosed(adj, visited0, group, visited);
    DiscoveredMembers(adj, seed, visited0, group);
    FillComplete(adj, seed, visited0, group, visited);
  }

  /** A closed visited set that holds the seed but not before the search
      holds the seed's whole net within the group. */
  lemma FillComplete(adj: Adjacency, seed: Point, visited0: set<Point>, group: seq<Point>, visited: set<Point>)
    requires Symmetric(adj) && Closed(adj, visited0) && Closed(adj, visited) && seed !in visited0
    requires visited == visited0 + Elements(group) && |group| > 0 && group[0] == seed
    ensures forall q :: Reachable(adj, seed, q) ==> q in group
  {
    ElementsMembers(group);
    forall q | Reachable(adj, seed, q)
      ensures q in group
    {
      ClosedKeepsReach(adj, visited, seed, q);
      if q in visited0 {
        ReachableSymmetric(adj, seed, q);
        ClosedKeepsReach(adj, visited0, q, seed);
      }
    }
  }

  /** One turn of the outer loop: the point at index `k` of the queue has
      its neighbours visited. */
  method Expand(adj: Adjacency, seed: Point, visited0: set<Point>, k: nat, group0: seq<Point>, visited1: set<Point>)
    returns (group: seq<Point>, visited: set<Point>)
    requires NeighboursAreKeys(adj) && k < |group0|
    requires FillState(adj, seed, visited0, group0, visited1)
    requires forall a, q :: 0 <= a < k && Adjacent(adj, group0[a], q) ==> q in visited1
    ensures |group0| <= |group| <= |adj.Keys + {seed}|
    ensures FillState(adj, seed, visited0, group, visited)
    ensures forall a, q :: 0 <= a < k + 1 && Adjacent(adj, group[a], q) ==> q in visited
  {
    group, visited := group0, visited1;
    var curr := group[k];
    if curr in adj {
      DiscoveredMembers(adj, seed, visited0, group);
      assert curr in group;
      var added, visited2 := VisitNeighbours(adj, curr, visited);
      ExtendFill(adj, seed, visited0, curr, group, visited, added, visited2);
      group, visited := group + added, visited2;
    }
    FillBound(adj, seed, visited0, group);
  }

  /** Once every point of the group has had its neighbours visited, the
      visited set is closed again. */
  lemma FillClosed(adj: Adjacency, visited0: set<Point>, group: seq<Point>, visited: set<Point>)
    requires Closed(adj, visited0) && visited == visited0 + Elements(group)
    requires forall a, q :: 0 <= a < |group| && Adjacent(adj, group[a], q) ==> q in visited
    ensures Closed(adj, visited)
  {
    ElementsMembers(group);
    forall p, q | p in visited && Adjacent(adj, p, q)
      ensures q in visited
    {
      if p !in visited0 {
        var a :| 0 <= a < |group| && group[a] == p;
      }
    }
  }

  // ---------------------------------------------------------------- naming

  /** Which terminals propose a name: a pin proposes its component name; any
      other terminal proposes its custom net name unless it is blank after
      `strip()` (see `StripEmptyIffBlank`). */
  datatype Role = PinRole | CustomRole

  predicate RoleOk(t: TermEntry, role: Role) {
    match role
    case PinRole => t.comp.kind.Pin?
    case CustomRole => !t.comp.kind.Pin? && Strip(t.term.customNetName) != []
  }

  function Label(t: TermEntry, role: Role): string {
    match role
    case PinRole => t.comp.name
    case CustomRole => t.term.customNetName
  }

  /** `pin_names` or `custom_names`: the proposals of the terminals in `g`,
      in `all_terminals` order. */
  function Collect(terms: seq<TermEntry>, role: Role, g: set<Point>): seq<string> {
    if |terms| == 0 then []
    else
      (if terms[0].at in g && RoleOk(terms[0], role) then [Label(terms[0], role)] else [])
      + Collect(terms[1..], role, g)
  }

  ghost predicate ProposesIn(t: TermEntry, role: Role, net: iset<Point>) {
    t.at in net && RoleOk(t, role)
  }

  ghost predicate HasProposal(terms: seq<TermEntry>, role: Role, net: iset<Point>) {
    exists i :: 0 <= i < |terms| && ProposesIn(terms[i], role, net)
  }

  /** `name` is the proposal of the first terminal of `net` with `role`. */
  ghost predicate FirstProposal(terms: seq<TermEntry>, role: Role, net: iset<Point>, name: string) {
    exists i :: 0 <= i < |terms| && ProposesIn(terms[i], role, net) && name == Label(terms[i], role) &&
      forall k :: 0 <= k < i ==> !ProposesIn(terms[k], role, net)
  }

  ghost predicate IsAutoNet(terms: seq<TermEntry>, net: iset<Point>) {
    !HasProposal(terms, PinRole, net) && !HasProposal(terms, CustomRole, net)
  }

  function AutoName(k: nat): string {
    "N_" + NatToString(k)
  }

  lemma AutoNameInjective(m: nat, n: nat)
    ensures AutoName(m) == AutoName(n) ==> m == n
  {
    if AutoName(m) == AutoName(n) {
      assert AutoName(m)[2..] == NatToString(m);
      assert AutoName(n)[2..] == NatToString(n);
      NatToStringInjective(m, n);
    }
  }

  /** The naming rule for one net. */
  ghost predicate NamedByRule(terms: seq<TermEntry>, net: iset<Point>, name: string) {
    if HasProposal(terms, PinRole, net) then FirstProposal(terms, PinRole, net, name)
    else if HasProposal(terms, CustomRole, net) then FirstProposal(terms, CustomRole, net, name)
    else exists k :: 1 <= k && name == AutoName(k)
  }

  ghost function Members(g: set<Point>): iset<Point> {
    iset q | q in g
  }

  /** The collected list is non-empty exactly when some terminal of the group
      proposes a name, and then starts with the first one's proposal. */
  lemma {:induction false} CollectFirst(terms: seq<TermEntry>, role: Role, g: set<Point>)
    ensures |Collect(terms, role, g)| > 0 <==> HasProposal(terms, role, Members(g))
    ensures |Collect(terms, role, g)| > 0 ==> FirstProposal(terms, role, Members(g), Collect(terms, role, g)[0])
    decreases |terms|
  {
    var net := Members(g);
    if |terms| > 0 {
      var rest := terms[1..];
      CollectFirst(rest, role, g);
      if ProposesIn(terms[0], role, net) {
        assert FirstProposal(terms, role, net, Collect(terms, role, g)[0]) by {
          assert ProposesIn(terms[0], role, net) && Collect(terms, role, g)[0] == Label(terms[0], role);
        }
      } else {
        assert Collect(terms, role, g) == Collect(rest, role, g);
        if HasProposal(terms, role, net) {
          var i :| 0 <= i < |terms| && ProposesIn(terms[i], role, net);
          assert ProposesIn(rest[i - 1], role, net);
        }
        if HasProposal(rest, role, net) {
          var i :| 0 <= i < |rest| && ProposesIn(rest[i], role, net) && Collect(rest, role, g)[0] == Label(rest[i], role) &&
            forall k :: 0 <= k < i ==> !ProposesIn(rest[k], role, net);
          assert terms[i + 1] == rest[i];
          assert forall k :: 0 <= k < i + 1 ==> !ProposesIn(terms[k], role, net) by {
            forall k | 0 < k < i + 1
              ensures !ProposesIn(terms[k], role, net)
            {
              assert terms[k] == rest[k - 1];
            }
          }
        }
      }
    }
  }

  /** The name a new group gets, and the counter afterwards: only an auto
      name uses up a number. */
  function GroupName(terms: seq<TermEntry>, g: set<Point>, counter: nat): (r: (string, nat))
    requires counter >= 1
    ensures NamedByRule(terms, Members(g), r.0)
    ensures IsAutoNet(terms, Members(g)) ==> r == (AutoName(counter), counter + 1)
    ensures !IsAutoNet(terms, Members(g)) ==> r.1 == counter
  {
    var pins := Collect(terms, PinRole, g);
    var customs := Collect(terms, CustomRole, g);
    CollectFirst(terms, PinRole, g);
    CollectFirst(terms, CustomRole, g);
    if |pins| > 0 then (pins[0], counter)
    else if |customs| > 0 then (customs[0], counter)
    else (AutoName(counter), counter + 1)
  }

  // ---------------------------------------------------------------- solve

  /** `node_map[pt] = final_name` for every point of the group. */
  function Assign(m: map<Point, string>, g: set<Point>, name: string): (r: map<Point, string>)
    ensures r.Keys == m.Keys + g
    ensures forall q :: q in g ==> r[q] == name
    ensures forall q :: q in m && q !in g ==> r[q] == m[q]
  {
    m + map q | q in g :: name
  }

  /** Every net touching a key lies wholly among the keys, under one name. */
  ghost predicate NetsWhole(adj: Adjacency, m: map<Point, string>) {
    forall p, q :: p in m && q in Net(adj, p) ==> q in m && m[q] == m[p]
  }

  /** Every key belongs to the net of one of the first `n` terminals. */
  ghost predicate Rooted(adj: Adjacency, terms: seq<TermEntry>, n: nat, m: map<Point, string>) {
    forall q :: q in m ==> exists j :: 0 <= j < n && j < |terms| && q in Net(adj, terms[j].at)
  }

  ghost predicate Named(adj: Adjacency, terms: seq<TermEntry>, m: map<Point, string>) {
    forall p :: p in m ==> NamedByRule(terms, Net(adj, p), m[p])
  }

  /** Some terminal of net `n1` comes before every terminal of net `n2`. */
  ghost predicate EarlierNet(terms: seq<TermEntry>, n1: iset<Point>, n2: iset<Point>) {
    exists j :: 0 <= j < |terms| && terms[j].at in n1 && forall k :: 0 <= k <= j ==> terms[k].at !in n2
  }

  /** Auto-named nets carry numbers from 1 up to below `counter`. */
  ghost predicate AutoBelow(adj: Adjacency, terms: seq<TermEntry>, m: map<Point, string>, counter: nat) {
    forall p :: p in m && IsAutoNet(terms, Net(adj, p)) ==> exists k :: 1 <= k < counter && m[p] == AutoName(k)
  }

  /** Different auto-named nets carry different names. */
  ghost predicate AutoDistinct(adj: Adjacency, terms: seq<TermEntry>, m: map<Point, string>) {
    forall p, q ::
      (p in m && q in m && IsAutoNet(terms, Net(adj, p)) && IsAutoNet(terms, Net(adj, q)) && m[p] == m[q])
      ==> Net(adj, p) == Net(adj, q)
  }

  /** Auto numbers follow the order in which nets are first met in the terminal list. */
  ghost predicate AutoOrdered(adj: Adjacency, terms: seq<TermEntry>, m: map<Point, string>) {
    forall p, q, a, b ::
      (p in m && q in m && IsAutoNet(terms, Net(adj, p)) && IsAutoNet(terms, Net(adj, q)) &&
       m[p] == AutoName(a) && m[q] == AutoName(b) && a < b)
      ==> EarlierNet(terms, Net(adj, p), Net(adj, q))
  }

  /** Some auto-named net carries the name `N_k`. */
  ghost predicate AutoTaken(adj: Adjacency, terms: seq<TermEntry>, m: map<Point, string>, k: nat) {
    exists p :: p in m && IsAutoNet(terms, Net(adj, p)) && m[p] == AutoName(k)
  }

  /** No number below `counter` is skipped: each names some auto-named net. */
  ghost predicate AutoUsed(adj: Adjacency, terms: seq<TermEntry>, m: map<Point, string>, counter: nat) {
    forall k :: 1 <= k < counter ==> AutoTaken(adj, terms, m, k)
  }

  /** The `j`-th terminal's position is a key. */
  predicate Visited(terms: seq<TermEntry>, j: nat, m: map<Point, string>) {
    j < |terms| && terms[j].at in m
  }

  ghost predicate SolveInv(adj: Adjacency, terms: seq<TermEntry>, n: nat, m: map<Point, string>, counter: nat) {
    && (forall j :: 0 <= j < n && j < |terms| ==> Visited(terms, j, m))
    && NetsWhole(adj, m)
    && Rooted(adj, terms, n, m)
    && Named(adj, terms, m)
    && AutoBelow(adj, terms, m, counter)
    && AutoUsed(adj, terms, m, counter)
    && AutoDistinct(adj, terms, m)
    && AutoOrdered(adj, terms, m)
  }

  lemma WholeIsClosed(adj: Adjacency, m: map<Point, string>)
    requires NetsWhole(adj, m)
    ensures Closed(adj, m.Keys)
  {
    forall p, q | p in m.Keys && Adjacent(adj, p, q)
      ensures q in m.Keys
    {
      ReachableRefl(adj, p);
      ReachableStep(adj, p, p, q);
    }
  }

  /** The group found from an unvisited seed shares no point with earlier groups. */
  lemma NewGroupDisjoint(adj: Adjacency, m: map<Point, string>, seed: Point, q: Point)
    requires Symmetric(adj) && NetsWhole(adj, m) && seed !in m && q in Net(adj, seed)
    ensures q !in m
  {
    ReachableSymmetric(adj, seed, q);
  }

  lemma StepNetsWhole(adj: Adjacency, m: map<Point, string>, seed: Point, g: set<Point>, name: string)
    requires Symmetric(adj) && NetsWhole(adj, m) && seed !in m
    requires forall q :: q in g <==> q in Net(adj, seed)
    ensures NetsWhole(adj, Assign(m, g, name))
  {
    var m' := Assign(m, g, name);
    forall p, q | p in m' && q in Net(adj, p)
      ensures q in m' && m'[q] == m'[p]
    {
      if p in g {
        NetOfMember(adj, seed, p);
      } else {
        assert p in m;
        if q in g {
          NewGroupDisjoint(adj, m, seed, q);
        }
      }
    }
  }

  lemma StepRooted(adj: Adjacency, terms: seq<TermEntry>, i: nat, m: map<Point, string>, g: set<Point>, name: string)
    requires i < |terms| && Rooted(adj, terms, i, m)
    requires forall q :: q in g <==> q in Net(adj, terms[i].at)
    ensures Rooted(adj, terms, i + 1, Assign(m, g, name))
  {
  }

  lemma StepNamed(adj: Adjacency, terms: seq<TermEntry>, m: map<Point, string>, seed: Point, g: set<Point>, name: string)
    requires Symmetric(adj) && Named(adj, terms, m)
    requires forall q :: q in g <==> q in Net(adj, seed)
    requires NamedByRule(terms, Members(g), name)
    ensures Named(adj, terms, Assign(m, g, name))
  {
    assert Members(g) == Net(adj, seed);
    forall p | p in g
      ensures NamedByRule(terms, Net(adj, p), name)
    {
      NetOfMember(adj, seed, p);
    }
  }

  /** Facts about one step of the naming loop: the group `g` is the net of
      the unvisited terminal `terms[i]`. */
  ghost predicate NewGroup(adj: Adjacency, terms: seq<TermEntry>, i: nat, m: map<Point, string>, g: set<Point>) {
    && Symmetric(adj) && i < |terms| && terms[i].at !in m
    && NetsWhole(adj, m)
    && (forall q :: q in g <==> q in Net(adj, terms[i].at))
  }

  lemma NewGroupFacts(adj: Adjacency, terms: seq<TermEntry>, i: nat, m: map<Point, string>, g: set<Point>)
    requires NewGroup(adj, terms, i, m, g)
    ensures forall p :: p in g ==> p !in m && Net(adj, p) == Net(adj, terms[i].at)
  {
    forall p | p in g
      ensures p !in m && Net(adj, p) == Net(adj, terms[i].at)
    {
      NewGroupDisjoint(adj, m, terms[i].at, p);
      NetOfMember(adj, terms[i].at, p);
    }
  }

  lemma StepAutoBelow(adj: Adjacency, terms: seq<TermEntry>, i: nat, m: map<Point, string>, g: set<Point>,
                      counter: nat, name: string, next: nat)
    requires NewGroup(adj, terms, i, m, g) && AutoBelow(adj, terms, m, counter)
    requires IsAutoNet(terms, Net(adj, terms[i].at)) ==> name == AutoName(counter) && next == counter + 1
    requires !IsAutoNet(terms, Net(adj, terms[i].at)) ==> next == counter
    requires counter >= 1
    ensures AutoBelow(adj, terms, Assign(m, g, name), next)
  {
    NewGroupFacts(adj, terms, i, m, g);
    var m' := Assign(m, g, name);
    forall p | p in m' && IsAutoNet(terms, Net(adj, p))
      ensures exists k :: 1 <= k < next && m'[p] == AutoName(k)
    {
      if p in g {
        assert m'[p] == AutoName(counter);
      } else {
        assert m'[p] == m[p];
      }
    }
  }

  lemma StepAutoUsed(adj: Adjacency, terms: seq<TermEntry>, i: nat, m: map<Point, string>, g: set<Point>,
                     counter: nat, name: string, next: nat)
    requires NewGroup(adj, terms, i, m, g) && AutoUsed(adj, terms, m, counter)
    requires IsAutoNet(terms, Net(adj, terms[i].at)) ==> name == AutoName(counter) && next == counter + 1
    requires !IsAutoNet(terms, Net(adj, terms[i].at)) ==> next == counter
    ensures AutoUsed(adj, terms, Assign(m, g, name), next)
  {
    KeepUsed(adj, terms, i, m, g, counter, name);
    if IsAutoNet(terms, Net(adj, terms[i].at)) {
      ReachableRefl(adj, terms[i].at);
      AssignTakes(adj, terms, m, g, terms[i].at, counter);
      UsedExtend(adj, terms, Assign(m, g, name), counter);
    }
  }

  /** The group of an auto-named net puts its name in use. */
  lemma AssignTakes(adj: Adjacency, terms: seq<TermEntry>, m: map<Point, string>, g: set<Point>, seed: Point, k: nat)
    requires seed in g && IsAutoNet(terms, Net(adj, seed))
    ensures AutoTaken(adj, terms, Assign(m, g, AutoName(k)), k)
  {
    assert Assign(m, g, AutoName(k))[seed] == AutoName(k);
  }

  lemma UsedExtend(adj: Adjacency, terms: seq<TermEntry>, m: map<Point, string>, counter: nat)
    requires AutoUsed(adj, terms, m, counter) && AutoTaken(adj, terms, m, counter)
    ensures AutoUsed(adj, terms, m, counter + 1)
  {
  }

  /** Numbers in use stay in use when the new group is named. */
  lemma KeepUsed(adj: Adjacency, terms: seq<TermEntry>, i: nat, m: map<Point, string>, g: set<Point>,
                 counter: nat, name: string)
    requires NewGroup(adj, terms, i, m, g) && AutoUsed(adj, terms, m, counter)
    ensures AutoUsed(adj, terms, Assign(m, g, name), counter)
  {
    forall k | 1 <= k < counter
      ensures AutoTaken(adj, terms, Assign(m, g, name), k)
    {
      assert AutoTaken(adj, terms, m, k);
      var p :| p in m && IsAutoNet(terms, Net(adj, p)) && m[p] == AutoName(k);
      OldNotInGroup(adj, terms, i, m, g, p);
      assert Assign(m, g, name)[p] == m[p];
    }
  }

  /** A point named before the new group was found is not in it. */
  lemma OldNotInGroup(adj: Adjacency, terms: seq<TermEntry>, i: nat, m: map<Point, string>, g: set<Point>, p: Point)
    requires NewGroup(adj, terms, i, m, g) && p in m
    ensures p !in g
  {
    if p in g {
      NewGroupDisjoint(adj, m, terms[i].at, p);
    }
  }

  lemma StepAutoDistinct(adj: Adjacency, terms: seq<TermEntry>, i: nat, m: map<Point, string>, g: set<Point>,
                         counter: nat, name: string)
    requires NewGroup(adj, terms, i, m, g) && AutoBelow(adj, terms, m, counter) && AutoDistinct(adj, terms, m)
    requires IsAutoNet(terms, Net(adj, terms[i].at)) ==> name == AutoName(counter)
    ensures AutoDistinct(adj, terms, Assign(m, g, name))
  {
    NewGroupFacts(adj, terms, i, m, g);
    var m' := Assign(m, g, name);
    forall p, q | p in m' && q in m' && IsAutoNet(terms, Net(adj, p)) && IsAutoNet(terms, Net(adj, q)) && m'[p] == m'[q]
      ensures Net(adj, p) == Net(adj, q)
    {
      if p in g && q !in g {
        OldAutoBelow(adj, terms, m, counter, q);
      } else if q in g && p !in g {
        OldAutoBelow(adj, terms, m, counter, p);
      }
    }
  }

  lemma StepAutoOrdered(adj: Adjacency, terms: seq<TermEntry>, i: nat, m: map<Point, string>, g: set<Point>,
                        counter: nat, name: string)
    requires NewGroup(adj, terms, i, m, g) && AutoBelow(adj, terms, m, counter) && AutoOrdered(adj, terms, m)
    requires Rooted(adj, terms, i, m) && forall j :: 0 <= j < i ==> Visited(terms, j, m)
    requires IsAutoNet(terms, Net(adj, terms[i].at)) ==> name == AutoName(counter)
    ensures AutoOrdered(adj, terms, Assign(m, g, name))
  {
    NewGroupFacts(adj, terms, i, m, g);
    var m' := Assign(m, g, name);
    forall p, q, a, b | p in m' && q in m' && IsAutoNet(terms, Net(adj, p)) && IsAutoNet(terms, Net(adj, q)) &&
        m'[p] == AutoName(a) && m'[q] == AutoName(b) && a < b
      ensures EarlierNet(terms, Net(adj, p), Net(adj, q))
    {
      if p in g {
        if q in g {
          AutoNameInjective(a, b);
        } else {
          NewAutoNotBelow(adj, terms, m, counter, q, a, b);
        }
      } else if q in g {
        OlderNetFirst(adj, terms, i, m, p, q);
      }
    }
  }

  lemma OldAutoBelow(adj: Adjacency, terms: seq<TermEntry>, m: map<Point, string>, counter: nat, q: Point)
    requires AutoBelow(adj, terms, m, counter) && q in m && IsAutoNet(terms, Net(adj, q))
    ensures m[q] != AutoName(counter)
  {
    var k :| 1 <= k < counter && m[q] == AutoName(k);
    AutoNameInjective(k, counter);
  }

  /** An older auto name never carries a number above the newest one. */
  lemma NewAutoNotBelow(adj: Adjacency, terms: seq<TermEntry>, m: map<Point, string>, counter: nat, q: Point, a: nat, b: nat)
    requires AutoBelow(adj, terms, m, counter) && q in m && IsAutoNet(terms, Net(adj, q))
    requires AutoName(a) == AutoName(counter) && m[q] == AutoName(b)
    ensures b < a
  {
    var k :| 1 <= k < counter && m[q] == AutoName(k);
    AutoNameInjective(k, b);
    AutoNameInjective(a, counter);
  }

  /** A net found earlier has a terminal before every terminal of the new one. */
  lemma OlderNetFirst(adj: Adjacency, terms: seq<TermEntry>, i: nat, m: map<Point, string>, p: Point, q: Point)
    requires Symmetric(adj) && i < |terms| && terms[i].at !in m
    requires NetsWhole(adj, m) && Rooted(adj, terms, i, m)
    requires forall j :: 0 <= j < i ==> Visited(terms, j, m)
    requires p in m && q in Net(adj, terms[i].at)
    ensures EarlierNet(terms, Net(adj, p), Net(adj, q))
  {
    var j :| 0 <= j < i && j < |terms| && p in Net(adj, terms[j].at);
    NetOfMember(adj, terms[j].at, p);
    ReachableRefl(adj, terms[j].at);
    NetOfMember(adj, terms[i].at, q);
    forall k | 0 <= k <= j
      ensures terms[k].at !in Net(adj, q)
    {
      assert Visited(terms, k, m);
      if terms[k].at in Net(adj, q) {
        assert terms[k].at in Net(adj, terms[i].at);
        NewGroupDisjoint(adj, m, terms[i].at, terms[k].at);
      }
    }
  }

  lemma SolveStep(adj: Adjacency, terms: seq<TermEntry>, i: nat, m: map<Point, string>, counter: nat, g: set<Point>)
    requires Symmetric(adj) && i < |terms| && terms[i].at !in m && counter >= 1
    requires SolveInv(adj, terms, i, m, counter)
    requires forall q :: q in g <==> q in Net(adj, terms[i].at)
    ensures SolveInv(adj, terms, i + 1, Assign(m, g, GroupName(terms, g, counter).0), GroupName(terms, g, counter).1)
  {
    var seed := terms[i].at;
    var r := GroupName(terms, g, counter);
    assert Members(g) == Net(adj, seed);
    ReachableRefl(adj, seed);
    assert NewGroup(adj, terms, i, m, g);
    StepNetsWhole(adj, m, seed, g, r.0);
    StepRooted(adj, terms, i, m, g, r.0);
    StepNamed(adj, terms, m, seed, g, r.0);
    StepAutoBelow(adj, terms, i, m, g, counter, r.0, r.1);
    StepAutoUsed(adj, terms, i, m, g, counter, r.0, r.1);
    StepAutoDistinct(adj, terms, i, m, g, counter, r.0);
    StepAutoOrdered(adj, terms, i, m, g, counter, r.0);
    StepVisited(terms, i, m, g, r.0);
  }

  lemma StepVisited(terms: seq<TermEntry>, i: nat, m: map<Point, string>, g: set<Point>, name: string)
    requires i < |terms| && terms[i].at in g
    requires forall j :: 0 <= j < i && j < |terms| ==> Visited(terms, j, m)
    ensures forall j :: 0 <= j < i + 1 && j < |terms| ==> Visited(terms, j, Assign(m, g, name))
  {
    forall j | 0 <= j < i + 1 && j < |terms|
      ensures Visited(terms, j, Assign(m, g, name))
    {
      if j < i {
        assert Visited(terms, j, m);
      }
    }
  }

  /** A terminal already visited adds nothing and keeps every invariant. */
  lemma SolveSkip(adj: Adjacency, terms: seq<TermEntry>, i: nat, m: map<Point, string>, counter: nat)
    requires i < |terms| && terms[i].at in m && SolveInv(adj, terms, i, m, counter)
    ensures SolveInv(adj, terms, i + 1, m, counter)
  {
    SkipVisited(terms, i, m);
    SkipRooted(adj, terms, i, m);
  }

  lemma SkipVisited(terms: seq<TermEntry>, i: nat, m: map<Point, string>)
    requires i < |terms| && terms[i].at in m && forall j :: 0 <= j < i && j < |terms| ==> Visited(terms, j, m)
    ensures forall j :: 0 <= j < i + 1 && j < |terms| ==> Visited(terms, j, m)
  {
  }

  lemma SkipRooted(adj: Adjacency, terms: seq<TermEntry>, i: nat, m: map<Point, string>)
    requires Rooted(adj, terms, i, m)
    ensures Rooted(adj, terms, i + 1, m)
  {
    forall q | q in m
      ensures exists j :: 0 <= j < i + 1 && j < |terms| && q in Net(adj, terms[j].at)
    {
      var j :| 0 <= j < i && j < |terms| && q in Net(adj, terms[j].at);
    }
  }


  /** `solve_connectivity`: the node name of every point of every net that
      holds a terminal.  The map covers every terminal, every net it touches
      lies wholly inside it under one name, it holds nothing but points of
      terminal nets, every net is named by the rule, and auto names
      `N_1, N_2, ...` go to different nets in the order the nets are first
      met, with no number skipped: the auto names are exactly `N_1` to
      `N_(c-1)` for one `c`. */
  method Solve(comps: seq<Component>, wires: seq<Wire>) returns (nodeMap: map<Point, string>)
    ensures forall t :: t in AllTerminals(comps) ==> t.at in nodeMap
    ensures NetsWhole(Graph(comps, wires), nodeMap)
    ensures Rooted(Graph(comps, wires), AllTerminals(comps), |AllTerminals(comps)|, nodeMap)
    ensures Named(Graph(comps, wires), AllTerminals(comps), nodeMap)
    ensures AutoBelow(Graph(comps, wires), AllTerminals(comps), nodeMap, |AllTerminals(comps)| + 1)
    ensures exists c :: (AutoBelow(Graph(comps, wires), AllTerminals(comps), nodeMap, c)
      && AutoUsed(Graph(comps, wires), AllTerminals(comps), nodeMap, c))
    ensures AutoDistinct(Graph(comps, wires), AllTerminals(comps), nodeMap)
    ensures AutoOrdered(Graph(comps, wires), AllTerminals(comps), nodeMap)
  {
    var terms := AllTerminals(comps);
    var adj := Graph(comps, wires);
    BuiltAdjacencySymmetric(AllEdges(terms, wires));
    var visited: set<Point> := {};
    nodeMap := map[];
    var counter := 1;
    var i := 0;
    while i < |terms|
      invariant 0 <= i <= |terms| && 1 <= counter <= i + 1
      invariant visited == nodeMap.Keys
      invariant SolveInv(adj, terms, i, nodeMap, counter)
    {
      var seed := terms[i].at;
      if seed !in visited {
        WholeIsClosed(adj, nodeMap);
        var group;
        group, visited := FloodFill(adj, seed, visited);
        var g := Elements(group);
        ElementsMembers(group);
        SolveStep(adj, terms, i, nodeMap, counter, g);
        var named := GroupName(terms, g, counter);
        nodeMap := Assign(nodeMap, g, named.0);
        counter := named.1;
      } else {
        SolveSkip(adj, terms, i, nodeMap, counter);
      }
      i := i + 1;
    }
    assert AutoBelow(adj, terms, nodeMap, counter) && AutoUsed(adj, terms, nodeMap, counter);
    AutoBelowRaise(adj, terms, nodeMap, counter, |terms| + 1);
    forall t | t in terms
      ensures t.at in nodeMap
    {
      var j :| 0 <= j < |terms| && terms[j] == t;
      assert Visited(terms, j, nodeMap);
    }
  }

  lemma AutoBelowRaise(adj: Adjacency, terms: seq<TermEntry>, m: map<Point, string>, counter: nat, bound: nat)
    requires AutoBelow(adj, terms, m, counter) && counter <= bound
    ensures AutoBelow(adj, terms, m, bound)
  {
  }

  // ---------------------------------------------------------------- netlist

  /** The node names `export_netlist` writes for a component: the net of
      each terminal's position, or `NC_<component>_<terminal>` when the
      position is not in the map. */
  function NodeNames(c: Component, nodeMap: map<Point, string>): (r: seq<string>)
    ensures |r| == |c.terminals|
    ensures forall k :: 0 <= k < |r| ==>
      r[k] == if TerminalAt(c, c.terminals[k].rel) in nodeMap then nodeMap[TerminalAt(c, c.terminals[k].rel)]
              else "NC_" + c.name + "_" + c.terminals[k].name
  {
    seq(|c.terminals|, k requires 0 <= k < |c.terminals| =>
      var at := TerminalAt(c, c.terminals[k].rel);
      if at in nodeMap then nodeMap[at] else "NC_" + c.name + "_" + c.terminals[k].name)
  }

  /** With the map `Solve` returns, no terminal falls back to an `NC_` name,
      and two terminals of one net get the same node name. */
  lemma SolvedNodeNames(comps: seq<Component>, wires: seq<Wire>, nodeMap: map<Point, string>, i: nat, k: nat)
    requires forall t :: t in AllTerminals(comps) ==> t.at in nodeMap
    requires i < |comps| && k < |comps[i].terminals|
    ensures TerminalAt(comps[i], comps[i].terminals[k].rel) in nodeMap
    ensures NodeNames(comps[i], nodeMap)[k] == nodeMap[TerminalAt(comps[i], comps[i].terminals[k].rel)]
  {
    assert EntryOf(comps[i], k) in AllTerminals(comps);
  }

  /** The components `export_netlist` writes a line for: all but the pins, in order. */
  function NonPins(comps: seq<Component>): (r: seq<Component>)
    ensures |r| == |comps| - PinCount(comps)
    ensures forall c :: c in r <==> c in comps && !c.kind.Pin?
  {
    if |comps| == 0 then []
    else
      var rest := NonPins(comps[1..]);
      assert forall c :: c in comps <==> c == comps[0] || c in comps[1..];
      if comps[0].kind.Pin? then rest else [comps[0]] + rest
  }

  /** Skipping pins keeps the order of the others: it distributes over
      concatenation, and a single component stays exactly when it is not a pin. */
  lemma NonPinsInOrder(a: seq<Component>, b: seq<Component>)
    ensures NonPins(a + b) == NonPins(a) + NonPins(b)
    ensures forall c :: NonPins([c]) == if c.kind.Pin? then [] else [c]
  {
    NonPinsAppend(a, b);
    forall c
      ensures NonPins([c]) == if c.kind.Pin? then [] else [c]
    {
      assert [c][1..] == [];
    }
  }

  lemma {:induction false} NonPinsAppend(a: seq<Component>, b: seq<Component>)
    ensures NonPins(a + b) == NonPins(a) + NonPins(b)
    decreases |a|
  {
    if |a| > 0 {
      var ab := a + b;
      assert ab[0] == a[0] && ab[1..] == a[1..] + b;
      NonPinsAppend(a[1..], b);
      NonPinsCons(ab);
      NonPinsCons(a);
    } else {
      assert a + b == b;
    }
  }

  lemma NonPinsCons(s: seq<Component>)
    requires |s| > 0
    ensures NonPins(s) == (if s[0].kind.Pin? then [] else [s[0]]) + NonPins(s[1..])
  {
  }

  /** The node lines of the netlist: one list of node names per component,
      pins skipped. */
  function NetlistNodes(comps: seq<Component>, nodeMap: map<Point, string>): (r: seq<seq<string>>)
    ensures |r| == |NonPins(comps)| == |comps| - PinCount(comps)
    ensures forall i :: 0 <= i < |r| ==> r[i] == NodeNames(NonPins(comps)[i], nodeMap)
  {
    if |comps| == 0 then []
    else
      NonPinsCons(comps);
      if comps[0].kind.Pin? then NetlistNodes(comps[1..], nodeMap)
      else [NodeNames(comps[0], nodeMap)] + NetlistNodes(comps[1..], nodeMap)
  }

  function PinCount(comps: seq<Component>): nat {
    if |comps| == 0 then 0 else (if comps[0].kind.Pin? then 1 else 0) + PinCount(comps[1..])
  }
}
