/** The alias cache: a few bindings of aliases to NodeIDs, the least used of which gives way. */
module AliasCache {
  import opened NodeIds

  type Hits = h: nat | h < 256

  datatype Entry = Entry(id: NodeId, hits: Hits)

  type Cache = seq<Entry>

  // ---------------------------------------------------------------- on values

  function FindEntry(c: Cache, p: Entry -> bool, i: nat): (k: nat)
    requires i <= |c|
    ensures i <= k <= |c| && (k < |c| ==> p(c[k]))
    ensures forall j | i <= j < k :: !p(c[j])
    decreases |c| - i
  {
    if i == |c| || p(c[i]) then i else FindEntry(c, p, i + 1)
  }

  /** The first entry the library's == takes for this node, or the length. */
  function Matching(c: Cache, id: NodeId): (k: nat)
    ensures k <= |c| && (k < |c| ==> c[k].id.Matches(id))
    ensures forall j | 0 <= j < k :: !c[j].id.Matches(id)
  {
    FindEntry(c, (e: Entry) => e.id.Matches(id), 0)
  }

  function WithAlias(c: Cache, alias: nat): (k: nat)
    ensures k <= |c| && (k < |c| ==> c[k].id.alias == alias)
    ensures forall j | 0 <= j < k :: c[j].id.alias != alias
  {
    FindEntry(c, (e: Entry) => e.id.alias == alias, 0)
  }

  /** k is the first of the least used entries. */
  predicate LeastUsed(c: Cache, k: nat) {
    k < |c| &&
    (forall j | 0 <= j < |c| :: c[k].hits <= c[j].hits) &&
    (forall j | 0 <= j < k :: c[k].hits < c[j].hits)
  }

  function Touched(e: Entry): Entry {
    if e.hits < 255 then e.(hits := e.hits + 1) else e
  }

  ghost predicate Added(c: Cache, id: NodeId, c': Cache) {
    if id.alias == 0 || Matching(c, id) < |c| then c' == c
    else exists k: nat :: LeastUsed(c, k) && c' == c[k := Entry(id, 1)]
  }

  function LookedUpNid(c: Cache, id: NodeId): Cache {
    var k := Matching(c, id);
    if k == |c| then c else c[k := Touched(c[k])]
  }

  function LookedUpAlias(c: Cache, alias: nat): Cache {
    var k := WithAlias(c, alias);
    if k == |c| then c else c[k := Touched(c[k])]
  }

  const EMPTY_ENTRY := Entry(NodeId(ZERO_NID, 0), 0)

  function Removed(c: Cache, alias: nat): Cache {
    var k := WithAlias(c, alias);
    if k == |c| then c else c[k := EMPTY_ENTRY]
  }

  // ---------------------------------------------------------------- against the network

  /** Which alias stands for which node on the network now. */
  type Network = map<nat, Nid>

  ghost predicate Proper(net: Network) {
    0 !in net && (forall a | a in net :: net[a] != ZERO_NID) &&
    forall a, b | a in net && b in net && net[a] == net[b] :: a == b
  }

  predicate Live(e: Entry) {
    e.id.alias != 0
  }

  predicate EntryAgrees(e: Entry, net: Network) {
    if Live(e) then e.hits > 0 && e.id.alias in net && net[e.id.alias] == e.id.nid else e == EMPTY_ENTRY
  }

  ghost predicate Agrees(c: Cache, net: Network) {
    |c| > 0 && Proper(net) &&
    (forall i | 0 <= i < |c| :: EntryAgrees(c[i], net)) &&
    (forall i, j | 0 <= i < j < |c| && Live(c[i]) && Live(c[j]) :: c[i].id.alias != c[j].id.alias)
  }

  datatype Call =
    | Amd(alias: nat, nid: Nid)
    | Amr(alias: nat)
    | Verified(alias: nat, nid: Nid)
    | AskNid(nid: Nid)
    | AskAlias(alias: nat)

  /** How the network moves: AMD binds what is unbound, AMR unbinds. */
  function Moved(net: Network, c: Call): Network {
    match c
    case Amd(a, n) => net[a := n]
    case Amr(a) => net - {a}
    case _ => net
  }

  /** The protocol: an AMD binds only what is unbound, a Verified NodeID tells the truth, nobody asks about nothing. */
  predicate Lawful(net: Network, c: Call) {
    match c
    case Amd(a, n) => a != 0 && n != ZERO_NID && a !in net && n !in net.Values
    case Amr(_) => true
    case Verified(a, n) => a in net && net[a] == n
    case AskNid(n) => n != ZERO_NID
    case AskAlias(a) => a != 0
  }

  ghost predicate Step(c: Cache, call: Call, c': Cache) {
    match call
    case Amd(a, n) => Added(c, NodeId(n, a), c')
    case Amr(a) => c' == Removed(c, a)
    case Verified(a, n) => Added(c, NodeId(n, a), c')
    case AskNid(n) => c' == LookedUpNid(c, NodeId(n, 0))
    case AskAlias(a) => c' == LookedUpAlias(c, a)
  }

  lemma {:induction false} AddKeepsAgreement(c: Cache, net: Network, net': Network, a: nat, n: Nid, c': Cache)
    requires Agrees(c, net) && Proper(net') && a in net' && net'[a] == n
    requires forall b | b in net :: b in net' && net'[b] == net[b]
    requires Added(c, NodeId(n, a), c')
    ensures Agrees(c', net')
  {
    forall i | 0 <= i < |c|
      ensures EntryAgrees(c[i], net')
    {
    }
    if Matching(c, NodeId(n, a)) == |c| {
      var k: nat :| LeastUsed(c, k) && c' == c[k := Entry(NodeId(n, a), 1)];
      forall i | 0 <= i < |c| && Live(c[i])
        ensures c[i].id.alias != a
      {
        assert !c[i].id.Matches(NodeId(n, a));
      }
    }
  }

  lemma {:induction false} BindingStaysProper(net: Network, a: nat, n: Nid)
    requires Proper(net) && a != 0 && n != ZERO_NID && a !in net && n !in net.Values
    ensures Proper(net[a := n])
  {
    forall b | b in net
      ensures net[b] != n
    {
      assert net[b] in net.Values;
    }
  }

  lemma {:induction false} LookupsKeepAgreement(c: Cache, net: Network, k: nat)
    requires Agrees(c, net) && k < |c| && Live(c[k])
    ensures Agrees(c[k := Touched(c[k])], net)
  {
  }

  lemma {:induction false} RemovalKeepsAgreement(c: Cache, net: Network, a: nat)
    requires Agrees(c, net)
    ensures Agrees(Removed(c, a), net - {a})
  {
    var c', net' := Removed(c, a), net - {a};
    assert Proper(net');
    forall i | 0 <= i < |c'|
      ensures EntryAgrees(c'[i], net')
    {
      if Live(c[i]) && c[i].id.alias == a {
        assert WithAlias(c, a) <= i;
        assert WithAlias(c, a) == i;
      }
    }
  }

  lemma {:induction false} StepKeepsAgreement(c: Cache, net: Network, call: Call, c': Cache)
    requires Agrees(c, net) && Lawful(net, call) && Step(c, call, c')
    ensures Agrees(c', Moved(net, call))
  {
    hide Agrees;
    match call
    case Amd(a, n) =>
      assert Proper(net) by { AgreesIsProper(c, net); }
      BindingStaysProper(net, a, n);
      AddKeepsAgreement(c, net, net[a := n], a, n, c');
    case Amr(a) => RemovalKeepsAgreement(c, net, a);
    case Verified(a, n) =>
      AgreesIsProper(c, net);
      AddKeepsAgreement(c, net, net, a, n, c');
    case AskNid(n) => NidHitIsLive(c, net, n);
    case AskAlias(a) =>
      if WithAlias(c, a) < |c| {
        LookupsKeepAgreement(c, net, WithAlias(c, a));
      }
  }

  lemma {:induction false} AgreesIsProper(c: Cache, net: Network)
    requires Agrees(c, net)
    ensures Proper(net)
  {
  }

  lemma {:induction false} NidHitIsLive(c: Cache, net: Network, n: Nid)
    requires Agrees(c, net) && n != ZERO_NID
    ensures Agrees(LookedUpNid(c, NodeId(n, 0)), net)
    ensures var k := Matching(c, NodeId(n, 0)); k < |c| ==> Live(c[k]) && c[k].id.nid == n
  {
    var k := Matching(c, NodeId(n, 0));
    if k < |c| {
      assert EntryAgrees(c[k], net);
      LookupsKeepAgreement(c, net, k);
    }
  }

  ghost predicate Run(cs: seq<Cache>, nets: seq<Network>, calls: seq<Call>) {
    |cs| == |nets| == |calls| + 1 &&
    forall k | 0 <= k < |calls| ::
      Lawful(nets[k], calls[k]) && nets[k + 1] == Moved(nets[k], calls[k]) && Step(cs[k], calls[k], cs[k + 1])
  }

  predicate Initial(c: Cache) {
    |c| > 0 && forall i | 0 <= i < |c| :: c[i] == EMPTY_ENTRY
  }

  /**
   As long as the network keeps to the protocol, whatever was evicted in between, every live
   entry of the cache is a binding that holds now, and no alias or NodeID is in it twice.
   */
  lemma {:induction false} CacheAgreesWithNetwork(cs: seq<Cache>, nets: seq<Network>, calls: seq<Call>, n: nat)
    requires Run(cs, nets, calls) && Initial(cs[0]) && nets[0] == map[] && n < |cs|
    ensures Agrees(cs[n], nets[n])
    ensures forall i, j | 0 <= i < j < |cs[n]| && Live(cs[n][i]) && Live(cs[n][j]) ::
              cs[n][i].id.alias != cs[n][j].id.alias && cs[n][i].id.nid != cs[n][j].id.nid
  {
    hide Step, Lawful;
    if n > 0 {
      CacheAgreesWithNetwork(cs, nets, calls, n - 1);
      StepKeepsAgreement(cs[n - 1], nets[n - 1], calls[n - 1], cs[n]);
    }
    DistinctNids(cs[n], nets[n]);
  }

  lemma {:induction false} DistinctNids(c: Cache, net: Network)
    requires Agrees(c, net)
    ensures forall i, j | 0 <= i < j < |c| && Live(c[i]) && Live(c[j]) ::
              c[i].id.alias != c[j].id.alias && c[i].id.nid != c[j].id.nid
  {
    forall i, j | 0 <= i < j < |c| && Live(c[i]) && Live(c[j])
      ensures c[i].id.nid != c[j].id.nid
    {
      assert EntryAgrees(c[i], net) && EntryAgrees(c[j], net);
    }
  }

  /** The two lookups are each other's inverse: they hit for the same pairs, which are bindings. */
  lemma {:induction false} LookupsAreInverse(c: Cache, net: Network, a: nat, n: Nid)
    requires Agrees(c, net) && a != 0 && n != ZERO_NID
    ensures var i, j := Matching(c, NodeId(n, 0)), WithAlias(c, a);
            && (i < |c| && c[i].id.alias == a <==> j < |c| && c[j].id.nid == n)
            && (j < |c| && c[j].id.nid == n ==> a in net && net[a] == n)
  {
    var i, j := Matching(c, NodeId(n, 0)), WithAlias(c, a);
    NidHitIsLive(c, net, n);
    DistinctNids(c, net);
    if j < |c| {
      assert EntryAgrees(c[j], net);
      if c[j].id.nid == n {
        assert c[j].id.Matches(NodeId(n, 0));
        assert i <= j;
        assert Live(c[i]) && Live(c[j]);
        assert i == j;
      }
    }
    if i < |c| && c[i].id.alias == a {
      assert j <= i;
      assert j == i;
    }
  }

  /** add gives up an entry of least hit count, and a used one only when none is empty. */
  lemma {:induction false} EmptyEntriesGoFirst(c: Cache, net: Network, id: NodeId, c': Cache, k: nat)
    requires Agrees(c, net) && Added(c, id, c') && k < |c| == |c'| && c'[k] != c[k]
    ensures c'[k] == Entry(id, 1) && (forall j | 0 <= j < |c| :: c[k].hits <= c[j].hits)
    ensures forall j | 0 <= j < k :: c[k].hits < c[j].hits
    ensures Live(c[k]) ==> forall j | 0 <= j < |c| :: Live(c[j])
  {
    var l: nat :| LeastUsed(c, l) && c' == c[l := Entry(id, 1)];
    assert l == k;
    forall j | 0 <= j < |c| && Live(c[k])
      ensures Live(c[j])
    {
      assert EntryAgrees(c[k], net) && EntryAgrees(c[j], net);
    }
  }

  // ---------------------------------------------------------------- what is cached is found

  /** The cache finds the alias for the NodeID and the NodeID for the alias. */
  predicate Finds(c: Cache, a: nat, n: Nid) {
    var i, j := Matching(c, NodeId(n, 0)), WithAlias(c, a);
    i < |c| && c[i].id.alias == a && j < |c| && c[j].id.nid == n
  }

  /** Whatever the cache holds, an identifier with an alias is found once it has been added. */
  lemma {:induction false} AddedIsFound(c: Cache, a: nat, n: Nid, c': Cache)
    requires a != 0 && Step(c, Verified(a, n), c')
    ensures Matching(c', NodeId(n, a)) < |c'| == |c|
  {
    if Matching(c, NodeId(n, a)) == |c| {
      var k: nat :| LeastUsed(c, k) && c' == c[k := Entry(NodeId(n, a), 1)];
      assert c'[k].id.Matches(NodeId(n, a));
    }
  }

  /**
   A binding that is announced or verified is found in the cache afterwards, both ways. To make room
   at most one entry was given up, and none that was live while an entry was empty.
   */
  lemma {:induction false} BindingIsLearned(c: Cache, net: Network, call: Call, c': Cache, a: nat, n: Nid)
    requires Agrees(c, net) && Lawful(net, call) && Step(c, call, c') && (call == Amd(a, n) || call == Verified(a, n))
    ensures Finds(c', a, n)
    ensures |c'| == |c| && exists k: nat :: OnlyEntry(c, c', k)
    ensures (exists i | 0 <= i < |c| :: !Live(c[i])) ==> forall j | 0 <= j < |c| && Live(c[j]) :: c'[j] == c[j]
  {
    hide Agrees, Finds, Matching;
    AgreesIsProper(c, net);
    StepKeepsAgreement(c, net, call, c');
    if c' == c {
      assert OnlyEntry(c, c', 0);
    } else {
      var k: nat :| LeastUsed(c, k) && c' == c[k := Entry(NodeId(n, a), 1)];
      assert OnlyEntry(c, c', k);
      if c'[k] != c[k] {
        EmptyEntriesGoFirst(c, net, NodeId(n, a), c', k);
      }
    }
    AddedIsFound(c, a, n, c');
    MatchIsBinding(c', Moved(net, call), a, n);
  }

  predicate OnlyEntry(c: Cache, c': Cache, k: nat) {
    |c| == |c'| && forall j | 0 <= j < |c| && j != k :: c'[j] == c[j]
  }

  lemma {:induction false} MatchIsBinding(c: Cache, net: Network, a: nat, n: Nid)
    requires Agrees(c, net) && a in net && net[a] == n && Matching(c, NodeId(n, a)) < |c|
    ensures Finds(c, a, n)
  {
    var k := Matching(c, NodeId(n, a));
    assert EntryAgrees(c[k], net);
    assert Live(c[k]) && c[k].id.alias == a && c[k].id.nid == n;
    var i, j := Matching(c, NodeId(n, 0)), WithAlias(c, a);
    assert c[k].id.Matches(NodeId(n, 0));
    assert i <= k && j <= k;
    assert EntryAgrees(c[i], net) && EntryAgrees(c[j], net);
  }

  /**
   What is found stays found: of all calls only the release of its alias, and an announcement that
   must give up an entry because none is empty, can make the cache forget a binding.
   */
  lemma {:induction false} BindingStays(c: Cache, net: Network, call: Call, c': Cache, a: nat, n: Nid)
    requires Agrees(c, net) && Lawful(net, call) && Step(c, call, c')
    requires a != 0 && n != ZERO_NID && Finds(c, a, n) && call != Amr(a)
    requires call.Amd? || call.Verified? ==> exists i | 0 <= i < |c| :: !Live(c[i])
    ensures Finds(c', a, n)
  {
    hide Lawful;
    LookupsAreInverse(c, net, a, n);
    StepKeepsAgreement(c, net, call, c');
    var k := WithAlias(c, a);
    assert EntryAgrees(c[k], net);
    if call.Amd? || call.Verified? {
      BindingIsLearned(c, net, call, c', call.alias, call.nid);
    }
    assert c'[k].id == c[k].id;
    StillBound(c', Moved(net, call), k);
  }

  lemma {:induction false} StillBound(c: Cache, net: Network, k: nat)
    requires Agrees(c, net) && k < |c| && Live(c[k])
    ensures Finds(c, c[k].id.alias, c[k].id.nid)
  {
    assert EntryAgrees(c[k], net);
    assert c[k].id.Matches(NodeId(c[k].id.nid, c[k].id.alias));
    MatchIsBinding(c, net, c[k].id.alias, c[k].id.nid);
  }

  /** A released alias is no longer found, and no other entry changes. */
  lemma {:induction false} ReleaseIsForgotten(c: Cache, net: Network, a: nat, c': Cache)
    requires Agrees(c, net) && a != 0 && Step(c, Amr(a), c')
    ensures |c'| == |c| && forall j | 0 <= j < |c| ::
              c'[j].id.alias != a && (c[j].id.alias != a ==> c'[j] == c[j]) && (c[j].id.alias == a ==> !Live(c'[j]))
  {
    var k := WithAlias(c, a);
    forall j | 0 <= j < |c| && k < j
      ensures c[j].id.alias != a
    {
      assert Live(c[k]) && (Live(c[j]) ==> c[k].id.alias != c[j].id.alias);
    }
  }

  /** Lookups change nothing but the count of the entry they hit. */
  function Asked(c: Cache, n: Nid, times: nat): Cache {
    if times == 0 then c else LookedUpNid(Asked(c, n, times - 1), NodeId(n, 0))
  }

  /** However often a NodeID is asked for, only the hit count of its entry changes: by one each time, up to 255. */
  lemma {:induction false} HitsAreCounted(c: Cache, n: Nid, times: nat)
    ensures var k, d := Matching(c, NodeId(n, 0)), Asked(c, n, times);
            if k == |c| then d == c
            else d == c[k := Entry(c[k].id, if c[k].hits + times < 255 then c[k].hits + times else 255)]
  {
    if times > 0 {
      HitsAreCounted(c, n, times - 1);
      var b := Asked(c, n, times - 1);
      SameMatch(c, b, NodeId(n, 0));
    }
  }

  lemma {:induction false} SameMatch(c: Cache, d: Cache, id: NodeId)
    requires |c| == |d| && forall j | 0 <= j < |c| :: d[j].id == c[j].id
    ensures Matching(d, id) == Matching(c, id)
  {
  }

  /** The other lookup counts in the same way. */
  lemma {:induction false} AliasHitIsCounted(c: Cache, a: nat)
    ensures var k, d := WithAlias(c, a), LookedUpAlias(c, a);
            if k == |c| then d == c else d == c[k := Entry(c[k].id, if c[k].hits < 255 then c[k].hits + 1 else 255)]
  {
  }

  /**
   A Verified NodeID of all zeros, which no node has, is listened to while nothing is asked for. It
   leaves the cache sound exactly when an entry is empty, or has its alias already: then it is taken
   for that entry and not stored.
   */
  lemma {:induction false} ZeroNidIsStored(c: Cache, net: Network, a: nat, c': Cache)
    requires Agrees(c, net) && a != 0 && Step(c, Verified(a, ZERO_NID), c')
    ensures Agrees(c', net) <==> exists i :: 0 <= i < |c| && (!Live(c[i]) || c[i].id.alias == a)
    ensures Agrees(c', net) ==> c' == c
  {
    var k := Matching(c, NodeId(ZERO_NID, a));
    if k < |c| {
      assert EntryAgrees(c[k], net);
    } else {
      forall i | 0 <= i < |c|
        ensures Live(c[i]) && c[i].id.alias != a
      {
        assert EntryAgrees(c[i], net) && !c[i].id.Matches(NodeId(ZERO_NID, a));
      }
      var l: nat :| LeastUsed(c, l) && c' == c[l := Entry(NodeId(ZERO_NID, a), 1)];
      assert !EntryAgrees(c'[l], net);
    }
  }

  /** Asking for alias 0 is harmless exactly when no entry is empty: it hits an empty entry and counts it as used. */
  lemma {:induction false} AskingForNoAlias(c: Cache, net: Network)
    requires Agrees(c, net)
    ensures Agrees(LookedUpAlias(c, 0), net) <==> forall i | 0 <= i < |c| :: Live(c[i])
  {
    var k := WithAlias(c, 0);
    if k < |c| {
      assert EntryAgrees(c[k], net);
      assert !EntryAgrees(LookedUpAlias(c, 0)[k], net);
    }
  }

  // ---------------------------------------------------------------- in place

  class AliasTable {
    const nids: array<NodeId>
    const uses: array<Hits>

    ghost predicate Valid()
      reads this
    {
      nids.Length == uses.Length > 0
    }

    function View(): Cache
      reads this, nids, uses
      requires Valid()
    {
      seq(nids.Length, i requires 0 <= i < nids.Length && Valid() reads this, nids, uses => Entry(nids[i], uses[i]))
    }

    constructor (size: nat)
      requires size > 0
      ensures Valid() && fresh(nids) && fresh(uses) && nids.Length == size && Initial(View())
    {
      nids := new NodeId[size](_ => NodeId(ZERO_NID, 0));
      uses := new Hits[size](_ => 0);
    }

    method Add(id: NodeId)
      requires Valid()
      modifies nids, uses
      ensures Added(old(View()), id, View())
    {
      if id.alias == 0 {
        return;
      }
      var leastHits: nat, index := 255, 0;
      var i := 0;
      ghost var c := View();
      while i < nids.Length
        invariant i <= nids.Length && View() == c
        invariant forall j | 0 <= j < i :: !c[j].id.Matches(id)
        invariant leastHits <= 255 && index < nids.Length
        invariant forall j | 0 <= j < i :: leastHits <= uses[j]
        invariant if leastHits == 255 then index == 0
                  else index < i && uses[index] == leastHits && forall j | 0 <= j < index :: leastHits < uses[j]
      {
        if nids[i].Matches(id) {
          assert c[i].id.Matches(id);
          return;
        }
        if uses[i] < leastHits {
          leastHits := uses[i];
          index := i;
        }
        i := i + 1;
      }
      assert LeastUsed(c, index);
      nids[index] := id;
      uses[index] := 1;
      assert View() == c[index := Entry(id, 1)];
    }

    method GetAliasByNid(id: NodeId) returns (alias: Option<nat>)
      requires Valid()
      modifies uses
      ensures View() == LookedUpNid(old(View()), id)
      ensures alias == var k := Matching(old(View()), id); if k == nids.Length then None else Some(nids[k].alias)
    {
      ghost var c := View();
      var i := 0;
      while i < nids.Length
        invariant i <= nids.Length && View() == c
        invariant forall j | 0 <= j < i :: !c[j].id.Matches(id)
      {
        if nids[i].Matches(id) {
          assert c[i].id.Matches(id);
          if uses[i] < 255 {
            uses[i] := uses[i] + 1;
          }
          return Some(nids[i].alias);
        }
        i := i + 1;
      }
      return None;
    }

    method GetNidByAlias(alias: nat) returns (nid: Option<Nid>)
      requires Valid()
      modifies uses
      ensures View() == LookedUpAlias(old(View()), alias)
      ensures nid == var k := WithAlias(old(View()), alias); if k == nids.Length then None else Some(nids[k].nid)
    {
      ghost var c := View();
      var i := 0;
      while i < nids.Length
        invariant i <= nids.Length && View() == c
        invariant forall j | 0 <= j < i :: c[j].id.alias != alias
      {
        if nids[i].alias == alias {
          assert c[i].id.alias == alias;
          if uses[i] < 255 {
            uses[i] := uses[i] + 1;
          }
          return Some(nids[i].nid);
        }
        i := i + 1;
      }
      return None;
    }

    method RemoveByAlias(alias: nat) returns (found: bool)
      requires Valid()
      modifies nids, uses
      ensures View() == Removed(old(View()), alias)
      ensures found <==> WithAlias(old(View()), alias) < nids.Length
    {
      ghost var c := View();
      var i := 0;
      while i < nids.Length
        invariant i <= nids.Length && View() == c
        invariant forall j | 0 <= j < i :: c[j].id.alias != alias
      {
        if nids[i].alias == alias {
          assert c[i].id.alias == alias;
          nids[i] := NodeId(ZERO_NID, 0);
          uses[i] := 0;
          return true;
        }
        i := i + 1;
      }
      return false;
    }
  }
}
