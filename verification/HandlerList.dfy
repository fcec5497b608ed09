/** The link's handlers: virtual nodes chained through their own next fields, served one per call. */
module HandlerList {
  import opened Bits
  import opened Sequences

  /** A virtual node, as far as the link is concerned. */
  class VirtualNode {
    var next: VirtualNode?

    constructor ()
      ensures next == null
    {
      next := null;
    }
  }

  /** The sequence without v, the rest in order. */
  ghost function Without<T>(s: seq<T>, v: T): (r: seq<T>)
    ensures v !in r && (forall x | x in r :: x in s) && forall x | x in s && x != v :: x in r
  {
    if s == [] then [] else if s[0] == v then Without(s[1..], v) else [s[0]] + Without(s[1..], v)
  }

  lemma {:induction false} WithoutAbsent<T>(s: seq<T>, v: T)
    requires v !in s
    ensures Without(s, v) == s
  {
    if s != [] {
      WithoutAbsent(s[1..], v);
      assert s == [s[0]] + s[1..];
    }
  }

  lemma {:induction false} WithoutAt<T>(s: seq<T>, k: nat)
    requires k < |s| && Distinct(s)
    ensures Without(s, s[k]) == s[..k] + s[k + 1..]
  {
    if k == 0 {
      WithoutAbsent(s[1..], s[0]);
    } else {
      WithoutAt(s[1..], k - 1);
      assert s[1..][..k - 1] == s[1..k];
      assert s[1..][k..] == s[k + 1..];
      assert [s[0]] + s[1..k] == s[..k];
    }
  }

  class Link {
    var handlers: VirtualNode?
    /** The static local of update(): it starts at the head on the first call. */
    var iter: VirtualNode?
    var started: bool
    ghost var list: seq<VirtualNode>

    ghost predicate Valid()
      reads this, list
    {
      && Distinct(list)
      && handlers == (if list == [] then null else list[0])
      && forall i {:trigger list[i].next} | 0 <= i < |list| :: list[i].next == if i + 1 < |list| then list[i + 1] else null
    }

    constructor ()
      ensures Valid() && list == [] && !started
    {
      handlers, iter, started := null, null, false;
      list := [];
    }

    method AddVNode(v: VirtualNode)
      requires Valid() && v !in list
      modifies this`handlers, this`list, v
      ensures Valid() && list == [v] + old(list)
    {
      v.next := handlers;
      handlers := v;
      list := [v] + list;
    }

    /** Take v out from behind its predecessor. */
    method Unlink(at: VirtualNode, v: VirtualNode, ghost k: nat)
      requires Valid() && k + 1 < |list| && at == list[k] && v == list[k + 1]
      modifies `list, at, v
      ensures Valid() && list == Without(old(list), v) && v.next == null
    {
      WithoutAt(list, k + 1);
      at.next := v.next;
      v.next := null;
      list := list[..k + 1] + list[k + 2..];
    }

    method RemoveVNode(v: VirtualNode)
      requires Valid()
      modifies this`handlers, this`list, list
      ensures Valid() && list == Without(old(list), v)
      ensures v in old(list) ==> v.next == null
    {
      hide Without;
      if handlers == null {
        WithoutAbsent(list, v);
        return;
      }
      var at := handlers;
      if at == v {
        WithoutAt(list, 0);
        list := list[1..];
        handlers := v.next;
        v.next := null;
      } else {
        ghost var k := 0;
        while at.next != null && at.next != v
          invariant 0 <= k < |list| && at == list[k] && v !in list[..k + 1]
          decreases |list| - k
        {
          assert at.next == list[k + 1] && list[..k + 2] == list[..k + 1] + [list[k + 1]];
          at := at.next;
          k := k + 1;
        }
        if at.next != null {
          assert at.next == if k + 1 < |list| then list[k + 1] else null;
          Unlink(at, v, k);
        } else {
          assert list[..k + 1] == list;
          WithoutAbsent(list, v);
        }
      }
    }

    /** Where the iterator stands, before the first call as well. */
    ghost predicate At(k: nat)
      reads this
    {
      k < |list| && (if started then iter == list[k] else k == 0)
    }

    /** One handler is updated and the iterator moves on, back to the head from the end. */
    method Update(ghost k: nat) returns (served: VirtualNode)
      requires Valid() && At(k)
      modifies this`iter, this`started
      ensures Valid() && list == old(list) && handlers == old(handlers)
      ensures served == list[k] && started && At((k + 1) % |list|)
    {
      if !started {
        iter := handlers;
        started := true;
      }
      served := iter;
      assert list[k].next == if k + 1 < |list| then list[k + 1] else null;
      iter := iter.next;
      if iter == null {
        iter := handlers;
        assert (k + 1) % |list| == 0;
      }
    }

    /** The sketch's loop: update() over and over. */
    method Loop(times: nat, ghost k: nat) returns (served: seq<VirtualNode>)
      requires Valid() && At(k)
      modifies this`iter, this`started
      ensures Valid() && list == old(list) && served == Rotation(list, k, times)
    {
      served := [];
      ghost var p: nat, n := k, |list|;
      var i := 0;
      StartsHere(k, n);
      while i < times
        invariant i <= times && Valid() && list == old(list) && At(p) && p == (k + i) % n
        invariant served == Rotation(list, k, i)
        modifies this`iter, this`started
      {
        var v := Update(p);
        served := served + [v];
        NextTurn(k, i, n);
        p := (p + 1) % n;
        i := i + 1;
      }
    }
  }

  lemma {:induction false} StartsHere(k: nat, n: nat)
    requires k < n
    ensures (k + 0) % n == k
  {
  }

  lemma {:induction false} NextTurn(k: nat, i: nat, n: nat)
    requires n > 0
    ensures ((k + i) % n + 1) % n == (k + i + 1) % n
  {
    var q, r := (k + i) / n, (k + i) % n;
    if r + 1 < n {
      DivisionUnique(k + i + 1, n, q, r + 1);
      DivisionUnique(r + 1, n, 0, r + 1);
    } else {
      assert k + i + 1 == (q + 1) * n by {
        assert k + i == q * n + r;
        assert (q + 1) * n == q * n + n;
      }
      DivisionUnique(k + i + 1, n, q + 1, 0);
      DivisionUnique(n, n, 1, 0);
    }
  }

  /** Who is served in this many turns, starting with entry k. */
  ghost function Rotation<T>(s: seq<T>, k: nat, times: nat): (r: seq<T>)
    requires |s| > 0
    ensures |r| == times && forall t | 0 <= t < times :: r[t] == s[(k + t) % |s|]
  {
    seq(times, t requires 0 <= t < times => s[(k + t) % |s|])
  }

  /** The turn on which entry j is served, when k is next. */
  function TurnFor(j: nat, k: nat, n: nat): nat
    requires j < n && k < n
  {
    if j >= k then j - k else j + n - k
  }

  lemma {:induction false} TurnIsRight(j: nat, k: nat, n: nat, t: nat)
    requires j < n && k < n && t < n
    ensures TurnFor(j, k, n) < n
    ensures (k + t) % n == j <==> t == TurnFor(j, k, n)
  {
    if k + t < n {
      DivisionUnique(k + t, n, 0, k + t);
    } else {
      DivisionUnique(k + t, n, 1, k + t - n);
    }
  }

  /** In any |list| consecutive calls every handler is served exactly once. */
  lemma {:induction false} RoundServesEachOnce<T>(s: seq<T>, k: nat, v: T)
    requires Distinct(s) && k < |s| && v in s
    ensures exists t :: 0 <= t < |s| && Rotation(s, k, |s|)[t] == v
    ensures forall t, u | 0 <= t < u < |s| :: !(Rotation(s, k, |s|)[t] == v && Rotation(s, k, |s|)[u] == v)
  {
    var n, r := |s|, Rotation(s, k, |s|);
    var j :| 0 <= j < n && s[j] == v;
    forall t | 0 <= t < n
      ensures r[t] == v <==> t == TurnFor(j, k, n)
    {
      TurnIsRight(j, k, n, t);
    }
    TurnIsRight(j, k, n, 0);
    assert r[TurnFor(j, k, n)] == v;
  }
}
