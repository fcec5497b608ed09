/**
 Whatever arrives, processDatagram only ever sees what one source sent in one piece.
 Inputs are those the handler looks at: while its node is not permitted it drops every frame.
 */
module DatagramReassembly {
  import opened Bits
  import opened NodeIds
  import opened BusFrames
  import opened DatagramModel

  datatype Input = Arrive(arrival: Arrival) | Kill(id: NodeId)

  function Take(h: Handler, i: Input): (Handler, seq<Event>) {
    match i
    case Arrive(a) => Receive(h, a)
    case Kill(id) => (Clear(h, id), [])
  }

  /** The handler after the first n inputs. */
  function After(h: Handler, ins: seq<Input>, n: nat): Handler
    requires n <= |ins|
  {
    if n == 0 then h else Take(After(h, ins, n - 1), ins[n - 1]).0
  }

  function EventsOf(h: Handler, ins: seq<Input>, n: nat): seq<Event>
    requires n < |ins|
  {
    Take(After(h, ins, n), ins[n]).1
  }

  // ---------------------------------------------------------------- told from the inputs alone

  /** Input n is a datagram frame of this part addressed to us from this alias. */
  predicate IsPart(h: Handler, i: Input, p: Part, alias: nat) {
    i.Arrive? && i.arrival.frame.source == alias && i.arrival.frame.content.Datagram? &&
    i.arrival.frame.content.part == p && ForUs(h, i.arrival.frame.content.dest)
  }

  function BytesOf(i: Input): seq<Byte> {
    if i.Arrive? && i.arrival.frame.content.Datagram? then i.arrival.frame.content.data else []
  }

  /** The First frame at q and every later Middle or Last frame of its source before n, in order of arrival. */
  function Collected(h: Handler, ins: seq<Input>, q: nat, n: nat, alias: nat): seq<Byte>
    requires q < n <= |ins|
  {
    if n == q + 1 then BytesOf(ins[q])
    else Collected(h, ins, q, n - 1, alias) +
         if IsPart(h, ins[n - 1], Middle, alias) || IsPart(h, ins[n - 1], Last, alias) then BytesOf(ins[n - 1]) else []
  }

  /** The source has not finished, nor been given up, since q. */
  predicate StillOpen(h: Handler, ins: seq<Input>, q: nat, n: nat, from: NodeId)
    requires q < n <= |ins|
  {
    forall k | q < k < n ::
      !IsPart(h, ins[k], Last, from.alias) && !(ins[k].Kill? && ins[k].id.Matches(from))
  }

  /** Input q opened, with a free buffer, the assembly that is open after n inputs. */
  predicate OpenedAt(h: Handler, ins: seq<Input>, q: nat, n: nat, from: NodeId, bytes: seq<Byte>) {
    && q < n <= |ins|
    && IsPart(h, ins[q], First, from.alias) && ins[q].arrival.From() == from
    && After(h, ins, q).rxFree
    && StillOpen(h, ins, q, n, from)
    && bytes == Collected(h, ins, q, n, from.alias)
  }

  predicate NonZeroAliases(ins: seq<Input>) {
    forall k | 0 <= k < |ins| && ins[k].Arrive? :: ins[k].arrival.frame.source != 0
  }

  /** What is known of the handler after n inputs. */
  ghost predicate Accounted(h: Handler, ins: seq<Input>, n: nat)
    requires n <= |ins|
  {
    var g := After(h, ins, n);
    g.self == h.self && g.permitted &&
    (!g.rxFree ==> g.rxSource.alias != 0 && exists q :: OpenedAt(h, ins, q, n, g.rxSource, g.rxData))
  }

  /** Nothing happened to the assembly at input n. */
  lemma {:induction false} OpenStaysOpen(h: Handler, ins: seq<Input>, q: nat, n: nat, from: NodeId, bytes: seq<Byte>)
    requires OpenedAt(h, ins, q, n, from, bytes) && n < |ins|
    requires !IsPart(h, ins[n], Middle, from.alias) && !IsPart(h, ins[n], Last, from.alias)
    requires !(ins[n].Kill? && ins[n].id.Matches(from))
    ensures OpenedAt(h, ins, q, n + 1, from, bytes)
  {
    assert bytes + [] == bytes;
  }

  lemma {:induction false} OpenGrows(h: Handler, ins: seq<Input>, q: nat, n: nat, from: NodeId, bytes: seq<Byte>)
    requires OpenedAt(h, ins, q, n, from, bytes) && n < |ins| && IsPart(h, ins[n], Middle, from.alias)
    ensures OpenedAt(h, ins, q, n + 1, from, bytes + BytesOf(ins[n]))
  {
  }

  lemma {:induction false} FirstOpens(h: Handler, ins: seq<Input>, n: nat)
    requires n < |ins| && After(h, ins, n).rxFree && ins[n].Arrive?
    requires IsPart(h, ins[n], First, ins[n].arrival.frame.source)
    ensures OpenedAt(h, ins, n, n + 1, ins[n].arrival.From(), BytesOf(ins[n]))
  {
  }

  lemma {:induction false} FreeMoves(g: Handler, i: Input)
    requires g.permitted && g.rxFree && (i.Arrive? ==> i.arrival.frame.source != 0)
    ensures var t := Take(g, i).0;
            && t.self == g.self && t.permitted
            && (!t.rxFree ==>
                  && i.Arrive? && IsPart(g, i, First, i.arrival.frame.source)
                  && t.rxSource == i.arrival.From() && t.rxData == BytesOf(i))
  {
    hide ResendAsked;
  }

  lemma {:induction false} BusyMoves(g: Handler, i: Input)
    requires g.permitted && !g.rxFree && g.rxSource.alias != 0 && (i.Arrive? ==> i.arrival.frame.source != 0)
    ensures var t := Take(g, i).0;
            && t.self == g.self && t.permitted
            && (!t.rxFree ==>
                  && t.rxSource == g.rxSource
                  && !IsPart(g, i, Last, g.rxSource.alias) && !(i.Kill? && i.id.Matches(g.rxSource))
                  && t.rxData == if IsPart(g, i, Middle, g.rxSource.alias) then g.rxData + BytesOf(i) else g.rxData)
  {
    hide ResendAsked;
  }

  /** What one input does to the receive side. */
  lemma {:induction false} TakeMoves(g: Handler, i: Input)
    requires g.permitted && (i.Arrive? ==> i.arrival.frame.source != 0)
    requires !g.rxFree ==> g.rxSource.alias != 0
    ensures var t := Take(g, i).0;
            && t.self == g.self && t.permitted
            && (!t.rxFree && g.rxFree ==>
                  && i.Arrive? && IsPart(g, i, First, i.arrival.frame.source)
                  && t.rxSource == i.arrival.From() && t.rxData == BytesOf(i))
            && (!t.rxFree && !g.rxFree ==>
                  && t.rxSource == g.rxSource
                  && !IsPart(g, i, Last, g.rxSource.alias) && !(i.Kill? && i.id.Matches(g.rxSource))
                  && t.rxData == if IsPart(g, i, Middle, g.rxSource.alias) then g.rxData + BytesOf(i) else g.rxData)
  {
    hide ResendAsked, Take, IsPart;
    if g.rxFree {
      FreeMoves(g, i);
    } else {
      BusyMoves(g, i);
    }
  }

  lemma {:induction false} PartIsForSelf(h: Handler, g: Handler, i: Input, p: Part, alias: nat)
    requires g.self == h.self
    ensures IsPart(h, i, p, alias) == IsPart(g, i, p, alias)
  {
  }

  lemma {:induction false} AlwaysAccounted(h: Handler, ins: seq<Input>, n: nat)
    requires h.permitted && h.rxFree && NonZeroAliases(ins) && n <= |ins|
    ensures Accounted(h, ins, n)
  {
    hide OpenedAt, IsPart, Take;
    if n > 0 {
      AlwaysAccounted(h, ins, n - 1);
      var g, i, t := After(h, ins, n - 1), ins[n - 1], After(h, ins, n);
      TakeMoves(g, i);
      if !t.rxFree {
        if g.rxFree {
          PartIsForSelf(h, g, i, First, i.arrival.frame.source);
          FirstOpens(h, ins, n - 1);
          assert OpenedAt(h, ins, n - 1, n, t.rxSource, t.rxData);
        } else {
          var q :| OpenedAt(h, ins, q, n - 1, g.rxSource, g.rxData);
          PartIsForSelf(h, g, i, Last, g.rxSource.alias);
          PartIsForSelf(h, g, i, Middle, g.rxSource.alias);
          if IsPart(h, i, Middle, g.rxSource.alias) {
            OpenGrows(h, ins, q, n - 1, g.rxSource, g.rxData);
          } else {
            OpenStaysOpen(h, ins, q, n - 1, g.rxSource, g.rxData);
          }
          assert OpenedAt(h, ins, q, n, t.rxSource, t.rxData);
        }
      }
    }
  }

  /** A call of processDatagram can only come first among the events of an input. */
  lemma {:induction false} CallNeedsClosing(g: Handler, i: Input, e: Event)
    requires g.permitted && (i.Arrive? ==> i.arrival.frame.source != 0)
    requires !g.rxFree ==> g.rxSource.alias != 0
    requires e in Take(g, i).1 && e.Processed?
    ensures i.Arrive?
    ensures || (g.rxFree && IsPart(g, i, Only, e.from.alias) && e.from == i.arrival.From() && e.bytes == BytesOf(i))
            || (!g.rxFree && IsPart(g, i, Last, g.rxSource.alias) && e.from == g.rxSource && e.bytes == g.rxData + BytesOf(i))
  {
  }

  /**
   Soundness for any input: every call of processDatagram is explained by the inputs alone.
   It is either the one Only frame that has just arrived, or there is an earlier First frame,
   taken while the buffer was free, from whose source neither a Last frame nor an alias release
   came since, and the bytes are those of that First frame and of every Middle or Last frame of
   this source up to now, in order: nothing of anyone else's, and nothing of a refused First.
   */
  lemma {:induction false} CallsAreExplained(h: Handler, ins: seq<Input>, n: nat, e: Event)
    requires h.permitted && h.rxFree && NonZeroAliases(ins) && n < |ins|
    requires e in EventsOf(h, ins, n) && e.Processed?
    ensures || (IsPart(h, ins[n], Only, e.from.alias) && e.bytes == BytesOf(ins[n]))
            || (&& IsPart(h, ins[n], Last, e.from.alias)
                && exists q, bytes :: OpenedAt(h, ins, q, n, e.from, bytes)
                                      && e.bytes == bytes + BytesOf(ins[n]) == Collected(h, ins, q, n + 1, e.from.alias))
  {
    hide OpenedAt, IsPart, Take;
    AlwaysAccounted(h, ins, n);
    var g := After(h, ins, n);
    CallNeedsClosing(g, ins[n], e);
    PartIsForSelf(h, g, ins[n], Only, e.from.alias);
    if !g.rxFree {
      PartIsForSelf(h, g, ins[n], Last, g.rxSource.alias);
      var q :| OpenedAt(h, ins, q, n, g.rxSource, g.rxData);
      LastIsCollected(h, ins, q, n, g.rxSource, g.rxData);
    }
  }

  lemma {:induction false} LastIsCollected(h: Handler, ins: seq<Input>, q: nat, n: nat, from: NodeId, bytes: seq<Byte>)
    requires OpenedAt(h, ins, q, n, from, bytes) && n < |ins| && IsPart(h, ins[n], Last, from.alias)
    ensures q < n && bytes + BytesOf(ins[n]) == Collected(h, ins, q, n + 1, from.alias)
  {
  }

  /** And completeness: an Only frame finds a free buffer, or a Last frame its own assembly, exactly when there is a call. */
  lemma {:induction false} ClosingFramesCall(h: Handler, ins: seq<Input>, n: nat, p: Part, alias: nat)
    requires h.permitted && h.rxFree && NonZeroAliases(ins) && n < |ins| && Closes(p) && IsPart(h, ins[n], p, alias)
    ensures var g := After(h, ins, n);
            (exists e :: e in EventsOf(h, ins, n) && e.Processed?) <==>
            if p.Only? then g.rxFree else !g.rxFree && g.rxSource.alias == alias
  {
    AlwaysAccounted(h, ins, n);
    var g, a := After(h, ins, n), ins[n].arrival;
    if Accepts(g, p, a.From()) {
      var f := Filled(g, p, a.From(), BytesOf(ins[n]));
      assert Processed(f.rxSource, f.rxData) in EventsOf(h, ins, n);
    }
  }
}
