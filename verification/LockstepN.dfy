/** The host-relay lockstep session with its flat arrays, refining RelayConsole.Console. */
module LockstepN {
  import opened Frames
  import opened Wire
  import opened RelayConsole
  import opened RelayOutcomes
  import RelayRun

  /** The flat array cell of one slot. */
  function Index(cap: nat, player: nat, frame: nat): nat {
    player * cap + frame
  }

  lemma IndexInBounds(players: nat, cap: nat, p: nat, f: nat)
    requires p < players && f < cap
    ensures Index(cap, p, f) < players * cap
  {
    assert p * cap + cap == (p + 1) * cap <= players * cap;
  }

  lemma IndexInjective(cap: nat, p: nat, f: nat, q: nat, g: nat)
    requires f < cap && g < cap
    ensures Index(cap, p, f) == Index(cap, q, g) <==> p == q && f == g
  {
    if p < q {
      assert p * cap + cap == (p + 1) * cap <= q * cap;
    } else if q < p {
      assert q * cap + cap == (q + 1) * cap <= p * cap;
    }
  }

  /** The frames of one player lie side by side, and the players one behind the other in roster order. */
  lemma IndexLayout(cap: nat, p: nat, f: nat)
    ensures Index(cap, 0, 0) == 0 && Index(cap, p, f + 1) == Index(cap, p, f) + 1
    ensures 0 < cap ==> Index(cap, p + 1, 0) == Index(cap, p, cap - 1) + 1
  {
    assert (p + 1) * cap == p * cap + cap;
  }

  /** Reads a flat array back as a table. */
  ghost function Table<T>(a: seq<T>, players: nat, cap: nat): map<Slot, T>
    requires |a| == players * cap
  {
    map s | s in Slots(players, cap) :: (IndexInBounds(players, cap, s.player, s.frame); a[Index(cap, s.player, s.frame)])
  }

  ghost function Marked(a: seq<bool>, players: nat, cap: nat): set<Slot>
    requires |a| == players * cap
  {
    set s | s in Slots(players, cap) && (IndexInBounds(players, cap, s.player, s.frame); a[Index(cap, s.player, s.frame)])
  }

  lemma TableUpdate<T>(a: seq<T>, players: nat, cap: nat, p: nat, f: nat, v: T)
    requires |a| == players * cap && p < players && f < cap
    ensures Index(cap, p, f) < |a|
    ensures Table(a[Index(cap, p, f) := v], players, cap) == Table(a, players, cap)[Slot(p, f) := v]
  {
    IndexInBounds(players, cap, p, f);
    var b := a[Index(cap, p, f) := v];
    forall s | s in Slots(players, cap)
      ensures Table(b, players, cap)[s] == Table(a, players, cap)[Slot(p, f) := v][s]
    {
      IndexInBounds(players, cap, s.player, s.frame);
      IndexInjective(cap, p, f, s.player, s.frame);
    }
  }

  lemma MarkedUpdate(a: seq<bool>, players: nat, cap: nat, p: nat, f: nat)
    requires |a| == players * cap && p < players && f < cap
    ensures Index(cap, p, f) < |a|
    ensures Marked(a[Index(cap, p, f) := true], players, cap) == Marked(a, players, cap) + {Slot(p, f)}
  {
    IndexInBounds(players, cap, p, f);
    var b := a[Index(cap, p, f) := true];
    forall s | s in Slots(players, cap)
      ensures s in Marked(b, players, cap) <==> s in Marked(a, players, cap) + {Slot(p, f)}
    {
      IndexInBounds(players, cap, s.player, s.frame);
      IndexInjective(cap, p, f, s.player, s.frame);
    }
  }

  lemma TableOfZeros(a: seq<Word>, players: nat, cap: nat)
    requires |a| == players * cap && forall i | 0 <= i < |a| :: a[i] == 0
    ensures Table(a, players, cap) == Neutral(players, cap)
  {
    forall s | s in Slots(players, cap)
      ensures Table(a, players, cap)[s] == 0
    {
      IndexInBounds(players, cap, s.player, s.frame);
    }
  }

  lemma NothingMarked(a: seq<bool>, players: nat, cap: nat)
    requires |a| == players * cap && forall i | 0 <= i < |a| :: !a[i]
    ensures Marked(a, players, cap) == {}
  {
    forall s | s in Slots(players, cap)
      ensures s !in Marked(a, players, cap)
    {
      IndexInBounds(players, cap, s.player, s.frame);
    }
  }

  const RC_OK := 0
  const RC_BAD := -1

  /** The playerCount an init ends up with. */
  function ClampPlayers(playerCount: int): nat {
    if playerCount < 2 then 2 else if playerCount > MAX_PLAYERS then MAX_PLAYERS else playerCount
  }

  function ClampRole(role: int, players: nat): nat
    requires 0 < players
  {
    if role < 0 then 0 else if role >= players then players - 1 else role
  }

  /** A loop up to a negative bound does nothing. */
  function NonNegative(n: int): nat {
    if n < 0 then 0 else n
  }

  class Session {
    var role: nat
    var playerCount: nat
    var delay: nat
    var cap: nat
    var inp: array<Word>
    var known: array<bool>
    var ready: array<bool>
    const gpeer: array<nat>
    const gpeerSet: array<bool>

    /** An empty struct; Init fills it. */
    constructor ()
      ensures fresh(gpeer) && fresh(gpeerSet) && gpeer.Length == gpeerSet.Length == MAX_PLAYERS
    {
      role, playerCount, delay, cap := 0, 0, 0, 0;
      inp := new Word[0];
      known := new bool[0];
      ready := new bool[0];
      gpeer := new nat[MAX_PLAYERS](_ => 0);
      gpeerSet := new bool[MAX_PLAYERS](_ => false);
    }

    ghost predicate Valid()
      reads this
    {
      && 2 <= playerCount <= MAX_PLAYERS && role < playerCount
      && inp.Length == known.Length == playerCount * cap
      && ready.Length == cap
      && gpeer.Length == gpeerSet.Length == MAX_PLAYERS
      && known != ready && known != gpeerSet && ready != gpeerSet
      && inp as object != gpeer as object
    }

    /** The console this session stands for. */
    ghost function View(): (c: Console)
      requires Valid()
      reads this, inp, known, ready, gpeer, gpeerSet
      ensures c.Valid()
    {
      Console(role, playerCount, delay, cap,
              Table(inp[..], playerCount, cap),
              Marked(known[..], playerCount, cap),
              set f: nat | f < cap && ready[f],
              map p: nat | p < MAX_PLAYERS && gpeerSet[p] :: gpeer[p])
    }

    /** Clears the struct and allocates its zeroed arrays. */
    method Allocate(role: nat, players: nat, delay: nat, cap: nat)
      requires gpeer.Length == gpeerSet.Length == MAX_PLAYERS
      requires 2 <= players <= MAX_PLAYERS && role < players
      modifies this, gpeer, gpeerSet
      ensures Valid() && fresh(inp) && fresh(known) && fresh(ready)
      ensures View() == Console(role, players, delay, cap, Neutral(players, cap), {}, {}, map[])
    {
      forall p | 0 <= p < gpeer.Length {
        gpeer[p] := 0;
      }
      forall p | 0 <= p < gpeerSet.Length {
        gpeerSet[p] := false;
      }
      this.role, this.playerCount, this.delay, this.cap := role, players, delay, cap;
      inp := new Word[players * cap](_ => 0);
      known := new bool[players * cap](_ => false);
      ready := new bool[cap](_ => false);
      TableOfZeros(inp[..], players, cap);
      NothingMarked(known[..], players, cap);
      assert View().ready == {} && View().gpeer == map[];
    }

    /** The host's own warm-up frames are pre-known. */
    method MarkWarmup()
      requires Valid() && delay < cap
      modifies known
      ensures Valid() && View() == old(View()).(known := old(View()).known + Warmup(delay))
    {
      for f := 0 to delay
        invariant Marked(known[..], playerCount, cap) == old(View()).known + Warmup(f)
      {
        ghost var marks := known[..];
        MarkedUpdate(marks, playerCount, cap, 0, f);
        known[Index(cap, 0, f)] := true;
        assert known[..] == marks[Index(cap, 0, f) := true];
        assert Warmup(f + 1) == Warmup(f) + {Slot(0, f)};
      }
    }

    /** `memory` says whether the three allocations succeed. */
    method Init(role: int, playerCount: int, delay: int, maxFrames: int, memory: bool) returns (rc: int)
      requires gpeer.Length == gpeerSet.Length == MAX_PLAYERS
      modifies this, gpeer, gpeerSet
      ensures rc == if 0 <= delay && 0 < maxFrames && memory then 0 else -1
      ensures delay < 0 || maxFrames <= 0 ==> unchanged(this) && unchanged(gpeer) && unchanged(gpeerSet)
      ensures 0 <= delay && 0 < maxFrames ==> Valid()
      ensures 0 <= delay && 0 < maxFrames ==>
                View().playerCount == if playerCount < 2 then 2 else if playerCount > 8 then 8 else playerCount
      ensures 0 <= delay && 0 < maxFrames ==>
                View().role == if role < 0 then 0 else if role >= View().playerCount then View().playerCount - 1 else role
      ensures 0 <= delay && 0 < maxFrames && !memory ==>
                View() == Console(View().role, View().playerCount, delay, 0, map[], {}, {}, map[])
      ensures rc == RC_OK ==> fresh(inp) && fresh(known) && fresh(ready)
      ensures rc == RC_OK ==> View() == InitialConsole(View().role, View().playerCount, delay, maxFrames)
      ensures rc == RC_OK && 2 <= playerCount <= 8 && 0 <= role < playerCount ==>
                View() == RelayRun.Initial(Config(playerCount, delay, maxFrames)).nodes[role].con
    {
      if delay < 0 || maxFrames <= 0 {
        return RC_BAD;
      }
      var n := ClampPlayers(playerCount);
      var r := ClampRole(role, n);
      if !memory {
        Allocate(r, n, delay, 0);
        assert Neutral(n, 0) == map[];
        return RC_BAD;
      }
      Allocate(r, n, delay, maxFrames + delay + 1);
      if r == 0 {
        MarkWarmup();
      }
      rc := RC_OK;
    }

    /** The four kinds of cell this code writes. */
    method SetInput(p: nat, f: nat, v: Word)
      requires Valid() && p < playerCount && f < cap
      modifies inp
      ensures Valid() && View() == old(View()).(inp := old(View()).inp[Slot(p, f) := v])
    {
      ghost var cells := inp[..];
      TableUpdate(cells, playerCount, cap, p, f, v);
      inp[Index(cap, p, f)] := v;
      assert inp[..] == cells[Index(cap, p, f) := v];
    }

    method SetKnown(p: nat, f: nat)
      requires Valid() && p < playerCount && f < cap
      modifies known
      ensures Valid() && View() == old(View()).(known := old(View()).known + {Slot(p, f)})
    {
      ghost var cells := known[..];
      MarkedUpdate(cells, playerCount, cap, p, f);
      known[Index(cap, p, f)] := true;
      assert known[..] == cells[Index(cap, p, f) := true];
    }

    method SetReady(f: nat)
      requires Valid() && f < cap
      modifies ready
      ensures Valid() && View() == old(View()).(ready := old(View()).ready + {f})
    {
      ready[f] := true;
    }

    method SetPeer(p: nat, address: nat)
      requires Valid() && p < playerCount
      modifies gpeer, gpeerSet
      ensures Valid() && View() == old(View()).(gpeer := old(View()).gpeer[p := address])
    {
      gpeer[p] := address;
      gpeerSet[p] := true;
    }

    lemma CellAt(p: nat, f: nat)
      requires Valid() && p < playerCount && f < cap
      ensures Index(cap, p, f) < inp.Length == known.Length
      ensures View().At(p, f) == inp[Index(cap, p, f)]
      ensures Slot(p, f) in View().known <==> known[Index(cap, p, f)]
    {
      IndexInBounds(playerCount, cap, p, f);
      assert Slot(p, f) in Slots(playerCount, cap);
    }

    method HostComplete(frame: int) returns (r: bool)
      requires Valid()
      ensures r == View().HostComplete(frame)
      ensures r <==> 0 <= frame < cap && forall p: nat | p < playerCount :: Slot(p, frame) in View().known
    {
      if frame < 0 || frame >= cap {
        return false;
      }
      for p := 0 to playerCount
        invariant forall q: nat | q < p :: Slot(q, frame) in View().known
      {
        CellAt(p, frame);
        if !known[Index(cap, p, frame)] {
          return false;
        }
      }
      return true;
    }

    /** Absorbs every pending datagram; `got` is what the socket returns until it is empty. */
    method Drain(got: seq<Envelope>)
      requires Valid()
      modifies inp, known, ready, gpeer, gpeerSet
      ensures Valid() && View() == old(View()).Drain(got)
    {
      ghost var start := View();
      for i := 0 to |got|
        invariant Valid() && View() == start.Drain(got[..i])
      {
        ghost var c := View();
        assert got[..i + 1][..i] == got[..i];
        var e := got[i];
        if e.body == Junk {
          continue;
        }
        if role == 0 {
          if 0 < e.body.player < playerCount {
            SetPeer(e.body.player, e.src);
          }
          if e.body.kind == InputKind && 0 <= e.body.frame < cap && 0 < e.body.player < playerCount {
            SetInput(e.body.player, e.body.frame, e.body.state[0]);
            SetKnown(e.body.player, e.body.frame);
          }
        } else if e.body.kind == AggKind && 0 <= e.body.frame < cap {
          AbsorbAggregate(e.body.frame, e.body.n, e.body.state);
        }
        assert View() == c.Receive(e);
      }
      assert got[..|got|] == got;
    }

    /** A guest overwrites all its slots of one frame, its own included. */
    method AbsorbAggregate(frame: nat, n: nat, state: States)
      requires Valid() && frame < cap
      modifies inp, ready
      ensures Valid()
      ensures View() == old(View()).(inp := FillFrame(old(View()).inp, frame, state, Min(n, playerCount)),
                                     ready := old(View()).ready + {frame})
    {
      var k := if n > playerCount then playerCount else n;
      ghost var start := View();
      for p := 0 to k
        invariant Valid() && View() == start.(inp := FillFrame(start.inp, frame, state, p))
      {
        SetInput(p, frame, state[p]);
      }
      SetReady(frame);
    }

    method RecordLocal(frame: int, state: Word)
      requires Valid()
      modifies inp, known
      ensures Valid() && View() == old(View()).Record(frame, state)
    {
      var sched := frame + delay;
      if 0 <= sched < cap {
        SetInput(role, sched, state);
        if role == 0 {
          SetKnown(0, sched);
        }
      }
    }

    /** Sends the copies of one complete frame. */
    method Broadcast(f: nat) returns (out: seq<Envelope>)
      requires Valid() && f < cap
      ensures out == View().Broadcast(f, playerCount)
    {
      var agg: States := BLANK;
      for p := 0 to playerCount
        invariant forall q: nat | q < MAX_PLAYERS :: agg[q] == if q < p then View().At(q, f) else 0
      {
        CellAt(p, f);
        agg := agg[p := inp[Index(cap, p, f)]];
      }
      assert agg == View().AggStates(f);
      out := [];
      for p := 1 to playerCount
        invariant out == View().Broadcast(f, p)
      {
        if gpeerSet[p] {
          out := out + [AggEnvelope(gpeer[p], playerCount, f, agg)];
        }
      }
    }

    /** One frame of the window. */
    method RelayFrame(frame: int, sf: int, ghost start: Console) returns (copies: seq<Envelope>)
      requires Valid() && start.Valid() && frame <= sf && View() == start.MarkRelayed(frame, sf)
      modifies ready
      ensures Valid() && View() == start.MarkRelayed(frame, sf + 1)
      ensures copies == if start.HostComplete(sf) then start.Broadcast(sf, playerCount) else []
    {
      copies := [];
      var complete := HostComplete(sf);
      if 0 <= sf < cap && complete {
        copies := Broadcast(sf);
        BroadcastIgnoresReady(start, View().ready, sf, playerCount);
        SetReady(sf);
      }
      assert View() == start.MarkRelayed(frame, sf + 1);
    }

    method HostRelay(frame: int) returns (out: seq<Envelope>)
      requires Valid() && role == 0
      modifies ready
      ensures Valid()
      ensures View() == old(View()).MarkRelayed(frame, frame + delay + 1)
      ensures out == old(View()).Relay(frame, frame + delay + 1)
    {
      ghost var start := View();
      out := [];
      var sf := frame;
      assert View() == start.MarkRelayed(frame, frame);
      while sf < frame + delay + 1
        invariant frame <= sf <= frame + delay + 1
        invariant Valid() && View() == start.MarkRelayed(frame, sf)
        invariant out == start.Relay(frame, sf)
      {
        var copies := RelayFrame(frame, sf, start);
        out := out + copies;
        sf := sf + 1;
      }
    }

    /** A guest's scheduled inputs for the window, newest first. */
    method SendWindow(frame: int) returns (out: seq<Envelope>)
      requires Valid()
      ensures out == View().SendWindow(frame + delay, delay + 1)
    {
      var sched := frame + delay;
      out := [];
      for k := 0 to delay + 1
        invariant out == View().SendWindow(sched, k)
      {
        var sf := sched - k;
        if 0 <= sf < cap {
          CellAt(role, sf);
          out := out + [InputEnvelope(role, sf, inp[Index(cap, role, sf)])];
        }
      }
    }

    /** The host absorbs and then relays; a guest sends and then absorbs. */
    method Pump(frame: int, got: seq<Envelope>) returns (out: seq<Envelope>)
      requires Valid()
      modifies inp, known, ready, gpeer, gpeerSet
      ensures Valid()
      ensures View() == old(View()).Pump(frame, got)
      ensures out == old(View()).PumpSends(frame, got)
    {
      ghost var start := View();
      if role == 0 {
        Drain(got);
        ghost var drained := View();
        out := HostRelay(frame);
        assert View() == drained.MarkRelayed(frame, frame + delay + 1);
      } else {
        out := SendWindow(frame);
        Drain(got);
      }
    }

    method Have(frame: int) returns (r: bool)
      requires Valid()
      ensures r == View().Have(frame)
      ensures r <==> 0 <= frame < cap
                     && if role == 0 then forall p: nat | p < playerCount :: Slot(p, frame) in View().known
                        else frame in View().ready
    {
      if frame < 0 || frame >= cap {
        return false;
      }
      if role == 0 {
        r := HostComplete(frame);
      } else {
        r := ready[frame];
      }
    }

    /** The first max cells; none when max is negative. */
    method Inputs(frame: int, out: array<Word>, max: int)
      requires Valid() && max <= out.Length && out != inp
      modifies out
      ensures out[..NonNegative(max)] == View().Inputs(frame, NonNegative(max))
      ensures forall k | 0 <= k < max :: out[k] == if 0 <= frame < cap && k < playerCount then View().At(k, frame) else 0
      ensures forall k | NonNegative(max) <= k < out.Length :: out[k] == old(out[k])
    {
      Blank(out, NonNegative(max));
      if frame < 0 || frame >= cap {
        return;
      }
      CopyFrame(frame, out, NonNegative(max));
    }

    method Blank(out: array<Word>, max: nat)
      requires max <= out.Length
      modifies out
      ensures forall k | 0 <= k < out.Length :: out[k] == if k < max then 0 else old(out[k])
    {
      for p := 0 to max
        invariant forall k | 0 <= k < out.Length :: out[k] == if k < p then 0 else old(out[k])
      {
        out[p] := 0;
      }
    }

    method CopyFrame(frame: nat, out: array<Word>, max: nat)
      requires Valid() && frame < cap && max <= out.Length && out != inp
      modifies out
      ensures forall k: nat | k < out.Length :: out[k] == if k < playerCount && k < max then View().At(k, frame) else old(out[k])
    {
      var n := if playerCount < max then playerCount else max;
      for p := 0 to n
        invariant forall k: nat | k < out.Length :: out[k] == if k < p then View().At(k, frame) else old(out[k])
      {
        CellAt(p, frame);
        out[p] := inp[Index(cap, p, frame)];
      }
    }

    method Local(frame: int) returns (w: Word)
      requires Valid()
      ensures w == View().Local(frame)
      ensures w == if 0 <= frame < cap then View().At(role, frame) else 0
    {
      if frame < 0 || frame >= cap {
        return 0;
      }
      CellAt(role, frame);
      w := inp[Index(cap, role, frame)];
    }

    method SendHellos() returns (out: seq<Envelope>)
      requires Valid()
      ensures out == View().Hellos(playerCount)
    {
      if role != 0 {
        return [HelloEnvelope(role, 0)];
      }
      out := [];
      for p := 1 to playerCount
        invariant out == View().Hellos(p)
      {
        if gpeerSet[p] {
          out := out + [HelloEnvelope(0, gpeer[p])];
        }
      }
    }

    method IsLinked() returns (ok: bool)
      requires Valid() && 0 < cap
      ensures ok == View().Linked()
      ensures ok <==> if role == 0 then forall p: nat | 0 < p < playerCount :: p in View().gpeer else 0 in View().ready
    {
      if role != 0 {
        return ready[0];
      }
      var seen := 0;
      for p := 1 to playerCount
        invariant seen <= p - 1
        invariant seen == p - 1 <==> forall q: nat | 0 < q < p :: q in View().gpeer
      {
        assert p in View().gpeer <==> gpeerSet[p];
        if gpeerSet[p] {
          seen := seen + 1;
        }
      }
      ok := seen >= playerCount - 1;
    }

    /** The handshake until it succeeds or the clock runs out: its r-th round drains rounds[r]. */
    method Handshake(rounds: seq<seq<Envelope>>) returns (ok: bool, out: seq<Envelope>)
      requires Valid() && 0 < cap
      modifies inp, known, ready, gpeer, gpeerSet
      ensures Valid()
      ensures Handshaken(View(), ok, out) == HandshakeRun(old(View()), rounds, [])
    {
      ok, out := false, [];
      ghost var whole := HandshakeRun(View(), rounds, []);
      var r := 0;
      while r < |rounds| && !ok
        invariant 0 <= r <= |rounds| && Valid()
        invariant ok ==> whole == Handshaken(View(), true, out)
        invariant !ok ==> whole == HandshakeRun(View(), rounds[r..], out)
      {
        assert rounds[r..][1..] == rounds[r + 1..];
        var hellos := SendHellos();
        Drain(rounds[r]);
        ok := IsLinked();
        out := out + hellos;
        r := r + 1;
      }
    }
  }
}
