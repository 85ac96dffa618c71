/** What the operations of one relay console come to, told from what it is handed: who is known where, which input stands in
    which slot, what a handshake returns and says. */
module RelayOutcomes {
  import opened Frames
  import opened Wire
  import opened RelayConsole

  // ---- what a datagram is about ----

  /** Any packet that carries player p. */
  predicate Names(e: Envelope, p: nat) {
    e.body.Packet? && e.body.player == p
  }

  predicate BringsInput(e: Envelope, p: nat, f: nat) {
    e.body.Packet? && e.body.kind == InputKind && e.body.player == p && e.body.frame == f
  }

  predicate BringsFrame(e: Envelope, f: nat) {
    e.body.Packet? && e.body.kind == AggKind && e.body.frame == f
  }

  /** An aggregate of frame f that has a state for player p. */
  predicate BringsState(e: Envelope, p: nat, f: nat) {
    BringsFrame(e, f) && p < e.body.n
  }

  // ---- a drain ----

  /** The host learns a guest's address from the last packet that names it, whatever its kind. */
  lemma {:induction false} HostLearnsAddresses(c: Console, got: seq<Envelope>, p: nat)
    requires c.Valid() && c.role == 0
    ensures var d := c.Drain(got);
            && (p in d.gpeer <==> p in c.gpeer || (0 < p < c.playerCount && exists k :: 0 <= k < |got| && Names(got[k], p)))
            && (0 < p < c.playerCount ==>
                  forall k | 0 <= k < |got| && Names(got[k], p) && (forall j | k < j < |got| :: !Names(got[j], p)) ::
                    p in d.gpeer && d.gpeer[p] == got[k].src)
            && (p in c.gpeer && (forall k | 0 <= k < |got| :: !Names(got[k], p)) ==> p in d.gpeer && d.gpeer[p] == c.gpeer[p])
    decreases |got|
  {
    if got != [] {
      var front := got[..|got| - 1];
      HostLearnsAddresses(c, front, p);
      FrontAndLast(got);
    }
  }

  lemma FrontAndLast(got: seq<Envelope>)
    requires got != []
    ensures forall k | 0 <= k < |got| - 1 :: got[..|got| - 1][k] == got[k]
  {
  }

  lemma ReceiveInput(c: Console, e: Envelope, p: nat, f: nat)
    requires c.Valid() && c.role == 0
    ensures var d := c.Receive(e);
            var taken := 0 < p < c.playerCount && f < c.cap && BringsInput(e, p, f);
            && d.ready == c.ready && (Slot(p, f) in d.known <==> Slot(p, f) in c.known || taken)
            && d.At(p, f) == if taken then e.body.state[0] else c.At(p, f)
  {
  }

  /** The host takes a guest's input for a frame of its range from the last packet that brings it. */
  lemma {:induction false} HostTakesInputs(c: Console, got: seq<Envelope>, p: nat, f: nat)
    requires c.Valid() && c.role == 0
    ensures var d := c.Drain(got);
            var taken := 0 < p < c.playerCount && f < c.cap;
            && d.ready == c.ready
            && (Slot(p, f) in d.known <==> Slot(p, f) in c.known || (taken && exists k :: 0 <= k < |got| && BringsInput(got[k], p, f)))
            && (taken ==>
                  forall k | 0 <= k < |got| && BringsInput(got[k], p, f) && (forall j | k < j < |got| :: !BringsInput(got[j], p, f)) ::
                    d.At(p, f) == got[k].body.state[0])
            && (!taken || (forall k | 0 <= k < |got| :: !BringsInput(got[k], p, f)) ==> d.At(p, f) == c.At(p, f))
    decreases |got|
  {
    if got != [] {
      var front := got[..|got| - 1];
      HostTakesInputs(c, front, p, f);
      ReceiveInput(c.Drain(front), got[|got| - 1], p, f);
      FrontAndLast(got);
    }
  }

  lemma ReceiveFrame(c: Console, e: Envelope, p: nat, f: nat)
    requires c.Valid() && c.role != 0
    ensures var d := c.Receive(e);
            && d.known == c.known && d.gpeer == c.gpeer
            && (f in d.ready <==> f in c.ready || (f < c.cap && BringsFrame(e, f)))
            && d.At(p, f) == if BringsState(e, p, f) && f < c.cap && p < c.playerCount then e.body.state[p] else c.At(p, f)
  {
    if e.body.Packet? && e.body.kind == AggKind && 0 <= e.body.frame < c.cap {
      FillFrameAt(c.inp, e.body.frame, e.body.state, Min(e.body.n, c.playerCount));
    }
  }

  /** A guest has a frame of its range once an aggregate brought it, and the last one that has a state for a player of the
      roster fills that player's slot. It learns nothing else. */
  lemma {:induction false} GuestTakesFrames(c: Console, got: seq<Envelope>, p: nat, f: nat)
    requires c.Valid() && c.role != 0
    ensures var d := c.Drain(got);
            var taken := p < c.playerCount && f < c.cap;
            && d.known == c.known && d.gpeer == c.gpeer
            && (f in d.ready <==> f in c.ready || (f < c.cap && exists k :: 0 <= k < |got| && BringsFrame(got[k], f)))
            && (taken ==>
                  forall k | 0 <= k < |got| && BringsState(got[k], p, f) && (forall j | k < j < |got| :: !BringsState(got[j], p, f)) ::
                    d.At(p, f) == got[k].body.state[p])
            && (!taken || (forall k | 0 <= k < |got| :: !BringsState(got[k], p, f)) ==> d.At(p, f) == c.At(p, f))
    decreases |got|
  {
    if got != [] {
      var front := got[..|got| - 1];
      GuestTakesFrames(c, front, p, f);
      ReceiveFrame(c.Drain(front), got[|got| - 1], p, f);
      FrontAndLast(got);
    }
  }

  // ---- the other operations ----

  /** Recording writes the own slot `delay` frames on, where there is room, and the host then knows it. */
  lemma RecordWrites(c: Console, frame: int, state: Word, p: nat, f: nat)
    ensures var d := c.Record(frame, state);
            var there := p == c.role && f == frame + c.delay && f < c.cap;
            && d.At(p, f) == (if there then state else c.At(p, f))
            && (Slot(p, f) in d.known <==> Slot(p, f) in c.known || (there && p == 0))
            && d.ready == c.ready && d.gpeer == c.gpeer
            && d.role == c.role && d.playerCount == c.playerCount && d.delay == c.delay && d.cap == c.cap
  {
  }

  /** A guest sends before it absorbs: what it is handed in a pump does not show in what that pump sends. */
  lemma GuestSendsFirst(c: Console, frame: int, got: seq<Envelope>)
    requires c.Valid() && c.role != 0
    ensures c.PumpSends(frame, got) == c.SendWindow(frame + c.delay, c.delay + 1) && c.Pump(frame, got) == c.Drain(got)
  {
  }

  /** The host absorbs before it relays, and marks what it relays: a frame of the window is marked by a pump exactly when
      every player's input for it is in hand after the pump. */
  lemma HostAbsorbsFirst(c: Console, frame: int, got: seq<Envelope>, f: nat)
    requires c.Valid() && c.role == 0
    ensures var d := c.Pump(frame, got);
            && d.inp == c.Drain(got).inp && d.known == c.Drain(got).known && d.gpeer == c.Drain(got).gpeer
            && (f in d.ready <==> f in c.ready || (frame <= f <= frame + c.delay && f < c.cap
                                                    && forall p: nat | p < c.playerCount :: Slot(p, f) in d.known))
            && c.PumpSends(frame, got) == d.Relay(frame, frame + c.delay + 1)
  {
    HostTakesInputs(c, got, 0, f);
    RelayIgnoresReady(c.Drain(got), c.Pump(frame, got).ready, frame, frame + c.delay + 1);
  }

  lemma {:induction false} BroadcastIgnoresReady(c: Console, r: set<nat>, f: nat, k: nat)
    requires c.Valid() && k <= c.playerCount
    ensures c.(ready := r).Broadcast(f, k) == c.Broadcast(f, k)
  {
    if k > 1 {
      BroadcastIgnoresReady(c, r, f, k - 1);
      assert c.(ready := r).AggStates(f) == c.AggStates(f);
    }
  }

  lemma {:induction false} RelayIgnoresReady(c: Console, r: set<nat>, lo: int, hi: int)
    requires c.Valid() && lo <= hi
    ensures c.(ready := r).Relay(lo, hi) == c.Relay(lo, hi)
    decreases hi - lo
  {
    if lo < hi {
      RelayIgnoresReady(c, r, lo, hi - 1);
      if c.HostComplete(hi - 1) {
        BroadcastIgnoresReady(c, r, hi - 1, c.playerCount);
      }
    }
  }

  // ---- order and number ----

  /** A window inside the capacity goes out newest first, one datagram a frame. */
  lemma {:induction false} WindowIsNewestFirst(c: Console, sched: int, k: nat, j: nat)
    requires j < k <= sched + 1 && sched < c.cap
    ensures |c.SendWindow(sched, k)| == k
    ensures c.SendWindow(sched, k)[j] ==
            Envelope(c.role, 0, Packet(InputKind, sched - j, c.role, 1, BLANK[0 := c.At(c.role, sched - j)]))
    decreases k
  {
    if j < k - 1 {
      WindowIsNewestFirst(c, sched, k - 1, j);
    } else if k > 1 {
      WindowIsNewestFirst(c, sched, k - 1, 0);
    }
  }

  /** Numbers that only go up. */
  ghost predicate Ascending(s: seq<nat>) {
    forall a, b | 0 <= a < b < |s| :: s[a] < s[b]
  }

  /** Exactly the guests the host has heard, in roster order. */
  ghost predicate AreHeard(c: Console, who: seq<nat>, k: nat) {
    Ascending(who) && forall p: nat :: p in who <==> 0 < p < k && p in c.gpeer
  }

  lemma HeardAlso(c: Console, who: seq<nat>, k: nat)
    requires AreHeard(c, who, k) && 0 < k
    ensures AreHeard(c, if k in c.gpeer then who + [k] else who, k + 1)
  {
    var more := who + [k];
    forall p: nat
      ensures p in more <==> p in who || p == k
    {
    }
    forall a | 0 <= a < |who|
      ensures who[a] < k
    {
      assert who[a] in who;
    }
  }

  /** The aggregate of a frame: every player's input, and 0 beyond the roster. */
  ghost predicate TellsAll(c: Console, f: nat, d: Datagram) {
    && d.Packet? && d.kind == AggKind && d.frame == f && d.player == c.playerCount && d.n == c.playerCount
    && forall p: nat | p < MAX_PLAYERS :: d.state[p] == if p < c.playerCount then c.At(p, f) else 0
  }

  /** One aggregate for each guest that was heard, in roster order. */
  lemma {:induction false} BroadcastIsInOrder(c: Console, f: nat, k: nat) returns (who: seq<nat>)
    requires c.Valid() && k <= c.playerCount
    ensures AreHeard(c, who, k) && |c.Broadcast(f, k)| == |who|
    ensures forall j | 0 <= j < |who| :: who[j] in c.gpeer && c.Broadcast(f, k)[j].dst == c.gpeer[who[j]]
    ensures forall j | 0 <= j < |who| :: c.Broadcast(f, k)[j].src == 0 && TellsAll(c, f, c.Broadcast(f, k)[j].body)
    decreases k
  {
    if k <= 1 {
      who := [];
    } else {
      who := BroadcastIsInOrder(c, f, k - 1);
      HeardAlso(c, who, k - 1);
      who := if k - 1 in c.gpeer then who + [k - 1] else who;
    }
  }

  /** The window is relayed oldest frame first. */
  lemma {:induction false} RelayIsOldestFirst(c: Console, lo: int, hi: int, a: nat, b: nat)
    requires c.Valid() && lo <= hi && a <= b < |c.Relay(lo, hi)|
    ensures c.Relay(lo, hi)[a].body.Packet? && c.Relay(lo, hi)[b].body.Packet?
    ensures lo <= c.Relay(lo, hi)[a].body.frame <= c.Relay(lo, hi)[b].body.frame < hi
    decreases hi - lo
  {
    var n := |c.Relay(lo, hi - 1)|;
    if c.HostComplete(hi - 1) {
      var who := BroadcastIsInOrder(c, hi - 1, c.playerCount);
    }
    if b < n {
      RelayIsOldestFirst(c, lo, hi - 1, a, b);
    } else if a < n {
      RelayIsOldestFirst(c, lo, hi - 1, a, a);
    }
  }

  /** A session that was just set up: all inputs neutral, the host's own warm-up in hand, nobody heard. */
  lemma FreshConsole(role: nat, playerCount: nat, delay: nat, maxFrames: nat, p: nat, f: nat)
    ensures var c := InitialConsole(role, playerCount, delay, maxFrames);
            && c.role == role && c.playerCount == playerCount && c.delay == delay && c.cap == maxFrames + delay + 1
            && c.At(p, f) == 0 && (Slot(p, f) in c.known <==> role == 0 && p == 0 && f < delay)
            && c.ready == {} && c.gpeer == map[]
  {
  }
}
