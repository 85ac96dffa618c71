/** One console of the host-relay protocol as a value: a table indexed by (player, frame) instead of flat arrays. */
module RelayConsole {
  import opened Frames
  import opened Wire

  datatype Slot = Slot(player: nat, frame: nat)

  function Slots(players: nat, cap: nat): set<Slot> {
    set p: nat, f: nat | p < players && f < cap :: Slot(p, f)
  }

  function Min(a: nat, b: nat): nat {
    if a < b then a else b
  }

  /** Writes the first k states of an aggregate into the slots of one frame. */
  function FillFrame(inp: map<Slot, Word>, frame: nat, state: States, k: nat): map<Slot, Word>
    requires k <= MAX_PLAYERS
  {
    if k == 0 then inp else FillFrame(inp, frame, state, k - 1)[Slot(k - 1, frame) := state[k - 1]]
  }

  lemma {:induction false} FillFrameAt(inp: map<Slot, Word>, frame: nat, state: States, k: nat)
    requires k <= MAX_PLAYERS
    ensures forall p: nat | p < k :: Slot(p, frame) in FillFrame(inp, frame, state, k) && FillFrame(inp, frame, state, k)[Slot(p, frame)] == state[p]
    ensures forall s: Slot | s.frame != frame || k <= s.player ::
              (s in FillFrame(inp, frame, state, k) <==> s in inp) && (s in inp ==> FillFrame(inp, frame, state, k)[s] == inp[s])
  {
    if k > 0 {
      FillFrameAt(inp, frame, state, k - 1);
    }
  }

  datatype Console = Console(
    role: nat,
    playerCount: nat,
    delay: nat,
    cap: nat,
    inp: map<Slot, Word>,      // applied input per player and frame
    known: set<Slot>,          // host: inputs in hand
    ready: set<nat>,           // frames exchanged (host) or received (guest)
    gpeer: map<nat, nat>)      // host: the address each guest was last heard from
  {
    predicate Valid() {
      2 <= playerCount <= MAX_PLAYERS && role < playerCount
    }

    predicate IsHost() {
      role == 0
    }

    function At(p: nat, f: nat): Word {
      if Slot(p, f) in inp then inp[Slot(p, f)] else 0
    }

    predicate HostComplete(frame: int) {
      0 <= frame < cap && forall p: nat | p < playerCount :: Slot(p, frame) in known
    }

    /** One datagram absorbed by the drain loop. */
    function Receive(e: Envelope): Console
      requires Valid()
    {
      if e.body == Junk then this
      else if IsHost() then
        var heard := if 0 < e.body.player < playerCount then this.(gpeer := gpeer[e.body.player := e.src]) else this;
        if e.body.kind == InputKind && 0 <= e.body.frame < cap && 0 < e.body.player < playerCount then
          heard.(inp := inp[Slot(e.body.player, e.body.frame) := e.body.state[0]],
                 known := known + {Slot(e.body.player, e.body.frame)})
        else heard
      else if e.body.kind == AggKind && 0 <= e.body.frame < cap then
        this.(inp := FillFrame(inp, e.body.frame, e.body.state, Min(e.body.n, playerCount)), ready := ready + {e.body.frame})
      else this
    }

    function Drain(got: seq<Envelope>): (c: Console)
      requires Valid()
      ensures c.role == role && c.playerCount == playerCount && c.delay == delay && c.cap == cap
    {
      if got == [] then this else Drain(got[..|got| - 1]).Receive(got[|got| - 1])
    }

    function Record(frame: int, state: Word): Console {
      var sched := frame + delay;
      if 0 <= sched < cap then
        this.(inp := inp[Slot(role, sched) := state],
              known := if IsHost() then known + {Slot(0, sched)} else known)
      else this
    }

    /** The state[] of the aggregate for one frame. */
    function AggStates(f: nat): States
      requires Valid()
    {
      seq(MAX_PLAYERS, p requires 0 <= p < MAX_PLAYERS => if p < playerCount then At(p, f) else 0)
    }

    /** The copies of one complete frame for guests 1..k-1, each to the address that guest was heard from. */
    function Broadcast(f: nat, k: nat): seq<Envelope>
      requires Valid() && k <= playerCount
    {
      if k <= 1 then []
      else Broadcast(f, k - 1) +
           (if k - 1 in gpeer then [AggEnvelope(gpeer[k - 1], playerCount, f, AggStates(f))] else [])
    }

    /** What the host relays for the frames lo..hi-1, in the order it sends them. */
    function Relay(lo: int, hi: int): seq<Envelope>
      requires Valid() && lo <= hi
      decreases hi - lo
    {
      if lo == hi then []
      else Relay(lo, hi - 1) + (if HostComplete(hi - 1) then Broadcast(hi - 1, playerCount) else [])
    }

    /** The frames of lo..hi-1 the host marks as exchanged while it relays them. */
    function MarkRelayed(lo: int, hi: int): Console
      requires lo <= hi
    {
      this.(ready := ready + set f: nat | lo <= f < hi && HostComplete(f))
    }

    /** The first k datagrams a guest considers sending: frames sched, sched - 1, .. in that order. */
    function SendWindow(sched: int, k: nat): seq<Envelope>
      decreases k
    {
      if k == 0 then []
      else
        var sf := sched - (k - 1);
        SendWindow(sched, k - 1) + (if 0 <= sf < cap then [InputEnvelope(role, sf, At(role, sf))] else [])
    }

    /** The console after one pump at `frame` whose drain returned `got`. */
    function Pump(frame: int, got: seq<Envelope>): Console
      requires Valid()
    {
      if IsHost() then Drain(got).MarkRelayed(frame, frame + delay + 1) else Drain(got)
    }

    /** What that pump sends. */
    function PumpSends(frame: int, got: seq<Envelope>): seq<Envelope>
      requires Valid()
    {
      if IsHost() then Drain(got).Relay(frame, frame + delay + 1)
      else SendWindow(frame + delay, delay + 1)
    }

    /** The hellos of one handshake round. */
    function Hellos(k: nat): seq<Envelope>
      requires k <= playerCount
    {
      if !IsHost() then [HelloEnvelope(role, 0)]
      else if k <= 1 then []
      else Hellos(k - 1) + (if k - 1 in gpeer then [HelloEnvelope(0, gpeer[k - 1])] else [])
    }

    /** The verdict of one handshake round, taken after its drain. */
    predicate Linked() {
      if IsHost() then forall p: nat | 0 < p < playerCount :: p in gpeer else 0 in ready
    }

    predicate Have(frame: int) {
      if IsHost() then HostComplete(frame) else 0 <= frame < cap && frame in ready
    }

    function Inputs(frame: int, max: nat): (out: seq<Word>)
      ensures |out| == max
    {
      seq(max, p requires 0 <= p < max => if 0 <= frame < cap && p < playerCount then At(p, frame) else 0)
    }

    function Local(frame: int): Word {
      if 0 <= frame < cap then At(role, frame) else 0
    }
  }

  datatype Handshaken = Handshaken(con: Console, ok: bool, sent: seq<Envelope>)

  /** Handshake rounds, one per element, until one succeeds; none left means the clock ran out. */
  function HandshakeRun(c: Console, rounds: seq<seq<Envelope>>, sent: seq<Envelope>): Handshaken
    requires c.Valid()
    decreases |rounds|
  {
    if rounds == [] then Handshaken(c, false, sent)
    else
      var drained := c.Drain(rounds[0]);
      var said := sent + c.Hellos(c.playerCount);
      if drained.Linked() then Handshaken(drained, true, said) else HandshakeRun(drained, rounds[1..], said)
  }

  /** Freshly allocated inputs. */
  function Neutral(players: nat, cap: nat): map<Slot, Word> {
    map s | s in Slots(players, cap) :: 0
  }

  /** The host's own neutral slots for the frames below k. */
  function Warmup(k: nat): set<Slot> {
    set f: nat | f < k :: Slot(0, f)
  }

  /** A console right after a successful init, from its already clamped parameters. */
  function InitialConsole(role: nat, playerCount: nat, delay: nat, maxFrames: nat): Console {
    var cap := maxFrames + delay + 1;
    Console(role, playerCount, delay, cap,
            Neutral(playerCount, cap),
            if role == 0 then Warmup(delay) else {},
            {},
            map[])
  }
}
