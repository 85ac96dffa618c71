/** One console of the two-player symmetric lockstep as a value. */
module PairConsole {
  import opened Frames

  /** Junk stands for a datagram that is too short or carries another magic number; a hello has frame -1. */
  datatype Datagram = Junk | Packet(frame: int, state: Word)

  const HELLO := Packet(-1, 0)

  datatype Console = Console(role: nat, delay: nat, mine: seq<Word>, peer: seq<Word>, peerKnown: seq<bool>)
  {
    predicate Valid() {
      role < 2 && |mine| == |peer| == |peerKnown|
    }

    function Cap(): nat {
      |mine|
    }

    /** One datagram absorbed by the drain loop. */
    function Receive(d: Datagram): (c: Console)
      requires Valid()
      ensures c.Valid() && c.role == role && c.delay == delay && c.mine == mine
    {
      if d.Packet? && 0 <= d.frame < |peer| then
        this.(peer := peer[d.frame := d.state], peerKnown := peerKnown[d.frame := true])
      else this
    }

    function Drain(got: seq<Datagram>): (c: Console)
      requires Valid()
      ensures c.Valid() && c.role == role && c.delay == delay && c.mine == mine
    {
      if got == [] then this else Drain(got[..|got| - 1]).Receive(got[|got| - 1])
    }

    function Record(frame: int, state: Word): (c: Console)
      requires Valid()
      ensures c.Valid()
    {
      var sched := frame + delay;
      if 0 <= sched < |mine| then this.(mine := mine[sched := state]) else this
    }

    /** The first k datagrams a pump considers sending: frames sched, sched - 1, .. in that order. */
    function SendWindow(sched: int, k: nat): seq<Datagram> {
      if k == 0 then []
      else
        var sf := sched - (k - 1);
        SendWindow(sched, k - 1) + (if 0 <= sf < |mine| then [Packet(sf, mine[sf])] else [])
    }

    predicate Have(frame: int)
      requires Valid()
    {
      0 <= frame < |peerKnown| && peerKnown[frame]
    }

    function Local(frame: int): Word {
      if 0 <= frame < |mine| then mine[frame] else 0
    }

    /** Host input first, then the guest's, on either side. */
    function Inputs(frame: int): (Word, Word)
      requires Valid()
    {
      if 0 <= frame < |mine| then
        if role == 0 then (mine[frame], peer[frame]) else (peer[frame], mine[frame])
      else (0, 0)
    }
  }

  function InitialConsole(role: nat, delay: nat, maxFrames: nat): Console {
    var cap := maxFrames + delay + 1;
    Console(role, delay, seq(cap, i => 0), seq(cap, i => 0), seq(cap, i => false))
  }

  /** One handshake round: a first drain keeps what it gets, a second loop throws away what arrives after it
      and only notes that the peer was heard. */
  datatype Round = Round(kept: seq<Datagram>, dropped: seq<Datagram>)

  predicate Heard(dropped: seq<Datagram>) {
    exists d :: d in dropped && d.Packet?
  }

  datatype Handshaken = Handshaken(con: Console, ok: bool, hellos: nat)

  function HandshakeRun(c: Console, rounds: seq<Round>, hellos: nat): (h: Handshaken)
    requires c.Valid()
    ensures h.con.Valid()
    decreases |rounds|
  {
    if rounds == [] then Handshaken(c, false, hellos)
    else
      var drained := c.Drain(rounds[0].kept);
      if Heard(rounds[0].dropped) then Handshaken(drained, true, hellos + 1)
      else HandshakeRun(drained, rounds[1..], hellos + 1)
  }

  // ---- what the handshake does ----

  /** Some datagram of these is an input for frame f. */
  predicate Holds(got: seq<Datagram>, f: int) {
    exists d :: d in got && d.Packet? && d.frame == f
  }

  /** The rounds that are met: up to and including the first that hears a packet in its second loop. */
  function Met(rounds: seq<Round>): (n: nat)
    ensures n <= |rounds|
  {
    if rounds == [] then 0 else if Heard(rounds[0].dropped) then 1 else 1 + Met(rounds[1..])
  }

  lemma {:induction false} DrainHas(c: Console, got: seq<Datagram>, f: int)
    requires c.Valid() && 0 <= f < c.Cap()
    ensures c.Drain(got).Have(f) <==> c.Have(f) || Holds(got, f)
    decreases |got|
  {
    if got != [] {
      var front, last := got[..|got| - 1], got[|got| - 1];
      DrainHas(c, front, f);
      assert forall d :: d in got <==> d in front || d == last;
    }
  }

  predicate IsFor(d: Datagram, f: int) {
    d.Packet? && d.frame == f
  }

  /** The peer's input for a frame is the one of the last datagram that brought it. */
  lemma {:induction false} DrainTakesLast(c: Console, got: seq<Datagram>, f: nat)
    requires c.Valid() && f < c.Cap()
    ensures var d := c.Drain(got);
            && d.Cap() == c.Cap() && d.mine == c.mine
            && (forall k | 0 <= k < |got| && IsFor(got[k], f) && (forall j | k < j < |got| :: !IsFor(got[j], f)) ::
                  d.peer[f] == got[k].state)
            && ((forall k | 0 <= k < |got| :: !IsFor(got[k], f)) ==> d.peer[f] == c.peer[f])
    decreases |got|
  {
    if got != [] {
      var front := got[..|got| - 1];
      DrainTakesLast(c, front, f);
      assert forall k | 0 <= k < |front| :: front[k] == got[k];
    }
  }

  /** A session that was just set up: all inputs neutral, none of the peer's in hand. */
  lemma FreshConsole(role: nat, delay: nat, maxFrames: nat, f: nat)
    requires role < 2 && f < maxFrames + delay + 1
    ensures var c := InitialConsole(role, delay, maxFrames);
            && c.Valid() && c.role == role && c.delay == delay && c.Cap() == maxFrames + delay + 1
            && c.mine[f] == 0 && c.peer[f] == 0 && !c.Have(f)
  {
  }

  /** Recording writes the own input `delay` frames on, where there is room, and nothing else. */
  lemma RecordWrites(c: Console, frame: int, state: Word, f: nat)
    requires c.Valid() && f < c.Cap()
    ensures var d := c.Record(frame, state);
            && d.Cap() == c.Cap() && d.peer == c.peer && d.peerKnown == c.peerKnown && d.role == c.role && d.delay == c.delay
            && d.mine[f] == if f == frame + c.delay then state else c.mine[f]
  {
  }

  /** A window inside the capacity goes out newest first, one datagram a frame. */
  lemma {:induction false} WindowIsNewestFirst(c: Console, sched: int, k: nat, j: nat)
    requires j < k <= sched + 1 && sched < |c.mine|
    ensures |c.SendWindow(sched, k)| == k && c.SendWindow(sched, k)[j] == Packet(sched - j, c.mine[sched - j])
    decreases k
  {
    if j < k - 1 {
      WindowIsNewestFirst(c, sched, k - 1, j);
    } else if k > 1 {
      WindowIsNewestFirst(c, sched, k - 1, 0);
    }
  }

  ghost predicate SomeHeard(rounds: seq<Round>) {
    exists r :: 0 <= r < |rounds| && Heard(rounds[r].dropped)
  }

  ghost predicate SomeKept(rounds: seq<Round>, n: nat, f: int)
    requires n <= |rounds|
  {
    exists r :: 0 <= r < n && Holds(rounds[r].kept, f)
  }

  lemma SomeHeardFirst(rounds: seq<Round>)
    requires rounds != []
    ensures SomeHeard(rounds) <==> Heard(rounds[0].dropped) || SomeHeard(rounds[1..])
  {
    forall r | 0 < r < |rounds|
      ensures rounds[r] == rounds[1..][r - 1]
    {
    }
    if SomeHeard(rounds[1..]) {
      var r :| 0 <= r < |rounds| - 1 && Heard(rounds[1..][r].dropped);
      assert Heard(rounds[r + 1].dropped);
    }
  }

  lemma SomeKeptFirst(rounds: seq<Round>, n: nat, f: int)
    requires 0 < n <= |rounds|
    ensures SomeKept(rounds, n, f) <==> Holds(rounds[0].kept, f) || SomeKept(rounds[1..], n - 1, f)
  {
    forall r | 0 < r < |rounds|
      ensures rounds[r] == rounds[1..][r - 1]
    {
    }
    if SomeKept(rounds[1..], n - 1, f) {
      var r :| 0 <= r < n - 1 && Holds(rounds[1..][r].kept, f);
      assert Holds(rounds[r + 1].kept, f);
    }
  }

  /** The handshake, exactly: it succeeds when some second loop hears a packet, it meets the rounds up to the first such and
      says one hello in each, and the inputs it has afterwards are those it had and those a first drain kept. */
  lemma {:induction false} HandshakeOutcome(c: Console, rounds: seq<Round>, hellos: nat, f: int)
    requires c.Valid() && 0 <= f < c.Cap()
    ensures var h := HandshakeRun(c, rounds, hellos);
            && (h.ok <==> SomeHeard(rounds)) && h.hellos == hellos + Met(rounds)
            && h.con.Cap() == c.Cap() && h.con.mine == c.mine
            && (h.con.Have(f) <==> c.Have(f) || SomeKept(rounds, Met(rounds), f))
    decreases |rounds|
  {
    if rounds != [] {
      DrainHas(c, rounds[0].kept, f);
      SomeHeardFirst(rounds);
      SomeKeptFirst(rounds, Met(rounds), f);
      if !Heard(rounds[0].dropped) {
        HandshakeOutcome(c.Drain(rounds[0].kept), rounds[1..], hellos + 1, f);
      }
    }
  }

  /** The peer was heard at all. */
  ghost predicate PeerSpoke(rounds: seq<Round>) {
    exists r :: 0 <= r < |rounds| && (Heard(rounds[r].kept) || Heard(rounds[r].dropped))
  }

  /** Returning 1 when a packet was heard back is not what the handshake does. It does so exactly when a packet came after
      some first drain, or none came at all. */
  lemma HeardBackExactly(c: Console, rounds: seq<Round>)
    requires c.Valid() && 0 < c.Cap()
    ensures (HandshakeRun(c, rounds, 0).ok <==> PeerSpoke(rounds)) <==>
            SomeHeard(rounds) || forall r | 0 <= r < |rounds| :: !Heard(rounds[r].kept)
  {
    HandshakeOutcome(c, rounds, 0, 0);
  }

  /** A hello that the first drain swallows goes unnoticed, however many rounds there are. */
  lemma SwallowedHellos(c: Console, n: nat)
    requires c.Valid() && 0 < c.Cap() && 0 < n
    ensures var rounds := seq(n, _ => Round([HELLO], []));
            PeerSpoke(rounds) && !HandshakeRun(c, rounds, 0).ok
  {
    var rounds := seq(n, _ => Round([HELLO], []));
    HandshakeOutcome(c, rounds, 0, 0);
    assert HELLO in rounds[0].kept;
    assert Heard(rounds[0].kept);
  }

  /** Some met round holds an input for frame f, in either part. */
  ghost predicate Came(rounds: seq<Round>, n: nat, f: int)
    requires n <= |rounds|
  {
    exists r :: 0 <= r < n && (Holds(rounds[r].kept, f) || Holds(rounds[r].dropped, f))
  }

  /** Keeping early inputs is not what the handshake does either: it does so for frame f exactly when a first drain kept one,
      or it had one, or none came. */
  lemma EarlyInputsExactly(c: Console, rounds: seq<Round>, f: int)
    requires c.Valid() && 0 <= f < c.Cap()
    ensures (HandshakeRun(c, rounds, 0).con.Have(f) <==> c.Have(f) || Came(rounds, Met(rounds), f)) <==>
            c.Have(f) || SomeKept(rounds, Met(rounds), f) || forall r | 0 <= r < Met(rounds) :: !Holds(rounds[r].dropped, f)
  {
    HandshakeOutcome(c, rounds, 0, f);
  }

  /** An input that comes after the first drain is gone, and the handshake succeeds on it. */
  lemma DroppedInput(c: Console, f: int, state: Word)
    requires c.Valid() && 0 <= f < c.Cap() && !c.Have(f)
    ensures var h := HandshakeRun(c, [Round([], [Packet(f, state)])], 0);
            h.ok && !h.con.Have(f)
  {
    var rounds := [Round([], [Packet(f, state)])];
    assert Packet(f, state) in rounds[0].dropped;
    HandshakeOutcome(c, rounds, 0, f);
  }
}
