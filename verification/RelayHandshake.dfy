/** The handshake of the host-relay protocol as a part of a run: the network grows while its rounds go by. */
module RelayHandshake {
  import opened Frames
  import opened Wire
  import opened RelayConsole
  import opened RelayRun
  import opened RelaySafety

  /** A run with the actions it took. */
  ghost predicate Runs(cfg: Config, ws: seq<World>, acts: seq<Action>) {
    && |ws| == |acts| + 1 && (forall k | 0 <= k < |ws| :: Shaped(cfg, ws[k]))
    && forall k | 0 <= k < |acts| :: Enabled(cfg, ws[k], acts[k]) && ws[k + 1] == Apply(ws[k], acts[k])
  }

  /** What console i drained in its handshake rounds. */
  function Rounds(acts: seq<Action>, i: nat): seq<seq<Envelope>> {
    if acts == [] then []
    else (if acts[0].Greet? && acts[0].i == i then [acts[0].got] else []) + Rounds(acts[1..], i)
  }

  lemma RunsTail(cfg: Config, ws: seq<World>, acts: seq<Action>)
    requires Runs(cfg, ws, acts) && acts != []
    ensures Runs(cfg, ws[1..], acts[1..])
  {
    forall k | 0 <= k < |acts| - 1
      ensures Enabled(cfg, ws[1..][k], acts[1..][k]) && ws[1..][k + 1] == Apply(ws[1..][k], acts[1..][k])
    {
      assert Enabled(cfg, ws[k + 1], acts[k + 1]) && ws[k + 1 + 1] == Apply(ws[k + 1], acts[k + 1]);
    }
  }

  /** Only handshake rounds of console i, and none before the last step linked it. */
  ghost predicate Greeting(ws: seq<World>, acts: seq<Action>, i: nat)
    requires |ws| == |acts| + 1 && forall k | 0 <= k < |ws| :: i < |ws[k].nodes| && ws[k].nodes[i].con.Valid()
  {
    && (forall k | 0 <= k < |acts| && acts[k].i == i :: acts[k].Greet?)
    && (forall k | 0 <= k < |acts| - 1 && acts[k].i == i :: !ws[k + 1].nodes[i].con.Linked())
  }

  lemma {:induction false} RunsKeep(cfg: Config, ws: seq<World>, acts: seq<Action>)
    requires Runs(cfg, ws, acts) && Inv(cfg, ws[0])
    ensures forall k | 0 <= k < |ws| :: Inv(cfg, ws[k])
    decreases |acts|
  {
    if acts != [] {
      assert Enabled(cfg, ws[0], acts[0]) && ws[0 + 1] == Apply(ws[0], acts[0]);
      assert Step(cfg, ws[0], ws[1]);
      StepKeeps(cfg, ws[0], ws[1]);
      RunsTail(cfg, ws, acts);
      RunsKeep(cfg, ws[1..], acts[1..]);
      assert forall k | 0 < k < |ws| :: ws[k] == ws[1..][k - 1];
    }
  }

  lemma {:induction false} RunsOnlySend(cfg: Config, ws: seq<World>, acts: seq<Action>)
    requires Runs(cfg, ws, acts)
    ensures ws[0].sent <= ws[|acts|].sent
    decreases |acts|
  {
    if acts != [] {
      assert Enabled(cfg, ws[0], acts[0]) && ws[0 + 1] == Apply(ws[0], acts[0]);
      RunsTail(cfg, ws, acts);
      RunsOnlySend(cfg, ws[1..], acts[1..]);
    }
  }

  predicate LastActs(acts: seq<Action>, i: nat) {
    acts != [] && acts[|acts| - 1].i == i
  }

  /** The handshake left this console, succeeded when its last round linked it, and said nothing that was not sent. */
  ghost predicate IsOutcome(h: Handshaken, con: Console, met: bool, said: seq<Envelope>, sent: set<Envelope>)
    requires con.Valid()
  {
    h.con == con && (h.ok <==> met && con.Linked()) && forall e | e in h.sent :: e in said || e in sent
  }

  lemma LastsOfTails(ws: seq<World>, acts: seq<Action>)
    requires |ws| == |acts| + 1 && acts != []
    ensures ws[1..][0] == ws[1] && ws[1..][|acts| - 1] == ws[|acts|]
    ensures |acts| > 1 ==> acts[1..][|acts| - 2] == acts[|acts| - 1]
    ensures forall i :: |acts| > 1 ==> (LastActs(acts[1..], i) <==> LastActs(acts, i))
  {
  }

  /** The rounds a console meets in a run, taken together, are one call of the handshake: same console, same verdict, and
      what it said is on the network. */
  lemma {:induction false} HandshakeIsGreets(cfg: Config, ws: seq<World>, acts: seq<Action>, i: nat, said: seq<Envelope>)
    requires Runs(cfg, ws, acts) && i < cfg.players && Greeting(ws, acts, i)
    ensures IsOutcome(HandshakeRun(ws[0].nodes[i].con, Rounds(acts, i), said), ws[|acts|].nodes[i].con, LastActs(acts, i),
                      said, ws[|acts|].sent)
    decreases |acts|
  {
    if acts != [] {
      RunsTail(cfg, ws, acts);
      GreetingTail(ws, acts, i);
      RunsOnlySend(cfg, ws[1..], acts[1..]);
      LastsOfTails(ws, acts);
      assert Enabled(cfg, ws[0], acts[0]) && ws[0 + 1] == Apply(ws[0], acts[0]);
      RoundsFirst(acts, i);
      if acts[0].i != i {
        OthersGreet(cfg, ws[0], acts[0], i);
        HandshakeIsGreets(cfg, ws[1..], acts[1..], i, said);
      } else if |acts| == 1 {
        OnlyGreet(cfg, ws[0], acts[0], said);
      } else {
        var con := ws[0].nodes[i].con;
        HandshakeIsGreets(cfg, ws[1..], acts[1..], i, said + con.Hellos(con.playerCount));
        FirstGreet(cfg, ws[0], acts[0], Rounds(acts[1..], i), said, ws[|acts|].nodes[i].con, LastActs(acts, i), ws[|acts|].sent);
      }
    }
  }

  lemma RoundsFirst(acts: seq<Action>, i: nat)
    requires acts != []
    ensures acts[0].i != i ==> Rounds(acts, i) == Rounds(acts[1..], i)
    ensures acts[0].i == i && acts[0].Greet? ==> Rounds(acts, i) == [acts[0].got] + Rounds(acts[1..], i)
    ensures |acts| == 1 ==> Rounds(acts[1..], i) == []
  {
    assert [] + Rounds(acts[1..], i) == Rounds(acts[1..], i);
  }

  lemma OnlyGreet(cfg: Config, w: World, a: Action, said: seq<Envelope>)
    requires Enabled(cfg, w, a) && a.Greet?
    ensures Apply(w, a).nodes[a.i].con.Valid()
    ensures IsOutcome(HandshakeRun(w.nodes[a.i].con, [a.got] + [], said), Apply(w, a).nodes[a.i].con, true, said, Apply(w, a).sent)
  {
    FirstRound(cfg, w, a, [], said);
  }

  lemma FirstGreet(cfg: Config, w: World, a: Action, rest: seq<seq<Envelope>>, said: seq<Envelope>, last: Console, met: bool,
                   sent: set<Envelope>)
    requires Enabled(cfg, w, a) && a.Greet? && last.Valid() && Apply(w, a).sent <= sent
    requires Apply(w, a).nodes[a.i].con.Valid() && !Apply(w, a).nodes[a.i].con.Linked()
    requires var now := said + w.nodes[a.i].con.Hellos(w.nodes[a.i].con.playerCount);
             IsOutcome(HandshakeRun(Apply(w, a).nodes[a.i].con, rest, now), last, met, now, sent)
    ensures IsOutcome(HandshakeRun(w.nodes[a.i].con, [a.got] + rest, said), last, met, said, sent)
  {
    FirstRound(cfg, w, a, rest, said);
  }

  lemma FirstRound(cfg: Config, w: World, a: Action, rest: seq<seq<Envelope>>, said: seq<Envelope>)
    requires Enabled(cfg, w, a) && a.Greet?
    ensures var con, con' := w.nodes[a.i].con, Apply(w, a).nodes[a.i].con;
            var now := said + con.Hellos(con.playerCount);
            && con'.Valid()
            && HandshakeRun(con, [a.got] + rest, said) ==
               (if con'.Linked() then Handshaken(con', true, now) else HandshakeRun(con', rest, now))
            && forall e | e in now :: e in said || e in Apply(w, a).sent
  {
    OneRound(w.nodes[a.i].con, a.got, rest, said);
  }

  lemma OthersGreet(cfg: Config, w: World, a: Action, i: nat)
    requires Enabled(cfg, w, a) && a.i != i && i < cfg.players
    ensures Apply(w, a).nodes[i] == w.nodes[i]
  {
  }

  lemma OneRound(c: Console, got: seq<Envelope>, rest: seq<seq<Envelope>>, said: seq<Envelope>)
    requires c.Valid()
    ensures var now := said + c.Hellos(c.playerCount);
            HandshakeRun(c, [got] + rest, said) ==
            if c.Drain(got).Linked() then Handshaken(c.Drain(got), true, now) else HandshakeRun(c.Drain(got), rest, now)
  {
    assert ([got] + rest)[1..] == rest;
  }

  lemma GreetingTail(ws: seq<World>, acts: seq<Action>, i: nat)
    requires |ws| == |acts| + 1 && (forall k | 0 <= k < |ws| :: i < |ws[k].nodes| && ws[k].nodes[i].con.Valid())
    requires Greeting(ws, acts, i) && acts != []
    ensures Greeting(ws[1..], acts[1..], i)
  {
    forall k | 0 <= k < |acts| - 1 && acts[1..][k].i == i
      ensures acts[1..][k].Greet?
    {
      assert acts[1..][k] == acts[k + 1];
    }
    forall k | 0 <= k < |acts| - 2 && acts[1..][k].i == i
      ensures !ws[1..][k + 1].nodes[i].con.Linked()
    {
      assert acts[1..][k] == acts[k + 1] && ws[1..][k + 1] == ws[k + 1 + 1];
    }
  }

  /** A guest that has not pumped is not linked, and nothing it may be sent links it. */
  lemma UnpumpedGuestIsUnlinked(cfg: Config, w: World, i: nat, got: seq<Envelope>)
    requires Inv(cfg, w) && 0 < i < cfg.players && PumpedUpTo(w.nodes[i]) == 0 && Deliverable(w, i, got)
    ensures !w.nodes[i].con.Linked() && !w.nodes[i].con.Drain(got).Linked()
  {
    var con := w.nodes[i].con;
    DrainKeeps(cfg, w, i, con, got);
    assert ProgressOk(cfg, w.samples, w.sent, i, w.nodes[i]);
    forall c | ConsoleOk(cfg, w.samples, w.sent, i, c)
      ensures 0 !in c.ready
    {
      assert 0 in c.ready ==> InputSent(cfg, w.samples, w.sent, i, 0);
    }
  }

  /** So the handshake of such a guest returns 0, however long it runs and whatever the others do meanwhile. */
  lemma GuestLeavesHandshakeUnlinked(cfg: Config, ws: seq<World>, acts: seq<Action>, i: nat)
    requires cfg.Valid() && Runs(cfg, ws, acts) && Reachable(cfg, ws[0]) && 0 < i < cfg.players
    requires PumpedUpTo(ws[0].nodes[i]) == 0 && forall k | 0 <= k < |acts| && acts[k].i == i :: acts[k].Greet?
    ensures !HandshakeRun(ws[0].nodes[i].con, Rounds(acts, i), []).ok
    ensures HandshakeRun(ws[0].nodes[i].con, Rounds(acts, i), []).con == ws[|acts|].nodes[i].con
  {
    ReachableIsOk(cfg, ws[0]);
    RunsKeep(cfg, ws, acts);
    forall k: nat | k < |ws|
      ensures !ws[k].nodes[i].con.Linked()
    {
      NeverLinked(cfg, ws, acts, i, k);
    }
    HandshakeIsGreets(cfg, ws, acts, i, []);
  }

  lemma NeverLinked(cfg: Config, ws: seq<World>, acts: seq<Action>, i: nat, k: nat)
    requires Runs(cfg, ws, acts) && k < |ws| && 0 < i < cfg.players && Inv(cfg, ws[k])
    requires PumpedUpTo(ws[0].nodes[i]) == 0 && forall l | 0 <= l < |acts| && acts[l].i == i :: acts[l].Greet?
    ensures !ws[k].nodes[i].con.Linked()
  {
    GreetingOnlyWaits(cfg, ws, acts, i, k);
    UnpumpedGuestIsUnlinked(cfg, ws[k], i, []);
  }

  lemma {:induction false} GreetingOnlyWaits(cfg: Config, ws: seq<World>, acts: seq<Action>, i: nat, k: nat)
    requires Runs(cfg, ws, acts) && k < |ws| && i < cfg.players
    requires PumpedUpTo(ws[0].nodes[i]) == 0 && forall l | 0 <= l < |acts| && acts[l].i == i :: acts[l].Greet?
    ensures PumpedUpTo(ws[k].nodes[i]) == 0
    decreases k
  {
    if k > 0 {
      GreetingOnlyWaits(cfg, ws, acts, i, k - 1);
      assert Enabled(cfg, ws[k - 1], acts[k - 1]) && ws[k - 1 + 1] == Apply(ws[k - 1], acts[k - 1]);
    }
  }
}
