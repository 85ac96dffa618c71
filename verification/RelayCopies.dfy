/** The host-relay protocol with every transmission told apart: which copies were sent when, which of them are lost
    for good, and how often a frame is relayed. */
module RelayCopies {
  import opened Common
  import opened Frames
  import opened Wire
  import opened RelayConsole
  import opened RelayRun
  import opened RelaySafety

  /** One transmission: the frame its sender was at, and the number of the step that made it. */
  datatype Copy = Copy(at: nat, tick: nat, e: Envelope)

  /** A world with all its transmissions; `left[g]` is what the host had in hand as it left frame g. */
  datatype Trace = Trace(world: World, copies: set<Copy>, tick: nat, left: seq<set<Slot>>)

  function Start(cfg: Config): Trace {
    Trace(Initial(cfg), {}, 0, [])
  }

  function Got(a: Action): seq<Envelope> {
    match a
    case Greet(_, got) => got
    case Pump(_, got) => got
    case _ => []
  }

  /** Some copy of a datagram that was sent is not lost. */
  ghost predicate Survives(t: Trace, lost: set<Copy>, e: Envelope) {
    exists c :: c in t.copies && c !in lost && c.e == e
  }

  ghost predicate Spared(t: Trace, lost: set<Copy>, a: Action) {
    forall e | e in Got(a) && e.body != Junk :: Survives(t, lost, e)
  }

  function Next(t: Trace, a: Action): Trace
    requires a.i < |t.world.nodes| == |t.world.samples| && t.world.nodes[a.i].con.Valid()
  {
    var node := t.world.nodes[a.i];
    Trace(Apply(t.world, a),
          t.copies + set e | e in Sends(t.world, a) :: Copy(node.frame, t.tick, e),
          t.tick + 1,
          if a.Advance? && a.i == 0 then t.left + [node.con.known] else t.left)
  }

  /** A step in which no lost copy gets through. */
  ghost predicate StepWithout(cfg: Config, lost: set<Copy>, t: Trace, t': Trace) {
    exists a :: Enabled(cfg, t.world, a) && Spared(t, lost, a) && t' == Next(t, a)
  }

  ghost predicate PathWithout(cfg: Config, lost: set<Copy>, ts: seq<Trace>) {
    |ts| > 0 && forall k | 0 <= k < |ts| - 1 :: StepWithout(cfg, lost, ts[k], ts[k + 1])
  }

  ghost predicate LeadsWithout(cfg: Config, lost: set<Copy>, t: Trace, t': Trace) {
    exists ts :: PathWithout(cfg, lost, ts) && ts[0] == t && ts[|ts| - 1] == t'
  }

  ghost predicate Traced(cfg: Config, t: Trace) {
    LeadsWithout(cfg, {}, Start(cfg), t)
  }

  // ---- paths ----

  lemma PathTail(cfg: Config, lost: set<Copy>, ts: seq<Trace>)
    requires PathWithout(cfg, lost, ts) && |ts| > 1
    ensures PathWithout(cfg, lost, ts[1..]) && StepWithout(cfg, lost, ts[0], ts[1])
    ensures ts[1..][0] == ts[1] && ts[1..][|ts| - 2] == ts[|ts| - 1]
  {
    assert StepWithout(cfg, lost, ts[0], ts[0 + 1]);
    forall k | 0 <= k < |ts| - 2
      ensures StepWithout(cfg, lost, ts[1..][k], ts[1..][k + 1])
    {
      assert StepWithout(cfg, lost, ts[k + 1], ts[k + 1 + 1]);
    }
  }

  lemma LeadsNowhere(cfg: Config, lost: set<Copy>, t: Trace)
    ensures LeadsWithout(cfg, lost, t, t)
  {
    assert PathWithout(cfg, lost, [t]);
  }

  lemma LeadsByStep(cfg: Config, lost: set<Copy>, t: Trace, a: Action)
    requires Enabled(cfg, t.world, a) && Spared(t, lost, a)
    ensures LeadsWithout(cfg, lost, t, Next(t, a))
  {
    assert StepWithout(cfg, lost, t, Next(t, a));
    assert PathWithout(cfg, lost, [t, Next(t, a)]);
  }

  lemma LeadsOn(cfg: Config, lost: set<Copy>, t: Trace, u: Trace, v: Trace)
    requires LeadsWithout(cfg, lost, t, u) && LeadsWithout(cfg, lost, u, v)
    ensures LeadsWithout(cfg, lost, t, v)
  {
    var us :| PathWithout(cfg, lost, us) && us[0] == t && us[|us| - 1] == u;
    var vs :| PathWithout(cfg, lost, vs) && vs[0] == u && vs[|vs| - 1] == v;
    var ts := us + vs[1..];
    forall k | 0 <= k < |ts| - 1
      ensures StepWithout(cfg, lost, ts[k], ts[k + 1])
    {
      if k < |us| - 1 {
        assert StepWithout(cfg, lost, us[k], us[k + 1]);
      } else {
        assert ts[k] == vs[k - (|us| - 1)] && ts[k + 1] == vs[k - (|us| - 1) + 1];
        assert StepWithout(cfg, lost, vs[k - (|us| - 1)], vs[k - (|us| - 1) + 1]);
      }
    }
    assert PathWithout(cfg, lost, ts);
  }

  /** Losing less rules out less. */
  lemma StepWithLessLost(cfg: Config, lost: set<Copy>, less: set<Copy>, t: Trace, t': Trace)
    requires StepWithout(cfg, lost, t, t') && less <= lost
    ensures StepWithout(cfg, less, t, t')
  {
    var a :| Enabled(cfg, t.world, a) && Spared(t, lost, a) && t' == Next(t, a);
    forall e | e in Got(a) && e.body != Junk
      ensures Survives(t, less, e)
    {
      assert Survives(t, lost, e);
    }
    assert Spared(t, less, a);
  }

  lemma LeadsWithLessLost(cfg: Config, lost: set<Copy>, less: set<Copy>, t: Trace, t': Trace)
    requires LeadsWithout(cfg, lost, t, t') && less <= lost
    ensures LeadsWithout(cfg, less, t, t')
  {
    var ts :| PathWithout(cfg, lost, ts) && ts[0] == t && ts[|ts| - 1] == t';
    forall k | 0 <= k < |ts| - 1
      ensures StepWithout(cfg, less, ts[k], ts[k + 1])
    {
      StepWithLessLost(cfg, lost, less, ts[k], ts[k + 1]);
    }
    assert PathWithout(cfg, less, ts);
  }

  lemma TracedOnwards(cfg: Config, t: Trace, t': Trace, lost: set<Copy>)
    requires Traced(cfg, t) && LeadsWithout(cfg, lost, t, t')
    ensures Traced(cfg, t')
  {
    LeadsWithLessLost(cfg, lost, {}, t, t');
    LeadsOn(cfg, {}, Start(cfg), t, t');
  }

  // ---- what every trace keeps ----

  /** Every player's input for the frame is in hand. */
  predicate Complete(cfg: Config, known: set<Slot>, f: nat) {
    f < cfg.Cap() && forall p: nat | p < cfg.players :: Slot(p, f) in known
  }

  predicate IsAgg(e: Envelope) {
    e.body.Packet? && e.body.kind == AggKind
  }

  /** The copy brings guest i the relayed frame f. */
  predicate Brings(c: Copy, i: nat, f: nat) {
    IsAgg(c.e) && c.e.dst == i && c.e.body.frame == f
  }

  ghost predicate RelayedAt(t: Trace, g: nat, i: nat, f: nat) {
    exists c :: c in t.copies && c.at == g && Brings(c, i, f)
  }

  /** What the host had in hand as it left frame g, or has now. */
  function InHand(t: Trace, g: nat): set<Slot>
    requires |t.world.nodes| > 0
  {
    if g < |t.left| then t.left[g] else t.world.nodes[0].con.known
  }

  ghost predicate CopiesOk(t: Trace) {
    && (forall c | c in t.copies :: c.e in t.world.sent && c.tick < t.tick)
    && (forall e | e in t.world.sent :: Survives(t, {}, e))
  }

  ghost predicate LeftOk(cfg: Config, t: Trace)
    requires |t.world.nodes| > 0
  {
    && |t.left| == t.world.nodes[0].frame
    && (forall g | 0 <= g < |t.left| :: Complete(cfg, t.left[g], g))
    && forall g, h | 0 <= g <= h <= |t.left| :: InHand(t, g) <= InHand(t, h)
  }

  /** The host relays a frame from the frames whose pump left it complete, and only from those. */
  ghost predicate RelaysOk(cfg: Config, t: Trace)
    requires |t.world.nodes| > 0
  {
    && (forall c | c in t.copies && IsAgg(c.e) ::
          && c.at < PumpedUpTo(t.world.nodes[0]) && c.at <= c.e.body.frame <= c.at + cfg.delay
          && Complete(cfg, InHand(t, c.at), c.e.body.frame))
    && (forall g: nat, i: nat, f: nat | g < PumpedUpTo(t.world.nodes[0]) && 0 < i < cfg.players && g <= f <= g + cfg.delay
          && Complete(cfg, InHand(t, g), f) :: RelayedAt(t, g, i, f))
  }

  ghost predicate TraceOk(cfg: Config, t: Trace) {
    Inv(cfg, t.world) && CopiesOk(t) && LeftOk(cfg, t) && RelaysOk(cfg, t)
  }

  lemma StartIsOk(cfg: Config)
    requires cfg.Valid()
    ensures TraceOk(cfg, Start(cfg))
  {
    InitialIsOk(cfg);
  }

  lemma CopiesKeep(t: Trace, a: Action)
    requires CopiesOk(t) && a.i < |t.world.nodes| == |t.world.samples| && t.world.nodes[a.i].con.Valid()
    ensures CopiesOk(Next(t, a))
  {
    var t' := Next(t, a);
    var node := t.world.nodes[a.i];
    forall e | e in t'.world.sent
      ensures Survives(t', {}, e)
    {
      if e in t.world.sent {
        var c :| c in t.copies && c !in {} && c.e == e;
        assert c in t'.copies;
      } else {
        assert Copy(node.frame, t.tick, e) in t'.copies;
      }
    }
  }

  ghost predicate RelaysNow(cfg: Config, w: World, a: Action, i: nat, f: nat)
    requires a.i < |w.nodes| && w.nodes[a.i].con.Valid()
  {
    AllScheduled(cfg.delay, w.samples, f) && AggEnvelope(i, cfg.players, f, Aggregate(cfg, w.samples, f)) in Sends(w, a)
  }

  /** What a pump of the host sends, in terms of what it has in hand afterwards. */
  lemma HostSends(cfg: Config, w: World, a: Action)
    requires Inv(cfg, w) && Enabled(cfg, w, a) && a.Pump? && a.i == 0
    ensures w.nodes[0].con.known <= Apply(w, a).nodes[0].con.known
    ensures forall e | e in Sends(w, a) ::
              IsAgg(e) && w.nodes[0].frame <= e.body.frame <= w.nodes[0].frame + cfg.delay
              && Complete(cfg, Apply(w, a).nodes[0].con.known, e.body.frame)
    ensures forall i: nat, f: nat | 0 < i < cfg.players && w.nodes[0].frame <= f <= w.nodes[0].frame + cfg.delay
              && Complete(cfg, Apply(w, a).nodes[0].con.known, f) :: RelaysNow(cfg, w, a, i, f)
  {
    var node := w.nodes[0];
    var drained := node.con.Drain(a.got);
    DrainKeeps(cfg, w, 0, node.con, a.got);
    DrainMarks(cfg, w, 0, node.con, a.got);
    RelayIsOk(cfg, w, drained, node.frame, node.frame + cfg.delay + 1);
    forall e | e in Sends(w, a)
      ensures node.frame <= e.body.frame <= node.frame + cfg.delay && Complete(cfg, drained.known, e.body.frame)
    {
      RelayContents(drained, node.frame, node.frame + cfg.delay + 1, e);
      var f: nat :| node.frame <= f < node.frame + cfg.delay + 1 && drained.HostComplete(f)
                    && e in drained.Broadcast(f, drained.playerCount);
      BroadcastContents(drained, f, drained.playerCount, e);
    }
    forall i: nat, f: nat | 0 < i < cfg.players && node.frame <= f <= node.frame + cfg.delay && Complete(cfg, drained.known, f)
      ensures RelaysNow(cfg, w, a, i, f)
    {
      assert drained.HostComplete(f);
    }
  }

  /** Nothing else relays. */
  lemma OthersSendNoAggregates(cfg: Config, w: World, a: Action)
    requires Inv(cfg, w) && Enabled(cfg, w, a) && !(a.Pump? && a.i == 0)
    ensures forall e | e in Sends(w, a) :: !IsAgg(e)
  {
    var node := w.nodes[a.i];
    assert ConsoleOk(cfg, w.samples, w.sent, a.i, node.con);
    if a.Greet? {
      HellosAreOk(cfg, w, a.i, node.con, node.con.playerCount);
    } else if a.Pump? {
      SendWindowIsOk(cfg, w, a.i, node.con, node.frame);
    }
  }

  lemma HostPumpKeepsRelays(cfg: Config, t: Trace, a: Action)
    requires TraceOk(cfg, t) && Enabled(cfg, t.world, a) && a.Pump? && a.i == 0
    ensures LeftOk(cfg, Next(t, a)) && RelaysOk(cfg, Next(t, a))
  {
    var t', host := Next(t, a), t.world.nodes[0];
    HostSends(cfg, t.world, a);
    assert forall g: nat | g <= |t.left| :: InHand(t, g) <= InHand(t', g);
    forall c | c in t'.copies && IsAgg(c.e)
      ensures c.at < PumpedUpTo(t'.world.nodes[0]) && c.at <= c.e.body.frame <= c.at + cfg.delay
      ensures Complete(cfg, InHand(t', c.at), c.e.body.frame)
    {
      if c in t.copies {
        assert InHand(t, c.at) <= InHand(t', c.at);
      } else {
        assert c.e in Sends(t.world, a) && c.at == host.frame;
      }
    }
    forall g: nat, i: nat, f: nat | g < PumpedUpTo(t'.world.nodes[0]) && 0 < i < cfg.players && g <= f <= g + cfg.delay
      && Complete(cfg, InHand(t', g), f)
      ensures RelayedAt(t', g, i, f)
    {
      if g < host.frame {
        assert RelayedAt(t, g, i, f);
        var c :| c in t.copies && c.at == g && Brings(c, i, f);
        assert c in t'.copies;
      } else {
        assert RelaysNow(cfg, t.world, a, i, f);
        var e := AggEnvelope(i, cfg.players, f, Aggregate(cfg, t.world.samples, f));
        assert Copy(host.frame, t.tick, e) in t'.copies && Brings(Copy(host.frame, t.tick, e), i, f);
      }
    }
  }

  /** No other step relays, or takes anything out of the host's hands. */
  lemma OthersKeepHands(cfg: Config, t: Trace, a: Action)
    requires TraceOk(cfg, t) && Enabled(cfg, t.world, a) && !(a.Pump? && a.i == 0)
    ensures var t', host := Next(t, a), t.world.nodes[0];
            && host.con.known <= t'.world.nodes[0].con.known && PumpedUpTo(t'.world.nodes[0]) == PumpedUpTo(host)
            && LeftOk(cfg, t')
            && forall g: nat | g < PumpedUpTo(host) :: InHand(t', g) == InHand(t, g)
  {
    var t', host := Next(t, a), t.world.nodes[0];
    ActorGrows(cfg, t.world, a);
    assert ProgressOk(cfg, t.world.samples, t.world.sent, 0, host);
    assert ConsoleOk(cfg, t.world.samples, t.world.sent, 0, host.con);
    if a.Advance? && a.i == 0 {
      assert host.con.HostComplete(host.frame);
      assert Complete(cfg, host.con.known, host.frame);
    }
    forall g, h | 0 <= g <= h <= |t'.left|
      ensures InHand(t', g) <= InHand(t', h)
    {
      if h <= |t.left| {
        assert InHand(t, g) <= InHand(t, h);
      } else if g <= |t.left| {
        assert InHand(t, g) <= InHand(t, |t.left|);
      }
    }
  }

  lemma OthersKeepRelays(cfg: Config, t: Trace, a: Action)
    requires TraceOk(cfg, t) && Enabled(cfg, t.world, a) && !(a.Pump? && a.i == 0)
    ensures LeftOk(cfg, Next(t, a)) && RelaysOk(cfg, Next(t, a))
  {
    var t', host := Next(t, a), t.world.nodes[0];
    OthersSendNoAggregates(cfg, t.world, a);
    OthersKeepHands(cfg, t, a);
    forall g: nat, i: nat, f: nat | g < PumpedUpTo(host) && 0 < i < cfg.players && g <= f <= g + cfg.delay
      && Complete(cfg, InHand(t', g), f)
      ensures RelayedAt(t', g, i, f)
    {
      assert RelayedAt(t, g, i, f);
      var c :| c in t.copies && c.at == g && Brings(c, i, f);
      assert c in t'.copies;
    }
  }

  lemma NextKeeps(cfg: Config, t: Trace, a: Action)
    requires TraceOk(cfg, t) && Enabled(cfg, t.world, a)
    ensures TraceOk(cfg, Next(t, a))
  {
    assert Step(cfg, t.world, Apply(t.world, a));
    StepKeeps(cfg, t.world, Apply(t.world, a));
    CopiesKeep(t, a);
    if a.Pump? && a.i == 0 {
      HostPumpKeepsRelays(cfg, t, a);
    } else {
      OthersKeepRelays(cfg, t, a);
    }
  }

  lemma {:induction false} TracePathKeeps(cfg: Config, lost: set<Copy>, ts: seq<Trace>)
    requires PathWithout(cfg, lost, ts) && TraceOk(cfg, ts[0])
    ensures TraceOk(cfg, ts[|ts| - 1])
    decreases |ts|
  {
    if |ts| > 1 {
      PathTail(cfg, lost, ts);
      var a :| Enabled(cfg, ts[0].world, a) && Spared(ts[0], lost, a) && ts[1] == Next(ts[0], a);
      NextKeeps(cfg, ts[0], a);
      TracePathKeeps(cfg, lost, ts[1..]);
    }
  }

  lemma TracedIsOk(cfg: Config, t: Trace)
    requires cfg.Valid() && Traced(cfg, t)
    ensures TraceOk(cfg, t)
  {
    StartIsOk(cfg);
    var ts :| PathWithout(cfg, {}, ts) && ts[0] == Start(cfg) && ts[|ts| - 1] == t;
    TracePathKeeps(cfg, {}, ts);
  }

  // ---- traces are runs ----

  /** Forgetting the copies of a path leaves a path of worlds. */
  lemma {:induction false} PathForgets(cfg: Config, lost: set<Copy>, ts: seq<Trace>)
    requires PathWithout(cfg, lost, ts)
    ensures Leads(cfg, ts[0].world, ts[|ts| - 1].world)
  {
    var ws := seq(|ts|, k requires 0 <= k < |ts| => ts[k].world);
    forall k | 0 <= k < |ws| - 1
      ensures Step(cfg, ws[k], ws[k + 1])
    {
      assert StepWithout(cfg, lost, ts[k], ts[k + 1]);
      var a :| Enabled(cfg, ts[k].world, a) && Spared(ts[k], lost, a) && ts[k + 1] == Next(ts[k], a);
    }
    assert Path(cfg, ws);
  }

  lemma TracedIsReachable(cfg: Config, t: Trace)
    requires Traced(cfg, t)
    ensures Reachable(cfg, t.world)
  {
    var ts :| PathWithout(cfg, {}, ts) && ts[0] == Start(cfg) && ts[|ts| - 1] == t;
    PathForgets(cfg, {}, ts);
  }

  lemma AllSpared(cfg: Config, t: Trace, a: Action)
    requires CopiesOk(t) && Enabled(cfg, t.world, a)
    ensures Spared(t, {}, a)
  {
  }

  /** Every run is the run of some trace. */
  lemma {:induction false} PathIsTraced(cfg: Config, ws: seq<World>) returns (t: Trace)
    requires cfg.Valid() && Path(cfg, ws) && ws[0] == Initial(cfg)
    ensures Traced(cfg, t) && t.world == ws[|ws| - 1]
    decreases |ws|
  {
    if |ws| == 1 {
      t := Start(cfg);
      LeadsNowhere(cfg, {}, t);
    } else {
      var front := ws[..|ws| - 1];
      forall k | 0 <= k < |front| - 1
        ensures Step(cfg, front[k], front[k + 1])
      {
        assert Step(cfg, ws[k], ws[k + 1]);
      }
      var u := PathIsTraced(cfg, front);
      assert Step(cfg, ws[|ws| - 2], ws[|ws| - 2 + 1]);
      var a :| Enabled(cfg, u.world, a) && ws[|ws| - 1] == Apply(u.world, a);
      TracedIsOk(cfg, u);
      AllSpared(cfg, u, a);
      t := Next(u, a);
      LeadsByStep(cfg, {}, u, a);
      LeadsOn(cfg, {}, Start(cfg), u, t);
    }
  }

  lemma ReachableIsTraced(cfg: Config, w: World) returns (t: Trace)
    requires cfg.Valid() && Reachable(cfg, w)
    ensures Traced(cfg, t) && t.world == w
  {
    var ws :| Path(cfg, ws) && ws[0] == Initial(cfg) && ws[|ws| - 1] == w;
    t := PathIsTraced(cfg, ws);
  }

  // ---- how often a frame is relayed ----

  /** The host frames from which a copy of frame f went to guest i. */
  ghost function RelayingFrames(t: Trace, i: nat, f: nat): set<int> {
    set c | c in t.copies && Brings(c, i, f) :: c.at
  }

  function WindowStart(cfg: Config, f: nat): nat {
    if f < cfg.delay then 0 else f - cfg.delay
  }

  /** The first host frame at or above g whose pump found f complete. */
  ghost function FirstComplete(cfg: Config, t: Trace, g: nat, f: nat): (g0: nat)
    requires |t.world.nodes| > 0 && g <= f && Complete(cfg, InHand(t, f), f)
    ensures g <= g0 <= f && Complete(cfg, InHand(t, g0), f)
    ensures forall h: nat | g <= h < g0 :: !Complete(cfg, InHand(t, h), f)
    decreases f - g
  {
    if Complete(cfg, InHand(t, g), f) then g else FirstComplete(cfg, t, g + 1, f)
  }

  /** The redundancy of the relay there really is: a frame the host has passed went to each guest from exactly the host
      frames from the first one in whose window the host had it complete up to the frame itself. */
  lemma ExactRelays(cfg: Config, t: Trace, i: nat, f: nat)
    requires cfg.Valid() && Traced(cfg, t) && 0 < i < cfg.players
    ensures |t.world.nodes| > 0 && |t.left| == t.world.nodes[0].frame
    ensures f < t.world.nodes[0].frame ==>
              && Complete(cfg, InHand(t, f), f)
              && RelayingFrames(t, i, f) == Range(FirstComplete(cfg, t, WindowStart(cfg, f), f), f + 1)
              && 1 <= |RelayingFrames(t, i, f)| <= (if f < cfg.delay then f else cfg.delay) + 1
              && (|RelayingFrames(t, i, f)| == cfg.delay + 1 <==> cfg.delay <= f && Complete(cfg, t.left[f - cfg.delay], f))
  {
    TracedIsOk(cfg, t);
    if f < t.world.nodes[0].frame {
      PassedIsComplete(cfg, t, f);
      var g0 := FirstComplete(cfg, t, WindowStart(cfg, f), f);
      forall g: nat
        ensures g in RelayingFrames(t, i, f) <==> g in Range(g0, f + 1)
      {
        RelayedFrom(cfg, t, i, f, g);
      }
      SameNumbers(RelayingFrames(t, i, f), Range(g0, f + 1));
    }
  }

  lemma SameNumbers(s: set<int>, r: set<int>)
    requires (forall n | n in s :: 0 <= n) && (forall n | n in r :: 0 <= n)
    requires forall n: nat :: n in s <==> n in r
    ensures s == r
  {
    forall n: int
      ensures n in s <==> n in r
    {
      if 0 <= n {
        var k: nat := n;
        assert k in s <==> k in r;
      }
    }
  }

  /** A passed frame is one of those the invariant speaks of. */
  lemma PassedIsComplete(cfg: Config, t: Trace, f: nat)
    requires TraceOk(cfg, t) && f < t.world.nodes[0].frame
    ensures Complete(cfg, InHand(t, f), f)
  {
  }

  lemma RelayedFrom(cfg: Config, t: Trace, i: nat, f: nat, g: nat)
    requires TraceOk(cfg, t) && f < t.world.nodes[0].frame && 0 < i < cfg.players && Complete(cfg, InHand(t, f), f)
    ensures g in RelayingFrames(t, i, f) <==> FirstComplete(cfg, t, WindowStart(cfg, f), f) <= g <= f
  {
    var g0 := FirstComplete(cfg, t, WindowStart(cfg, f), f);
    if g in RelayingFrames(t, i, f) {
      var c :| c in t.copies && Brings(c, i, f) && c.at == g;
      assert Complete(cfg, InHand(t, g), f);
    }
    if g0 <= g <= f {
      assert InHand(t, g0) <= InHand(t, g);
      assert RelayedAt(t, g, i, f);
      var c :| c in t.copies && c.at == g && Brings(c, i, f);
    }
  }
}
