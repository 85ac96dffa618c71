/** What every run of the host-relay protocol keeps: no desync, causality, bounded skew, stability. */
module RelaySafety {
  import opened Frames
  import opened Wire
  import opened RelayConsole
  import opened RelayRun

  /** No desync: a console that has a frame reads exactly the input vector the schedule prescribes,
      although guests take even their own input for it from the relay. */
  lemma NoDesync(cfg: Config, w: World, i: nat, f: nat, max: nat)
    requires cfg.Valid() && Reachable(cfg, w) && i < cfg.players && w.nodes[i].con.Have(f)
    ensures AllScheduled(cfg.delay, w.samples, f)
    ensures forall p | 0 <= p < max ::
              w.nodes[i].con.Inputs(f, max)[p] == if p < cfg.players then AppliedVector(cfg.delay, w.samples, f)[p] else 0
  {
    ReachableIsOk(cfg, w);
    var c := w.nodes[i].con;
    if i == 0 {
      CompleteFrame(cfg, w, c, f);
      forall p | 0 <= p < cfg.players
        ensures c.At(p, f) == Applied(cfg.delay, w.samples[p], f)
      {
        assert Slot(p, f) in c.known;
      }
    }
  }

  /** Any two consoles that both have a frame step their simulations with the same inputs. */
  lemma ConsolesAgree(cfg: Config, w: World, i: nat, j: nat, f: nat, max: nat)
    requires cfg.Valid() && Reachable(cfg, w) && i < cfg.players && j < cfg.players
    requires w.nodes[i].con.Have(f) && w.nodes[j].con.Have(f)
    ensures w.nodes[i].con.Inputs(f, max) == w.nodes[j].con.Inputs(f, max)
  {
    NoDesync(cfg, w, i, f, max);
    NoDesync(cfg, w, j, f, max);
  }

  /** A console has every frame it has passed. */
  lemma PassedFramesAreHad(cfg: Config, w: World, i: nat, f: nat)
    requires cfg.Valid() && Reachable(cfg, w) && i < cfg.players && f < w.nodes[i].frame
    ensures w.nodes[i].con.Have(f) && w.nodes[i].frame <= cfg.maxFrames
  {
    ReachableIsOk(cfg, w);
  }

  /** A console's own log entry is what everyone applies for it. */
  lemma LocalIsApplied(cfg: Config, w: World, i: nat, f: nat)
    requires cfg.Valid() && Reachable(cfg, w) && i < cfg.players
    requires Scheduled(cfg.delay, w.samples[i], f)
    ensures w.nodes[i].con.Local(f) == Applied(cfg.delay, w.samples[i], f)
  {
    ReachableIsOk(cfg, w);
  }

  /** Causality through the relay: when a guest calls a frame ready, every player, the guest itself included,
      had fixed its input for it, and every guest had sent it. */
  lemma Causality(cfg: Config, w: World, i: nat, f: nat)
    requires cfg.Valid() && Reachable(cfg, w) && 0 < i < cfg.players && f in w.nodes[i].con.ready
    ensures AllScheduled(cfg.delay, w.samples, f)
    ensures forall p | 0 < p < cfg.players :: InputEnvelope(p, f, Applied(cfg.delay, w.samples[p], f)) in w.sent
    ensures AggEnvelope(i, cfg.players, f, Aggregate(cfg, w.samples, f)) in w.sent
  {
    ReachableIsOk(cfg, w);
    forall p | 0 < p < cfg.players
      ensures InputEnvelope(p, f, Applied(cfg.delay, w.samples[p], f)) in w.sent
    {
      assert InputSent(cfg, w.samples, w.sent, p, f);
    }
  }

  /** No console can run away from another: the relay keeps all of them within delay + 1 frames. */
  lemma BoundedSkew(cfg: Config, w: World, i: nat, j: nat)
    requires cfg.Valid() && Reachable(cfg, w) && i < cfg.players && j < cfg.players
    ensures w.nodes[i].frame <= w.nodes[j].frame + cfg.delay + 1
  {
    ReachableIsOk(cfg, w);
    if w.nodes[i].frame > 0 {
      NoDesync(cfg, w, i, w.nodes[i].frame - 1, 0);
      assert Scheduled(cfg.delay, w.samples[j], w.nodes[i].frame - 1);
    }
  }

  /** The host knows the address of every guest it has an input from, so it never passes a frame
      it has not relayed to all of them. */
  lemma HostRelaysBeforePassing(cfg: Config, w: World, f: nat)
    requires cfg.Valid() && Reachable(cfg, w)
    ensures forall s | s in w.nodes[0].con.known && s.player > 0 ::
              s.player in w.nodes[0].con.gpeer && w.nodes[0].con.gpeer[s.player] == s.player
    ensures f < w.nodes[0].frame || (f == w.nodes[0].frame && CanAdvance(w.nodes[0])) ==>
              AllScheduled(cfg.delay, w.samples, f)
              && forall p | 0 < p < cfg.players :: AggEnvelope(p, cfg.players, f, Aggregate(cfg, w.samples, f)) in w.sent
  {
    ReachableIsOk(cfg, w);
    if f < w.nodes[0].frame || (f == w.nodes[0].frame && CanAdvance(w.nodes[0])) {
      assert Relayed(cfg, w.samples, w.sent, f);
      forall p | 0 < p < cfg.players
        ensures AllScheduled(cfg.delay, w.samples, f) && AggEnvelope(p, cfg.players, f, Aggregate(cfg, w.samples, f)) in w.sent
      {
        assert RelayedTo(cfg, w.samples, w.sent, p, f);
      }
      assert RelayedTo(cfg, w.samples, w.sent, 1, f);
    }
  }

  /** The frame guards of the code never fire in a match: a session has room for everything it schedules, sends or receives. */
  lemma CapacityIsEnough(cfg: Config, w: World)
    requires cfg.Valid() && Reachable(cfg, w)
    ensures forall i | 0 <= i < cfg.players && w.nodes[i].frame < cfg.maxFrames ::
              w.nodes[i].con.cap == cfg.Cap() && w.nodes[i].frame + cfg.delay < cfg.Cap()
    ensures forall e | e in w.sent :: e.body.Packet? && e.body.frame < cfg.Cap() && e.dst < cfg.players
    ensures forall e | e in w.sent && e.body.kind != HelloKind :: 0 <= e.body.frame
  {
    ReachableIsOk(cfg, w);
  }

  // ---- along a run, consoles only learn ----

  /** Everything console i had it keeps, and while it stays at its frame it keeps its place in the loop. */
  ghost predicate NodeGrows(before: Node, after: Node) {
    && after.con.role == before.con.role && after.con.playerCount == before.con.playerCount
    && after.con.delay == before.con.delay && after.con.cap == before.con.cap
    && before.con.known <= after.con.known && before.con.ready <= after.con.ready
    && before.con.gpeer.Keys <= after.con.gpeer.Keys
    && before.frame <= after.frame
    && (before.frame == after.frame && before.pumped ==> after.pumped)
  }

  ghost predicate Grows(w: World, w': World) {
    && |w'.nodes| == |w.nodes|
    && Extends(w.samples, w'.samples)
    && w.sent <= w'.sent && w.delivered <= w'.delivered
    && forall i | 0 <= i < |w.nodes| :: NodeGrows(w.nodes[i], w'.nodes[i])
  }

  lemma ActorGrows(cfg: Config, w: World, a: Action)
    requires Inv(cfg, w) && Enabled(cfg, w, a)
    ensures NodeGrows(w.nodes[a.i], Apply(w, a).nodes[a.i])
  {
    if a.Greet? || a.Pump? {
      DrainMarks(cfg, w, a.i, w.nodes[a.i].con, a.got);
    }
  }

  lemma StepGrows(cfg: Config, w: World, w': World)
    requires Inv(cfg, w) && Step(cfg, w, w')
    ensures Grows(w, w')
  {
    var a :| Enabled(cfg, w, a) && w' == Apply(w, a);
    ActorGrows(cfg, w, a);
    forall i | 0 <= i < |w.nodes|
      ensures NodeGrows(w.nodes[i], w'.nodes[i])
    {
      assert i != a.i ==> w'.nodes[i] == w.nodes[i];
    }
  }

  lemma GrowsIsTransitive(u: World, v: World, w: World)
    requires Grows(u, v) && Grows(v, w)
    ensures Grows(u, w)
  {
    forall p | 0 <= p < |u.samples|
      ensures u.samples[p] <= w.samples[p]
    {
      assert u.samples[p] <= v.samples[p] <= w.samples[p];
    }
    forall i | 0 <= i < |u.nodes|
      ensures NodeGrows(u.nodes[i], w.nodes[i])
    {
      assert NodeGrows(u.nodes[i], v.nodes[i]) && NodeGrows(v.nodes[i], w.nodes[i]);
    }
  }

  lemma {:induction false} PathGrows(cfg: Config, ws: seq<World>)
    requires Path(cfg, ws) && Inv(cfg, ws[0])
    ensures Grows(ws[0], ws[|ws| - 1]) && Inv(cfg, ws[|ws| - 1])
    decreases |ws|
  {
    if |ws| > 1 {
      StepKeeps(cfg, ws[0], ws[1]);
      StepGrows(cfg, ws[0], ws[1]);
      PathGrows(cfg, ws[1..]);
      GrowsIsTransitive(ws[0], ws[1], ws[|ws| - 1]);
    }
  }

  /** Once a console has a frame it always will, and no late or repeated packet ever changes its inputs. */
  lemma Stability(cfg: Config, w: World, w': World, i: nat, f: nat, max: nat)
    requires cfg.Valid() && Reachable(cfg, w) && Leads(cfg, w, w') && i < cfg.players && w.nodes[i].con.Have(f)
    ensures |w'.nodes| == cfg.players && w'.nodes[i].con.Have(f)
    ensures w'.nodes[i].con.Inputs(f, max) == w.nodes[i].con.Inputs(f, max)
  {
    ReachableIsOk(cfg, w);
    var ws :| Path(cfg, ws) && ws[0] == w && ws[|ws| - 1] == w';
    PathGrows(cfg, ws);
    assert NodeGrows(w.nodes[i], w'.nodes[i]);
    HaveGrows(w.nodes[i].con, w'.nodes[i].con, f);
    ReachableOnwards(cfg, w, w');
    NoDesync(cfg, w, i, f, max);
    NoDesync(cfg, w', i, f, max);
    forall p | 0 <= p < cfg.players
      ensures AppliedVector(cfg.delay, w.samples, f)[p] == AppliedVector(cfg.delay, w'.samples, f)[p]
    {
      AppliedIsStable(cfg.delay, w.samples[p], w'.samples[p], f);
    }
  }

  lemma PathsJoin(cfg: Config, us: seq<World>, vs: seq<World>)
    requires Path(cfg, us) && Path(cfg, vs) && us[|us| - 1] == vs[0]
    ensures var ws := us + vs[1..]; Path(cfg, ws) && ws[0] == us[0] && ws[|ws| - 1] == vs[|vs| - 1]
    ensures Leads(cfg, us[0], vs[|vs| - 1])
  {
    var ws := us + vs[1..];
    forall k | 0 <= k < |ws| - 1
      ensures Step(cfg, ws[k], ws[k + 1])
    {
      if k < |us| - 1 {
        assert Step(cfg, us[k], us[k + 1]);
      } else {
        assert ws[k] == vs[k - (|us| - 1)] && ws[k + 1] == vs[k - (|us| - 1) + 1];
        assert Step(cfg, vs[k - (|us| - 1)], vs[k - (|us| - 1) + 1]);
      }
    }
  }

  /** A continuation of a run is a run. */
  lemma ReachableOnwards(cfg: Config, w: World, w': World)
    requires Reachable(cfg, w) && Leads(cfg, w, w')
    ensures Reachable(cfg, w')
  {
    var us :| Path(cfg, us) && us[0] == Initial(cfg) && us[|us| - 1] == w;
    var vs :| Path(cfg, vs) && vs[0] == w && vs[|vs| - 1] == w';
    PathsJoin(cfg, us, vs);
  }
}
