/** Progress of the host-relay protocol: no deadlock once packets get through, and fair matches finish. */
module RelayLiveness {
  import opened Frames
  import opened Wire
  import opened RelayConsole
  import opened RelayRun
  import opened RelaySafety

  /** Nobody is behind console i. */
  ghost predicate Lowest(w: World, i: nat) {
    i < |w.nodes| && forall j | 0 <= j < |w.nodes| :: w.nodes[i].frame <= w.nodes[j].frame
  }

  ghost predicate Finished(cfg: Config, w: World) {
    forall i | 0 <= i < |w.nodes| :: w.nodes[i].frame == cfg.maxFrames
  }

  /** At least one copy of every packet got through to everyone still playing. */
  ghost predicate AllDelivered(cfg: Config, w: World) {
    forall e | e in w.sent && e.dst < |w.nodes| && w.nodes[e.dst].frame < cfg.maxFrames :: e in w.delivered
  }

  ghost predicate AllPumped(cfg: Config, w: World) {
    forall i | 0 <= i < |w.nodes| && w.nodes[i].frame < cfg.maxFrames :: w.nodes[i].pumped
  }

  lemma {:induction false} LowestExists(w: World, k: nat) returns (i: nat)
    requires 0 < k <= |w.nodes|
    ensures i < k && forall j | 0 <= j < k :: w.nodes[i].frame <= w.nodes[j].frame
  {
    i := 0;
    if k > 1 {
      var l := LowestExists(w, k - 1);
      i := if w.nodes[l].frame <= w.nodes[k - 1].frame then l else k - 1;
    }
  }

  /** When the host is at the lowest frame with everything delivered, it has every player's input. */
  lemma HostAtLowestIsComplete(cfg: Config, w: World)
    requires Inv(cfg, w) && Lowest(w, 0) && w.nodes[0].frame < cfg.maxFrames
    requires AllPumped(cfg, w) && AllDelivered(cfg, w)
    ensures CanAdvance(w.nodes[0])
  {
    var m := w.nodes[0].frame;
    forall p: nat | p < cfg.players
      ensures Slot(p, m) in w.nodes[0].con.known
    {
      if p > 0 {
        assert m < PumpedUpTo(w.nodes[p]);
        assert InputSent(cfg, w.samples, w.sent, p, m);
        assert InputEnvelope(p, m, Applied(cfg.delay, w.samples[p], m)) in w.delivered;
      } else {
        assert Scheduled(cfg.delay, w.samples[0], m);
      }
    }
  }

  /** No deadlock: in every reachable unfinished state in which everyone still playing has pumped and every packet
      sent so far has got through, some console at the lowest frame can go on. */
  lemma NoDeadlock(cfg: Config, w: World) returns (i: nat)
    requires cfg.Valid() && Reachable(cfg, w) && !Finished(cfg, w)
    requires AllPumped(cfg, w) && AllDelivered(cfg, w)
    ensures Lowest(w, i) && w.nodes[i].frame < cfg.maxFrames && Enabled(cfg, w, Advance(i))
  {
    ReachableIsOk(cfg, w);
    i := LowestExists(w, |w.nodes|);
    var m := w.nodes[i].frame;
    assert m < cfg.maxFrames;
    if w.nodes[0].frame == m {
      i := 0;
      HostAtLowestIsComplete(cfg, w);
    } else {
      assert Relayed(cfg, w.samples, w.sent, m);
      assert RelayedTo(cfg, w.samples, w.sent, i, m);
      assert AggEnvelope(i, cfg.players, m, Aggregate(cfg, w.samples, m)) in w.delivered;
    }
  }

  // ---- infinite runs ----

  type Run = nat -> World

  /** Console i takes the one step its loop is waiting for. */
  ghost predicate Acts(cfg: Config, w: World, w': World, i: nat) {
    exists a :: Enabled(cfg, w, a) && !a.Greet? && a.i == i && w' == Apply(w, a)
  }

  ghost predicate StepOrStay(cfg: Config, run: Run, t: nat) {
    run(t + 1) == run(t) || Step(cfg, run(t), run(t + 1))
  }

  ghost predicate IsRun(cfg: Config, run: Run) {
    run(0) == Initial(cfg) && forall t: nat :: StepOrStay(cfg, run, t)
  }

  ghost predicate Playing(cfg: Config, w: World, i: nat) {
    i < |w.nodes| && w.nodes[i].frame < cfg.maxFrames
  }

  ghost predicate ActsLater(cfg: Config, run: Run, t: nat, i: nat) {
    exists t': nat :: t <= t' && Acts(cfg, run(t'), run(t' + 1), i)
  }

  /** No console still playing is suspended for ever. */
  ghost predicate FairConsoles(cfg: Config, run: Run) {
    forall t: nat, i: nat {:trigger ActsLater(cfg, run, t, i)} | i < cfg.players && Playing(cfg, run(t), i) ::
      ActsLater(cfg, run, t, i)
  }

  ghost predicate ArrivesLater(cfg: Config, run: Run, t: nat, e: Envelope) {
    exists t': nat :: t <= t' && (e in run(t').delivered || Done(cfg, run(t'), e.dst))
  }

  /** Of every distinct packet at least one copy gets through, unless its receiver has already finished. */
  ghost predicate FairNetwork(cfg: Config, run: Run) {
    forall t: nat, e {:trigger ArrivesLater(cfg, run, t, e)} | e in run(t).sent :: ArrivesLater(cfg, run, t, e)
  }

  ghost predicate Done(cfg: Config, w: World, i: nat) {
    i < |w.nodes| && w.nodes[i].frame == cfg.maxFrames
  }

  ghost predicate FairRun(cfg: Config, run: Run) {
    cfg.Valid() && IsRun(cfg, run) && FairConsoles(cfg, run) && FairNetwork(cfg, run)
  }

  lemma {:induction false} RunIsOk(cfg: Config, run: Run, t: nat)
    requires cfg.Valid() && IsRun(cfg, run)
    ensures Inv(cfg, run(t))
  {
    if t == 0 {
      InitialIsOk(cfg);
    } else {
      RunIsOk(cfg, run, t - 1);
      assert StepOrStay(cfg, run, t - 1);
      if run(t) != run(t - 1) {
        StepKeeps(cfg, run(t - 1), run(t));
      }
    }
  }

  lemma {:induction false} RunGrows(cfg: Config, run: Run, t: nat, t': nat)
    requires cfg.Valid() && IsRun(cfg, run) && t <= t'
    ensures Grows(run(t), run(t')) && Inv(cfg, run(t'))
    decreases t' - t
  {
    RunIsOk(cfg, run, t');
    if t < t' {
      RunGrows(cfg, run, t, t' - 1);
      assert StepOrStay(cfg, run, t' - 1);
      if run(t') != run(t' - 1) {
        StepGrows(cfg, run(t' - 1), run(t'));
      }
      GrowsIsTransitive(run(t), run(t' - 1), run(t'));
    }
  }

  /** Console i at time t. */
  ghost function NodeAt(cfg: Config, run: Run, t: nat, i: nat): Node
    requires cfg.Valid() && IsRun(cfg, run) && i < cfg.players
  {
    RunIsOk(cfg, run, t);
    run(t).nodes[i]
  }

  ghost predicate RecordedAt(cfg: Config, run: Run, t: nat, i: nat)
    requires cfg.Valid() && IsRun(cfg, run) && i < cfg.players
  {
    RunIsOk(cfg, run, t);
    Recorded(run(t), i)
  }

  ghost predicate SentAt(cfg: Config, run: Run, t: nat, p: nat, f: nat)
    requires cfg.Valid() && IsRun(cfg, run) && p < cfg.players
  {
    RunIsOk(cfg, run, t);
    InputSent(cfg, run(t).samples, run(t).sent, p, f)
  }

  lemma Later(cfg: Config, run: Run, t: nat, u: nat, i: nat)
    requires cfg.Valid() && IsRun(cfg, run) && i < cfg.players && t <= u
    ensures NodeGrows(NodeAt(cfg, run, t, i), NodeAt(cfg, run, u, i))
    ensures NodeAt(cfg, run, t, i).frame == NodeAt(cfg, run, u, i).frame && RecordedAt(cfg, run, t, i) ==> RecordedAt(cfg, run, u, i)
    ensures forall f: nat | SentAt(cfg, run, t, i, f) :: SentAt(cfg, run, u, i, f)
  {
    RunGrows(cfg, run, t, u);
    assert run(t).samples[i] <= run(u).samples[i];
    forall f: nat | SentAt(cfg, run, t, i, f)
      ensures SentAt(cfg, run, u, i, f)
    {
      InputSentGrows(cfg, run(t).samples, run(u).samples, run(t).sent, run(u).sent, i, f);
    }
  }

  /** What the invariant says about one console of a run. */
  lemma NodeFacts(cfg: Config, run: Run, t: nat, i: nat)
    requires cfg.Valid() && IsRun(cfg, run) && i < cfg.players
    ensures var node := NodeAt(cfg, run, t, i);
            && node.frame <= cfg.maxFrames
            && node.con.role == i && node.con.playerCount == cfg.players && node.con.cap == cfg.Cap()
            && (node.pumped ==> RecordedAt(cfg, run, t, i) && node.frame < cfg.maxFrames)
            && (i > 0 ==> forall f: nat | f < PumpedUpTo(node) :: SentAt(cfg, run, t, i, f))
            && (i == 0 && node.pumped ==> Slot(0, node.frame) in node.con.known)
  {
    RunIsOk(cfg, run, t);
    var node := run(t).nodes[i];
    assert ProgressOk(cfg, run(t).samples, run(t).sent, i, node);
    if i == 0 && node.pumped {
      assert Scheduled(cfg.delay, run(t).samples[0], node.frame);
    }
  }

  /** The loop leaves exactly one thing to do: record, then pump until the frame is there, then go on. */
  lemma ActEffect(cfg: Config, w: World, w': World, i: nat)
    requires Inv(cfg, w) && i < cfg.players && Acts(cfg, w, w', i)
    ensures |w'.nodes| == |w'.samples| == cfg.players
    ensures CanAdvance(w.nodes[i]) ==> w'.nodes[i].frame == w.nodes[i].frame + 1
    ensures !CanAdvance(w.nodes[i]) && Recorded(w, i) ==> w'.nodes[i].frame == w.nodes[i].frame && w'.nodes[i].pumped
    ensures !Recorded(w, i) ==> w'.nodes[i].frame == w.nodes[i].frame && Recorded(w', i)
  {
  }

  /** The next step of console i, once it comes. */
  lemma NextAct(cfg: Config, run: Run, t: nat, i: nat) returns (u: nat)
    requires FairRun(cfg, run) && i < cfg.players && NodeAt(cfg, run, t, i).frame < cfg.maxFrames
    ensures t <= u
    ensures var node, next := NodeAt(cfg, run, u, i), NodeAt(cfg, run, u + 1, i);
            && NodeGrows(NodeAt(cfg, run, t, i), node) && NodeGrows(node, next)
            && (node.frame == NodeAt(cfg, run, t, i).frame && RecordedAt(cfg, run, t, i) ==> RecordedAt(cfg, run, u, i))
            && (CanAdvance(node) ==> next.frame == node.frame + 1)
            && (!CanAdvance(node) && RecordedAt(cfg, run, u, i) ==> next.frame == node.frame && next.pumped)
            && (!RecordedAt(cfg, run, u, i) ==> next.frame == node.frame && RecordedAt(cfg, run, u + 1, i))
  {
    RunIsOk(cfg, run, t);
    assert ActsLater(cfg, run, t, i);
    u :| t <= u && Acts(cfg, run(u), run(u + 1), i);
    RunIsOk(cfg, run, u);
    Later(cfg, run, t, u, i);
    Later(cfg, run, u, u + 1, i);
    ActEffect(cfg, run(u), run(u + 1), i);
  }

  /** Somebody has left the frame they were at. */
  ghost predicate Moved(cfg: Config, run: Run, t: nat, u: nat)
    requires cfg.Valid() && IsRun(cfg, run)
  {
    exists i: nat :: i < cfg.players && NodeAt(cfg, run, t, i).frame < NodeAt(cfg, run, u, i).frame
  }

  lemma MovedLater(cfg: Config, run: Run, t: nat, u: nat, v: nat)
    requires cfg.Valid() && IsRun(cfg, run) && t <= u <= v
    requires Moved(cfg, run, t, u) || Moved(cfg, run, u, v)
    ensures Moved(cfg, run, t, v)
  {
    if Moved(cfg, run, t, u) {
      var i: nat :| i < cfg.players && NodeAt(cfg, run, t, i).frame < NodeAt(cfg, run, u, i).frame;
      Later(cfg, run, u, v, i);
    } else {
      var i: nat :| i < cfg.players && NodeAt(cfg, run, u, i).frame < NodeAt(cfg, run, v, i).frame;
      Later(cfg, run, t, u, i);
    }
  }

  /** A console still playing gets to pump its frame, having recorded it first. */
  lemma PumpsSoon(cfg: Config, run: Run, t: nat, i: nat) returns (u: nat)
    requires FairRun(cfg, run) && i < cfg.players && NodeAt(cfg, run, t, i).frame < cfg.maxFrames
    ensures t <= u
    ensures NodeAt(cfg, run, t, i).frame < NodeAt(cfg, run, u, i).frame
            || (NodeAt(cfg, run, u, i).frame == NodeAt(cfg, run, t, i).frame && NodeAt(cfg, run, u, i).pumped)
  {
    var t1 := NextAct(cfg, run, t, i);
    u := t1 + 1;
    if NodeAt(cfg, run, u, i).frame == NodeAt(cfg, run, t, i).frame && !NodeAt(cfg, run, u, i).pumped {
      var t2 := NextAct(cfg, run, u, i);
      u := t2 + 1;
    }
  }

  /** A console whose frame is there leaves it. */
  lemma AdvancesSoon(cfg: Config, run: Run, t: nat, i: nat) returns (u: nat)
    requires FairRun(cfg, run) && i < cfg.players && NodeAt(cfg, run, t, i).frame < cfg.maxFrames
    requires CanAdvance(NodeAt(cfg, run, t, i))
    ensures t <= u && Moved(cfg, run, t, u)
  {
    var t1 := NextAct(cfg, run, t, i);
    u := t1 + 1;
    if NodeAt(cfg, run, t1, i).frame == NodeAt(cfg, run, t, i).frame {
      HaveGrows(NodeAt(cfg, run, t, i).con, NodeAt(cfg, run, t1, i).con, NodeAt(cfg, run, t, i).frame);
    }
  }

  /** One guest input that has been sent ends up at a host that is still playing. */
  lemma HostHears(cfg: Config, run: Run, t: nat, p: nat, f: nat) returns (u: nat)
    requires FairRun(cfg, run) && 0 < p < cfg.players && SentAt(cfg, run, t, p, f)
    ensures t <= u
    ensures NodeAt(cfg, run, u, 0).frame == cfg.maxFrames || Slot(p, f) in NodeAt(cfg, run, u, 0).con.known
  {
    RunIsOk(cfg, run, t);
    var e := InputEnvelope(p, f, Applied(cfg.delay, run(t).samples[p], f));
    assert ArrivesLater(cfg, run, t, e);
    u :| t <= u && (e in run(u).delivered || Done(cfg, run(u), e.dst));
    RunIsOk(cfg, run, u);
  }

  /** Inputs the guests have sent for a frame end up at a host that is still playing. */
  lemma {:induction false} HostHearsAll(cfg: Config, run: Run, t: nat, f: nat, k: nat) returns (u: nat)
    requires FairRun(cfg, run) && k <= cfg.players
    requires forall p | 0 < p < k :: SentAt(cfg, run, t, p, f)
    ensures t <= u
    ensures NodeAt(cfg, run, u, 0).frame == cfg.maxFrames || forall p: nat | 0 < p < k :: Slot(p, f) in NodeAt(cfg, run, u, 0).con.known
    decreases k
  {
    u := t;
    if k > 1 {
      var t1 := HostHearsAll(cfg, run, t, f, k - 1);
      Later(cfg, run, t, t1, k - 1);
      u := HostHears(cfg, run, t1, k - 1, f);
      Later(cfg, run, t1, u, 0);
      NodeFacts(cfg, run, u, 0);
    }
  }

  /** A frame the host has passed ends up at a guest that is still playing. */
  lemma GuestHears(cfg: Config, run: Run, t: nat, i: nat, f: nat) returns (u: nat)
    requires FairRun(cfg, run) && 0 < i < cfg.players && f < NodeAt(cfg, run, t, 0).frame
    ensures t <= u
    ensures NodeAt(cfg, run, u, i).frame == cfg.maxFrames || f in NodeAt(cfg, run, u, i).con.ready
  {
    RunIsOk(cfg, run, t);
    assert Relayed(cfg, run(t).samples, run(t).sent, f);
    assert RelayedTo(cfg, run(t).samples, run(t).sent, i, f);
    var e := AggEnvelope(i, cfg.players, f, Aggregate(cfg, run(t).samples, f));
    assert ArrivesLater(cfg, run, t, e);
    u :| t <= u && (e in run(u).delivered || Done(cfg, run(u), e.dst));
    RunIsOk(cfg, run, u);
  }

  /** Unless somebody moves, all guests among the first k get to pump at or past frame m. */
  lemma {:induction false} GuestsPumpSoon(cfg: Config, run: Run, t: nat, m: nat, k: nat) returns (u: nat)
    requires FairRun(cfg, run) && k <= cfg.players && m < cfg.maxFrames
    requires forall p | 0 < p < k :: m <= NodeAt(cfg, run, t, p).frame
    ensures t <= u
    ensures Moved(cfg, run, t, u) || forall p | 0 < p < k :: m < PumpedUpTo(NodeAt(cfg, run, u, p))
    decreases k
  {
    u := t;
    if k > 1 {
      var p := k - 1;
      var t1 := GuestsPumpSoon(cfg, run, t, m, p);
      u := t1;
      Later(cfg, run, t, t1, p);
      if NodeAt(cfg, run, t1, p).frame == m {
        u := PumpsSoon(cfg, run, t1, p);
        forall q | 0 < q < p
          ensures PumpedUpTo(NodeAt(cfg, run, t1, q)) <= PumpedUpTo(NodeAt(cfg, run, u, q))
        {
          Later(cfg, run, t1, u, q);
        }
      }
      if Moved(cfg, run, t, t1) {
        MovedLater(cfg, run, t, t1, u);
      }
    }
  }

  /** When the host is at the lowest frame, somebody moves. */
  lemma HostMovesOn(cfg: Config, run: Run, t: nat) returns (u: nat)
    requires FairRun(cfg, run)
    requires NodeAt(cfg, run, t, 0).frame < cfg.maxFrames
    requires forall i | 0 <= i < cfg.players :: NodeAt(cfg, run, t, 0).frame <= NodeAt(cfg, run, t, i).frame
    ensures t <= u && Moved(cfg, run, t, u)
  {
    var m := NodeAt(cfg, run, t, 0).frame;
    var t1 := GuestsPumpSoon(cfg, run, t, m, cfg.players);
    u := t1;
    if !Moved(cfg, run, t, t1) {
      forall p | 0 < p < cfg.players
        ensures SentAt(cfg, run, t1, p, m)
      {
        NodeFacts(cfg, run, t1, p);
      }
      var t2 := HostHearsAll(cfg, run, t1, m, cfg.players);
      u := t2;
      Later(cfg, run, t, t2, 0);
      if NodeAt(cfg, run, t2, 0).frame == m {
        u := HostMovesOnceFull(cfg, run, t2, m);
        MovedLater(cfg, run, t, t2, u);
      }
    }
  }

  lemma HostMovesOnceFull(cfg: Config, run: Run, t: nat, m: nat) returns (u: nat)
    requires FairRun(cfg, run) && m < cfg.maxFrames && NodeAt(cfg, run, t, 0).frame == m
    requires forall p: nat | 0 < p < cfg.players :: Slot(p, m) in NodeAt(cfg, run, t, 0).con.known
    ensures t <= u && Moved(cfg, run, t, u)
  {
    u := PumpsSoon(cfg, run, t, 0);
    Later(cfg, run, t, u, 0);
    if NodeAt(cfg, run, u, 0).frame == m {
      NodeFacts(cfg, run, u, 0);
      var v := AdvancesSoon(cfg, run, u, 0);
      MovedLater(cfg, run, t, u, v);
      u := v;
    }
  }

  /** When the host is past the lowest frame, a guest there moves. */
  lemma GuestMovesOn(cfg: Config, run: Run, t: nat, i: nat) returns (u: nat)
    requires FairRun(cfg, run) && 0 < i < cfg.players
    requires NodeAt(cfg, run, t, i).frame < NodeAt(cfg, run, t, 0).frame
    ensures t <= u && Moved(cfg, run, t, u)
  {
    var m := NodeAt(cfg, run, t, i).frame;
    NodeFacts(cfg, run, t, 0);
    var t1 := GuestHears(cfg, run, t, i, m);
    u := t1;
    Later(cfg, run, t, t1, i);
    if NodeAt(cfg, run, t1, i).frame == m {
      var t2 := PumpsSoon(cfg, run, t1, i);
      u := t2;
      Later(cfg, run, t1, t2, i);
      if NodeAt(cfg, run, t2, i).frame == m {
        NodeFacts(cfg, run, t2, i);
        u := AdvancesSoon(cfg, run, t2, i);
      }
      MovedLater(cfg, run, t, t2, u);
    }
  }

  /** As long as the match is not over, somebody will leave their frame. */
  lemma SomebodyMoves(cfg: Config, run: Run, t: nat) returns (u: nat)
    requires FairRun(cfg, run) && !Finished(cfg, run(t))
    ensures t <= u && Moved(cfg, run, t, u)
  {
    RunIsOk(cfg, run, t);
    var i := LowestExists(run(t), cfg.players);
    if run(t).nodes[0].frame == run(t).nodes[i].frame {
      u := HostMovesOn(cfg, run, t);
    } else {
      u := GuestMovesOn(cfg, run, t, i);
    }
  }

  /** The frames the first k consoles still have to play. */
  ghost function Remaining(cfg: Config, run: Run, t: nat, k: nat): nat
    requires cfg.Valid() && IsRun(cfg, run) && k <= cfg.players
  {
    if k == 0 then 0
    else
      NodeFacts(cfg, run, t, k - 1);
      Remaining(cfg, run, t, k - 1) + (cfg.maxFrames - NodeAt(cfg, run, t, k - 1).frame)
  }

  lemma {:induction false} RemainingFalls(cfg: Config, run: Run, t: nat, u: nat, k: nat)
    requires cfg.Valid() && IsRun(cfg, run) && k <= cfg.players && t <= u
    ensures Remaining(cfg, run, u, k) <= Remaining(cfg, run, t, k)
    ensures (exists i: nat :: i < k && NodeAt(cfg, run, t, i).frame < NodeAt(cfg, run, u, i).frame) ==>
              Remaining(cfg, run, u, k) < Remaining(cfg, run, t, k)
    decreases k
  {
    if k > 0 {
      RemainingFalls(cfg, run, t, u, k - 1);
      Later(cfg, run, t, u, k - 1);
    }
  }

  /** Liveness: every match in which no console is suspended for ever and no packet loses all its copies finishes. */
  lemma {:induction false} MatchFinishes(cfg: Config, run: Run, t: nat) returns (u: nat)
    requires FairRun(cfg, run)
    ensures t <= u && |run(u).nodes| == cfg.players && Finished(cfg, run(u))
    decreases Remaining(cfg, run, t, cfg.players)
  {
    RunIsOk(cfg, run, t);
    if Finished(cfg, run(t)) {
      u := t;
    } else {
      var v := SomebodyMoves(cfg, run, t);
      RemainingFalls(cfg, run, t, v, cfg.players);
      u := MatchFinishes(cfg, run, v);
    }
  }

  lemma {:induction false} RunIsReachable(cfg: Config, run: Run, t: nat)
    requires cfg.Valid() && IsRun(cfg, run)
    ensures Reachable(cfg, run(t))
    decreases t
  {
    if t == 0 {
      assert Path(cfg, [run(0)]);
      assert Leads(cfg, Initial(cfg), run(0));
    } else {
      RunIsReachable(cfg, run, t - 1);
      assert StepOrStay(cfg, run, t - 1);
      if run(t) != run(t - 1) {
        assert Path(cfg, [run(t - 1), run(t)]);
        ReachableOnwards(cfg, run(t - 1), run(t));
      }
    }
  }

  /** Put together: in a fair match there comes a time when every console has been through all frames,
      and each has read, frame by frame, the same prescribed input vectors. */
  lemma FairMatchIsPlayedAlike(cfg: Config, run: Run) returns (u: nat)
    requires FairRun(cfg, run)
    ensures Reachable(cfg, run(u)) && Finished(cfg, run(u))
    ensures forall f: nat | f < cfg.maxFrames :: AllScheduled(cfg.delay, run(u).samples, f)
    ensures forall i, f: nat | 0 <= i < cfg.players && f < cfg.maxFrames ::
              run(u).nodes[i].con.Inputs(f, cfg.players) == AppliedVector(cfg.delay, run(u).samples, f)
  {
    u := MatchFinishes(cfg, run, 0);
    RunIsReachable(cfg, run, u);
    forall i, f: nat | 0 <= i < cfg.players && f < cfg.maxFrames
      ensures AllScheduled(cfg.delay, run(u).samples, f)
      ensures run(u).nodes[i].con.Inputs(f, cfg.players) == AppliedVector(cfg.delay, run(u).samples, f)
    {
      PassedFramesAreHad(cfg, run(u), i, f);
      NoDesync(cfg, run(u), i, f, cfg.players);
    }
    forall f: nat | f < cfg.maxFrames
      ensures AllScheduled(cfg.delay, run(u).samples, f)
    {
      assert run(u).nodes[0].con.Inputs(f, cfg.players) == AppliedVector(cfg.delay, run(u).samples, f);
    }
  }
}
