/** Stability and progress of the two-player protocol: what a console has it keeps, and fair matches finish. */
module PairLiveness {
  import opened Frames
  import opened PairConsole
  import opened PairRun
  import opened PairSafety
  import PairStall

  // ---- along a run, consoles only learn ----

  ghost predicate ConGrows(before: Console, after: Console) {
    && before.Valid() && after.Valid() && before.Cap() == after.Cap()
    && forall f | 0 <= f < before.Cap() && before.Have(f) :: after.Have(f)
  }

  ghost predicate NodeGrows(before: Node, after: Node) {
    && ConGrows(before.con, after.con) && before.frame <= after.frame
    && (before.frame == after.frame && before.pumped ==> after.pumped)
  }

  ghost predicate Grows(w: World, w': World) {
    && Shaped(w) && Shaped(w') && Extends(w.samples, w'.samples) && w.sent <= w'.sent && w.delivered <= w'.delivered
    && NodeGrows(w.nodes[0], w'.nodes[0]) && NodeGrows(w.nodes[1], w'.nodes[1])
  }

  lemma DrainGrows(c: Console, got: seq<Datagram>)
    requires c.Valid()
    ensures ConGrows(c, c.Drain(got))
  {
    forall f | 0 <= f < c.Cap() && c.Have(f)
      ensures c.Drain(got).Have(f)
    {
      DrainHas(c, got, f);
    }
  }

  lemma ActorGrows(maxFrames: nat, w: World, a: Action)
    requires Enabled(maxFrames, w, a)
    ensures NodeGrows(w.nodes[a.i], Apply(w, a).nodes[a.i])
  {
    if a.Greet? || a.Pump? {
      DrainGrows(w.nodes[a.i].con, Bodies(a.got));
    }
  }

  lemma StandingGrows(node: Node)
    requires node.con.Valid()
    ensures NodeGrows(node, node)
  {
  }

  lemma HistoriesGrow(maxFrames: nat, w: World, a: Action)
    requires Enabled(maxFrames, w, a)
    ensures var w' := Apply(w, a);
            |w'.nodes| == 2 && w'.nodes[1 - a.i] == w.nodes[1 - a.i] && Extends(w.samples, w'.samples)
            && w.sent <= w'.sent && w.delivered <= w'.delivered
  {
  }

  lemma BothGrow(w: World, w': World, i: nat)
    requires Shaped(w) && |w'.nodes| == |w'.samples| == 2 && i < 2 && Extends(w.samples, w'.samples)
    requires w.sent <= w'.sent && w.delivered <= w'.delivered
    requires NodeGrows(w.nodes[i], w'.nodes[i]) && NodeGrows(w.nodes[1 - i], w'.nodes[1 - i])
    ensures Grows(w, w')
  {
  }

  lemma StepGrows(maxFrames: nat, lost: set<Copy>, w: World, w': World)
    requires StepWithout(maxFrames, lost, w, w')
    ensures Grows(w, w')
  {
    var a :| Enabled(maxFrames, w, a) && w' == Apply(w, a) && forall c | c in Taken(a) :: c !in lost;
    NextGrows(maxFrames, w, a);
  }

  lemma NextGrows(maxFrames: nat, w: World, a: Action)
    requires Enabled(maxFrames, w, a)
    ensures Grows(w, Apply(w, a))
  {
    HistoriesGrow(maxFrames, w, a);
    ActorGrows(maxFrames, w, a);
    StandingGrows(w.nodes[1 - a.i]);
    BothGrow(w, Apply(w, a), a.i);
  }

  lemma GrowsIsTransitive(u: World, v: World, w: World)
    requires Grows(u, v) && Grows(v, w)
    ensures Grows(u, w)
  {
    forall p | 0 <= p < |u.samples|
      ensures u.samples[p] <= w.samples[p]
    {
      assert u.samples[p] <= v.samples[p] <= w.samples[p];
    }
  }

  lemma {:induction false} PathGrows(delay: nat, maxFrames: nat, lost: set<Copy>, ws: seq<World>)
    requires PathWithout(maxFrames, lost, ws) && Inv(delay, maxFrames, ws[0])
    ensures Grows(ws[0], ws[|ws| - 1]) && Inv(delay, maxFrames, ws[|ws| - 1])
    decreases |ws|
  {
    if |ws| > 1 {
      PathTail(maxFrames, lost, ws);
      StepKeeps(delay, maxFrames, lost, ws[0], ws[1]);
      StepGrows(maxFrames, lost, ws[0], ws[1]);
      PathGrows(delay, maxFrames, lost, ws[1..]);
      GrowsIsTransitive(ws[0], ws[1], ws[|ws| - 1]);
    }
  }

  /** Once a console has a frame it always will, and where it has fixed its own input too, what it hands the simulation for
      the frame never changes. */
  lemma Stability(delay: nat, maxFrames: nat, w: World, w': World, i: nat, f: nat)
    requires Reachable(delay, maxFrames, w) && LeadsWithout(maxFrames, {}, w, w') && i < 2 && w.nodes[i].con.Have(f)
    ensures Shaped(w') && w'.nodes[i].con.Have(f)
    ensures Scheduled(delay, w.samples[i], f) ==> w'.nodes[i].con.Inputs(f) == w.nodes[i].con.Inputs(f)
  {
    ReachableIsOk(delay, maxFrames, w);
    var ws :| PathWithout(maxFrames, {}, ws) && ws[0] == w && ws[|ws| - 1] == w';
    PathGrows(delay, maxFrames, {}, ws);
    HadStays(w, w', i, f);
    if Scheduled(delay, w.samples[i], f) {
      PrescribedStays(delay, maxFrames, w, w', i, f);
    }
  }

  lemma HadStays(w: World, w': World, i: nat, f: nat)
    requires Grows(w, w') && i < 2 && w.nodes[i].con.Have(f)
    ensures w'.nodes[i].con.Have(f)
  {
  }

  lemma PrescribedStays(delay: nat, maxFrames: nat, w: World, w': World, i: nat, f: nat)
    requires Inv(delay, maxFrames, w) && Inv(delay, maxFrames, w') && Extends(w.samples, w'.samples) && i < 2
    requires w.nodes[i].con.Have(f) && w'.nodes[i].con.Have(f) && Scheduled(delay, w.samples[i], f)
    ensures w'.nodes[i].con.Inputs(f) == w.nodes[i].con.Inputs(f)
  {
    HadIsPrescribed(delay, maxFrames, w, i, f);
    AppliedIsStable(delay, w.samples[0], w'.samples[0], f);
    AppliedIsStable(delay, w.samples[1], w'.samples[1], f);
    HadIsPrescribed(delay, maxFrames, w', i, f);
  }

  lemma HadIsPrescribed(delay: nat, maxFrames: nat, w: World, i: nat, f: nat)
    requires Inv(delay, maxFrames, w) && i < 2 && w.nodes[i].con.Have(f) && Scheduled(delay, w.samples[i], f)
    ensures AllScheduled(delay, w.samples, f)
    ensures w.nodes[i].con.Inputs(f) == (Applied(delay, w.samples[0], f), Applied(delay, w.samples[1], f))
  {
    assert NodeOk(delay, maxFrames, w.samples, w.sent, i, w.nodes[i]);
    assert Scheduled(delay, w.samples[1 - i], f);
  }

  // ---- infinite runs ----

  type Run = nat -> World

  ghost predicate Finished(maxFrames: nat, w: World) {
    forall i | 0 <= i < |w.nodes| :: w.nodes[i].frame == maxFrames
  }

  /** Console i takes the one step its loop is waiting for. */
  ghost predicate Acts(maxFrames: nat, w: World, w': World, i: nat) {
    exists a :: Enabled(maxFrames, w, a) && !a.Greet? && a.i == i && w' == Apply(w, a)
  }

  ghost predicate StepOrStay(maxFrames: nat, run: Run, t: nat) {
    run(t + 1) == run(t) || StepWithout(maxFrames, {}, run(t), run(t + 1))
  }

  ghost predicate IsRun(delay: nat, maxFrames: nat, run: Run) {
    run(0) == Initial(delay, maxFrames) && forall t: nat :: StepOrStay(maxFrames, run, t)
  }

  ghost predicate ActsLater(maxFrames: nat, run: Run, t: nat, i: nat) {
    exists t': nat :: t <= t' && Acts(maxFrames, run(t'), run(t' + 1), i)
  }

  ghost predicate Playing(maxFrames: nat, w: World, i: nat) {
    i < |w.nodes| && w.nodes[i].frame < maxFrames
  }

  /** No console still playing is suspended for ever. */
  ghost predicate FairConsoles(maxFrames: nat, run: Run) {
    forall t: nat, i: nat {:trigger ActsLater(maxFrames, run, t, i)} | i < 2 && Playing(maxFrames, run(t), i) ::
      ActsLater(maxFrames, run, t, i)
  }

  ghost predicate Done(maxFrames: nat, w: World, i: nat) {
    i < |w.nodes| && w.nodes[i].frame == maxFrames
  }

  ghost predicate ArrivesLater(maxFrames: nat, run: Run, t: nat, c: Copy) {
    exists t': nat :: t <= t' && (Arrived(run(t'), c) || (c.src < 2 && Done(maxFrames, run(t'), 1 - c.src)))
  }

  /** Of every input that was sent at least one copy gets through, unless its receiver has already finished. */
  ghost predicate FairNetwork(maxFrames: nat, run: Run) {
    forall t: nat, c {:trigger ArrivesLater(maxFrames, run, t, c)} | c in run(t).sent && c.body != HELLO ::
      ArrivesLater(maxFrames, run, t, c)
  }

  ghost predicate FairRun(delay: nat, maxFrames: nat, run: Run) {
    IsRun(delay, maxFrames, run) && FairConsoles(maxFrames, run) && FairNetwork(maxFrames, run)
  }

  lemma {:induction false} RunIsOk(delay: nat, maxFrames: nat, run: Run, t: nat)
    requires IsRun(delay, maxFrames, run)
    ensures Inv(delay, maxFrames, run(t))
    decreases t
  {
    if t == 0 {
      InitialIsOk(delay, maxFrames);
    } else {
      RunIsOk(delay, maxFrames, run, t - 1);
      assert StepOrStay(maxFrames, run, t - 1);
      if run(t) != run(t - 1) {
        StepKeeps(delay, maxFrames, {}, run(t - 1), run(t));
      }
    }
  }

  lemma GrowsIsReflexive(delay: nat, maxFrames: nat, w: World)
    requires Inv(delay, maxFrames, w)
    ensures Grows(w, w)
  {
  }

  lemma {:induction false} RunGrows(delay: nat, maxFrames: nat, run: Run, t: nat, u: nat)
    requires IsRun(delay, maxFrames, run) && t <= u
    ensures Grows(run(t), run(u)) && Inv(delay, maxFrames, run(u))
    decreases u - t
  {
    RunIsOk(delay, maxFrames, run, u);
    if t == u {
      GrowsIsReflexive(delay, maxFrames, run(t));
    } else {
      RunGrows(delay, maxFrames, run, t, u - 1);
      assert StepOrStay(maxFrames, run, u - 1);
      if run(u) != run(u - 1) {
        StepGrows(maxFrames, {}, run(u - 1), run(u));
        GrowsIsTransitive(run(t), run(u - 1), run(u));
      }
    }
  }

  /** Console i at time t. */
  ghost function NodeAt(delay: nat, maxFrames: nat, run: Run, t: nat, i: nat): (node: Node)
    requires IsRun(delay, maxFrames, run) && i < 2
    ensures node.con.Valid()
  {
    RunIsOk(delay, maxFrames, run, t);
    run(t).nodes[i]
  }

  ghost predicate RecordedAt(delay: nat, maxFrames: nat, run: Run, t: nat, i: nat)
    requires IsRun(delay, maxFrames, run) && i < 2
  {
    RunIsOk(delay, maxFrames, run, t);
    Recorded(run(t), i)
  }

  lemma Later(delay: nat, maxFrames: nat, run: Run, t: nat, u: nat, i: nat)
    requires IsRun(delay, maxFrames, run) && i < 2 && t <= u
    ensures NodeGrows(NodeAt(delay, maxFrames, run, t, i), NodeAt(delay, maxFrames, run, u, i))
    ensures (NodeAt(delay, maxFrames, run, t, i).frame == NodeAt(delay, maxFrames, run, u, i).frame
             && RecordedAt(delay, maxFrames, run, t, i)) ==> RecordedAt(delay, maxFrames, run, u, i)
  {
    RunGrows(delay, maxFrames, run, t, u);
    assert run(t).samples[i] <= run(u).samples[i];
  }

  lemma NodeFacts(delay: nat, maxFrames: nat, run: Run, t: nat, i: nat)
    requires IsRun(delay, maxFrames, run) && i < 2
    ensures var node := NodeAt(delay, maxFrames, run, t, i);
            && node.frame <= maxFrames && node.con.Cap() == maxFrames + delay + 1
            && (node.pumped ==> RecordedAt(delay, maxFrames, run, t, i) && node.frame < maxFrames)
  {
    RunIsOk(delay, maxFrames, run, t);
    assert NodeOk(delay, maxFrames, run(t).samples, run(t).sent, i, run(t).nodes[i]);
  }

  /** The loop leaves exactly one thing to do: record, then pump until the frame is there, then go on. */
  lemma ActEffect(delay: nat, maxFrames: nat, w: World, w': World, i: nat)
    requires Inv(delay, maxFrames, w) && i < 2 && Acts(maxFrames, w, w', i)
    ensures |w'.nodes| == |w'.samples| == 2
    ensures CanAdvance(w.nodes[i]) ==> w'.nodes[i].frame == w.nodes[i].frame + 1
    ensures !CanAdvance(w.nodes[i]) && Recorded(w, i) ==> w'.nodes[i].frame == w.nodes[i].frame && w'.nodes[i].pumped
    ensures !Recorded(w, i) ==> w'.nodes[i].frame == w.nodes[i].frame && Recorded(w', i)
  {
  }

  /** The next step of console i, once it comes. */
  lemma NextAct(delay: nat, maxFrames: nat, run: Run, t: nat, i: nat) returns (u: nat)
    requires FairRun(delay, maxFrames, run) && i < 2 && NodeAt(delay, maxFrames, run, t, i).frame < maxFrames
    ensures t <= u
    ensures var node, next := NodeAt(delay, maxFrames, run, u, i), NodeAt(delay, maxFrames, run, u + 1, i);
            && NodeGrows(NodeAt(delay, maxFrames, run, t, i), node) && NodeGrows(node, next)
            && ((node.frame == NodeAt(delay, maxFrames, run, t, i).frame && RecordedAt(delay, maxFrames, run, t, i)) ==>
                  RecordedAt(delay, maxFrames, run, u, i))
            && (CanAdvance(node) ==> next.frame == node.frame + 1)
            && (!CanAdvance(node) && RecordedAt(delay, maxFrames, run, u, i) ==> next.frame == node.frame && next.pumped)
            && (!RecordedAt(delay, maxFrames, run, u, i) ==>
                  next.frame == node.frame && RecordedAt(delay, maxFrames, run, u + 1, i))
  {
    RunIsOk(delay, maxFrames, run, t);
    assert ActsLater(maxFrames, run, t, i);
    u :| t <= u && Acts(maxFrames, run(u), run(u + 1), i);
    RunIsOk(delay, maxFrames, run, u);
    Later(delay, maxFrames, run, t, u, i);
    Later(delay, maxFrames, run, u, u + 1, i);
    ActEffect(delay, maxFrames, run(u), run(u + 1), i);
  }

  /** A console still playing gets to pump its frame, having recorded it first. */
  lemma PumpsSoon(delay: nat, maxFrames: nat, run: Run, t: nat, i: nat) returns (u: nat)
    requires FairRun(delay, maxFrames, run) && i < 2 && NodeAt(delay, maxFrames, run, t, i).frame < maxFrames
    ensures t <= u && NodeGrows(NodeAt(delay, maxFrames, run, t, i), NodeAt(delay, maxFrames, run, u, i))
    ensures NodeAt(delay, maxFrames, run, t, i).frame < PumpedUpTo(NodeAt(delay, maxFrames, run, u, i))
  {
    var t1 := NextAct(delay, maxFrames, run, t, i);
    u := t1 + 1;
    if NodeAt(delay, maxFrames, run, u, i).frame == NodeAt(delay, maxFrames, run, t, i).frame
       && !NodeAt(delay, maxFrames, run, u, i).pumped {
      var t2 := NextAct(delay, maxFrames, run, u, i);
      u := t2 + 1;
    }
    Later(delay, maxFrames, run, t, u, i);
  }

  /** A console whose frame is there leaves it. */
  lemma AdvancesSoon(delay: nat, maxFrames: nat, run: Run, t: nat, i: nat) returns (u: nat)
    requires FairRun(delay, maxFrames, run) && i < 2 && NodeAt(delay, maxFrames, run, t, i).frame < maxFrames
    requires CanAdvance(NodeAt(delay, maxFrames, run, t, i))
    ensures t <= u && NodeAt(delay, maxFrames, run, t, i).frame < NodeAt(delay, maxFrames, run, u, i).frame
  {
    NodeFacts(delay, maxFrames, run, t, i);
    var t1 := NextAct(delay, maxFrames, run, t, i);
    u := t1 + 1;
  }

  /** An input the other console has sent ends up at a console that is still playing. */
  lemma Hears(delay: nat, maxFrames: nat, run: Run, t: nat, i: nat, f: nat) returns (u: nat)
    requires FairRun(delay, maxFrames, run) && i < 2 && f < PumpedUpTo(NodeAt(delay, maxFrames, run, t, 1 - i))
    ensures t <= u
    ensures NodeAt(delay, maxFrames, run, u, i).frame == maxFrames || NodeAt(delay, maxFrames, run, u, i).con.Have(f)
  {
    RunIsOk(delay, maxFrames, run, t);
    var w := run(t);
    assert NodeOk(delay, maxFrames, w.samples, w.sent, 1 - i, w.nodes[1 - i]);
    assert CopySent(delay, w.samples, w.sent, 1 - i, f, f);
    var c := Copy(1 - i, f, Packet(f, Applied(delay, w.samples[1 - i], f)));
    assert ArrivesLater(maxFrames, run, t, c);
    u :| t <= u && (Arrived(run(u), c) || (c.src < 2 && Done(maxFrames, run(u), 1 - c.src)));
    RunIsOk(delay, maxFrames, run, u);
    if Arrived(run(u), c) {
      var d :| d in run(u).delivered && d.src == c.src && d.body == c.body;
      ArrivedIsHad(delay, maxFrames, run(u), i, f, d);
    }
  }

  /** A console at the lowest frame leaves it. */
  lemma LowestMoves(delay: nat, maxFrames: nat, run: Run, t: nat, i: nat) returns (u: nat)
    requires FairRun(delay, maxFrames, run) && i < 2 && NodeAt(delay, maxFrames, run, t, i).frame < maxFrames
    requires NodeAt(delay, maxFrames, run, t, i).frame <= NodeAt(delay, maxFrames, run, t, 1 - i).frame
    ensures t <= u && NodeAt(delay, maxFrames, run, t, i).frame < NodeAt(delay, maxFrames, run, u, i).frame
  {
    var m := NodeAt(delay, maxFrames, run, t, i).frame;
    var t1 := t;
    if NodeAt(delay, maxFrames, run, t, 1 - i).frame == m {
      t1 := PumpsSoon(delay, maxFrames, run, t, 1 - i);
    }
    var t2 := Hears(delay, maxFrames, run, t1, i, m);
    Later(delay, maxFrames, run, t, t2, i);
    u := t2;
    if NodeAt(delay, maxFrames, run, t2, i).frame == m {
      var t3 := PumpsSoon(delay, maxFrames, run, t2, i);
      u := t3;
      if NodeAt(delay, maxFrames, run, t3, i).frame == m {
        NodeFacts(delay, maxFrames, run, t3, i);
        u := AdvancesSoon(delay, maxFrames, run, t3, i);
      }
    }
  }

  ghost function Remaining(delay: nat, maxFrames: nat, run: Run, t: nat): nat
    requires IsRun(delay, maxFrames, run)
  {
    NodeFacts(delay, maxFrames, run, t, 0);
    NodeFacts(delay, maxFrames, run, t, 1);
    maxFrames - NodeAt(delay, maxFrames, run, t, 0).frame + (maxFrames - NodeAt(delay, maxFrames, run, t, 1).frame)
  }

  /** Liveness: every match in which no console is suspended for ever and no input loses all its copies finishes. */
  lemma {:induction false} MatchFinishes(delay: nat, maxFrames: nat, run: Run, t: nat) returns (u: nat)
    requires FairRun(delay, maxFrames, run)
    ensures t <= u && |run(u).nodes| == 2 && Finished(maxFrames, run(u))
    decreases Remaining(delay, maxFrames, run, t)
  {
    RunIsOk(delay, maxFrames, run, t);
    if Finished(maxFrames, run(t)) {
      u := t;
    } else {
      NodeFacts(delay, maxFrames, run, t, 0);
      NodeFacts(delay, maxFrames, run, t, 1);
      var i := if run(t).nodes[0].frame <= run(t).nodes[1].frame then 0 else 1;
      var v := LowestMoves(delay, maxFrames, run, t, i);
      Later(delay, maxFrames, run, t, v, 0);
      Later(delay, maxFrames, run, t, v, 1);
      u := MatchFinishes(delay, maxFrames, run, v);
    }
  }

  // ---- fair matches exist ----

  function Forever(ws: seq<World>): Run
    requires ws != []
  {
    (t: nat) => if t < |ws| then ws[t] else ws[|ws| - 1]
  }

  ghost predicate FinishingPath(delay: nat, maxFrames: nat, ws: seq<World>) {
    && PathWithout(maxFrames, {}, ws) && ws[0] == Initial(delay, maxFrames)
    && |ws[|ws| - 1].nodes| == 2 && Finished(maxFrames, ws[|ws| - 1])
  }

  lemma StaysAtFrame(maxFrames: nat, w: World, w': World, i: nat)
    requires StepWithout(maxFrames, {}, w, w') && !Acts(maxFrames, w, w', i) && i < |w.nodes|
    ensures |w'.nodes| == |w.nodes| && w'.nodes[i].frame == w.nodes[i].frame
  {
    var a :| Enabled(maxFrames, w, a) && w' == Apply(w, a) && forall c | c in Taken(a) :: c !in {};
  }

  lemma ActsNow(maxFrames: nat, run: Run, t: nat, i: nat)
    requires Acts(maxFrames, run(t), run(t + 1), i)
    ensures ActsLater(maxFrames, run, t, i)
  {
  }

  lemma ActsEarlier(maxFrames: nat, run: Run, t: nat, i: nat)
    requires ActsLater(maxFrames, run, t + 1, i)
    ensures ActsLater(maxFrames, run, t, i)
  {
  }

  lemma {:induction false} ActsBeforeTheEnd(delay: nat, maxFrames: nat, ws: seq<World>, t: nat, i: nat)
    requires FinishingPath(delay, maxFrames, ws) && i < 2 && Playing(maxFrames, Forever(ws)(t), i)
    ensures ActsLater(maxFrames, Forever(ws), t, i)
    decreases |ws| - t
  {
    var run := Forever(ws);
    assert t < |ws| - 1 && run(t) == ws[t] && run(t + 1) == ws[t + 1];
    assert StepWithout(maxFrames, {}, ws[t], ws[t + 1]);
    if Acts(maxFrames, run(t), run(t + 1), i) {
      ActsNow(maxFrames, run, t, i);
    } else {
      StaysAtFrame(maxFrames, ws[t], ws[t + 1], i);
      ActsBeforeTheEnd(delay, maxFrames, ws, t + 1, i);
      ActsEarlier(maxFrames, run, t, i);
    }
  }

  lemma ForeverIsRun(delay: nat, maxFrames: nat, ws: seq<World>)
    requires FinishingPath(delay, maxFrames, ws)
    ensures IsRun(delay, maxFrames, Forever(ws)) && FairConsoles(maxFrames, Forever(ws))
  {
    forall k: nat
      ensures StepOrStay(maxFrames, Forever(ws), k)
    {
      assert k < |ws| - 1 ==> StepWithout(maxFrames, {}, ws[k], ws[k + 1]);
    }
    forall k: nat, i: nat | i < 2 && Playing(maxFrames, Forever(ws)(k), i)
      ensures ActsLater(maxFrames, Forever(ws), k, i)
    {
      ActsBeforeTheEnd(delay, maxFrames, ws, k, i);
    }
  }

  lemma DoneByThen(maxFrames: nat, run: Run, t: nat, u: nat, c: Copy)
    requires t <= u && Finished(maxFrames, run(u)) && |run(u).nodes| == 2 && c.src < 2
    ensures ArrivesLater(maxFrames, run, t, c)
  {
    assert Done(maxFrames, run(u), 1 - c.src);
  }

  /** There are fair matches of every length: what MatchFinishes promises is not empty. */
  lemma FairMatchExists(delay: nat, maxFrames: nat) returns (run: Run)
    ensures FairRun(delay, maxFrames, run)
  {
    var w := PairStall.BothAt(delay, maxFrames, 0, maxFrames);
    var ws :| PathWithout(maxFrames, {}, ws) && ws[0] == Initial(delay, maxFrames) && ws[|ws| - 1] == w;
    run := Forever(ws);
    ForeverIsRun(delay, maxFrames, ws);
    forall k: nat, c | c in run(k).sent && c.body != HELLO
      ensures ArrivesLater(maxFrames, run, k, c)
    {
      RunIsOk(delay, maxFrames, run, k);
      assert CopyOk(delay, maxFrames, run(k).samples, c);
      assert run(k + |ws|) == w;
      DoneByThen(maxFrames, run, k, k + |ws|, c);
    }
  }
}
