/** What loss can and cannot do to the host-relay protocol: exactly when a match can still be finished although some
    copies are lost for good, and that nothing a run has done rules out its end as long as what was sent may arrive late. */
module RelayRecovery {
  import opened Frames
  import opened Wire
  import opened RelayConsole
  import opened RelayRun
  import opened RelaySafety
  import opened RelayLiveness
  import opened RelayCopies

  // ---- the stall ----

  /** The host will not pump frame f again. */
  ghost predicate HostIsPast(w: World, f: nat)
    requires |w.nodes| > 0
  {
    f < w.nodes[0].frame || (f == w.nodes[0].frame && CanAdvance(w.nodes[0]))
  }

  /** Guest i lacks frame f, the host is past it, and no copy of it that went to the guest will get through. */
  ghost predicate Doomed(cfg: Config, t: Trace, lost: set<Copy>, i: nat, f: nat) {
    && 0 < i < cfg.players == |t.world.nodes|
    && f !in t.world.nodes[i].con.ready && HostIsPast(t.world, f)
    && forall c | c in t.copies && Brings(c, i, f) :: c in lost
  }

  ghost predicate SomeoneIsDoomed(cfg: Config, t: Trace, lost: set<Copy>) {
    exists i: nat, f: nat :: Doomed(cfg, t, lost, i, f)
  }

  /** A guest gets a frame only from a relayed copy of it. */
  lemma {:induction false} GuestNeedsACopy(c: Console, got: seq<Envelope>, f: nat)
    requires c.Valid() && f !in c.ready && forall e | e in got :: !IsAgg(e) || e.body.frame != f
    ensures f !in c.Drain(got).ready
    decreases |got|
  {
    if got != [] {
      var front, last := got[..|got| - 1], got[|got| - 1];
      assert last in got;
      GuestNeedsACopy(c, front, f);
    }
  }

  /** No step brings a doomed guest its frame. */
  lemma DoomedStaysWithout(cfg: Config, t: Trace, lost: set<Copy>, a: Action, i: nat, f: nat)
    requires TraceOk(cfg, t) && Enabled(cfg, t.world, a) && Spared(t, lost, a) && Doomed(cfg, t, lost, i, f)
    ensures f !in Next(t, a).world.nodes[i].con.ready
  {
    if a.i == i && (a.Greet? || a.Pump?) {
      forall e | e in a.got
        ensures !IsAgg(e) || e.body.frame != f
      {
        assert e.body != Junk ==> Survives(t, lost, e);
      }
      GuestNeedsACopy(t.world.nodes[i].con, a.got, f);
    }
  }

  /** A host past frame f stays past it and relays it no more. */
  lemma PastStaysPast(cfg: Config, t: Trace, a: Action, f: nat)
    requires TraceOk(cfg, t) && Enabled(cfg, t.world, a) && HostIsPast(t.world, f)
    ensures HostIsPast(Next(t, a).world, f)
    ensures forall c | c in Next(t, a).copies && IsAgg(c.e) && c.e.body.frame == f :: c in t.copies
  {
    assert ProgressOk(cfg, t.world.samples, t.world.sent, 0, t.world.nodes[0]);
    if a.Pump? && a.i == 0 {
      HostSends(cfg, t.world, a);
    } else {
      OthersSendNoAggregates(cfg, t.world, a);
    }
  }

  lemma DoomStays(cfg: Config, t: Trace, lost: set<Copy>, a: Action, i: nat, f: nat)
    requires TraceOk(cfg, t) && Enabled(cfg, t.world, a) && Spared(t, lost, a) && Doomed(cfg, t, lost, i, f)
    ensures Doomed(cfg, Next(t, a), lost, i, f)
  {
    DoomedStaysWithout(cfg, t, lost, a, i, f);
    PastStaysPast(cfg, t, a, f);
  }

  lemma {:induction false} DoomStaysAlong(cfg: Config, lost: set<Copy>, ts: seq<Trace>, i: nat, f: nat)
    requires PathWithout(cfg, lost, ts) && TraceOk(cfg, ts[0]) && Doomed(cfg, ts[0], lost, i, f)
    ensures TraceOk(cfg, ts[|ts| - 1]) && Doomed(cfg, ts[|ts| - 1], lost, i, f)
    decreases |ts|
  {
    if |ts| > 1 {
      PathTail(cfg, lost, ts);
      var a :| Enabled(cfg, ts[0].world, a) && Spared(ts[0], lost, a) && ts[1] == Next(ts[0], a);
      NextKeeps(cfg, ts[0], a);
      DoomStays(cfg, ts[0], lost, a, i, f);
      DoomStaysAlong(cfg, lost, ts[1..], i, f);
    }
  }

  /** A doomed guest never passes its frame, and the host gets no further than delay + 1 frames beyond it. */
  lemma DoomedIsStuck(cfg: Config, t: Trace, lost: set<Copy>, i: nat, f: nat)
    requires TraceOk(cfg, t) && Doomed(cfg, t, lost, i, f)
    ensures f < cfg.maxFrames && t.world.nodes[i].frame <= f && !Finished(cfg, t.world)
  {
    assert ProgressOk(cfg, t.world.samples, t.world.sent, 0, t.world.nodes[0]);
    assert ProgressOk(cfg, t.world.samples, t.world.sent, i, t.world.nodes[i]);
    assert ConsoleOk(cfg, t.world.samples, t.world.sent, i, t.world.nodes[i].con);
    assert !t.world.nodes[i].con.Have(f);
  }

  /** The stall: with the last copies of one frame for one guest lost, in all continuations, for ever, that guest stays at
      or below the frame, everybody within delay + 1 frames of it, and the match is never finished. */
  lemma LostRelaysStallTheMatch(cfg: Config, t: Trace, t': Trace, lost: set<Copy>, i: nat, f: nat)
    requires cfg.Valid() && Traced(cfg, t) && Doomed(cfg, t, lost, i, f) && LeadsWithout(cfg, lost, t, t')
    ensures |t'.world.nodes| == cfg.players && t'.world.nodes[i].frame <= f && !Finished(cfg, t'.world)
    ensures forall j | 0 <= j < cfg.players :: t'.world.nodes[j].frame <= f + cfg.delay + 1
  {
    TracedIsOk(cfg, t);
    var ts :| PathWithout(cfg, lost, ts) && ts[0] == t && ts[|ts| - 1] == t';
    DoomStaysAlong(cfg, lost, ts, i, f);
    DoomedIsStuck(cfg, t', lost, i, f);
    TracedOnwards(cfg, t, t', lost);
    TracedIsReachable(cfg, t');
    forall j | 0 <= j < cfg.players
      ensures t'.world.nodes[j].frame <= f + cfg.delay + 1
    {
      BoundedSkew(cfg, t'.world, j, i);
    }
  }

  // ---- the way out ----

  /** How many records, first pumps and advances a console has before it. */
  function Weight(cfg: Config, w: World, i: nat): int
    requires i < |w.nodes| == |w.samples|
  {
    3 * (cfg.maxFrames - w.nodes[i].frame) - (if Recorded(w, i) then 1 else 0) - (if w.nodes[i].pumped then 1 else 0)
  }

  function Work(cfg: Config, w: World, k: nat): int
    requires k <= |w.nodes| == |w.samples|
  {
    if k == 0 then 0 else Work(cfg, w, k - 1) + Weight(cfg, w, k - 1)
  }

  lemma {:induction false} WorkIsNatural(cfg: Config, w: World, k: nat)
    requires Inv(cfg, w) && k <= cfg.players
    ensures 0 <= Work(cfg, w, k)
  {
    if k > 0 {
      WorkIsNatural(cfg, w, k - 1);
      assert ProgressOk(cfg, w.samples, w.sent, k - 1, w.nodes[k - 1]);
    }
  }

  /** One console has moved, the others have as much to do as before. */
  lemma {:induction false} WorkMoves(cfg: Config, w: World, w': World, i: nat, k: nat)
    requires i < |w.nodes| == |w.samples| == |w'.nodes| == |w'.samples| && k <= |w.nodes|
    requires forall j: nat | j < |w.nodes| && j != i :: w'.nodes[j] == w.nodes[j] && w'.samples[j] == w.samples[j]
    ensures Work(cfg, w', k) == Work(cfg, w, k) + if i < k then Weight(cfg, w', i) - Weight(cfg, w, i) else 0
    decreases k
  {
    if k > 0 {
      WorkMoves(cfg, w, w', i, k - 1);
    }
  }

  /** The guests whose input for its frame the host lacks. */
  function Unheard(w: World): set<nat>
    requires |w.nodes| > 0
  {
    set p: nat | p < |w.nodes| && Slot(p, w.nodes[0].frame) !in w.nodes[0].con.known
  }

  ghost predicate Closer(cfg: Config, w: World, w': World)
    requires |w.nodes| == |w.samples| == cfg.players == |w'.nodes| == |w'.samples| && 0 < cfg.players
  {
    || Work(cfg, w', cfg.players) < Work(cfg, w, cfg.players)
    || (Work(cfg, w', cfg.players) == Work(cfg, w, cfg.players) && |Unheard(w')| < |Unheard(w)|)
  }

  ghost predicate Waiting(cfg: Config, w: World) {
    forall i: nat | i < |w.nodes| == |w.samples| && w.nodes[i].frame < cfg.maxFrames ::
      Recorded(w, i) && w.nodes[i].pumped && !CanAdvance(w.nodes[i])
  }

  /** What is lost was sent before; a new transmission is a new chance. */
  ghost predicate OldLoss(t: Trace, lost: set<Copy>) {
    forall c | c in lost :: c.tick < t.tick
  }

  /** The host has never been handed an input for a later frame than its own. */
  ghost predicate Lazy(t: Trace)
    requires |t.world.nodes| > 0
  {
    && (forall g, s | 0 <= g < |t.left| && s in t.left[g] && s.player > 0 :: s.frame <= g)
    && (forall s | s in t.world.nodes[0].con.known && s.player > 0 :: s.frame <= t.world.nodes[0].frame)
  }

  /** Whoever was not doomed before a step is not after it: a frame the host gets past it has just relayed. */
  lemma NobodyGetsDoomed(cfg: Config, t: Trace, lost: set<Copy>, a: Action)
    requires TraceOk(cfg, t) && Enabled(cfg, t.world, a) && OldLoss(t, lost) && !SomeoneIsDoomed(cfg, t, lost)
    ensures OldLoss(Next(t, a), lost) && !SomeoneIsDoomed(cfg, Next(t, a), lost)
  {
    var t' := Next(t, a);
    forall i: nat, f: nat
      ensures !Doomed(cfg, t', lost, i, f)
    {
      if 0 < i < cfg.players && f !in t'.world.nodes[i].con.ready && HostIsPast(t'.world, f) {
        ReadyGrows(cfg, t.world, a, i);
        if HostIsPast(t.world, f) {
          assert !Doomed(cfg, t, lost, i, f);
          var c :| c in t.copies && Brings(c, i, f) && c !in lost;
          assert c in t'.copies;
        } else {
          var c := NewlyPastIsRelayed(cfg, t, a, i, f);
        }
      }
    }
  }

  lemma ReadyGrows(cfg: Config, w: World, a: Action, i: nat)
    requires Inv(cfg, w) && Enabled(cfg, w, a) && i < cfg.players
    ensures w.nodes[i].con.ready <= Apply(w, a).nodes[i].con.ready
  {
    ActorGrows(cfg, w, a);
  }

  /** The host gets past a frame by a pump, which sends every guest a new copy. */
  lemma NewlyPastIsRelayed(cfg: Config, t: Trace, a: Action, i: nat, f: nat) returns (c: Copy)
    requires TraceOk(cfg, t) && Enabled(cfg, t.world, a) && 0 < i < cfg.players
    requires HostIsPast(Next(t, a).world, f) && !HostIsPast(t.world, f)
    ensures a.Pump? && a.i == 0 && f == t.world.nodes[0].frame
    ensures c in Next(t, a).copies && Brings(c, i, f) && c.tick == t.tick
  {
    assert ProgressOk(cfg, t.world.samples, t.world.sent, 0, t.world.nodes[0]);
    HostSends(cfg, t.world, a);
    assert Complete(cfg, Apply(t.world, a).nodes[0].con.known, f);
    assert RelaysNow(cfg, t.world, a, i, f);
    c := Copy(f, t.tick, AggEnvelope(i, cfg.players, f, Aggregate(cfg, t.world.samples, f)));
  }

  lemma {:induction false} KnownFromInputs(c: Console, got: seq<Envelope>, s: Slot)
    requires c.Valid() && s in c.Drain(got).known
    ensures s in c.known || exists e :: e in got && e.body.Packet? && e.body.frame == s.frame
    decreases |got|
  {
    if got != [] {
      var front, last := got[..|got| - 1], got[|got| - 1];
      assert last in got;
      if s in c.Drain(front).known {
        KnownFromInputs(c, front, s);
        assert forall e | e in front :: e in got;
      }
    }
  }

  /** A step that hands the host nothing for later frames. */
  ghost predicate Modest(t: Trace, a: Action)
    requires |t.world.nodes| > 0
  {
    !a.Greet? && (a.Pump? && a.i == 0 ==> forall e | e in a.got && e.body.Packet? :: e.body.frame <= t.world.nodes[0].frame)
  }

  lemma LazyKeeps(cfg: Config, t: Trace, a: Action)
    requires TraceOk(cfg, t) && Enabled(cfg, t.world, a) && Lazy(t) && Modest(t, a)
    ensures Lazy(Next(t, a))
  {
    var t', host := Next(t, a), t.world.nodes[0];
    forall s | s in t'.world.nodes[0].con.known && s.player > 0
      ensures s.frame <= t'.world.nodes[0].frame
    {
      if a.Pump? && a.i == 0 {
        KnownFromInputs(host.con, a.got, s);
      }
    }
  }

  /** Where a run may go on without what is lost. */
  ghost predicate Fine(cfg: Config, t: Trace, lost: set<Copy>) {
    cfg.Valid() && Traced(cfg, t) && OldLoss(t, lost) && !SomeoneIsDoomed(cfg, t, lost)
  }

  lemma FineOn(cfg: Config, t: Trace, lost: set<Copy>, a: Action)
    requires Fine(cfg, t, lost) && TraceOk(cfg, t) && Enabled(cfg, t.world, a) && Spared(t, lost, a)
    ensures Fine(cfg, Next(t, a), lost) && TraceOk(cfg, Next(t, a)) && LeadsWithout(cfg, lost, t, Next(t, a))
    ensures Lazy(t) && Modest(t, a) ==> Lazy(Next(t, a))
  {
    NobodyGetsDoomed(cfg, t, lost, a);
    NextKeeps(cfg, t, a);
    LeadsByStep(cfg, lost, t, a);
    TracedOnwards(cfg, t, Next(t, a), lost);
    if Lazy(t) && Modest(t, a) {
      LazyKeeps(cfg, t, a);
    }
  }

  /** A guest the host waits for is itself at that frame: guests pass a frame only after the host had it complete. */
  lemma UnheardIsThere(cfg: Config, t: Trace, p: nat)
    requires TraceOk(cfg, t) && 0 < p < cfg.players && p in Unheard(t.world) && Lowest(t.world, 0)
    ensures t.world.nodes[p].frame == t.world.nodes[0].frame
  {
    var w, m := t.world, t.world.nodes[0].frame;
    assert w.nodes[0].frame <= w.nodes[p].frame;
    if m < w.nodes[p].frame {
      assert ProgressOk(cfg, w.samples, w.sent, p, w.nodes[p]);
      assert w.nodes[p].con.Have(m);
      assert RelayedTo(cfg, w.samples, w.sent, p, m);
      ReadyIsComplete(cfg, t, p, m);
    }
  }

  /** Whatever a guest has, the host has complete, from the frame that relayed it on. */
  lemma ReadyIsComplete(cfg: Config, t: Trace, i: nat, f: nat)
    requires TraceOk(cfg, t) && 0 < i < cfg.players && f in t.world.nodes[i].con.ready
    ensures Complete(cfg, t.world.nodes[0].con.known, f)
    ensures exists g: nat :: g < PumpedUpTo(t.world.nodes[0]) && g <= f && Complete(cfg, InHand(t, g), f)
  {
    var w := t.world;
    assert ConsoleOk(cfg, w.samples, w.sent, i, w.nodes[i].con);
    assert RelayedTo(cfg, w.samples, w.sent, i, f);
    var e := AggEnvelope(i, cfg.players, f, Aggregate(cfg, w.samples, f));
    assert Survives(t, {}, e);
    var c :| c in t.copies && c !in {} && c.e == e;
    assert Complete(cfg, InHand(t, c.at), f);
    assert c.at <= |t.left|;
    assert InHand(t, c.at) <= InHand(t, |t.left|);
  }

  /** A guest that waits pumps again and sends a new copy of its input. */
  lemma PumpAgain(cfg: Config, t: Trace, lost: set<Copy>, p: nat) returns (u: Trace, e: Envelope)
    requires Fine(cfg, t, lost) && TraceOk(cfg, t) && 0 < p < cfg.players && t.world.nodes[p].frame < cfg.maxFrames
    requires Waiting(cfg, t.world)
    ensures Fine(cfg, u, lost) && TraceOk(cfg, u) && LeadsWithout(cfg, lost, t, u) && (Lazy(t) ==> Lazy(u))
    ensures u.world.nodes == t.world.nodes && u.world.samples == t.world.samples && e in u.world.sent && Survives(u, lost, e)
    ensures e.dst == 0 && e.body.Packet? && e.body.kind == InputKind && e.body.player == p
            && e.body.frame == t.world.nodes[p].frame
  {
    var w := t.world;
    var again := Pump(p, []);
    FineOn(cfg, t, lost, again);
    u := Next(t, again);
    e := OwnInputIsSent(cfg, w, p);
    var c := Copy(w.nodes[p].frame, t.tick, e);
    assert c in u.copies && c !in lost;
    assert u.world.nodes[p] == w.nodes[p];
    assert u.world.nodes == w.nodes;
  }

  /** That copy gets through to the host. */
  lemma HearIt(cfg: Config, t: Trace, lost: set<Copy>, p: nat, e: Envelope) returns (t': Trace)
    requires Fine(cfg, t, lost) && TraceOk(cfg, t) && 0 < p < cfg.players && p in Unheard(t.world) && Waiting(cfg, t.world)
    requires t.world.nodes[0].frame < cfg.maxFrames && e in t.world.sent && Survives(t, lost, e)
    requires e.dst == 0 && e.body.Packet? && e.body.kind == InputKind && e.body.player == p
             && e.body.frame == t.world.nodes[0].frame
    ensures Forth(cfg, t, lost, t')
  {
    var hear := Pump(0, [e]);
    MayHear(cfg, t, lost, e);
    FineOn(cfg, t, lost, hear);
    t' := Next(t, hear);
    assert t'.world.nodes == t.world.nodes[0 := t.world.nodes[0].(con := t'.world.nodes[0].con)];
    SameWeight(cfg, t.world, t'.world, 0, cfg.players);
    HeardIsFewer(cfg, t, e, p);
    PastByPump(cfg, t, hear);
  }

  lemma MayHear(cfg: Config, t: Trace, lost: set<Copy>, e: Envelope)
    requires TraceOk(cfg, t) && Waiting(cfg, t.world) && t.world.nodes[0].frame < cfg.maxFrames
    requires e in t.world.sent && Survives(t, lost, e) && e.dst == 0
    ensures Enabled(cfg, t.world, Pump(0, [e])) && Spared(t, lost, Pump(0, [e]))
  {
  }

  lemma SameWeight(cfg: Config, w: World, w': World, i: nat, k: nat)
    requires i < |w.nodes| == |w.samples| && k <= |w.nodes| && w'.samples == w.samples
    requires exists con :: w'.nodes == w.nodes[i := w.nodes[i].(con := con)]
    ensures Work(cfg, w', k) == Work(cfg, w, k)
  {
    WorkMoves(cfg, w, w', i, k);
  }

  /** A guest that waits with the host pumps again, and the new copy of its input gets through. */
  lemma HearOneMore(cfg: Config, t: Trace, lost: set<Copy>, p: nat) returns (t': Trace)
    requires Fine(cfg, t, lost) && TraceOk(cfg, t) && 0 < p < cfg.players && p in Unheard(t.world)
    requires Lowest(t.world, 0) && t.world.nodes[0].frame < cfg.maxFrames && Waiting(cfg, t.world)
    ensures Forth(cfg, t, lost, t')
  {
    UnheardIsThere(cfg, t, p);
    var u, e := PumpAgain(cfg, t, lost, p);
    SameWork(cfg, t.world, u.world, cfg.players);
    t' := HearIt(cfg, u, lost, p, e);
    LeadsOn(cfg, lost, t, u, t');
  }

  lemma {:induction false} SameWork(cfg: Config, w: World, w': World, k: nat)
    requires k <= |w.nodes| == |w.samples| && w'.nodes == w.nodes && w'.samples == w.samples
    ensures Work(cfg, w', k) == Work(cfg, w, k)
  {
    if k > 0 {
      SameWork(cfg, w, w', k - 1);
    }
  }

  /** The host is handed the input it lacks. */
  lemma HeardIsFewer(cfg: Config, t: Trace, e: Envelope, p: nat)
    requires TraceOk(cfg, t) && 0 < p < cfg.players && p in Unheard(t.world) && Deliverable(t.world, 0, [e])
    requires e.body.Packet? && e.body.kind == InputKind && e.body.player == p && e.body.frame == t.world.nodes[0].frame
    requires Enabled(cfg, t.world, Pump(0, [e]))
    ensures |Unheard(Apply(t.world, Pump(0, [e])))| < |Unheard(t.world)|
  {
    var w, w' := t.world, Apply(t.world, Pump(0, [e]));
    DrainMarks(cfg, w, 0, w.nodes[0].con, [e]);
    assert e in [e];
    assert Slot(p, w.nodes[0].frame) in w'.nodes[0].con.known;
    FewerThan(Unheard(w'), Unheard(w), p);
  }

  lemma FewerThan(s: set<nat>, t: set<nat>, p: nat)
    requires s <= t && p in t && p !in s
    ensures |s| < |t|
  {
    CardinalityOfSubset(s, t - {p});
  }

  lemma {:induction false} CardinalityOfSubset(s: set<nat>, t: set<nat>)
    requires s <= t
    ensures |s| <= |t|
    decreases s
  {
    if s != {} {
      var x :| x in s;
      CardinalityOfSubset(s - {x}, t - {x});
    }
  }

  /** What a waiting guest's pump sends for its own frame. */
  lemma OwnInputIsSent(cfg: Config, w: World, p: nat) returns (e: Envelope)
    requires Inv(cfg, w) && 0 < p < cfg.players && Enabled(cfg, w, Pump(p, []))
    ensures e in Sends(w, Pump(p, [])) && e.dst == 0
    ensures e.body.Packet? && e.body.kind == InputKind && e.body.player == p && e.body.frame == w.nodes[p].frame
  {
    var node := w.nodes[p];
    assert ProgressOk(cfg, w.samples, w.sent, p, node);
    SendWindowIsOk(cfg, w, p, node.con, node.frame);
    e := InputEnvelope(p, node.frame, Applied(cfg.delay, w.samples[p], node.frame));
  }

  ghost predicate GuestsWait(w: World, w': World) {
    |w.nodes| == |w'.nodes| && forall i | 0 < i < |w.nodes| :: w'.nodes[i].con.ready == w.nodes[i].con.ready
  }

  /** When the host gets past a frame on the way, nobody else gets anything. */
  ghost predicate PastWaits(w: World, w': World)
    requires |w.nodes| > 0 && |w'.nodes| > 0
  {
    forall f: nat | HostIsPast(w', f) && !HostIsPast(w, f) :: GuestsWait(w, w')
  }

  ghost predicate Forth(cfg: Config, t: Trace, lost: set<Copy>, t': Trace) {
    && Fine(cfg, t', lost) && LeadsWithout(cfg, lost, t, t')
    && TraceOk(cfg, t) && TraceOk(cfg, t') && Closer(cfg, t.world, t'.world)
    && (Lazy(t) ==> Lazy(t')) && PastWaits(t.world, t'.world)
  }

  /** A guest behind the host is handed a copy of its frame that is not lost. */
  lemma TakeRelayed(cfg: Config, t: Trace, lost: set<Copy>, i: nat) returns (u: Trace)
    requires Fine(cfg, t, lost) && TraceOk(cfg, t) && 0 < i < cfg.players && Waiting(cfg, t.world)
    requires t.world.nodes[i].frame < t.world.nodes[0].frame
    ensures Fine(cfg, u, lost) && TraceOk(cfg, u) && LeadsWithout(cfg, lost, t, u) && (Lazy(t) ==> Lazy(u))
    ensures u.world.samples == t.world.samples && Enabled(cfg, u.world, Advance(i))
    ensures u.world.nodes == t.world.nodes[i := t.world.nodes[i].(con := u.world.nodes[i].con)]
  {
    var c := SpareCopy(cfg, t, lost, i);
    FineOn(cfg, t, lost, Pump(i, [c.e]));
    u := Next(t, Pump(i, [c.e]));
    CopyBringsOn(cfg, t, i, c);
  }

  lemma SpareCopy(cfg: Config, t: Trace, lost: set<Copy>, i: nat) returns (c: Copy)
    requires TraceOk(cfg, t) && !SomeoneIsDoomed(cfg, t, lost) && 0 < i < cfg.players && Waiting(cfg, t.world)
    requires t.world.nodes[i].frame < t.world.nodes[0].frame
    ensures c in t.copies && Brings(c, i, t.world.nodes[i].frame)
    ensures Enabled(cfg, t.world, Pump(i, [c.e])) && Spared(t, lost, Pump(i, [c.e]))
  {
    var w, m := t.world, t.world.nodes[i].frame;
    assert ProgressOk(cfg, w.samples, w.sent, 0, w.nodes[0]);
    assert m < cfg.maxFrames && !w.nodes[i].con.Have(m);
    assert !Doomed(cfg, t, lost, i, m);
    c :| c in t.copies && Brings(c, i, m) && c !in lost;
    assert Survives(t, lost, c.e);
  }

  lemma CopyBringsOn(cfg: Config, t: Trace, i: nat, c: Copy)
    requires TraceOk(cfg, t) && 0 < i < cfg.players && c in t.copies && Brings(c, i, t.world.nodes[i].frame)
    requires Enabled(cfg, t.world, Pump(i, [c.e]))
    ensures Enabled(cfg, Apply(t.world, Pump(i, [c.e])), Advance(i))
  {
    DrainMarks(cfg, t.world, i, t.world.nodes[i].con, [c.e]);
    assert c.e in [c.e];
  }

  /** And it goes on. */
  lemma GuestCatchesUp(cfg: Config, t: Trace, lost: set<Copy>, i: nat) returns (t': Trace)
    requires Fine(cfg, t, lost) && TraceOk(cfg, t) && 0 < i < cfg.players && Waiting(cfg, t.world)
    requires t.world.nodes[i].frame < t.world.nodes[0].frame
    ensures Forth(cfg, t, lost, t')
  {
    var u := TakeRelayed(cfg, t, lost, i);
    FineOn(cfg, u, lost, Advance(i));
    t' := Next(u, Advance(i));
    LeadsOn(cfg, lost, t, u, t');
    assert ProgressOk(cfg, t.world.samples, t.world.sent, 0, t.world.nodes[0]);
    WorkMoves(cfg, t.world, t'.world, i, cfg.players);
  }

  /** A step of a console that need not wait. */
  lemma Unhindered(cfg: Config, t: Trace, lost: set<Copy>) returns (t': Trace)
    requires Fine(cfg, t, lost) && TraceOk(cfg, t) && !Waiting(cfg, t.world)
    ensures Forth(cfg, t, lost, t')
  {
    var a := FreeStep(cfg, t.world);
    t' := Next(t, a);
    FineOn(cfg, t, lost, a);
    PastByPump(cfg, t, a);
  }

  lemma FreeStep(cfg: Config, w: World) returns (a: Action)
    requires Inv(cfg, w) && !Waiting(cfg, w)
    ensures Enabled(cfg, w, a) && Got(a) == [] && !a.Greet?
    ensures Work(cfg, Apply(w, a), cfg.players) < Work(cfg, w, cfg.players)
  {
    var i: nat :| i < cfg.players && w.nodes[i].frame < cfg.maxFrames &&
                  !(Recorded(w, i) && w.nodes[i].pumped && !CanAdvance(w.nodes[i]));
    a := if !Recorded(w, i) then Record(i, 0) else if CanAdvance(w.nodes[i]) then Advance(i) else Pump(i, []);
    MayStep(cfg, w, i, a);
    WorkMoves(cfg, w, Apply(w, a), i, cfg.players);
  }

  lemma MayStep(cfg: Config, w: World, i: nat, a: Action)
    requires Inv(cfg, w) && i < cfg.players && w.nodes[i].frame < cfg.maxFrames
    requires !(Recorded(w, i) && w.nodes[i].pumped && !CanAdvance(w.nodes[i]))
    requires a == if !Recorded(w, i) then Record(i, 0) else if CanAdvance(w.nodes[i]) then Advance(i) else Pump(i, [])
    ensures Enabled(cfg, w, a) && Weight(cfg, Apply(w, a), i) < Weight(cfg, w, i)
  {
    assert ProgressOk(cfg, w.samples, w.sent, i, w.nodes[i]);
    assert ConsoleOk(cfg, w.samples, w.sent, i, w.nodes[i].con);
  }

  lemma PastByPump(cfg: Config, t: Trace, a: Action)
    requires TraceOk(cfg, t) && Enabled(cfg, t.world, a)
    ensures PastWaits(t.world, Next(t, a).world)
  {
    forall f: nat | HostIsPast(Next(t, a).world, f) && !HostIsPast(t.world, f)
      ensures GuestsWait(t.world, Next(t, a).world)
    {
      var c := NewlyPastIsRelayed(cfg, t, a, 1, f);
    }
  }

  /** Everybody waits: the one at the lowest frame is helped on, with nothing that is lost. */
  lemma OutOfTheWait(cfg: Config, t: Trace, lost: set<Copy>) returns (t': Trace)
    requires Fine(cfg, t, lost) && TraceOk(cfg, t) && Waiting(cfg, t.world) && !Finished(cfg, t.world)
    ensures Forth(cfg, t, lost, t')
  {
    var w := t.world;
    var i := LowestExists(w, |w.nodes|);
    if w.nodes[0].frame == w.nodes[i].frame {
      var p := SomebodyUnheard(cfg, t);
      t' := HearOneMore(cfg, t, lost, p);
    } else {
      t' := GuestCatchesUp(cfg, t, lost, i);
    }
  }

  lemma SomebodyUnheard(cfg: Config, t: Trace) returns (p: nat)
    requires TraceOk(cfg, t) && Waiting(cfg, t.world) && t.world.nodes[0].frame < cfg.maxFrames
    ensures 0 < p < cfg.players && p in Unheard(t.world)
  {
    var w, m := t.world, t.world.nodes[0].frame;
    assert !w.nodes[0].con.HostComplete(m);
    p :| p < cfg.players && Slot(p, m) !in w.nodes[0].con.known;
    assert Scheduled(cfg.delay, w.samples[0], m);
  }

  lemma Onward(cfg: Config, t: Trace, lost: set<Copy>) returns (t': Trace)
    requires Fine(cfg, t, lost) && !Finished(cfg, t.world)
    ensures Forth(cfg, t, lost, t')
  {
    TracedIsOk(cfg, t);
    if Waiting(cfg, t.world) {
      t' := OutOfTheWait(cfg, t, lost);
    } else {
      t' := Unhindered(cfg, t, lost);
    }
  }

  lemma {:induction false} WayOut(cfg: Config, t: Trace, lost: set<Copy>) returns (t': Trace)
    requires Fine(cfg, t, lost) && TraceOk(cfg, t)
    ensures LeadsWithout(cfg, lost, t, t') && Traced(cfg, t') && TraceOk(cfg, t') && Finished(cfg, t'.world)
    ensures Lazy(t) ==> Lazy(t')
    decreases Work(cfg, t.world, cfg.players), |Unheard(t.world)|
  {
    if Finished(cfg, t.world) {
      t' := t;
      LeadsNowhere(cfg, lost, t);
    } else {
      var u := Onward(cfg, t, lost);
      WorkIsNatural(cfg, t.world, cfg.players);
      WorkIsNatural(cfg, u.world, cfg.players);
      t' := WayOut(cfg, u, lost);
      LeadsOn(cfg, lost, t, u, t');
    }
  }

  ghost predicate CanFinishWithout(cfg: Config, t: Trace, lost: set<Copy>) {
    exists t' :: LeadsWithout(cfg, lost, t, t') && Finished(cfg, t'.world)
  }

  /** Recovery, exactly: with some of the copies sent so far lost for good, the match can still be finished if and only if
      no guest lacks a frame the host is past and every copy of which to that guest is among the lost. */
  lemma RecoverableUnlessDoomed(cfg: Config, t: Trace, lost: set<Copy>)
    requires cfg.Valid() && Traced(cfg, t) && lost <= t.copies
    ensures CanFinishWithout(cfg, t, lost) <==> !SomeoneIsDoomed(cfg, t, lost)
  {
    TracedIsOk(cfg, t);
    if SomeoneIsDoomed(cfg, t, lost) {
      var i: nat, f: nat :| Doomed(cfg, t, lost, i, f);
      forall t' | LeadsWithout(cfg, lost, t, t')
        ensures !Finished(cfg, t'.world)
      {
        LostRelaysStallTheMatch(cfg, t, t', lost, i, f);
      }
    } else {
      var t' := WayOut(cfg, t, lost);
    }
  }

  /** Every frame the host is past went to every guest at least once, so there is no doom without a lost relay. */
  lemma DoomLosesARelay(cfg: Config, t: Trace, lost: set<Copy>)
    requires TraceOk(cfg, t) && forall c | c in lost :: !IsAgg(c.e)
    ensures !SomeoneIsDoomed(cfg, t, lost)
  {
    var host := t.world.nodes[0];
    assert ConsoleOk(cfg, t.world.samples, t.world.sent, 0, host.con);
    forall i: nat, f: nat
      ensures !Doomed(cfg, t, lost, i, f)
    {
      if 0 < i < cfg.players && HostIsPast(t.world, f) {
        assert Complete(cfg, InHand(t, f), f);
        assert RelayedAt(t, f, i, f);
      }
    }
  }

  /** A lost input or hello is never fatal: its sender cannot pass the frame before the host has it, and sends it again. */
  lemma LostInputsAreRecoverable(cfg: Config, t: Trace, lost: set<Copy>)
    requires cfg.Valid() && Traced(cfg, t) && lost <= t.copies && forall c | c in lost :: !IsAgg(c.e)
    ensures CanFinishWithout(cfg, t, lost)
  {
    TracedIsOk(cfg, t);
    DoomLosesARelay(cfg, t, lost);
    RecoverableUnlessDoomed(cfg, t, lost);
  }

  /** As long as nothing sent is ruled out from arriving late, the match can be finished from every reachable state. */
  lemma CanStillFinish(cfg: Config, w: World) returns (w': World)
    requires cfg.Valid() && Reachable(cfg, w)
    ensures Leads(cfg, w, w') && Reachable(cfg, w') && Finished(cfg, w')
  {
    var t := ReachableIsTraced(cfg, w);
    LostInputsAreRecoverable(cfg, t, {});
    var t' :| LeadsWithout(cfg, {}, t, t') && Finished(cfg, t'.world);
    w' := t'.world;
    var ts :| PathWithout(cfg, {}, ts) && ts[0] == t && ts[|ts| - 1] == t';
    PathForgets(cfg, {}, ts);
    ReachableOnwards(cfg, w, w');
  }

  // ---- both happen ----

  lemma StartIsFine(cfg: Config)
    requires cfg.Valid()
    ensures Fine(cfg, Start(cfg), {}) && TraceOk(cfg, Start(cfg)) && Lazy(Start(cfg))
  {
    StartIsOk(cfg);
    LeadsNowhere(cfg, {}, Start(cfg));
  }

  /** The redundancy of the relay can be gone altogether: there are matches, played to the end, in which every frame went to
      every guest from one host frame only, the frame itself. */
  lemma RelayedOnce(cfg: Config) returns (t: Trace)
    requires cfg.Valid()
    ensures Traced(cfg, t) && Finished(cfg, t.world)
    ensures forall i: nat, f: nat | 0 < i < cfg.players && f < cfg.maxFrames :: RelayingFrames(t, i, f) == {f}
  {
    StartIsFine(cfg);
    t := WayOut(cfg, Start(cfg), {});
    forall i: nat, f: nat | 0 < i < cfg.players && f < cfg.maxFrames
      ensures RelayingFrames(t, i, f) == {f}
    {
      ExactRelays(cfg, t, i, f);
      var g0 := FirstComplete(cfg, t, WindowStart(cfg, f), f);
      assert Slot(1, f) in InHand(t, g0);
      assert g0 < |t.left|;
      assert g0 == f;
    }
  }

  /** A lazy host is past a frame before any guest has it. */
  lemma LazyHostIsPast(cfg: Config, t: Trace, i: nat, f: nat)
    requires TraceOk(cfg, t) && Lazy(t) && 0 < i < cfg.players && f in t.world.nodes[i].con.ready
    ensures HostIsPast(t.world, f)
  {
    var host := t.world.nodes[0];
    ReadyIsComplete(cfg, t, i, f);
    var g: nat :| g < PumpedUpTo(host) && g <= f && Complete(cfg, InHand(t, g), f);
    assert Slot(1, f) in InHand(t, g);
    assert ConsoleOk(cfg, t.world.samples, t.world.sent, 0, host.con);
    assert host.con.HostComplete(f);
  }

  lemma {:induction false} RunPast(cfg: Config, t: Trace, f: nat) returns (t': Trace)
    requires Fine(cfg, t, {}) && TraceOk(cfg, t) && Lazy(t) && f < cfg.maxFrames && !HostIsPast(t.world, f)
    ensures Traced(cfg, t') && TraceOk(cfg, t') && HostIsPast(t'.world, f)
    ensures forall i | 0 < i < cfg.players :: f !in t'.world.nodes[i].con.ready
    decreases Work(cfg, t.world, cfg.players), |Unheard(t.world)|
  {
    forall i: nat | 0 < i < cfg.players
      ensures f !in t.world.nodes[i].con.ready
    {
      if f in t.world.nodes[i].con.ready {
        LazyHostIsPast(cfg, t, i, f);
      }
    }
    t' := Onward(cfg, t, {});
    WorkIsNatural(cfg, t.world, cfg.players);
    WorkIsNatural(cfg, t'.world, cfg.players);
    if !HostIsPast(t'.world, f) {
      t' := RunPast(cfg, t', f);
    }
  }

  /** Doom is possible for every guest and every frame. */
  lemma AnyoneCanBeDoomed(cfg: Config, i: nat, f: nat) returns (t: Trace, lost: set<Copy>)
    requires cfg.Valid() && 0 < i < cfg.players && f < cfg.maxFrames
    ensures Traced(cfg, t) && lost <= t.copies && Doomed(cfg, t, lost, i, f)
  {
    StartIsFine(cfg);
    t := RunPast(cfg, Start(cfg), f);
    lost := t.copies;
  }

  // ---- fair matches exist ----

  function Forever(ws: seq<World>): Run
    requires ws != []
  {
    (t: nat) => if t < |ws| then ws[t] else ws[|ws| - 1]
  }

  lemma {:induction false} ActsBeforeTheEnd(cfg: Config, ws: seq<World>, t: nat, i: nat)
    requires Path(cfg, ws) && i < cfg.players && Playing(cfg, Forever(ws)(t), i)
    requires Finished(cfg, ws[|ws| - 1]) && |ws[|ws| - 1].nodes| == cfg.players
    ensures ActsLater(cfg, Forever(ws), t, i)
    decreases |ws| - t
  {
    var run := Forever(ws);
    assert t < |ws| - 1 && run(t) == ws[t] && run(t + 1) == ws[t + 1];
    assert Step(cfg, ws[t], ws[t + 1]);
    if Acts(cfg, run(t), run(t + 1), i) {
      ActsNow(cfg, run, t, i);
    } else {
      StaysAtFrame(cfg, ws[t], ws[t + 1], i);
      ActsBeforeTheEnd(cfg, ws, t + 1, i);
      ActsEarlier(cfg, run, t, i);
    }
  }

  lemma ActsNow(cfg: Config, run: Run, t: nat, i: nat)
    requires Acts(cfg, run(t), run(t + 1), i)
    ensures ActsLater(cfg, run, t, i)
  {
  }

  lemma ActsEarlier(cfg: Config, run: Run, t: nat, i: nat)
    requires ActsLater(cfg, run, t + 1, i)
    ensures ActsLater(cfg, run, t, i)
  {
  }

  lemma StaysAtFrame(cfg: Config, w: World, w': World, i: nat)
    requires Step(cfg, w, w') && !Acts(cfg, w, w', i) && i < |w.nodes|
    ensures |w'.nodes| == |w.nodes| && w'.nodes[i].frame == w.nodes[i].frame
  {
    var a :| Enabled(cfg, w, a) && w' == Apply(w, a);
  }

  ghost predicate FinishingPath(cfg: Config, ws: seq<World>) {
    && cfg.Valid() && Path(cfg, ws) && ws[0] == Initial(cfg)
    && |ws[|ws| - 1].nodes| == cfg.players && Finished(cfg, ws[|ws| - 1])
  }

  lemma ForeverIsRun(cfg: Config, ws: seq<World>)
    requires FinishingPath(cfg, ws)
    ensures IsRun(cfg, Forever(ws))
  {
    forall k: nat
      ensures StepOrStay(cfg, Forever(ws), k)
    {
      assert k < |ws| - 1 ==> Step(cfg, ws[k], ws[k + 1]);
    }
  }

  lemma ForeverIsFairToConsoles(cfg: Config, ws: seq<World>)
    requires FinishingPath(cfg, ws)
    ensures FairConsoles(cfg, Forever(ws))
  {
    forall k: nat, i: nat | i < cfg.players && Playing(cfg, Forever(ws)(k), i)
      ensures ActsLater(cfg, Forever(ws), k, i)
    {
      ActsBeforeTheEnd(cfg, ws, k, i);
    }
  }

  lemma ForeverIsFairToPackets(cfg: Config, ws: seq<World>)
    requires FinishingPath(cfg, ws) && IsRun(cfg, Forever(ws))
    ensures FairNetwork(cfg, Forever(ws))
  {
    var run := Forever(ws);
    forall k: nat, e | e in run(k).sent
      ensures ArrivesLater(cfg, run, k, e)
    {
      RunIsOk(cfg, run, k);
      assert PacketOk(cfg, run(k).samples, run(k).sent, e);
      assert run(k + |ws|) == ws[|ws| - 1];
      DoneByThen(cfg, run, k, k + |ws|, e);
    }
  }

  lemma DoneByThen(cfg: Config, run: Run, t: nat, u: nat, e: Envelope)
    requires t <= u && Finished(cfg, run(u)) && e.dst < |run(u).nodes|
    ensures ArrivesLater(cfg, run, t, e)
  {
    assert Done(cfg, run(u), e.dst);
  }

  /** Every state of every run belongs to a fair match: the promise of MatchFinishes is not an empty one. */
  lemma FairMatchExists(cfg: Config, w: World) returns (run: Run, t: nat)
    requires cfg.Valid() && Reachable(cfg, w)
    ensures FairRun(cfg, run) && run(t) == w
  {
    var end := CanStillFinish(cfg, w);
    var us :| Path(cfg, us) && us[0] == Initial(cfg) && us[|us| - 1] == w;
    var vs :| Path(cfg, vs) && vs[0] == w && vs[|vs| - 1] == end;
    PathsJoin(cfg, us, vs);
    var ws := us + vs[1..];
    run, t := Forever(ws), |us| - 1;
    ForeverIsRun(cfg, ws);
    ForeverIsFairToConsoles(cfg, ws);
    ForeverIsFairToPackets(cfg, ws);
  }
}
