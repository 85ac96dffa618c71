/** How far a sender gets whose copies of one frame are all lost: the bound of the stall is attained for every delay,
    frame and length of a match. */
module PairStall {
  import opened Frames
  import opened PairConsole
  import opened PairRun
  import opened PairSafety

  /** Console i has a copy of its input for frame f on the network. */
  ghost predicate Offers(w: World, i: nat, f: nat) {
    exists c :: c in w.sent && c.src == i && c.body.Packet? && c.body.frame == f
  }

  /** Console i is about to record frame f. */
  ghost predicate Fresh(w: World, i: nat, f: nat) {
    i < |w.nodes| == |w.samples| && w.nodes[i].frame == f && !w.nodes[i].pumped && |w.samples[i]| == f
  }

  /** Console i has recorded and pumped frame f and has no frame from f on. */
  ghost predicate Stuck(w: World, i: nat, f: nat) {
    && i < |w.nodes| == |w.samples| && w.nodes[i].frame == f && w.nodes[i].pumped && |w.samples[i]| == f + 1
    && LacksFrom(w.nodes[i].con, f)
  }

  ghost predicate LacksFrom(c: Console, f: nat) {
    c.Valid() && forall g: nat | f <= g :: !c.Have(g)
  }

  /** Where a run is that began at u and has done without `lost`. */
  ghost predicate Here(delay: nat, maxFrames: nat, lost: set<Copy>, u: World, w: World) {
    Reachable(delay, maxFrames, w) && LeadsWithout(maxFrames, lost, u, w)
  }

  lemma Do(delay: nat, maxFrames: nat, lost: set<Copy>, u: World, w: World, a: Action)
    requires Here(delay, maxFrames, lost, u, w) && Enabled(maxFrames, w, a) && forall c | c in Taken(a) :: c !in lost
    ensures Here(delay, maxFrames, lost, u, Apply(w, a))
  {
    RunGoesOn(delay, maxFrames, w, a);
    LeadsGoOn(maxFrames, lost, u, w, a);
  }

  lemma BodiesOfOne(c: Console, d: Copy, f: nat)
    requires c.Valid() && 0 <= f < c.Cap() && d.body.Packet?
    ensures c.Drain(Bodies([d])).Have(f) <==> c.Have(f) || d.body.frame == f
  {
    assert Bodies([d]) == [d.body];
    DrainHas(c, [d.body], f);
    assert d.body in [d.body];
  }

  lemma LacksAfterRecord(c: Console, f: nat, frame: int, state: Word)
    requires LacksFrom(c, f)
    ensures LacksFrom(c.Record(frame, state), f) && LacksFrom(c.Record(frame, state).Drain(Bodies([])), f)
  {
    var c' := c.Record(frame, state);
    assert Bodies([]) == [] && c'.Drain([]) == c';
    forall g: nat | f <= g
      ensures !c'.Have(g)
    {
      assert !c.Have(g);
    }
  }

  lemma LacksAfterTake(c: Console, d: Copy, f: nat)
    requires LacksFrom(c, f) && d.body.Packet? && d.body.frame == f
    ensures LacksFrom(c.Drain(Bodies([d])), f + 1)
  {
    forall g: nat | f + 1 <= g
      ensures !c.Drain(Bodies([d])).Have(g)
    {
      assert !c.Have(g);
      if g < c.Cap() {
        BodiesOfOne(c, d, g);
      }
    }
  }

  /** A pump offers the frames of its window. */
  lemma PumpOffers(delay: nat, maxFrames: nat, w: World, i: nat, got: seq<Copy>)
    requires Reachable(delay, maxFrames, w) && i < 2 && Enabled(maxFrames, w, Pump(i, got))
    ensures forall f: nat | w.nodes[i].frame <= f <= w.nodes[i].frame + delay :: Offers(Apply(w, Pump(i, got)), i, f)
  {
    ReachableIsOk(delay, maxFrames, w);
    PumpSends(delay, maxFrames, w, Pump(i, got));
    forall f: nat | w.nodes[i].frame <= f <= w.nodes[i].frame + delay
      ensures Offers(Apply(w, Pump(i, got)), i, f)
    {
      assert Copy(i, w.nodes[i].frame, Packet(f, Applied(delay, w.samples[i], f))) in Apply(w, Pump(i, got)).sent;
    }
  }

  /** Console i records its frame and pumps, and hears nothing. */
  lemma Offer(delay: nat, maxFrames: nat, lost: set<Copy>, u: World, w: World, i: nat, f: nat) returns (w': World)
    requires Here(delay, maxFrames, lost, u, w) && i < 2 && Fresh(w, i, f) && f < maxFrames && LacksFrom(w.nodes[i].con, f)
    ensures Here(delay, maxFrames, lost, u, w') && Stuck(w', i, f)
    ensures w'.nodes[1 - i] == w.nodes[1 - i] && w'.samples[1 - i] == w.samples[1 - i]
    ensures forall g: nat | f <= g <= f + delay :: Offers(w', i, g)
  {
    Do(delay, maxFrames, lost, u, w, Record(i, 0));
    var v := Apply(w, Record(i, 0));
    Do(delay, maxFrames, lost, u, v, Pump(i, []));
    PumpOffers(delay, maxFrames, v, i, []);
    w' := Apply(v, Pump(i, []));
    LacksAfterRecord(w.nodes[i].con, f, f, 0);
  }

  /** Console i, at frame f with it recorded, takes the other's copy of it and goes on. */
  lemma TakeAndAdvance(delay: nat, maxFrames: nat, lost: set<Copy>, u: World, w: World, i: nat, f: nat) returns (w': World)
    requires Here(delay, maxFrames, lost, u, w) && i < 2 && (forall c | c in lost :: c.src == i) && Offers(w, 1 - i, f)
    requires w.nodes[i].frame == f < maxFrames && Recorded(w, i) && |w.samples[i]| == f + 1 && !CanAdvance(w.nodes[i])
    ensures Here(delay, maxFrames, lost, u, w') && Fresh(w', i, f + 1)
    ensures w'.nodes[1 - i] == w.nodes[1 - i] && w'.samples == w.samples
    ensures w.sent <= w'.sent && Offers(w', i, f)
    ensures LacksFrom(w.nodes[i].con, f) ==> LacksFrom(w'.nodes[i].con, f + 1)
  {
    var c :| c in w.sent && c.src == 1 - i && c.body.Packet? && c.body.frame == f;
    var take := Pump(i, [c]);
    Do(delay, maxFrames, lost, u, w, take);
    PumpOffers(delay, maxFrames, w, i, [c]);
    TakenIsHad(delay, maxFrames, w, i, c);
    Do(delay, maxFrames, lost, u, Apply(w, take), Advance(i));
    w' := AfterTake(maxFrames, w, i, c);
    assert Offers(Apply(w, take), i, f);
    if LacksFrom(w.nodes[i].con, f) {
      LacksAfterTake(w.nodes[i].con, c, f);
    }
  }

  lemma AfterTake(maxFrames: nat, w: World, i: nat, c: Copy) returns (w': World)
    requires i < 2 && Enabled(maxFrames, w, Pump(i, [c])) && Enabled(maxFrames, Apply(w, Pump(i, [c])), Advance(i))
    ensures w' == Apply(Apply(w, Pump(i, [c])), Advance(i))
    ensures w'.nodes[i] == Node(w.nodes[i].con.Drain(Bodies([c])), w.nodes[i].frame + 1, false)
    ensures |w'.nodes| == 2 && w'.nodes[1 - i] == w.nodes[1 - i] && w'.samples == w.samples
    ensures w'.sent == Apply(w, Pump(i, [c])).sent && w.sent <= w'.sent
  {
    w' := Apply(Apply(w, Pump(i, [c])), Advance(i));
  }

  lemma TakenIsHad(delay: nat, maxFrames: nat, w: World, i: nat, c: Copy)
    requires Reachable(delay, maxFrames, w) && i < 2 && w.nodes[i].frame < maxFrames && Enabled(maxFrames, w, Pump(i, [c]))
    requires c.body.Packet? && c.body.frame == w.nodes[i].frame
    ensures Enabled(maxFrames, Apply(w, Pump(i, [c])), Advance(i))
  {
    ReachableIsOk(delay, maxFrames, w);
    assert NodeOk(delay, maxFrames, w.samples, w.sent, i, w.nodes[i]);
    BodiesOfOne(w.nodes[i].con, c, w.nodes[i].frame);
  }

  /** Console i records its frame, takes the other's copy of it and goes on. */
  lemma Solo(delay: nat, maxFrames: nat, lost: set<Copy>, u: World, w: World, i: nat, f: nat) returns (w': World)
    requires Here(delay, maxFrames, lost, u, w) && i < 2 && (forall c | c in lost :: c.src == i) && Offers(w, 1 - i, f)
    requires Fresh(w, i, f) && f < maxFrames
    ensures Here(delay, maxFrames, lost, u, w') && Fresh(w', i, f + 1)
    ensures w'.nodes[1 - i] == w.nodes[1 - i] && w'.samples[1 - i] == w.samples[1 - i]
    ensures w.sent <= w'.sent && Offers(w', i, f)
  {
    Do(delay, maxFrames, lost, u, w, Record(i, 0));
    w' := TakeAndAdvance(delay, maxFrames, lost, u, Apply(w, Record(i, 0)), i, f);
  }

  /** Both consoles through frames 0..f-1, and console r has nothing from frame f on. */
  lemma {:induction false} BothAt(delay: nat, maxFrames: nat, r: nat, f: nat) returns (w: World)
    requires r < 2 && f <= maxFrames
    ensures Reachable(delay, maxFrames, w) && Fresh(w, 0, f) && Fresh(w, 1, f) && LacksFrom(w.nodes[r].con, f)
    decreases f
  {
    var start := Initial(delay, maxFrames);
    if f == 0 {
      InitialIsReachable(delay, maxFrames);
      w := start;
    } else {
      w := BothAt(delay, maxFrames, r, f - 1);
      w := Offer(delay, maxFrames, {}, start, w, r, f - 1);
      w := Solo(delay, maxFrames, {}, start, w, 1 - r, f - 1);
      w := TakeAndAdvance(delay, maxFrames, {}, start, w, r, f - 1);
    }
  }

  /** The sender leaves frame f while the receiver waits there with its window sent. */
  lemma SenderLeaves(delay: nat, maxFrames: nat, r: nat, f: nat) returns (w: World)
    requires r < 2 && f < maxFrames
    ensures Reachable(delay, maxFrames, w) && Fresh(w, 1 - r, f + 1) && Stuck(w, r, f)
    ensures forall g: nat | f <= g <= f + delay :: Offers(w, r, g)
  {
    var start := Initial(delay, maxFrames);
    var v := BothAt(delay, maxFrames, r, f);
    v := Offer(delay, maxFrames, {}, start, v, r, f);
    w := Solo(delay, maxFrames, {}, start, v, 1 - r, f);
    forall g: nat | f <= g <= f + delay
      ensures Offers(w, r, g)
    {
      assert Offers(v, r, g);
    }
  }

  /** And goes on alone, without its own copies, on what the receiver sent before. */
  lemma {:induction false} GoesOnAlone(delay: nat, maxFrames: nat, lost: set<Copy>, w: World, r: nat, f: nat, m: nat)
      returns (w': World)
    requires Reachable(delay, maxFrames, w) && r < 2 && Fresh(w, 1 - r, f + 1) && (forall c | c in lost :: c.src == 1 - r)
    requires forall g: nat | f <= g <= f + delay :: Offers(w, r, g)
    requires f < m <= f + delay + 1 && m <= maxFrames
    ensures Here(delay, maxFrames, lost, w, w') && Fresh(w', 1 - r, m) && w.sent <= w'.sent
    decreases m
  {
    if m == f + 1 {
      LeadsNowhere(maxFrames, lost, w);
      w' := w;
    } else {
      var v := GoesOnAlone(delay, maxFrames, lost, w, r, f, m - 1);
      assert Offers(w, r, m - 1);
      assert Offers(v, r, m - 1);
      w' := Solo(delay, maxFrames, lost, w, v, 1 - r, m - 1);
    }
  }

  /** A reachable world whose receiver r lacks frame f, all copies of it lost, and from which without them the sender gets to
      frame m. */
  ghost predicate GetsTo(delay: nat, maxFrames: nat, r: nat, f: nat, m: nat, w: World, lost: set<Copy>, w': World)
    requires r < 2
  {
    && Reachable(delay, maxFrames, w) && lost <= w.sent && Cut(w, lost, r, f)
    && LeadsWithout(maxFrames, lost, w, w') && Shaped(w') && w'.nodes[1 - r].frame == m
  }

  /** The stall, exactly: a sender past frame f whose copies of it are all lost can get to frame m if and only if m is one of
      f + 1 .. f + delay + 1 within the match. */
  lemma StallBoundIsExact(delay: nat, maxFrames: nat, r: nat, f: nat, m: nat)
    requires r < 2
    ensures (exists w, lost, w' :: GetsTo(delay, maxFrames, r, f, m, w, lost, w')) <==>
            f < m <= f + delay + 1 && m <= maxFrames
  {
    if f < m <= f + delay + 1 && m <= maxFrames {
      var w, lost, w' := StallTo(delay, maxFrames, r, f, m);
    }
    forall w, lost, w' | GetsTo(delay, maxFrames, r, f, m, w, lost, w')
      ensures f < m <= f + delay + 1 && m <= maxFrames
    {
      SenderIsWithin(delay, maxFrames, r, f, m, w, lost, w');
    }
  }

  lemma StallTo(delay: nat, maxFrames: nat, r: nat, f: nat, m: nat) returns (w: World, lost: set<Copy>, w': World)
    requires r < 2 && f < m <= f + delay + 1 && m <= maxFrames
    ensures GetsTo(delay, maxFrames, r, f, m, w, lost, w')
  {
    w := SenderLeaves(delay, maxFrames, r, f);
    lost := set c | c in w.sent && c.src == 1 - r && c.body.Packet? && c.body.frame == f;
    w' := GoesOnAlone(delay, maxFrames, lost, w, r, f, m);
  }

  lemma SenderIsWithin(delay: nat, maxFrames: nat, r: nat, f: nat, m: nat, w: World, lost: set<Copy>, w': World)
    requires r < 2 && GetsTo(delay, maxFrames, r, f, m, w, lost, w')
    ensures f < m <= f + delay + 1 && m <= maxFrames
  {
    LostCopiesStallTheMatch(delay, maxFrames, w, w', r, f, lost);
    ReachableIsOk(delay, maxFrames, w);
    var ws :| PathWithout(maxFrames, lost, ws) && ws[0] == w && ws[|ws| - 1] == w';
    CutStaysAlong(delay, maxFrames, lost, ws, r, f);
    assert NodeOk(delay, maxFrames, w'.samples, w'.sent, 1 - r, w'.nodes[1 - r]);
  }

  /** Frames of the warm-up really get fewer chances: for each there is a match in which it was passed after f + 1 of them. */
  lemma WarmUpGetsFewerChances(delay: nat, maxFrames: nat, i: nat, f: nat) returns (w: World)
    requires i < 2 && f < delay && f < maxFrames
    ensures Reachable(delay, maxFrames, w) && f < w.nodes[i].frame && |SendingFrames(w, i, f)| == f + 1 < delay + 1
  {
    w := BothAt(delay, maxFrames, i, f + 1);
    ExactRedundancy(delay, maxFrames, w, i, f);
  }
}
