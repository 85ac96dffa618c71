/** What every run of the two-player protocol keeps, and that it delivers what the relay delivers with two players. */
module PairSafety {
  import opened Common
  import opened Frames
  import opened PairConsole
  import opened PairRun
  import R = RelayRun
  import RelaySafety

  /** No desync: for every frame a console has passed, or is about to leave, it hands its simulation
      the prescribed host and guest inputs in that order. */
  lemma NoDesync(delay: nat, maxFrames: nat, w: World, i: nat, f: nat)
    requires Reachable(delay, maxFrames, w) && i < 2
    requires f < w.nodes[i].frame || (f == w.nodes[i].frame && CanAdvance(w.nodes[i]))
    ensures AllScheduled(delay, w.samples, f)
    ensures w.nodes[i].con.Inputs(f) == (Applied(delay, w.samples[0], f), Applied(delay, w.samples[1], f))
  {
    ReachableIsOk(delay, maxFrames, w);
    assert NodeOk(delay, maxFrames, w.samples, w.sent, i, w.nodes[i]);
    assert w.nodes[i].con.Have(f);
    assert Scheduled(delay, w.samples[i], f) && Scheduled(delay, w.samples[1 - i], f);
  }

  /** A console's own log entry is the input it contributed, and for a passed frame its share of the pair both sides apply. */
  lemma LocalIsApplied(delay: nat, maxFrames: nat, w: World, i: nat, f: nat)
    requires Reachable(delay, maxFrames, w) && i < 2 && Scheduled(delay, w.samples[i], f)
    ensures w.nodes[i].con.Local(f) == Applied(delay, w.samples[i], f)
    ensures forall j | 0 <= j < 2 && f < w.nodes[j].frame ::
              w.nodes[i].con.Local(f) == if i == 0 then w.nodes[j].con.Inputs(f).0 else w.nodes[j].con.Inputs(f).1
  {
    ReachableIsOk(delay, maxFrames, w);
    assert NodeOk(delay, maxFrames, w.samples, w.sent, i, w.nodes[i]);
    assert f < w.nodes[i].con.Cap();
    forall j | 0 <= j < 2 && f < w.nodes[j].frame
      ensures w.nodes[i].con.Local(f) == if i == 0 then w.nodes[j].con.Inputs(f).0 else w.nodes[j].con.Inputs(f).1
    {
      NoDesync(delay, maxFrames, w, j, f);
    }
  }

  /** Neither console can run more than delay + 1 frames ahead. */
  lemma BoundedSkew(delay: nat, maxFrames: nat, w: World, i: nat)
    requires Reachable(delay, maxFrames, w) && i < 2
    ensures w.nodes[i].frame <= w.nodes[1 - i].frame + delay + 1
  {
    ReachableIsOk(delay, maxFrames, w);
    assert NodeOk(delay, maxFrames, w.samples, w.sent, 1 - i, w.nodes[1 - i]);
    if w.nodes[i].frame > 0 {
      NoDesync(delay, maxFrames, w, i, w.nodes[i].frame - 1);
      assert Scheduled(delay, w.samples[1 - i], w.nodes[i].frame - 1);
    }
  }

  /** The frames whose pumps put a copy of i's input for frame f on the network. */
  ghost function SendingFrames(w: World, i: nat, f: nat): set<int> {
    set c | c in w.sent && c.src == i && c.body.Packet? && c.body.frame == f :: c.at
  }

  /** The redundancy there really is: a console past frame f has sent its input for f from exactly the pumps of
      frames f - delay .. f, and never again, so a frame of the warm-up gets fewer than delay + 1 chances. */
  lemma ExactRedundancy(delay: nat, maxFrames: nat, w: World, i: nat, f: nat)
    requires Reachable(delay, maxFrames, w) && i < 2 && f < w.nodes[i].frame
    ensures SendingFrames(w, i, f) == Range(if f < delay then 0 else f - delay, f + 1)
    ensures |SendingFrames(w, i, f)| == if f < delay then f + 1 else delay + 1
  {
    ReachableIsOk(delay, maxFrames, w);
    var lo := if f < delay then 0 else f - delay;
    assert NodeOk(delay, maxFrames, w.samples, w.sent, i, w.nodes[i]);
    forall at: int | at in Range(lo, f + 1)
      ensures at in SendingFrames(w, i, f)
    {
      assert CopySent(delay, w.samples, w.sent, i, at, f);
      var c := Copy(i, at, Packet(f, Applied(delay, w.samples[i], f)));
      assert c in w.sent && c.at == at;
    }
    assert SendingFrames(w, i, f) == Range(lo, f + 1);
  }

  /** Sender 1 - r is past frame f, receiver r does not have it, and none of the copies that were ever sent gets through. */
  ghost predicate Cut(w: World, lost: set<Copy>, r: nat, f: nat)
    requires Shaped(w) && r < 2
  {
    f < w.nodes[1 - r].frame && !w.nodes[r].con.Have(f)
    && forall c | c in w.sent && c.src == 1 - r && c.body.Packet? && c.body.frame == f :: c in lost
  }

  /** No step hands frame f to the receiver. */
  lemma CutReceiverStaysWithout(delay: nat, maxFrames: nat, lost: set<Copy>, w: World, a: Action, r: nat, f: nat)
    requires Inv(delay, maxFrames, w) && r < 2 && Cut(w, lost, r, f)
    requires Enabled(maxFrames, w, a) && forall c | c in Taken(a) :: c !in lost
    ensures !Apply(w, a).nodes[r].con.Have(f)
  {
    if a.i == r && (a.Greet? || a.Pump?) {
      forall e | e in a.got
        ensures e.body == Junk || e.body.frame != f
      {
        assert e in Taken(a);
      }
      DrainNeedsACopy(w.nodes[r].con, a.got, f);
    }
  }

  /** No step makes a new copy of frame f. */
  lemma CutSenderIsPast(delay: nat, maxFrames: nat, lost: set<Copy>, w: World, a: Action, r: nat, f: nat)
    requires Inv(delay, maxFrames, w) && r < 2 && Cut(w, lost, r, f) && Enabled(maxFrames, w, a)
    ensures forall c | c in Apply(w, a).sent && c.src == 1 - r && c.body.Packet? && c.body.frame == f :: c in w.sent
    ensures f < Apply(w, a).nodes[1 - r].frame
  {
    if a.Pump? {
      PumpSends(delay, maxFrames, w, a);
      assert Apply(w, a).sent == w.sent + Sends(w, a);
    }
  }

  lemma CutStays(delay: nat, maxFrames: nat, lost: set<Copy>, w: World, w': World, r: nat, f: nat)
    requires Inv(delay, maxFrames, w) && r < 2 && Cut(w, lost, r, f)
    requires StepWithout(maxFrames, lost, w, w')
    ensures Inv(delay, maxFrames, w') && Cut(w', lost, r, f)
  {
    StepKeeps(delay, maxFrames, lost, w, w');
    var a :| Enabled(maxFrames, w, a) && w' == Apply(w, a) && forall c | c in Taken(a) :: c !in lost;
    CutReceiverStaysWithout(delay, maxFrames, lost, w, a, r, f);
    CutSenderIsPast(delay, maxFrames, lost, w, a, r, f);
  }

  lemma PathTail(maxFrames: nat, lost: set<Copy>, ws: seq<World>)
    requires PathWithout(maxFrames, lost, ws) && |ws| > 1
    ensures PathWithout(maxFrames, lost, ws[1..]) && StepWithout(maxFrames, lost, ws[0], ws[1])
    ensures ws[1..][0] == ws[1] && ws[1..][|ws| - 2] == ws[|ws| - 1]
  {
    assert StepWithout(maxFrames, lost, ws[0], ws[0 + 1]);
    forall k | 0 <= k < |ws| - 2
      ensures StepWithout(maxFrames, lost, ws[1..][k], ws[1..][k + 1])
    {
      assert StepWithout(maxFrames, lost, ws[k + 1], ws[k + 1 + 1]);
    }
  }

  lemma {:induction false} CutStaysAlong(delay: nat, maxFrames: nat, lost: set<Copy>, ws: seq<World>, r: nat, f: nat)
    requires PathWithout(maxFrames, lost, ws) && Inv(delay, maxFrames, ws[0]) && r < 2 && Cut(ws[0], lost, r, f)
    ensures Inv(delay, maxFrames, ws[|ws| - 1]) && Cut(ws[|ws| - 1], lost, r, f)
    decreases |ws|
  {
    if |ws| > 1 {
      PathTail(maxFrames, lost, ws);
      CutStays(delay, maxFrames, lost, ws[0], ws[1], r, f);
      CutStaysAlong(delay, maxFrames, lost, ws[1..], r, f);
    }
  }

  /** The stall: once the sender is past f and every copy it made of f is lost, then in all continuations, for ever,
      the receiver stays at or below f and the sender at or below f + delay + 1. */
  lemma LostCopiesStallTheMatch(delay: nat, maxFrames: nat, w: World, w': World, r: nat, f: nat, lost: set<Copy>)
    requires Reachable(delay, maxFrames, w) && r < 2 && Cut(w, lost, r, f)
    requires LeadsWithout(maxFrames, lost, w, w')
    ensures Shaped(w') && !w'.nodes[r].con.Have(f)
    ensures w'.nodes[r].frame <= f
    ensures w'.nodes[1 - r].frame <= f + delay + 1
  {
    ReachableIsOk(delay, maxFrames, w);
    var ws :| PathWithout(maxFrames, lost, ws) && ws[0] == w && ws[|ws| - 1] == w';
    CutStaysAlong(delay, maxFrames, lost, ws, r, f);
    assert NodeOk(delay, maxFrames, w'.samples, w'.sent, r, w'.nodes[r]);
    assert NodeOk(delay, maxFrames, w'.samples, w'.sent, 1 - r, w'.nodes[1 - r]);
    if w'.nodes[1 - r].frame > 0 {
      assert w'.nodes[1 - r].con.Have(w'.nodes[1 - r].frame - 1);
    }
  }

  /** At least one copy of the same datagram got through. */
  ghost predicate Arrived(w: World, c: Copy) {
    exists d :: d in w.delivered && d.src == c.src && d.body == c.body
  }

  /** No deadlock: when both consoles still playing have pumped and at least one copy of every datagram
      got through to them, the one at the lowest frame can go on. */
  lemma NoDeadlock(delay: nat, maxFrames: nat, w: World, i: nat)
    requires Reachable(delay, maxFrames, w) && i < 2
    requires w.nodes[i].frame < maxFrames && w.nodes[i].frame <= w.nodes[1 - i].frame
    requires forall j | 0 <= j < 2 && w.nodes[j].frame < maxFrames :: w.nodes[j].pumped
    requires forall c {:trigger Arrived(w, c)} | c in w.sent && c.src == 1 - i && c.body.Packet? && c.body.frame == w.nodes[i].frame ::
               Arrived(w, c)
    ensures Enabled(maxFrames, w, Advance(i))
  {
    ReachableIsOk(delay, maxFrames, w);
    var f, j := w.nodes[i].frame, 1 - i;
    assert NodeOk(delay, maxFrames, w.samples, w.sent, i, w.nodes[i]);
    assert NodeOk(delay, maxFrames, w.samples, w.sent, j, w.nodes[j]);
    assert CopySent(delay, w.samples, w.sent, j, f, f);
    var c := Copy(j, f, Packet(f, Applied(delay, w.samples[j], f)));
    assert Arrived(w, c);
    var d :| d in w.delivered && d.src == c.src && d.body == c.body;
    ArrivedIsHad(delay, maxFrames, w, i, f, d);
  }

  lemma ArrivedIsHad(delay: nat, maxFrames: nat, w: World, i: nat, f: nat, d: Copy)
    requires Inv(delay, maxFrames, w) && i < 2 && d in w.delivered && d.src == 1 - i
    requires d.body.Packet? && d.body.frame == f
    ensures w.nodes[i].con.Have(f)
  {
  }

  /** Two samplings that tell the same story as far as both go. */
  ghost predicate Consistent(s: seq<Word>, t: seq<Word>) {
    s <= t || t <= s
  }

  /** Equivalence: fed the same samples, the two-player protocol and the relay with two players hand
      every simulation the same inputs, whatever each network did. */
  lemma RelayWithTwoPlayersAgrees(delay: nat, maxFrames: nat, w: World, i: nat, relay: R.World, j: nat, f: nat)
    requires Reachable(delay, maxFrames, w) && i < 2 && f < w.nodes[i].frame
    requires 0 < maxFrames && R.Reachable(Config(2, delay, maxFrames), relay) && j < 2 && relay.nodes[j].con.Have(f)
    requires Consistent(w.samples[0], relay.samples[0]) && Consistent(w.samples[1], relay.samples[1])
    ensures relay.nodes[j].con.Inputs(f, 2) == [w.nodes[i].con.Inputs(f).0, w.nodes[i].con.Inputs(f).1]
  {
    PairReads(delay, maxFrames, w, i, f);
    RelayReads(delay, maxFrames, relay, j, f);
    PrescribedAlike(delay, w.samples, relay.samples, f);
  }

  ghost predicate BothScheduled(delay: nat, samples: seq<seq<Word>>, f: nat) {
    |samples| == 2 && Scheduled(delay, samples[0], f) && Scheduled(delay, samples[1], f)
  }

  /** The host's and the guest's prescribed input for one frame. */
  ghost function Prescribed(delay: nat, samples: seq<seq<Word>>, f: nat): seq<Word>
    requires BothScheduled(delay, samples, f)
  {
    [Applied(delay, samples[0], f), Applied(delay, samples[1], f)]
  }

  lemma PairReads(delay: nat, maxFrames: nat, w: World, i: nat, f: nat)
    requires Reachable(delay, maxFrames, w) && i < 2 && f < w.nodes[i].frame
    ensures BothScheduled(delay, w.samples, f)
    ensures [w.nodes[i].con.Inputs(f).0, w.nodes[i].con.Inputs(f).1] == Prescribed(delay, w.samples, f)
  {
    NoDesync(delay, maxFrames, w, i, f);
  }

  lemma PrescribedAlike(delay: nat, s: seq<seq<Word>>, t: seq<seq<Word>>, f: nat)
    requires BothScheduled(delay, s, f) && BothScheduled(delay, t, f) && Consistent(s[0], t[0]) && Consistent(s[1], t[1])
    ensures Prescribed(delay, s, f) == Prescribed(delay, t, f)
  {
    AppliedAlike(delay, s[0], t[0], f);
    AppliedAlike(delay, s[1], t[1], f);
  }

  lemma AppliedAlike(delay: nat, s: seq<Word>, t: seq<Word>, f: nat)
    requires Consistent(s, t) && Scheduled(delay, s, f) && Scheduled(delay, t, f)
    ensures Applied(delay, s, f) == Applied(delay, t, f)
  {
  }

  lemma RelayReads(delay: nat, maxFrames: nat, relay: R.World, j: nat, f: nat)
    requires 0 < maxFrames && R.Reachable(Config(2, delay, maxFrames), relay) && j < 2 && relay.nodes[j].con.Have(f)
    ensures BothScheduled(delay, relay.samples, f)
    ensures relay.nodes[j].con.Inputs(f, 2) == Prescribed(delay, relay.samples, f)
  {
    RelaySafety.NoDesync(Config(2, delay, maxFrames), relay, j, f, 2);
    assert AllScheduled(delay, relay.samples, f);
  }
}
