/** A whole match of the two-player protocol: both consoles, every copy of every datagram, every interleaving. */
module PairRun {
  import opened Frames
  import opened PairConsole

  /** A datagram as put on the network: `at` is the frame whose pump sent it (-1 in the handshake).
      Receivers see only the body. */
  datatype Copy = Copy(src: nat, at: int, body: Datagram)

  datatype Node = Node(con: Console, frame: nat, pumped: bool)

  /** `samples`, `sent` and `delivered` are histories. */
  datatype World = World(nodes: seq<Node>, samples: seq<seq<Word>>, sent: set<Copy>, delivered: set<Copy>)

  /** The documented loop is: record once, pump, pump again until the frame is there, read the inputs, next frame.
      Greet is a round of the handshake, before the loop. */
  datatype Action =
    | Greet(i: nat, got: seq<Copy>, dropped: seq<Copy>)
    | Record(i: nat, state: Word)
    | Pump(i: nat, got: seq<Copy>)
    | Advance(i: nat)

  function Bodies(got: seq<Copy>): seq<Datagram> {
    seq(|got|, k requires 0 <= k < |got| => got[k].body)
  }

  /** The network may lose, repeat and reorder, and lets strangers in, but only the two consoles speak the protocol. */
  ghost predicate Deliverable(w: World, i: nat, got: seq<Copy>) {
    forall c | c in got :: c.body == Junk || (c.src + i == 1 && c in w.sent)
  }

  function Initial(delay: nat, maxFrames: nat): World {
    World([Node(InitialConsole(0, delay, maxFrames), 0, false), Node(InitialConsole(1, delay, maxFrames), 0, false)],
          [[], []], {}, {})
  }

  ghost predicate Shaped(w: World) {
    |w.nodes| == |w.samples| == 2 && w.nodes[0].con.Valid() && w.nodes[1].con.Valid()
  }

  predicate Recorded(w: World, i: nat)
    requires i < |w.nodes| == |w.samples|
  {
    |w.samples[i]| > w.nodes[i].frame
  }

  predicate CanAdvance(node: Node)
    requires node.con.Valid()
  {
    node.pumped && node.con.Have(node.frame)
  }

  ghost predicate Enabled(maxFrames: nat, w: World, a: Action) {
    && Shaped(w)
    && a.i < 2
    && var node := w.nodes[a.i];
    match a
    case Greet(i, got, dropped) => node.frame == 0 && !Recorded(w, i) && Deliverable(w, i, got) && Deliverable(w, i, dropped)
    case Record(i, _) => node.frame < maxFrames && !Recorded(w, i)
    case Pump(i, got) => Recorded(w, i) && !CanAdvance(node) && Deliverable(w, i, got)
    case Advance(i) => Recorded(w, i) && CanAdvance(node)
  }

  function Sends(w: World, a: Action): set<Copy>
    requires a.i < |w.nodes|
  {
    var node := w.nodes[a.i];
    match a
    case Greet(i, _, _) => {Copy(i, -1, HELLO)}
    case Pump(i, _) => set d | d in node.con.SendWindow(node.frame + node.con.delay, node.con.delay + 1) :: Copy(i, node.frame, d)
    case _ => {}
  }

  /** What a round of the handshake drops counts as lost. */
  function Apply(w: World, a: Action): World
    requires a.i < |w.nodes| == |w.samples| && w.nodes[a.i].con.Valid()
  {
    var node := w.nodes[a.i];
    match a
    case Greet(i, got, _) =>
      w.(nodes := w.nodes[i := node.(con := node.con.Drain(Bodies(got)))],
         sent := w.sent + Sends(w, a), delivered := w.delivered + set c | c in got && c in w.sent)
    case Record(i, state) =>
      w.(nodes := w.nodes[i := node.(con := node.con.Record(node.frame, state))],
         samples := w.samples[i := w.samples[i] + [state]])
    case Pump(i, got) =>
      w.(nodes := w.nodes[i := node.(con := node.con.Drain(Bodies(got)), pumped := true)],
         sent := w.sent + Sends(w, a), delivered := w.delivered + set c | c in got && c in w.sent)
    case Advance(i) =>
      w.(nodes := w.nodes[i := node.(frame := node.frame + 1, pumped := false)])
  }

  /** The datagrams a step hands to a console. */
  function Taken(a: Action): seq<Copy> {
    match a
    case Greet(_, got, _) => got
    case Pump(_, got) => got
    case _ => []
  }

  /** A step in which no member of `lost` gets through. */
  ghost predicate StepWithout(maxFrames: nat, lost: set<Copy>, w: World, w': World) {
    exists a :: Enabled(maxFrames, w, a) && w' == Apply(w, a) && forall c | c in Taken(a) :: c !in lost
  }

  ghost predicate PathWithout(maxFrames: nat, lost: set<Copy>, ws: seq<World>) {
    |ws| > 0 && forall k | 0 <= k < |ws| - 1 :: StepWithout(maxFrames, lost, ws[k], ws[k + 1])
  }

  ghost predicate LeadsWithout(maxFrames: nat, lost: set<Copy>, w: World, w': World) {
    exists ws :: PathWithout(maxFrames, lost, ws) && ws[0] == w && ws[|ws| - 1] == w'
  }

  /** The states of every run of the protocol, under any loss, duplication and reordering. */
  ghost predicate Reachable(delay: nat, maxFrames: nat, w: World): (r: bool)
    ensures r ==> |w.nodes| == |w.samples| == 2 && w.nodes[0].con.Valid() && w.nodes[1].con.Valid()
  {
    if LeadsWithout(maxFrames, {}, Initial(delay, maxFrames), w) then RunsKeepTheRoster(delay, maxFrames, w); true else false
  }

  lemma RunsKeepTheRoster(delay: nat, maxFrames: nat, w: World)
    requires LeadsWithout(maxFrames, {}, Initial(delay, maxFrames), w)
    ensures |w.nodes| == |w.samples| == 2 && w.nodes[0].con.Valid() && w.nodes[1].con.Valid()
  {
    var ws :| PathWithout(maxFrames, {}, ws) && ws[0] == Initial(delay, maxFrames) && ws[|ws| - 1] == w;
    if |ws| > 1 {
      assert StepWithout(maxFrames, {}, ws[|ws| - 2], ws[|ws| - 2 + 1]);
    }
  }

  // ---- the invariant ----

  ghost predicate OwnOk(delay: nat, samples: seq<seq<Word>>, i: nat, c: Console)
    requires i < |samples|
  {
    forall f | 0 <= f < |c.mine| && Scheduled(delay, samples[i], f) :: c.mine[f] == Applied(delay, samples[i], f)
  }

  ghost predicate PeerOk(delay: nat, samples: seq<seq<Word>>, i: nat, c: Console)
    requires i < 2 == |samples| && c.Valid()
  {
    forall f | 0 <= f < |c.peerKnown| && c.peerKnown[f] ::
      Scheduled(delay, samples[1 - i], f) && c.peer[f] == Applied(delay, samples[1 - i], f)
  }

  ghost predicate ConsoleOk(delay: nat, maxFrames: nat, samples: seq<seq<Word>>, i: nat, c: Console)
    requires i < 2 == |samples|
  {
    c.Valid() && c.role == i && c.delay == delay && c.Cap() == maxFrames + delay + 1
    && OwnOk(delay, samples, i, c) && PeerOk(delay, samples, i, c)
  }

  function PumpedUpTo(node: Node): nat {
    if node.pumped then node.frame + 1 else node.frame
  }

  /** A copy carries a final input, and was sent while the sender was within `delay` frames of it. */
  ghost predicate CopyOk(delay: nat, maxFrames: nat, samples: seq<seq<Word>>, c: Copy)
    requires |samples| == 2
  {
    c.src < 2 && c.body.Packet?
    && (c.body == HELLO
        || (&& 0 <= c.body.frame < maxFrames + delay + 1
            && Scheduled(delay, samples[c.src], c.body.frame)
            && c.body.state == Applied(delay, samples[c.src], c.body.frame)
            && 0 <= c.at <= c.body.frame <= c.at + delay))
  }

  /** Console i sent its input for frame f from its pump of frame `at`. */
  ghost predicate CopySent(delay: nat, samples: seq<seq<Word>>, sent: set<Copy>, i: nat, at: nat, f: nat)
    requires i < |samples|
  {
    Scheduled(delay, samples[i], f) && Copy(i, at, Packet(f, Applied(delay, samples[i], f))) in sent
  }

  ghost predicate NodeOk(delay: nat, maxFrames: nat, samples: seq<seq<Word>>, sent: set<Copy>, i: nat, node: Node)
    requires i < 2 == |samples|
  {
    && ConsoleOk(delay, maxFrames, samples, i, node.con)
    && node.frame <= |samples[i]| <= node.frame + 1
    && |samples[i]| <= maxFrames
    && (node.pumped ==> |samples[i]| == node.frame + 1)
    && (forall f: nat | f < node.frame :: node.con.Have(f))
    && (forall c | c in sent && c.src == i && c.body != HELLO :: c.at < PumpedUpTo(node))
    && (forall at: nat, f: nat | at < PumpedUpTo(node) && at <= f <= at + delay :: CopySent(delay, samples, sent, i, at, f))
  }

  ghost predicate DeliveredOk(w: World)
    requires Shaped(w)
  {
    forall c | c in w.delivered :: c in w.sent && (c.src < 2 && c.body != HELLO ==> c.body.Packet? && w.nodes[1 - c.src].con.Have(c.body.frame))
  }

  ghost predicate Inv(delay: nat, maxFrames: nat, w: World) {
    && Shaped(w)
    && (forall c | c in w.sent :: CopyOk(delay, maxFrames, w.samples, c))
    && DeliveredOk(w)
    && forall i | 0 <= i < 2 :: NodeOk(delay, maxFrames, w.samples, w.sent, i, w.nodes[i])
  }

  lemma CopyOkGrows(delay: nat, maxFrames: nat, s: seq<seq<Word>>, s': seq<seq<Word>>, c: Copy)
    requires |s| == 2 && Extends(s, s') && CopyOk(delay, maxFrames, s, c)
    ensures CopyOk(delay, maxFrames, s', c)
  {
    if c.body != HELLO {
      AppliedIsStable(delay, s[c.src], s'[c.src], c.body.frame);
    }
  }

  /** Nothing the other console does can spoil console i. */
  lemma NodeOkGrows(delay: nat, maxFrames: nat, s: seq<seq<Word>>, s': seq<seq<Word>>, sent: set<Copy>, sent': set<Copy>, i: nat, node: Node)
    requires i < 2 == |s| && Extends(s, s') && sent <= sent' && s'[i] == s[i]
    requires forall c | c in sent' - sent :: c.src != i || c.body == HELLO
    requires NodeOk(delay, maxFrames, s, sent, i, node)
    ensures NodeOk(delay, maxFrames, s', sent', i, node)
  {
    forall at: nat, f: nat | at < PumpedUpTo(node) && at <= f <= at + delay
      ensures CopySent(delay, s', sent', i, at, f)
    {
      assert CopySent(delay, s, sent, i, at, f);
    }
    forall f | 0 <= f < |node.con.peerKnown| && node.con.peerKnown[f]
      ensures Scheduled(delay, s'[1 - i], f) && node.con.peer[f] == Applied(delay, s'[1 - i], f)
    {
      AppliedIsStable(delay, s[1 - i], s'[1 - i], f);
    }
  }

  lemma {:induction false} DrainKeeps(delay: nat, maxFrames: nat, w: World, i: nat, c: Console, got: seq<Copy>)
    requires i < 2 == |w.samples|
    requires forall e | e in w.sent :: CopyOk(delay, maxFrames, w.samples, e)
    requires ConsoleOk(delay, maxFrames, w.samples, i, c) && Deliverable(w, i, got)
    ensures ConsoleOk(delay, maxFrames, w.samples, i, c.Drain(Bodies(got)))
    ensures forall f: nat | c.Have(f) :: c.Drain(Bodies(got)).Have(f)
    ensures forall e | e in got && e in w.sent && e.body != HELLO :: e.body.Packet? && c.Drain(Bodies(got)).Have(e.body.frame)
    decreases |got|
  {
    if got != [] {
      var front, last := got[..|got| - 1], got[|got| - 1];
      assert last in got && got == front + [last];
      assert Bodies(got)[..|got| - 1] == Bodies(front);
      DrainKeeps(delay, maxFrames, w, i, c, front);
    }
  }

  /** Only a copy of frame f can make frame f known. */
  lemma {:induction false} DrainNeedsACopy(c: Console, got: seq<Copy>, f: nat)
    requires c.Valid() && !c.Have(f)
    requires forall e | e in got :: e.body == Junk || e.body.frame != f
    ensures !c.Drain(Bodies(got)).Have(f)
    decreases |got|
  {
    if got != [] {
      var front, last := got[..|got| - 1], got[|got| - 1];
      assert last in got && got == front + [last];
      assert Bodies(got)[..|got| - 1] == Bodies(front);
      DrainNeedsACopy(c, front, f);
    }
  }

  lemma {:induction false} SendWindowContents(c: Console, sched: int, k: nat, d: Datagram)
    ensures d in c.SendWindow(sched, k) <==>
            exists f: nat :: sched - k < f <= sched && f < |c.mine| && d == Packet(f, c.mine[f])
  {
    if k > 0 {
      SendWindowContents(c, sched, k - 1, d);
    }
  }

  // ---- every step keeps the invariant ----

  lemma InitialIsOk(delay: nat, maxFrames: nat)
    ensures Inv(delay, maxFrames, Initial(delay, maxFrames))
  {
  }

  lemma AdvanceKeeps(delay: nat, maxFrames: nat, w: World, a: Action)
    requires Inv(delay, maxFrames, w) && Enabled(maxFrames, w, a) && a.Advance?
    ensures Inv(delay, maxFrames, Apply(w, a))
  {
  }

  /** Scheduling a new input touches no slot that is already final. */
  lemma RecordKeepsOwn(delay: nat, c: Console, samples: seq<Word>, frame: nat, state: Word)
    requires c.Valid() && c.delay == delay && |samples| == frame && frame + delay < |c.mine|
    requires forall f | 0 <= f < |c.mine| && Scheduled(delay, samples, f) :: c.mine[f] == Applied(delay, samples, f)
    ensures forall f | 0 <= f < |c.mine| && Scheduled(delay, samples + [state], f) ::
              c.Record(frame, state).mine[f] == Applied(delay, samples + [state], f)
  {
  }

  lemma RecordKeeps(delay: nat, maxFrames: nat, w: World, a: Action)
    requires Inv(delay, maxFrames, w) && Enabled(maxFrames, w, a) && a.Record?
    ensures Inv(delay, maxFrames, Apply(w, a))
  {
    var w', i, j := Apply(w, a), a.i, 1 - a.i;
    assert Extends(w.samples, w'.samples);
    forall c | c in w.sent
      ensures CopyOk(delay, maxFrames, w'.samples, c)
    {
      CopyOkGrows(delay, maxFrames, w.samples, w'.samples, c);
    }
    NodeOkGrows(delay, maxFrames, w.samples, w'.samples, w.sent, w.sent, j, w.nodes[j]);
    RecordKeepsNode(delay, maxFrames, w, a);
  }

  lemma RecordKeepsNode(delay: nat, maxFrames: nat, w: World, a: Action)
    requires Inv(delay, maxFrames, w) && Enabled(maxFrames, w, a) && a.Record?
    ensures NodeOk(delay, maxFrames, Apply(w, a).samples, w.sent, a.i, Apply(w, a).nodes[a.i])
  {
    var w', i := Apply(w, a), a.i;
    forall at: nat, f: nat | at < PumpedUpTo(w.nodes[i]) && at <= f <= at + delay
      ensures CopySent(delay, w'.samples, w.sent, i, at, f)
    {
      assert CopySent(delay, w.samples, w.sent, i, at, f);
      AppliedIsStable(delay, w.samples[i], w'.samples[i], f);
    }
    RecordKeepsOwn(delay, w.nodes[i].con, w.samples[i], w.nodes[i].frame, a.state);
    assert OwnOk(delay, w'.samples, i, w'.nodes[i].con);
    assert PeerOk(delay, w'.samples, i, w'.nodes[i].con);
    forall f: nat | f < w.nodes[i].frame
      ensures w'.nodes[i].con.Have(f)
    {
      assert w.nodes[i].con.Have(f);
    }
  }

  lemma GreetKeeps(delay: nat, maxFrames: nat, w: World, a: Action)
    requires Inv(delay, maxFrames, w) && Enabled(maxFrames, w, a) && a.Greet?
    ensures Inv(delay, maxFrames, Apply(w, a))
  {
    var w', i, j := Apply(w, a), a.i, 1 - a.i;
    DrainKeeps(delay, maxFrames, w, i, w.nodes[i].con, a.got);
    NodeOkGrows(delay, maxFrames, w.samples, w.samples, w.sent, w'.sent, j, w.nodes[j]);
    NodeOkGrows(delay, maxFrames, w.samples, w.samples, w.sent, w'.sent, i, w.nodes[i]);
  }

  /** A round of the handshake in a run is a round of the handshake. */
  lemma GreetIsARound(maxFrames: nat, w: World, a: Action)
    requires Enabled(maxFrames, w, a) && a.Greet?
    ensures var h := HandshakeRun(w.nodes[a.i].con, [Round(Bodies(a.got), Bodies(a.dropped))], 0);
            Apply(w, a).nodes[a.i].con == h.con && (h.ok <==> Heard(Bodies(a.dropped)))
            && Apply(w, a).sent == w.sent + {Copy(a.i, -1, HELLO)} && h.hellos == 1
  {
    var round := Round(Bodies(a.got), Bodies(a.dropped));
    assert [round][1..] == [];
  }

  /** A pump sends its window, tagged with its frame, and nothing else. */
  lemma PumpSends(delay: nat, maxFrames: nat, w: World, a: Action)
    requires Inv(delay, maxFrames, w) && Enabled(maxFrames, w, a) && a.Pump?
    ensures forall c | c in Sends(w, a) :: CopyOk(delay, maxFrames, w.samples, c) && c.src == a.i && c.at == w.nodes[a.i].frame
    ensures forall f: nat | w.nodes[a.i].frame <= f <= w.nodes[a.i].frame + delay ::
              Scheduled(delay, w.samples[a.i], f)
              && Copy(a.i, w.nodes[a.i].frame, Packet(f, Applied(delay, w.samples[a.i], f))) in Sends(w, a)
  {
    var i, node := a.i, w.nodes[a.i];
    var sched := node.frame + delay;
    forall c | c in Sends(w, a)
      ensures CopyOk(delay, maxFrames, w.samples, c) && c.src == i && c.at == node.frame
    {
      SendWindowContents(node.con, sched, delay + 1, c.body);
    }
    forall f: nat | node.frame <= f <= sched
      ensures Copy(i, node.frame, Packet(f, Applied(delay, w.samples[i], f))) in Sends(w, a)
    {
      SendWindowContents(node.con, sched, delay + 1, Packet(f, Applied(delay, w.samples[i], f)));
    }
  }

  lemma PumpKeeps(delay: nat, maxFrames: nat, w: World, a: Action)
    requires Inv(delay, maxFrames, w) && Enabled(maxFrames, w, a) && a.Pump?
    ensures Inv(delay, maxFrames, Apply(w, a))
  {
    var w', i, j := Apply(w, a), a.i, 1 - a.i;
    PumpSends(delay, maxFrames, w, a);
    DrainKeeps(delay, maxFrames, w, i, w.nodes[i].con, a.got);
    NodeOkGrows(delay, maxFrames, w.samples, w.samples, w.sent, w'.sent, j, w.nodes[j]);
    PumpCopies(delay, maxFrames, w, a);
  }

  lemma PumpCopies(delay: nat, maxFrames: nat, w: World, a: Action)
    requires Inv(delay, maxFrames, w) && Enabled(maxFrames, w, a) && a.Pump?
    ensures forall at: nat, f: nat | at < PumpedUpTo(Apply(w, a).nodes[a.i]) && at <= f <= at + delay ::
              CopySent(delay, w.samples, Apply(w, a).sent, a.i, at, f)
  {
    var w', i := Apply(w, a), a.i;
    PumpSends(delay, maxFrames, w, a);
    forall at: nat, f: nat | at < PumpedUpTo(w'.nodes[i]) && at <= f <= at + delay
      ensures CopySent(delay, w.samples, w'.sent, i, at, f)
    {
      if at < PumpedUpTo(w.nodes[i]) {
        assert CopySent(delay, w.samples, w.sent, i, at, f);
      }
    }
  }

  lemma StepKeeps(delay: nat, maxFrames: nat, lost: set<Copy>, w: World, w': World)
    requires Inv(delay, maxFrames, w) && StepWithout(maxFrames, lost, w, w')
    ensures Inv(delay, maxFrames, w')
  {
    var a :| Enabled(maxFrames, w, a) && w' == Apply(w, a) && forall c | c in Taken(a) :: c !in lost;
    match a
    case Greet(_, _, _) => GreetKeeps(delay, maxFrames, w, a);
    case Record(_, _) => RecordKeeps(delay, maxFrames, w, a);
    case Pump(_, _) => PumpKeeps(delay, maxFrames, w, a);
    case Advance(_) => AdvanceKeeps(delay, maxFrames, w, a);
  }

  lemma {:induction false} PathKeeps(delay: nat, maxFrames: nat, lost: set<Copy>, ws: seq<World>)
    requires PathWithout(maxFrames, lost, ws) && Inv(delay, maxFrames, ws[0])
    ensures Inv(delay, maxFrames, ws[|ws| - 1])
    decreases |ws|
  {
    if |ws| > 1 {
      StepKeeps(delay, maxFrames, lost, ws[0], ws[1]);
      PathKeeps(delay, maxFrames, lost, ws[1..]);
    }
  }

  lemma ReachableIsOk(delay: nat, maxFrames: nat, w: World)
    requires Reachable(delay, maxFrames, w)
    ensures Inv(delay, maxFrames, w)
  {
    InitialIsOk(delay, maxFrames);
    var ws :| PathWithout(maxFrames, {}, ws) && ws[0] == Initial(delay, maxFrames) && ws[|ws| - 1] == w;
    PathKeeps(delay, maxFrames, {}, ws);
  }

  lemma InitialIsReachable(delay: nat, maxFrames: nat)
    ensures Reachable(delay, maxFrames, Initial(delay, maxFrames))
  {
    LeadsNowhere(maxFrames, {}, Initial(delay, maxFrames));
  }

  /** A run may go on with any enabled step. */
  lemma LeadsGoOn(maxFrames: nat, lost: set<Copy>, u: World, w: World, a: Action)
    requires LeadsWithout(maxFrames, lost, u, w) && Enabled(maxFrames, w, a) && forall c | c in Taken(a) :: c !in lost
    ensures LeadsWithout(maxFrames, lost, u, Apply(w, a))
  {
    var ws :| PathWithout(maxFrames, lost, ws) && ws[0] == u && ws[|ws| - 1] == w;
    var longer := ws + [Apply(w, a)];
    forall k | 0 <= k < |longer| - 1
      ensures StepWithout(maxFrames, lost, longer[k], longer[k + 1])
    {
      if k < |ws| - 1 {
        assert StepWithout(maxFrames, lost, ws[k], ws[k + 1]);
      }
    }
    assert PathWithout(maxFrames, lost, longer);
  }

  lemma RunGoesOn(delay: nat, maxFrames: nat, w: World, a: Action)
    requires Reachable(delay, maxFrames, w) && Enabled(maxFrames, w, a)
    ensures Reachable(delay, maxFrames, Apply(w, a))
  {
    LeadsGoOn(maxFrames, {}, Initial(delay, maxFrames), w, a);
  }

  lemma LeadsNowhere(maxFrames: nat, lost: set<Copy>, w: World)
    ensures LeadsWithout(maxFrames, lost, w, w)
  {
    assert PathWithout(maxFrames, lost, [w]);
  }
}
