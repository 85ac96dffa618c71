/** A whole match of the host-relay protocol: every console, every datagram ever sent, every interleaving. */
module RelayRun {
  import opened Frames
  import opened Wire
  import opened RelayConsole

  /** A console inside the game loop: the frame it is at, and whether it has pumped that frame yet. */
  datatype Node = Node(con: Console, frame: nat, pumped: bool)

  /** `samples`, `sent` and `delivered` are histories: what each player sampled, what was ever put on the
      network, and which of it some console has drained at least once. */
  datatype World = World(nodes: seq<Node>, samples: seq<seq<Word>>, sent: set<Envelope>, delivered: set<Envelope>)

  /** The documented loop is: record once, pump, pump again until the frame is there, read the inputs, next frame.
      Greet is a round of the handshake, before the loop. */
  datatype Action =
    | Greet(i: nat, got: seq<Envelope>)
    | Record(i: nat, state: Word)
    | Pump(i: nat, got: seq<Envelope>)
    | Advance(i: nat)

  /** The network may lose, repeat and reorder, and lets strangers in, but only consoles speak the protocol. */
  ghost predicate Deliverable(w: World, i: nat, got: seq<Envelope>) {
    forall e | e in got :: e.dst == i && (e.body == Junk || e in w.sent)
  }

  function Initial(cfg: Config): World {
    World(seq(cfg.players, i requires 0 <= i < cfg.players => Node(InitialConsole(i, cfg.players, cfg.delay, cfg.maxFrames), 0, false)),
          seq(cfg.players, i => []), {}, {})
  }

  predicate Recorded(w: World, i: nat)
    requires i < |w.nodes| == |w.samples|
  {
    |w.samples[i]| > w.nodes[i].frame
  }

  /** The loop condition of the wait: the frame has been pumped and is there. */
  predicate CanAdvance(node: Node) {
    node.pumped && node.con.Have(node.frame)
  }

  ghost predicate Shaped(cfg: Config, w: World) {
    |w.nodes| == |w.samples| == cfg.players
    && forall i | 0 <= i < |w.nodes| :: w.nodes[i].con.Valid()
  }

  ghost predicate Enabled(cfg: Config, w: World, a: Action) {
    && Shaped(cfg, w)
    && a.i < cfg.players
    && var node := w.nodes[a.i];
    match a
    case Greet(i, got) => node.frame == 0 && !Recorded(w, i) && Deliverable(w, i, got)
    case Record(i, _) => node.frame < cfg.maxFrames && !Recorded(w, i)
    case Pump(i, got) => Recorded(w, i) && !CanAdvance(node) && Deliverable(w, i, got)
    case Advance(i) => Recorded(w, i) && CanAdvance(node)
  }

  function Sends(w: World, a: Action): seq<Envelope>
    requires a.i < |w.nodes| && w.nodes[a.i].con.Valid()
  {
    match a
    case Greet(i, _) => w.nodes[i].con.Hellos(w.nodes[i].con.playerCount)
    case Pump(i, got) => w.nodes[i].con.PumpSends(w.nodes[i].frame, got)
    case _ => []
  }

  function Apply(w: World, a: Action): World
    requires a.i < |w.nodes| == |w.samples| && w.nodes[a.i].con.Valid()
  {
    var node := w.nodes[a.i];
    var sent' := w.sent + set e | e in Sends(w, a);
    match a
    case Greet(i, got) =>
      w.(nodes := w.nodes[i := node.(con := node.con.Drain(got))],
         sent := sent', delivered := w.delivered + set e | e in got && e in w.sent)
    case Record(i, state) =>
      w.(nodes := w.nodes[i := node.(con := node.con.Record(node.frame, state))],
         samples := w.samples[i := w.samples[i] + [state]])
    case Pump(i, got) =>
      w.(nodes := w.nodes[i := node.(con := node.con.Pump(node.frame, got), pumped := true)],
         sent := sent', delivered := w.delivered + set e | e in got && e in w.sent)
    case Advance(i) =>
      w.(nodes := w.nodes[i := node.(frame := node.frame + 1, pumped := false)])
  }

  ghost predicate Step(cfg: Config, w: World, w': World) {
    exists a :: Enabled(cfg, w, a) && w' == Apply(w, a)
  }

  ghost predicate Path(cfg: Config, ws: seq<World>) {
    |ws| > 0 && forall k | 0 <= k < |ws| - 1 :: Step(cfg, ws[k], ws[k + 1])
  }

  ghost predicate Leads(cfg: Config, w: World, w': World) {
    exists ws :: Path(cfg, ws) && ws[0] == w && ws[|ws| - 1] == w'
  }

  /** The states of every run of the protocol, under any loss, duplication and reordering. */
  ghost predicate Reachable(cfg: Config, w: World): (r: bool)
    ensures r ==> |w.nodes| == |w.samples| == cfg.players
  {
    if Leads(cfg, Initial(cfg), w) then RunsKeepTheRoster(cfg, w); true else false
  }

  lemma RunsKeepTheRoster(cfg: Config, w: World)
    requires Leads(cfg, Initial(cfg), w)
    ensures |w.nodes| == |w.samples| == cfg.players
  {
    var ws :| Path(cfg, ws) && ws[0] == Initial(cfg) && ws[|ws| - 1] == w;
    if |ws| > 1 {
      assert Step(cfg, ws[|ws| - 2], ws[|ws| - 2 + 1]);
    }
  }

  // ---- the invariant ----

  /** A console never disagrees with itself: its own slot holds what it scheduled. */
  ghost predicate OwnOk(cfg: Config, samples: seq<seq<Word>>, i: nat, c: Console)
    requires i < |samples|
  {
    forall f: nat | Scheduled(cfg.delay, samples[i], f) :: c.At(i, f) == Applied(cfg.delay, samples[i], f)
  }

  /** What the host holds is final, was sent by its owner, and comes with that owner's address. */
  ghost predicate HostOk(cfg: Config, samples: seq<seq<Word>>, sent: set<Envelope>, c: Console)
    requires |samples| == cfg.players
  {
    && (forall s | s in c.known ::
          && s.player < cfg.players && s.frame < cfg.Cap()
          && Scheduled(cfg.delay, samples[s.player], s.frame)
          && c.At(s.player, s.frame) == Applied(cfg.delay, samples[s.player], s.frame)
          && (s.player > 0 ==> s.player in c.gpeer && InputSent(cfg, samples, sent, s.player, s.frame)))
    && (forall f: nat | f < cfg.Cap() && cfg.players > 0 && Scheduled(cfg.delay, samples[0], f) :: Slot(0, f) in c.known)
    && (forall p | p in c.gpeer :: 0 < p < cfg.players && c.gpeer[p] == p)
  }

  ghost predicate InputSent(cfg: Config, samples: seq<seq<Word>>, sent: set<Envelope>, p: nat, f: nat)
    requires p < |samples|
  {
    Scheduled(cfg.delay, samples[p], f) && InputEnvelope(p, f, Applied(cfg.delay, samples[p], f)) in sent
  }

  /** Every guest has sent its input for the frame. */
  ghost predicate AllSent(cfg: Config, samples: seq<seq<Word>>, sent: set<Envelope>, f: nat) {
    forall p | 0 < p < |samples| :: InputSent(cfg, samples, sent, p, f)
  }

  ghost function Aggregate(cfg: Config, samples: seq<seq<Word>>, f: nat): States
    requires AllScheduled(cfg.delay, samples, f)
  {
    seq(MAX_PLAYERS, p requires 0 <= p < MAX_PLAYERS => if p < |samples| then Applied(cfg.delay, samples[p], f) else 0)
  }

  ghost predicate RelayedTo(cfg: Config, samples: seq<seq<Word>>, sent: set<Envelope>, p: nat, f: nat) {
    AllScheduled(cfg.delay, samples, f) && AggEnvelope(p, cfg.players, f, Aggregate(cfg, samples, f)) in sent
  }

  /** A frame a guest calls ready holds everyone's final input. */
  ghost predicate GuestOk(cfg: Config, samples: seq<seq<Word>>, sent: set<Envelope>, i: nat, c: Console)
  {
    forall f | f in c.ready ::
      && f < cfg.Cap()
      && RelayedTo(cfg, samples, sent, i, f) && AllSent(cfg, samples, sent, f)
      && forall p | 0 <= p < |samples| :: c.At(p, f) == Applied(cfg.delay, samples[p], f)
  }

  ghost predicate ConsoleOk(cfg: Config, samples: seq<seq<Word>>, sent: set<Envelope>, i: nat, c: Console)
    requires i < |samples| == cfg.players
  {
    && c.role == i && c.playerCount == cfg.players && c.delay == cfg.delay && c.cap == cfg.Cap() && c.Valid()
    && OwnOk(cfg, samples, i, c)
    && (if i == 0 then HostOk(cfg, samples, sent, c) else GuestOk(cfg, samples, sent, i, c))
  }

  /** No packet ever carries anything but final inputs, and an aggregate proves that all guests had sent theirs. */
  ghost predicate PacketOk(cfg: Config, samples: seq<seq<Word>>, sent: set<Envelope>, e: Envelope)
    requires |samples| == cfg.players
  {
    && e.body.Packet?
    && match e.body.kind
       case HelloKind => e.body.frame == -1 && e.src == e.body.player && e.src < cfg.players && e.dst < cfg.players
       case InputKind =>
         && 0 < e.body.player < cfg.players && 0 <= e.body.frame < cfg.Cap()
         && Scheduled(cfg.delay, samples[e.body.player], e.body.frame)
         && e == InputEnvelope(e.body.player, e.body.frame, Applied(cfg.delay, samples[e.body.player], e.body.frame))
       case AggKind =>
         && 0 < e.dst < cfg.players && 0 <= e.body.frame < cfg.Cap()
         && AllScheduled(cfg.delay, samples, e.body.frame)
         && AllSent(cfg, samples, sent, e.body.frame)
         && e == AggEnvelope(e.dst, cfg.players, e.body.frame, Aggregate(cfg, samples, e.body.frame))
  }

  ghost predicate SentOk(cfg: Config, samples: seq<seq<Word>>, sent: set<Envelope>)
    requires |samples| == cfg.players
  {
    forall e | e in sent :: PacketOk(cfg, samples, sent, e)
  }

  /** The frames console i has finished pumping at least once. */
  function PumpedUpTo(node: Node): nat {
    if node.pumped then node.frame + 1 else node.frame
  }

  ghost predicate Relayed(cfg: Config, samples: seq<seq<Word>>, sent: set<Envelope>, f: nat) {
    forall p | 0 < p < cfg.players :: RelayedTo(cfg, samples, sent, p, f)
  }

  /** Where a console is in the loop, what it has passed and what it has sent on the way. */
  ghost predicate ProgressOk(cfg: Config, samples: seq<seq<Word>>, sent: set<Envelope>, i: nat, node: Node)
    requires i < |samples|
  {
    && node.frame <= |samples[i]| <= node.frame + 1
    && |samples[i]| <= cfg.maxFrames
    && (node.pumped ==> |samples[i]| == node.frame + 1)
    && (forall f: nat | f < node.frame :: node.con.Have(f))
    && (i == 0 ==> forall f: nat | f < node.frame :: Relayed(cfg, samples, sent, f))
    && (i == 0 && CanAdvance(node) ==> Relayed(cfg, samples, sent, node.frame))
    && (i > 0 ==> forall f: nat | f < PumpedUpTo(node) :: InputSent(cfg, samples, sent, i, f))
    && (i > 0 && PumpedUpTo(node) == 0 ==> forall e | e in sent :: !(e.body.Packet? && e.body.kind == InputKind && e.body.player == i))
  }

  /** A drained packet has left its mark on the console it was meant for. */
  ghost predicate DeliveredOk(w: World) {
    forall e | e in w.delivered ::
      && e in w.sent
      && (e.body.Packet? && e.body.kind == InputKind && e.body.frame >= 0 ==> |w.nodes| > 0 && Slot(e.body.player, e.body.frame) in w.nodes[0].con.known)
      && (e.body.Packet? && e.body.kind == AggKind ==> 0 < e.dst < |w.nodes| && e.body.frame in w.nodes[e.dst].con.ready)
  }

  ghost predicate Inv(cfg: Config, w: World) {
    && cfg.Valid()
    && |w.nodes| == |w.samples| == cfg.players
    && SentOk(cfg, w.samples, w.sent)
    && DeliveredOk(w)
    && forall i | 0 <= i < cfg.players ::
         ConsoleOk(cfg, w.samples, w.sent, i, w.nodes[i].con) && ProgressOk(cfg, w.samples, w.sent, i, w.nodes[i])
  }

  // ---- facts that survive as histories grow ----

  lemma AggregateIsStable(cfg: Config, s: seq<seq<Word>>, s': seq<seq<Word>>, f: nat)
    requires Extends(s, s') && AllScheduled(cfg.delay, s, f)
    ensures AllScheduled(cfg.delay, s', f) && Aggregate(cfg, s', f) == Aggregate(cfg, s, f)
  {
    forall p | 0 <= p < |s|
      ensures Scheduled(cfg.delay, s'[p], f) && Applied(cfg.delay, s'[p], f) == Applied(cfg.delay, s[p], f)
    {
      AppliedIsStable(cfg.delay, s[p], s'[p], f);
    }
  }

  lemma InputSentGrows(cfg: Config, s: seq<seq<Word>>, s': seq<seq<Word>>, sent: set<Envelope>, sent': set<Envelope>, p: nat, f: nat)
    requires Extends(s, s') && sent <= sent' && p < |s| && InputSent(cfg, s, sent, p, f)
    ensures InputSent(cfg, s', sent', p, f)
  {
    AppliedIsStable(cfg.delay, s[p], s'[p], f);
  }

  lemma AllSentGrows(cfg: Config, s: seq<seq<Word>>, s': seq<seq<Word>>, sent: set<Envelope>, sent': set<Envelope>, f: nat)
    requires Extends(s, s') && sent <= sent' && AllSent(cfg, s, sent, f)
    ensures AllSent(cfg, s', sent', f)
  {
    forall p | 0 < p < |s'|
      ensures InputSent(cfg, s', sent', p, f)
    {
      InputSentGrows(cfg, s, s', sent, sent', p, f);
    }
  }

  lemma RelayedToGrows(cfg: Config, s: seq<seq<Word>>, s': seq<seq<Word>>, sent: set<Envelope>, sent': set<Envelope>, p: nat, f: nat)
    requires Extends(s, s') && sent <= sent' && RelayedTo(cfg, s, sent, p, f)
    ensures RelayedTo(cfg, s', sent', p, f)
  {
    AggregateIsStable(cfg, s, s', f);
  }

  lemma PacketOkGrows(cfg: Config, s: seq<seq<Word>>, s': seq<seq<Word>>, sent: set<Envelope>, sent': set<Envelope>, e: Envelope)
    requires |s| == cfg.players && Extends(s, s') && sent <= sent' && PacketOk(cfg, s, sent, e)
    ensures PacketOk(cfg, s', sent', e)
  {
    match e.body.kind
    case HelloKind =>
    case InputKind => AppliedIsStable(cfg.delay, s[e.body.player], s'[e.body.player], e.body.frame);
    case AggKind =>
      AggregateIsStable(cfg, s, s', e.body.frame);
      AllSentGrows(cfg, s, s', sent, sent', e.body.frame);
  }

  /** Nothing another console does can spoil console i. */
  lemma ConsoleOkGrows(cfg: Config, s: seq<seq<Word>>, s': seq<seq<Word>>, sent: set<Envelope>, sent': set<Envelope>, i: nat, c: Console)
    requires |s| == cfg.players && Extends(s, s') && sent <= sent' && i < |s| && s'[i] == s[i]
    requires ConsoleOk(cfg, s, sent, i, c)
    ensures ConsoleOk(cfg, s', sent', i, c)
  {
    if i == 0 {
      forall t | t in c.known
        ensures Scheduled(cfg.delay, s'[t.player], t.frame)
        ensures c.At(t.player, t.frame) == Applied(cfg.delay, s'[t.player], t.frame)
        ensures t.player > 0 ==> InputSent(cfg, s', sent', t.player, t.frame)
      {
        AppliedIsStable(cfg.delay, s[t.player], s'[t.player], t.frame);
      }
    } else {
      forall f | f in c.ready
        ensures RelayedTo(cfg, s', sent', i, f) && AllSent(cfg, s', sent', f)
        ensures forall p | 0 <= p < |s'| :: c.At(p, f) == Applied(cfg.delay, s'[p], f)
      {
        RelayedToGrows(cfg, s, s', sent, sent', i, f);
        AllSentGrows(cfg, s, s', sent, sent', f);
        forall p | 0 <= p < |s|
          ensures Applied(cfg.delay, s'[p], f) == Applied(cfg.delay, s[p], f)
        {
          AppliedIsStable(cfg.delay, s[p], s'[p], f);
        }
      }
    }
  }

  lemma RelayedGrows(cfg: Config, s: seq<seq<Word>>, s': seq<seq<Word>>, sent: set<Envelope>, sent': set<Envelope>, f: nat)
    requires Extends(s, s') && sent <= sent' && Relayed(cfg, s, sent, f)
    ensures Relayed(cfg, s', sent', f)
  {
    forall p | 0 < p < cfg.players
      ensures RelayedTo(cfg, s', sent', p, f)
    {
      RelayedToGrows(cfg, s, s', sent, sent', p, f);
    }
  }

  ghost predicate NoInputsOf(sent: set<Envelope>, i: nat) {
    forall e | e in sent :: !(e.body.Packet? && e.body.kind == InputKind && e.body.player == i)
  }

  lemma ProgressOkGrows(cfg: Config, s: seq<seq<Word>>, s': seq<seq<Word>>, sent: set<Envelope>, sent': set<Envelope>, i: nat, node: Node)
    requires |s| == cfg.players && Extends(s, s') && sent <= sent' && i < |s| && s'[i] == s[i]
    requires NoInputsOf(sent' - sent, i)
    requires ProgressOk(cfg, s, sent, i, node)
    ensures ProgressOk(cfg, s', sent', i, node)
  {
    if i == 0 {
      forall f: nat | Relayed(cfg, s, sent, f)
        ensures Relayed(cfg, s', sent', f)
      {
        RelayedGrows(cfg, s, s', sent, sent', f);
      }
    } else {
      forall f: nat | InputSent(cfg, s, sent, i, f)
        ensures InputSent(cfg, s', sent', i, f)
      {
        InputSentGrows(cfg, s, s', sent, sent', i, f);
      }
    }
  }

  // ---- draining ----

  /** One more datagram, however late or repeated, keeps a console in order. */
  lemma ReceiveKeeps(cfg: Config, w: World, i: nat, c: Console, e: Envelope)
    requires cfg.Valid() && |w.samples| == cfg.players && i < cfg.players
    requires SentOk(cfg, w.samples, w.sent) && ConsoleOk(cfg, w.samples, w.sent, i, c)
    requires Deliverable(w, i, [e])
    ensures ConsoleOk(cfg, w.samples, w.sent, i, c.Receive(e))
  {
    assert e in [e];
    if e.body != Junk {
      assert PacketOk(cfg, w.samples, w.sent, e);
      if i > 0 && e.body.kind == AggKind {
        FillFrameAt(c.inp, e.body.frame, e.body.state, c.playerCount);
      }
    }
  }

  lemma {:induction false} DrainKeeps(cfg: Config, w: World, i: nat, c: Console, got: seq<Envelope>)
    requires cfg.Valid() && |w.samples| == cfg.players && i < cfg.players
    requires SentOk(cfg, w.samples, w.sent) && ConsoleOk(cfg, w.samples, w.sent, i, c)
    requires Deliverable(w, i, got)
    ensures ConsoleOk(cfg, w.samples, w.sent, i, c.Drain(got))
    decreases |got|
  {
    if got != [] {
      var front, last := got[..|got| - 1], got[|got| - 1];
      assert last in got;
      DrainKeeps(cfg, w, i, c, front);
      ReceiveKeeps(cfg, w, i, c.Drain(front), last);
    }
  }

  /** Draining only ever adds marks, and a drained packet leaves one. */
  lemma {:induction false} DrainMarks(cfg: Config, w: World, i: nat, c: Console, got: seq<Envelope>)
    requires cfg.Valid() && |w.samples| == cfg.players && i < cfg.players
    requires SentOk(cfg, w.samples, w.sent) && ConsoleOk(cfg, w.samples, w.sent, i, c)
    requires Deliverable(w, i, got)
    ensures c.known <= c.Drain(got).known && c.ready <= c.Drain(got).ready && c.gpeer.Keys <= c.Drain(got).gpeer.Keys
    ensures forall e | e in got && e.body.Packet? ::
              && (e.body.kind == InputKind ==> e.body.frame >= 0 && Slot(e.body.player, e.body.frame) in c.Drain(got).known)
              && (e.body.kind == AggKind ==> e.body.frame in c.Drain(got).ready)
    decreases |got|
  {
    if got != [] {
      var front, last := got[..|got| - 1], got[|got| - 1];
      assert last in got && got == front + [last];
      DrainKeeps(cfg, w, i, c, front);
      DrainMarks(cfg, w, i, c, front);
      if last.body.Packet? {
        assert PacketOk(cfg, w.samples, w.sent, last);
      }
    }
  }

  // ---- what a pump sends ----

  lemma {:induction false} BroadcastContents(c: Console, f: nat, k: nat, e: Envelope)
    requires c.Valid() && k <= c.playerCount
    ensures e in c.Broadcast(f, k) <==>
            exists p: nat :: 0 < p < k && p in c.gpeer && e == AggEnvelope(c.gpeer[p], c.playerCount, f, c.AggStates(f))
  {
    if k > 1 {
      BroadcastContents(c, f, k - 1, e);
    }
  }

  lemma {:induction false} RelayContents(c: Console, lo: int, hi: int, e: Envelope)
    requires c.Valid() && lo <= hi
    ensures e in c.Relay(lo, hi) <==>
            exists f: nat :: lo <= f < hi && c.HostComplete(f) && e in c.Broadcast(f, c.playerCount)
    decreases hi - lo
  {
    if lo < hi {
      RelayContents(c, lo, hi - 1, e);
    }
  }

  lemma {:induction false} SendWindowContents(c: Console, sched: int, k: nat, e: Envelope)
    ensures e in c.SendWindow(sched, k) <==>
            exists f: nat :: sched - k < f <= sched && f < c.cap && e == InputEnvelope(c.role, f, c.At(c.role, f))
  {
    if k > 0 {
      SendWindowContents(c, sched, k - 1, e);
    }
  }

  /** A complete frame is final for everyone, and its aggregate carries exactly the final inputs. */
  lemma CompleteFrame(cfg: Config, w: World, c: Console, f: nat)
    requires cfg.Valid() && |w.samples| == cfg.players
    requires ConsoleOk(cfg, w.samples, w.sent, 0, c) && c.HostComplete(f)
    ensures AllScheduled(cfg.delay, w.samples, f) && AllSent(cfg, w.samples, w.sent, f)
    ensures c.AggStates(f) == Aggregate(cfg, w.samples, f)
    ensures forall p: nat | 0 < p < cfg.players :: p in c.gpeer && c.gpeer[p] == p
  {
    forall p | 0 <= p < cfg.players
      ensures Scheduled(cfg.delay, w.samples[p], f) && c.At(p, f) == Applied(cfg.delay, w.samples[p], f)
      ensures p > 0 ==> InputSent(cfg, w.samples, w.sent, p, f) && p in c.gpeer && c.gpeer[p] == p
    {
      assert Slot(p, f) in c.known;
    }
  }

  /** Whatever the host relays is in order, and a complete frame of the window goes to every guest. */
  lemma RelayIsOk(cfg: Config, w: World, c: Console, lo: nat, hi: nat)
    requires cfg.Valid() && |w.samples| == cfg.players && lo <= hi
    requires ConsoleOk(cfg, w.samples, w.sent, 0, c)
    ensures forall e | e in c.Relay(lo, hi) :: PacketOk(cfg, w.samples, w.sent, e) && e.body.kind == AggKind
    ensures forall f: nat | lo <= f < hi && c.HostComplete(f) ::
              AllScheduled(cfg.delay, w.samples, f)
              && forall p | 0 < p < cfg.players :: AggEnvelope(p, cfg.players, f, Aggregate(cfg, w.samples, f)) in c.Relay(lo, hi)
  {
    forall e | e in c.Relay(lo, hi)
      ensures PacketOk(cfg, w.samples, w.sent, e) && e.body.kind == AggKind
    {
      RelayContents(c, lo, hi, e);
      var f: nat :| lo <= f < hi && c.HostComplete(f) && e in c.Broadcast(f, c.playerCount);
      BroadcastContents(c, f, c.playerCount, e);
      CompleteFrame(cfg, w, c, f);
    }
    forall f: nat | lo <= f < hi && c.HostComplete(f)
      ensures AllScheduled(cfg.delay, w.samples, f)
      ensures forall p | 0 < p < cfg.players :: AggEnvelope(p, cfg.players, f, Aggregate(cfg, w.samples, f)) in c.Relay(lo, hi)
    {
      CompleteFrame(cfg, w, c, f);
      forall p | 0 < p < cfg.players
        ensures AggEnvelope(p, cfg.players, f, Aggregate(cfg, w.samples, f)) in c.Relay(lo, hi)
      {
        var e := AggEnvelope(p, cfg.players, f, Aggregate(cfg, w.samples, f));
        assert e == AggEnvelope(c.gpeer[p], c.playerCount, f, c.AggStates(f));
        BroadcastContents(c, f, c.playerCount, e);
        RelayContents(c, lo, hi, e);
      }
    }
  }

  /** A guest sends only inputs it has fixed, and all of its window. */
  lemma SendWindowIsOk(cfg: Config, w: World, i: nat, c: Console, frame: nat)
    requires cfg.Valid() && |w.samples| == cfg.players && 0 < i < cfg.players
    requires ConsoleOk(cfg, w.samples, w.sent, i, c) && |w.samples[i]| == frame + 1 <= cfg.maxFrames
    ensures forall e | e in c.SendWindow(frame + cfg.delay, cfg.delay + 1) ::
              PacketOk(cfg, w.samples, w.sent, e) && e.body.kind == InputKind && e.body.player == i
    ensures forall f: nat | frame <= f <= frame + cfg.delay ::
              Scheduled(cfg.delay, w.samples[i], f)
              && InputEnvelope(i, f, Applied(cfg.delay, w.samples[i], f)) in c.SendWindow(frame + cfg.delay, cfg.delay + 1)
  {
    var sched := frame + cfg.delay;
    forall e | e in c.SendWindow(sched, cfg.delay + 1)
      ensures PacketOk(cfg, w.samples, w.sent, e) && e.body.kind == InputKind && e.body.player == i
    {
      SendWindowContents(c, sched, cfg.delay + 1, e);
    }
    forall f: nat | frame <= f <= sched
      ensures InputEnvelope(i, f, Applied(cfg.delay, w.samples[i], f)) in c.SendWindow(sched, cfg.delay + 1)
    {
      SendWindowContents(c, sched, cfg.delay + 1, InputEnvelope(i, f, Applied(cfg.delay, w.samples[i], f)));
    }
  }

  lemma {:induction false} HellosAreOk(cfg: Config, w: World, i: nat, c: Console, k: nat)
    requires cfg.Valid() && |w.samples| == cfg.players && i < cfg.players && k <= c.playerCount
    requires ConsoleOk(cfg, w.samples, w.sent, i, c)
    ensures forall e | e in c.Hellos(k) :: PacketOk(cfg, w.samples, w.sent, e) && e.body.kind == HelloKind
    decreases k
  {
    if i == 0 && k > 1 {
      HellosAreOk(cfg, w, i, c, k - 1);
    }
  }

  // ---- every step keeps the invariant ----

  lemma InitialIsOk(cfg: Config)
    requires cfg.Valid()
    ensures Inv(cfg, Initial(cfg))
  {
  }

  lemma AdvanceKeeps(cfg: Config, w: World, a: Action)
    requires Inv(cfg, w) && Enabled(cfg, w, a) && a.Advance?
    ensures Inv(cfg, Apply(w, a))
  {
  }

  /** Scheduling a new input touches no slot that is already final. */
  lemma RecordKeepsConsole(cfg: Config, w: World, i: nat, state: Word)
    requires Inv(cfg, w) && Enabled(cfg, w, Record(i, state))
    ensures var samples' := w.samples[i := w.samples[i] + [state]];
            ConsoleOk(cfg, samples', w.sent, i, w.nodes[i].con.Record(w.nodes[i].frame, state))
  {
    var samples' := w.samples[i := w.samples[i] + [state]];
    var c, c' := w.nodes[i].con, w.nodes[i].con.Record(w.nodes[i].frame, state);
    var sched := w.nodes[i].frame + cfg.delay;
    assert sched < cfg.Cap() && !Scheduled(cfg.delay, w.samples[i], sched);
    assert OwnOk(cfg, samples', i, c') by {
      forall f: nat | Scheduled(cfg.delay, samples'[i], f)
        ensures c'.At(i, f) == Applied(cfg.delay, samples'[i], f)
      {
        if f < sched {
          assert Scheduled(cfg.delay, w.samples[i], f);
        }
      }
    }
    if i == 0 {
      forall t | t in c'.known
        ensures t.player < cfg.players && t.frame < cfg.Cap()
        ensures Scheduled(cfg.delay, samples'[t.player], t.frame)
        ensures c'.At(t.player, t.frame) == Applied(cfg.delay, samples'[t.player], t.frame)
        ensures t.player > 0 ==> t.player in c'.gpeer && InputSent(cfg, samples', w.sent, t.player, t.frame)
      {
      }
    } else {
      forall f | f in c'.ready
        ensures f < cfg.Cap() && RelayedTo(cfg, samples', w.sent, i, f) && AllSent(cfg, samples', w.sent, f)
        ensures forall p | 0 <= p < |samples'| :: c'.At(p, f) == Applied(cfg.delay, samples'[p], f)
      {
        RelayedToGrows(cfg, w.samples, samples', w.sent, w.sent, i, f);
        AllSentGrows(cfg, w.samples, samples', w.sent, w.sent, f);
        assert Scheduled(cfg.delay, w.samples[i], f);
      }
    }
  }

  lemma RecordKeepsProgress(cfg: Config, w: World, i: nat, state: Word)
    requires Inv(cfg, w) && Enabled(cfg, w, Record(i, state))
    ensures var w' := Apply(w, Record(i, state)); ProgressOk(cfg, w'.samples, w.sent, i, w'.nodes[i])
  {
    var w' := Apply(w, Record(i, state));
    forall f: nat | f < w.nodes[i].frame
      ensures w'.nodes[i].con.Have(f)
      ensures i == 0 ==> Relayed(cfg, w'.samples, w.sent, f)
      ensures i > 0 ==> InputSent(cfg, w'.samples, w.sent, i, f)
    {
      assert w.nodes[i].con.Have(f);
      if i == 0 {
        RelayedGrows(cfg, w.samples, w'.samples, w.sent, w.sent, f);
      } else {
        InputSentGrows(cfg, w.samples, w'.samples, w.sent, w.sent, i, f);
      }
    }
  }

  lemma RecordKeeps(cfg: Config, w: World, a: Action)
    requires Inv(cfg, w) && Enabled(cfg, w, a) && a.Record?
    ensures Inv(cfg, Apply(w, a))
  {
    var w' := Apply(w, a);
    assert Extends(w.samples, w'.samples);
    forall e | e in w.sent
      ensures PacketOk(cfg, w'.samples, w.sent, e)
    {
      PacketOkGrows(cfg, w.samples, w'.samples, w.sent, w.sent, e);
    }
    forall j | 0 <= j < cfg.players && j != a.i
      ensures ConsoleOk(cfg, w'.samples, w.sent, j, w'.nodes[j].con)
      ensures ProgressOk(cfg, w'.samples, w.sent, j, w'.nodes[j])
    {
      ConsoleOkGrows(cfg, w.samples, w'.samples, w.sent, w.sent, j, w.nodes[j].con);
      ProgressOkGrows(cfg, w.samples, w'.samples, w.sent, w.sent, j, w.nodes[j]);
    }
    RecordKeepsConsole(cfg, w, a.i, a.state);
    RecordKeepsProgress(cfg, w, a.i, a.state);
  }

  /** What a drain does to the histories: nothing is sent, and everything it took is marked. */
  lemma DrainedIsMarked(cfg: Config, w: World, i: nat, got: seq<Envelope>, w': World)
    requires Inv(cfg, w) && i < cfg.players && Deliverable(w, i, got)
    requires |w'.nodes| == |w.nodes| && w.sent <= w'.sent
    requires w'.delivered == w.delivered + set e | e in got && e in w.sent
    requires forall j | 0 <= j < |w.nodes| && j != i :: w'.nodes[j].con == w.nodes[j].con
    requires w.nodes[i].con.Drain(got).known <= w'.nodes[i].con.known
    requires w.nodes[i].con.Drain(got).ready <= w'.nodes[i].con.ready
    ensures DeliveredOk(w')
  {
    DrainMarks(cfg, w, i, w.nodes[i].con, got);
    forall e | e in got && e in w.sent
      ensures PacketOk(cfg, w.samples, w.sent, e) && e.dst == i
    {
    }
  }

  /** Packets in order may be added to the network. */
  lemma SendingKeeps(cfg: Config, w: World, out: set<Envelope>)
    requires Inv(cfg, w) && forall e | e in out :: PacketOk(cfg, w.samples, w.sent, e)
    ensures SentOk(cfg, w.samples, w.sent + out)
  {
    forall e | e in w.sent + out
      ensures PacketOk(cfg, w.samples, w.sent + out, e)
    {
      PacketOkGrows(cfg, w.samples, w.samples, w.sent, w.sent + out, e);
    }
  }

  /** Passed frames stay passed while a console drains. */
  lemma HaveGrows(c: Console, c': Console, f: int)
    requires c'.role == c.role && c'.playerCount == c.playerCount && c'.cap == c.cap
    requires c.known <= c'.known && c.ready <= c'.ready && c.Have(f)
    ensures c'.Have(f)
  {
  }

  lemma GreetKeeps(cfg: Config, w: World, a: Action)
    requires Inv(cfg, w) && Enabled(cfg, w, a) && a.Greet?
    ensures Inv(cfg, Apply(w, a))
  {
    var w', i, c := Apply(w, a), a.i, w.nodes[a.i].con;
    var out := set e | e in Sends(w, a);
    HellosAreOk(cfg, w, i, c, c.playerCount);
    SendingKeeps(cfg, w, out);
    DrainKeeps(cfg, w, i, c, a.got);
    DrainedIsMarked(cfg, w, i, a.got, w');
    forall j | 0 <= j < cfg.players
      ensures ConsoleOk(cfg, w'.samples, w'.sent, j, w'.nodes[j].con)
      ensures ProgressOk(cfg, w'.samples, w'.sent, j, w'.nodes[j])
    {
      var con := if j == i then c.Drain(a.got) else w.nodes[j].con;
      ConsoleOkGrows(cfg, w.samples, w.samples, w.sent, w'.sent, j, con);
      ProgressOkGrows(cfg, w.samples, w.samples, w.sent, w'.sent, j, w.nodes[j]);
    }
  }

  /** One console has drained and perhaps marked frames, and datagrams were sent: every console is still well. */
  lemma ConsolesKeep(cfg: Config, w: World, w': World, i: nat)
    requires Inv(cfg, w) && i < cfg.players && |w'.nodes| == |w.nodes| && w'.samples == w.samples && w.sent <= w'.sent
    requires forall j | 0 <= j < cfg.players && j != i :: w'.nodes[j].con == w.nodes[j].con
    requires ConsoleOk(cfg, w.samples, w.sent, i, w'.nodes[i].con)
    ensures forall j | 0 <= j < cfg.players :: ConsoleOk(cfg, w'.samples, w'.sent, j, w'.nodes[j].con)
  {
    forall j | 0 <= j < cfg.players
      ensures ConsoleOk(cfg, w'.samples, w'.sent, j, w'.nodes[j].con)
    {
      ConsoleOkGrows(cfg, w.samples, w.samples, w.sent, w'.sent, j, w'.nodes[j].con);
    }
  }

  lemma OthersProgress(cfg: Config, w: World, w': World, i: nat)
    requires Inv(cfg, w) && |w'.nodes| == |w.nodes| && w'.samples == w.samples && w.sent <= w'.sent
    requires forall j: nat | j < cfg.players && j != i :: w'.nodes[j] == w.nodes[j] && NoInputsOf(w'.sent - w.sent, j)
    ensures forall j | 0 <= j < cfg.players && j != i :: ProgressOk(cfg, w'.samples, w'.sent, j, w'.nodes[j])
  {
    forall j: nat | j < cfg.players && j != i
      ensures ProgressOk(cfg, w'.samples, w'.sent, j, w'.nodes[j])
    {
      ProgressOkGrows(cfg, w.samples, w.samples, w.sent, w'.sent, j, w.nodes[j]);
    }
  }

  /** The host's console after a pump, and what that pump sends. */
  lemma HostPump(cfg: Config, w: World, a: Action)
    requires Inv(cfg, w) && Enabled(cfg, w, a) && a.Pump? && a.i == 0
    ensures var pumped, node := w.nodes[0].con.Pump(w.nodes[0].frame, a.got), w.nodes[0];
            && ConsoleOk(cfg, w.samples, w.sent, 0, pumped)
            && node.con.Drain(a.got).known <= pumped.known && node.con.Drain(a.got).ready <= pumped.ready
            && node.con.known <= pumped.known && node.con.ready <= pumped.ready
            && (pumped.Have(node.frame) ==> Relayed(cfg, w.samples, Apply(w, a).sent, node.frame))
    ensures forall e | e in Sends(w, a) :: PacketOk(cfg, w.samples, w.sent, e) && e.body.kind == AggKind
  {
    var node := w.nodes[0];
    DrainKeeps(cfg, w, 0, node.con, a.got);
    DrainMarks(cfg, w, 0, node.con, a.got);
    RelayIsOk(cfg, w, node.con.Drain(a.got), node.frame, node.frame + cfg.delay + 1);
  }

  lemma HostPumpKeeps(cfg: Config, w: World, a: Action)
    requires Inv(cfg, w) && Enabled(cfg, w, a) && a.Pump? && a.i == 0
    ensures Inv(cfg, Apply(w, a))
  {
    var w', node := Apply(w, a), w.nodes[0];
    HostPump(cfg, w, a);
    SendingKeeps(cfg, w, set e | e in Sends(w, a));
    DrainedIsMarked(cfg, w, 0, a.got, w');
    ConsolesKeep(cfg, w, w', 0);
    OthersProgress(cfg, w, w', 0);
    ProgressOkGrows(cfg, w.samples, w.samples, w.sent, w'.sent, 0, node);
    forall f: nat | f < node.frame
      ensures w'.nodes[0].con.Have(f)
    {
      HaveGrows(node.con, w'.nodes[0].con, f);
    }
  }

  lemma GuestPumpKeeps(cfg: Config, w: World, a: Action)
    requires Inv(cfg, w) && Enabled(cfg, w, a) && a.Pump? && a.i > 0
    ensures Inv(cfg, Apply(w, a))
  {
    var w', i, node := Apply(w, a), a.i, w.nodes[a.i];
    DrainKeeps(cfg, w, i, node.con, a.got);
    DrainMarks(cfg, w, i, node.con, a.got);
    SendWindowIsOk(cfg, w, i, node.con, node.frame);
    SendingKeeps(cfg, w, set e | e in Sends(w, a));
    DrainedIsMarked(cfg, w, i, a.got, w');
    ConsolesKeep(cfg, w, w', i);
    OthersProgress(cfg, w, w', i);
    forall f: nat | f < node.frame
      ensures w'.nodes[i].con.Have(f)
    {
      HaveGrows(node.con, w'.nodes[i].con, f);
    }
    forall f: nat | f <= node.frame
      ensures InputSent(cfg, w'.samples, w'.sent, i, f)
    {
      if f < node.frame {
        InputSentGrows(cfg, w.samples, w.samples, w.sent, w'.sent, i, f);
      }
    }
  }

  lemma StepKeeps(cfg: Config, w: World, w': World)
    requires Inv(cfg, w) && Step(cfg, w, w')
    ensures Inv(cfg, w')
  {
    var a :| Enabled(cfg, w, a) && w' == Apply(w, a);
    match a
    case Greet(_, _) => GreetKeeps(cfg, w, a);
    case Record(_, _) => RecordKeeps(cfg, w, a);
    case Pump(i, _) => if i == 0 { HostPumpKeeps(cfg, w, a); } else { GuestPumpKeeps(cfg, w, a); }
    case Advance(_) => AdvanceKeeps(cfg, w, a);
  }

  lemma {:induction false} PathKeeps(cfg: Config, ws: seq<World>)
    requires Path(cfg, ws) && Inv(cfg, ws[0])
    ensures Inv(cfg, ws[|ws| - 1])
    decreases |ws|
  {
    if |ws| > 1 {
      StepKeeps(cfg, ws[0], ws[1]);
      PathKeeps(cfg, ws[1..]);
    }
  }

  lemma ReachableIsOk(cfg: Config, w: World)
    requires cfg.Valid() && Reachable(cfg, w)
    ensures Inv(cfg, w)
  {
    InitialIsOk(cfg);
    var ws :| Path(cfg, ws) && ws[0] == Initial(cfg) && ws[|ws| - 1] == w;
    PathKeeps(cfg, ws);
  }
}
