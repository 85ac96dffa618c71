/** The handshake of the host-relay protocol, told from what its rounds contain. */
module HandshakeOutcome {
  import opened Common
  import opened Frames
  import opened Wire
  import opened RelayConsole
  import opened RelayOutcomes

  /** A packet that carries player p came in one of the first n rounds. */
  ghost predicate HeardIn(rounds: seq<seq<Envelope>>, n: nat, p: nat)
    requires n <= |rounds|
  {
    exists r, k :: 0 <= r < n && 0 <= k < |rounds[r]| && Names(rounds[r][k], p)
  }

  /** The host has an address of guest p by the end of round n. */
  ghost predicate HeardBy(c: Console, rounds: seq<seq<Envelope>>, n: nat, p: nat)
    requires n <= |rounds|
  {
    p in c.gpeer || HeardIn(rounds, n, p)
  }

  /** Nothing after packet k of round r carries player p. */
  ghost predicate LastWord(rounds: seq<seq<Envelope>>, n: nat, p: nat, r: nat, k: nat)
    requires r < n <= |rounds| && k < |rounds[r]|
  {
    && Names(rounds[r][k], p)
    && (forall j | k < j < |rounds[r]| :: !Names(rounds[r][j], p))
    && (forall q, j | r < q < n && 0 <= j < |rounds[q]| :: !Names(rounds[q][j], p))
  }

  /** Where the host sends what is for guest p: where the last packet that carried p came from, else where it was before. */
  ghost predicate AddressIs(c: Console, rounds: seq<seq<Envelope>>, n: nat, p: nat, address: nat)
    requires n <= |rounds|
  {
    || (exists r: nat, k: nat :: r < n && k < |rounds[r]| && LastWord(rounds, n, p, r, k) && address == rounds[r][k].src)
    || (!HeardIn(rounds, n, p) && p in c.gpeer && address == c.gpeer[p])
  }

  ghost predicate AllHeard(c: Console, rounds: seq<seq<Envelope>>, n: nat)
    requires n <= |rounds|
  {
    forall p: nat | 0 < p < c.playerCount :: HeardBy(c, rounds, n, p)
  }

  /** Frame 0 was relayed in one of the first n rounds. */
  ghost predicate StartedIn(rounds: seq<seq<Envelope>>, n: nat)
    requires n <= |rounds|
  {
    exists r, k :: 0 <= r < n && 0 <= k < |rounds[r]| && BringsFrame(rounds[r][k], 0)
  }

  /** What a handshake waits for: on the host, every guest; on a guest, frame 0. */
  ghost predicate LinkedBy(c: Console, rounds: seq<seq<Envelope>>, n: nat)
    requires n <= |rounds|
  {
    if c.role == 0 then AllHeard(c, rounds, n) else 0 in c.ready || StartedIn(rounds, n)
  }

  /** The rounds a handshake meets: up to the first that links, or all of them. */
  ghost predicate Meets(c: Console, rounds: seq<seq<Envelope>>, n: nat) {
    && n <= |rounds| && (forall m | 0 < m < n :: !LinkedBy(c, rounds, m))
    && (n == |rounds| || (0 < n && LinkedBy(c, rounds, n)))
  }

  ghost predicate SomeRoundLinks(c: Console, rounds: seq<seq<Envelope>>) {
    exists m: nat :: 0 < m <= |rounds| && LinkedBy(c, rounds, m)
  }

  ghost predicate IsHello(e: Envelope, role: nat) {
    e.src == role && e.body == Packet(HelloKind, -1, role, 0, [0, 0, 0, 0, 0, 0, 0, 0])
  }

  /** What round r + 1 says: a guest one hello to the host, the host one to each guest heard before that round, in roster
      order, where it was last heard. */
  ghost predicate Says(c: Console, rounds: seq<seq<Envelope>>, r: nat, part: seq<Envelope>)
    requires r < |rounds|
  {
    if c.role != 0 then |part| == 1 && part[0].dst == 0 && IsHello(part[0], c.role)
    else exists who :: SaidTo(c, rounds, r, part, who)
  }

  ghost predicate SaidTo(c: Console, rounds: seq<seq<Envelope>>, r: nat, part: seq<Envelope>, who: seq<nat>)
    requires r < |rounds|
  {
    && |who| == |part| && Ascending(who)
    && (forall p: nat :: p in who <==> 0 < p < c.playerCount && HeardBy(c, rounds, r, p))
    && (forall k | 0 <= k < |who| :: IsHello(part[k], 0) && AddressIs(c, rounds, r, who[k], part[k].dst))
  }

  // ---- one round earlier ----

  ghost predicate NamedIn(got: seq<Envelope>, p: nat) {
    exists k :: 0 <= k < |got| && Names(got[k], p)
  }

  lemma HeardFirst(rounds: seq<seq<Envelope>>, n: nat, p: nat)
    requires rounds != [] && n < |rounds|
    ensures HeardIn(rounds, n + 1, p) <==> NamedIn(rounds[0], p) || HeardIn(rounds[1..], n, p)
  {
    if HeardIn(rounds[1..], n, p) {
      var r, k :| 0 <= r < n && 0 <= k < |rounds[1..][r]| && Names(rounds[1..][r][k], p);
      assert rounds[r + 1] == rounds[1..][r];
    }
    if HeardIn(rounds, n + 1, p) {
      var r, k :| 0 <= r < n + 1 && 0 <= k < |rounds[r]| && Names(rounds[r][k], p);
      if r > 0 {
        assert rounds[1..][r - 1] == rounds[r];
      }
    }
  }

  /** A round met is a round less to come, on a console that has drained it. */
  lemma HeardFurther(c: Console, rounds: seq<seq<Envelope>>, n: nat, p: nat)
    requires c.Valid() && c.role == 0 && rounds != [] && n < |rounds| && 0 < p < c.playerCount
    ensures HeardBy(c.Drain(rounds[0]), rounds[1..], n, p) <==> HeardBy(c, rounds, n + 1, p)
  {
    HostLearnsAddresses(c, rounds[0], p);
    HeardFirst(rounds, n, p);
  }

  lemma {:induction false} LastOf(got: seq<Envelope>, p: nat, k: nat) returns (l: nat)
    requires k < |got| && Names(got[k], p)
    ensures k <= l < |got| && Names(got[l], p) && forall j | l < j < |got| :: !Names(got[j], p)
    decreases |got| - k
  {
    if j :| k < j < |got| && Names(got[j], p) {
      l := LastOf(got, p, j);
    } else {
      l := k;
    }
  }

  lemma AddressFurther(c: Console, rounds: seq<seq<Envelope>>, n: nat, p: nat, address: nat)
    requires c.Valid() && c.role == 0 && rounds != [] && n < |rounds| && 0 < p < c.playerCount
    requires AddressIs(c.Drain(rounds[0]), rounds[1..], n, p, address)
    ensures AddressIs(c, rounds, n + 1, p, address)
  {
    HostLearnsAddresses(c, rounds[0], p);
    if HeardIn(rounds[1..], n, p) {
      var r: nat, k: nat :| r < n && k < |rounds[1..][r]| && LastWord(rounds[1..], n, p, r, k) && address == rounds[1..][r][k].src;
      LastWordLater(rounds, n, p, r, k);
    } else {
      NothingLater(rounds, n, p);
      if k :| 0 <= k < |rounds[0]| && Names(rounds[0][k], p) {
        var l := LastOf(rounds[0], p, k);
        assert LastWord(rounds, n + 1, p, 0, l);
      }
    }
  }

  lemma LastWordLater(rounds: seq<seq<Envelope>>, n: nat, p: nat, r: nat, k: nat)
    requires rounds != [] && r < n < |rounds| && k < |rounds[1..][r]| && LastWord(rounds[1..], n, p, r, k)
    ensures k < |rounds[r + 1]| && LastWord(rounds, n + 1, p, r + 1, k) && rounds[r + 1] == rounds[1..][r]
  {
    forall q, j | r + 1 < q < n + 1 && 0 <= j < |rounds[q]|
      ensures !Names(rounds[q][j], p)
    {
      assert rounds[1..][q - 1] == rounds[q];
    }
  }

  lemma NothingLater(rounds: seq<seq<Envelope>>, n: nat, p: nat)
    requires rounds != [] && n < |rounds| && !HeardIn(rounds[1..], n, p)
    ensures forall q, j | 0 < q < n + 1 && 0 <= j < |rounds[q]| :: !Names(rounds[q][j], p)
  {
    forall q, j | 0 < q < n + 1 && 0 <= j < |rounds[q]|
      ensures !Names(rounds[q][j], p)
    {
      assert rounds[1..][q - 1] == rounds[q];
    }
  }

  ghost predicate BroughtIn(got: seq<Envelope>, f: nat) {
    exists k :: 0 <= k < |got| && BringsFrame(got[k], f)
  }

  lemma StartedFirst(rounds: seq<seq<Envelope>>, n: nat)
    requires rounds != [] && n < |rounds|
    ensures StartedIn(rounds, n + 1) <==> BroughtIn(rounds[0], 0) || StartedIn(rounds[1..], n)
  {
    if StartedIn(rounds[1..], n) {
      var r, k :| 0 <= r < n && 0 <= k < |rounds[1..][r]| && BringsFrame(rounds[1..][r][k], 0);
      assert rounds[r + 1] == rounds[1..][r];
    }
    if StartedIn(rounds, n + 1) {
      var r, k :| 0 <= r < n + 1 && 0 <= k < |rounds[r]| && BringsFrame(rounds[r][k], 0);
      if r > 0 {
        assert rounds[1..][r - 1] == rounds[r];
      }
    }
  }

  lemma StartedFurther(c: Console, rounds: seq<seq<Envelope>>, n: nat)
    requires c.Valid() && c.role != 0 && 0 < c.cap && rounds != [] && n < |rounds|
    ensures (0 in c.Drain(rounds[0]).ready || StartedIn(rounds[1..], n)) <==> (0 in c.ready || StartedIn(rounds, n + 1))
  {
    GuestTakesFrames(c, rounds[0], 0, 0);
    StartedFirst(rounds, n);
  }

  lemma AllHeardFurther(c: Console, rounds: seq<seq<Envelope>>, n: nat)
    requires c.Valid() && c.role == 0 && rounds != [] && n < |rounds|
    ensures AllHeard(c.Drain(rounds[0]), rounds[1..], n) <==> AllHeard(c, rounds, n + 1)
  {
    var d, m, rest := c.Drain(rounds[0]), n + 1, rounds[1..];
    if AllHeard(d, rest, n) {
      forall p: nat | 0 < p < c.playerCount
        ensures HeardBy(c, rounds, m, p)
      {
        assert HeardBy(d, rest, n, p);
        HeardFurther(c, rounds, n, p);
      }
    }
    if AllHeard(c, rounds, m) {
      forall p: nat | 0 < p < d.playerCount
        ensures HeardBy(d, rest, n, p)
      {
        assert HeardBy(c, rounds, m, p);
        HeardFurther(c, rounds, n, p);
      }
    }
  }

  lemma LinkedFurther(c: Console, rounds: seq<seq<Envelope>>, n: nat)
    requires c.Valid() && 0 < c.cap && rounds != [] && n < |rounds|
    ensures LinkedBy(c.Drain(rounds[0]), rounds[1..], n) <==> LinkedBy(c, rounds, n + 1)
  {
    if c.role == 0 {
      AllHeardFurther(c, rounds, n);
    } else {
      StartedFurther(c, rounds, n);
    }
  }

  /** Before any round. */
  lemma LinkedAtOnce(d: Console, rounds: seq<seq<Envelope>>)
    requires d.Valid()
    ensures d.Linked() <==> LinkedBy(d, rounds, 0)
  {
    if d.role == 0 {
      forall p: nat
        ensures HeardBy(d, rounds, 0, p) <==> p in d.gpeer
      {
      }
    }
  }

  /** The verdict after one round. */
  lemma LinkedNow(c: Console, rounds: seq<seq<Envelope>>)
    requires c.Valid() && 0 < c.cap && rounds != []
    ensures c.Drain(rounds[0]).Linked() <==> LinkedBy(c, rounds, 1)
  {
    LinkedFurther(c, rounds, 0);
    LinkedAtOnce(c.Drain(rounds[0]), rounds[1..]);
  }

  lemma SaysFurther(c: Console, rounds: seq<seq<Envelope>>, r: nat, part: seq<Envelope>)
    requires c.Valid() && rounds != [] && r + 1 < |rounds| && Says(c.Drain(rounds[0]), rounds[1..], r, part)
    ensures Says(c, rounds, r + 1, part)
  {
    if c.role == 0 {
      var who :| SaidTo(c.Drain(rounds[0]), rounds[1..], r, part, who);
      SaidFurther(c, rounds, r, part, who);
    }
  }

  lemma SaidFurther(c: Console, rounds: seq<seq<Envelope>>, r: nat, part: seq<Envelope>, who: seq<nat>)
    requires c.Valid() && c.role == 0 && rounds != [] && r + 1 < |rounds|
    requires SaidTo(c.Drain(rounds[0]), rounds[1..], r, part, who)
    ensures SaidTo(c, rounds, r + 1, part, who)
  {
    forall p: nat
      ensures p in who <==> 0 < p < c.playerCount && HeardBy(c, rounds, r + 1, p)
    {
      SaidFurtherTo(c, rounds, r, part, who, p);
    }
    forall k | 0 <= k < |who|
      ensures AddressIs(c, rounds, r + 1, who[k], part[k].dst)
    {
      assert who[k] in who;
      AddressFurther(c, rounds, r, who[k], part[k].dst);
    }
  }

  lemma SaidFurtherTo(c: Console, rounds: seq<seq<Envelope>>, r: nat, part: seq<Envelope>, who: seq<nat>, p: nat)
    requires c.Valid() && c.role == 0 && rounds != [] && r + 1 < |rounds|
    requires SaidTo(c.Drain(rounds[0]), rounds[1..], r, part, who)
    ensures p in who <==> 0 < p < c.playerCount && HeardBy(c, rounds, r + 1, p)
  {
    assert p in who <==> 0 < p < c.playerCount && HeardBy(c.Drain(rounds[0]), rounds[1..], r, p);
    if 0 < p < c.playerCount {
      HeardFurther(c, rounds, r, p);
    }
  }

  /** What the first round says. */
  lemma {:induction false} HellosInOrder(c: Console, k: nat) returns (who: seq<nat>)
    requires c.Valid() && c.role == 0 && k <= c.playerCount
    ensures AreHeard(c, who, k) && |c.Hellos(k)| == |who|
    ensures forall j | 0 <= j < |who| :: who[j] in c.gpeer && IsHello(c.Hellos(k)[j], 0) && c.Hellos(k)[j].dst == c.gpeer[who[j]]
    decreases k
  {
    if k <= 1 {
      who := [];
    } else {
      who := HellosInOrder(c, k - 1);
      HeardAlso(c, who, k - 1);
      who := if k - 1 in c.gpeer then who + [k - 1] else who;
    }
  }

  lemma SaysFirst(c: Console, rounds: seq<seq<Envelope>>)
    requires c.Valid() && rounds != []
    ensures Says(c, rounds, 0, c.Hellos(c.playerCount))
  {
    if c.role == 0 {
      var who := HellosInOrder(c, c.playerCount);
      assert SaidTo(c, rounds, 0, c.Hellos(c.playerCount), who);
    }
  }

  // ---- the whole handshake ----

  lemma NothingMet(c: Console, p: nat)
    ensures Meets(c, [], 0) && !SomeRoundLinks(c, []) && (HeardBy(c, [], 0, p) <==> p in c.gpeer)
    ensures p in c.gpeer ==> AddressIs(c, [], 0, p, c.gpeer[p])
  {
  }

  /** The handshake, exactly. It succeeds if and only if some round links: on the host, when by its end every guest has an
      address from before or a packet that carries it, hello or input, has come; on a guest, when frame 0 has been relayed.
      It meets the rounds up to the first such, and says in each what Says tells. */
  lemma {:induction false} HandshakeVerdict(c: Console, rounds: seq<seq<Envelope>>, said: seq<Envelope>)
      returns (n: nat, parts: seq<seq<Envelope>>)
    requires c.Valid() && 0 < c.cap
    ensures var h := HandshakeRun(c, rounds, said);
            && Meets(c, rounds, n) && (h.ok <==> SomeRoundLinks(c, rounds))
            && |parts| == n && h.sent == said + Concat(parts) && (forall r | 0 <= r < n :: Says(c, rounds, r, parts[r]))
    decreases |rounds|
  {
    if rounds == [] {
      n, parts := 0, [];
      NothingMet(c, 0);
      assert said + [] == said;
    } else {
      var d, now := c.Drain(rounds[0]), c.Hellos(c.playerCount);
      LinkedNow(c, rounds);
      SaysFirst(c, rounds);
      if d.Linked() {
        n, parts := 1, [now];
        assert Concat([now]) == now by {
          assert [now][1..] == [] && now + [] == now;
        }
      } else {
        var m, rest := HandshakeVerdict(d, rounds[1..], said + now);
        n, parts := m + 1, [now] + rest;
        MeetsFurther(c, rounds, m);
        assert parts[1..] == rest;
        assert said + now + Concat(rest) == said + (now + Concat(rest));
        forall r | 0 <= r < n
          ensures Says(c, rounds, r, parts[r])
        {
          if r > 0 {
            SaysFurther(c, rounds, r - 1, parts[r]);
          }
        }
      }
    }
  }

  lemma MeetsFurther(c: Console, rounds: seq<seq<Envelope>>, m: nat)
    requires c.Valid() && 0 < c.cap && rounds != [] && !LinkedBy(c, rounds, 1) && Meets(c.Drain(rounds[0]), rounds[1..], m)
    ensures Meets(c, rounds, m + 1)
    ensures SomeRoundLinks(c, rounds) <==> SomeRoundLinks(c.Drain(rounds[0]), rounds[1..])
  {
    forall n: nat | n < |rounds|
      ensures LinkedBy(c.Drain(rounds[0]), rounds[1..], n) <==> LinkedBy(c, rounds, n + 1)
    {
      LinkedFurther(c, rounds, n);
    }
    if SomeRoundLinks(c, rounds) {
      var k: nat :| 0 < k <= |rounds| && LinkedBy(c, rounds, k);
      assert LinkedBy(c.Drain(rounds[0]), rounds[1..], k - 1);
    }
    if SomeRoundLinks(c.Drain(rounds[0]), rounds[1..]) {
      var k: nat :| 0 < k <= |rounds| - 1 && LinkedBy(c.Drain(rounds[0]), rounds[1..], k);
      assert LinkedBy(c, rounds, k + 1);
    }
    forall k | 0 < k < m + 1
      ensures !LinkedBy(c, rounds, k)
    {
      if k > 1 {
        assert !LinkedBy(c.Drain(rounds[0]), rounds[1..], k - 1);
      }
    }
  }

  /** Afterwards the host has the address of exactly the guests it had or has heard in a round it met, each where it was
      heard last. */
  lemma {:induction false} HandshakeAddresses(c: Console, rounds: seq<seq<Envelope>>, said: seq<Envelope>, n: nat, p: nat)
    requires c.Valid() && c.role == 0 && 0 < c.cap && Meets(c, rounds, n) && 0 < p < c.playerCount
    ensures var h := HandshakeRun(c, rounds, said);
            && (p in h.con.gpeer <==> HeardBy(c, rounds, n, p))
            && (p in h.con.gpeer ==> AddressIs(c, rounds, n, p, h.con.gpeer[p]))
    decreases |rounds|
  {
    if rounds == [] {
      NothingMet(c, p);
    } else {
      var d := c.Drain(rounds[0]);
      LinkedNow(c, rounds);
      HeardFurther(c, rounds, n - 1, p);
      if d.Linked() {
        if p in d.gpeer {
          assert !HeardIn(rounds[1..], 0, p);
          AddressFurther(c, rounds, 0, p, d.gpeer[p]);
        }
      } else {
        MeetsBack(c, rounds, n);
        HandshakeAddresses(d, rounds[1..], said + c.Hellos(c.playerCount), n - 1, p);
        var h := HandshakeRun(c, rounds, said);
        if p in h.con.gpeer {
          AddressFurther(c, rounds, n - 1, p, h.con.gpeer[p]);
        }
      }
    }
  }

  lemma MeetsBack(c: Console, rounds: seq<seq<Envelope>>, n: nat)
    requires c.Valid() && 0 < c.cap && rounds != [] && !LinkedBy(c, rounds, 1) && Meets(c, rounds, n)
    ensures 0 < n && Meets(c.Drain(rounds[0]), rounds[1..], n - 1)
  {
    forall k: nat | k < |rounds|
      ensures LinkedBy(c.Drain(rounds[0]), rounds[1..], k) <==> LinkedBy(c, rounds, k + 1)
    {
      LinkedFurther(c, rounds, k);
    }
    forall k | 0 < k < n - 1
      ensures !LinkedBy(c.Drain(rounds[0]), rounds[1..], k)
    {
      assert !LinkedBy(c, rounds, k + 1);
    }
  }
}
