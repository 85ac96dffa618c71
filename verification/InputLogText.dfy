/** The sparse input log as entries and as text, and how a reader understands it. */
module InputLogText {
  import opened Common
  import opened Decimal

  datatype Entry = Entry(frame: int, state: int)

  /** One call of the recorder. */
  datatype Call = Call(frame: int, state: int)

  /** state & 0x3F, for a negative state in two's complement. */
  function Mask(state: int): (m: nat)
    ensures m < 64
  {
    state % 64
  }

  /** The low six bits stay and no others count. */
  lemma MaskDropsHighBits(state: int, k: int)
    ensures Mask(state + 64 * k) == Mask(state)
    ensures 0 <= state < 64 ==> Mask(state) == state
  {
    assert (state + 64 * k) % 64 == state % 64;
  }

  function LastState(es: seq<Entry>): int {
    if es == [] then -1 else es[|es| - 1].state
  }

  /** Change-only encoding. */
  function Append(es: seq<Entry>, c: Call): seq<Entry> {
    if Mask(c.state) == LastState(es) then es else es + [Entry(c.frame, Mask(c.state))]
  }

  function Entries(calls: seq<Call>): seq<Entry> {
    if calls == [] then [] else Append(Entries(calls[..|calls| - 1]), calls[|calls| - 1])
  }

  /** The calls that change something: the first, and every one whose masked state is not that of the one before it. */
  ghost predicate AreChanges(calls: seq<Call>, places: seq<nat>) {
    && (forall a, b | 0 <= a < b < |places| :: places[a] < places[b])
    && (forall k: nat :: k in places <==> ChangesAt(calls, k))
  }

  ghost predicate ChangesAt(calls: seq<Call>, k: nat) {
    k < |calls| && (k == 0 || Mask(calls[k].state) != Mask(calls[k - 1].state))
  }

  ghost predicate Logs(es: seq<Entry>, calls: seq<Call>, places: seq<nat>) {
    |es| == |places| && forall j | 0 <= j < |es| ::
      places[j] < |calls| && es[j] == Entry(calls[places[j]].frame, Mask(calls[places[j]].state))
  }

  /** A log has one entry for each of these, in order, and no other. */
  lemma {:induction false} EntriesAre(calls: seq<Call>) returns (places: seq<nat>)
    ensures AreChanges(calls, places) && Logs(Entries(calls), calls, places)
    ensures calls != [] ==> LastState(Entries(calls)) == Mask(calls[|calls| - 1].state)
    decreases |calls|
  {
    if calls == [] {
      places := [];
    } else {
      var n := |calls| - 1;
      var front := EntriesAre(calls[..n]);
      ChangesMore(calls, front);
      LogsMore(Entries(calls[..n]), calls, front);
      OneCallMore(calls);
      places := if ChangesAt(calls, n) then front + [n] else front;
    }
  }

  lemma OneCallMore(calls: seq<Call>)
    requires calls != []
    requires |calls| > 1 ==> LastState(Entries(calls[..|calls| - 1])) == Mask(calls[|calls| - 2].state)
    ensures var n := |calls| - 1; var e := Entry(calls[n].frame, Mask(calls[n].state));
            && Entries(calls) == (if ChangesAt(calls, n) then Entries(calls[..n]) + [e] else Entries(calls[..n]))
            && LastState(Entries(calls)) == Mask(calls[n].state)
  {
  }

  lemma ChangesMore(calls: seq<Call>, front: seq<nat>)
    requires calls != [] && AreChanges(calls[..|calls| - 1], front)
    ensures var n := |calls| - 1; AreChanges(calls, if ChangesAt(calls, n) then front + [n] else front)
  {
    var n := |calls| - 1;
    forall k: nat
      ensures k in front <==> k < n && ChangesAt(calls, k)
    {
      assert k in front <==> ChangesAt(calls[..n], k);
    }
    forall j | 0 <= j < |front|
      ensures front[j] < n
    {
      assert front[j] in front;
    }
    forall k: nat
      ensures k in front + [n] <==> k in front || k == n
    {
    }
  }

  lemma LogsMore(es: seq<Entry>, calls: seq<Call>, front: seq<nat>)
    requires calls != [] && Logs(es, calls[..|calls| - 1], front)
    ensures var n := |calls| - 1;
            Logs(es, calls, front) && Logs(es + [Entry(calls[n].frame, Mask(calls[n].state))], calls, front + [n])
  {
  }

  function PrintEntry(e: Entry): string {
    PrintInt(e.frame) + ":" + PrintInt(e.state)
  }

  function Render(es: seq<Entry>): string {
    if es == [] then []
    else if |es| == 1 then PrintEntry(es[0])
    else Render(es[..|es| - 1]) + "," + PrintEntry(es[|es| - 1])
  }

  // ---- the reader ----

  function ParseEntry(piece: string): Option<Entry> {
    var parts := Split(piece, ':');
    if |parts| != 2 then None
    else match (Decimal.Parse(parts[0]), Decimal.Parse(parts[1]))
         case (Some(frame), Some(state)) => Some(Entry(frame, state))
         case _ => None
  }

  function ParseEntries(pieces: seq<string>): Option<seq<Entry>> {
    if pieces == [] then Some([])
    else match (ParseEntries(pieces[..|pieces| - 1]), ParseEntry(pieces[|pieces| - 1]))
         case (Some(es), Some(e)) => Some(es + [e])
         case _ => None
  }

  /** Reads a comma-joined list of frame:state pairs; the empty text is the empty list. */
  function Parse(text: string): Option<seq<Entry>> {
    if text == [] then Some([]) else ParseEntries(Split(text, ','))
  }

  /** The state in effect at frame f: the latest entry with frame <= f, by default 0. */
  function StateAt(es: seq<Entry>, f: int): int {
    if es == [] then 0
    else if es[|es| - 1].frame <= f then es[|es| - 1].state
    else StateAt(es[..|es| - 1], f)
  }

  /** What the reader's rules demand of a log. */
  ghost predicate WellFormed(es: seq<Entry>) {
    && (forall i | 0 <= i < |es| :: 0 <= es[i].frame && 0 <= es[i].state < 64)
    && (forall i, j | 0 <= i < j < |es| :: es[i].frame < es[j].frame)
    && (forall i | 0 < i < |es| :: es[i - 1].state != es[i].state)
  }

  ghost predicate Ascending(calls: seq<Call>) {
    && (forall i | 0 <= i < |calls| :: 0 <= calls[i].frame)
    && (forall i, j | 0 <= i < j < |calls| :: calls[i].frame < calls[j].frame)
  }

  // ---- round trip ----

  lemma PrintedEntryParses(e: Entry)
    requires 0 <= e.frame && 0 <= e.state
    ensures ParseEntry(PrintEntry(e)) == Some(e)
    ensures ',' !in PrintEntry(e)
  {
    var a, b := Print(e.frame), Print(e.state);
    assert PrintEntry(e) == a + [':'] + b;
    SplitLast(a, ':', b);
    SplitPlain(a, ':');
    ParsePrint(e.frame);
    ParsePrint(e.state);
  }

  ghost predicate NonNegative(es: seq<Entry>) {
    forall i | 0 <= i < |es| :: 0 <= es[i].frame && 0 <= es[i].state
  }

  /** One piece more is one entry more. */
  lemma PieceMore(pieces: seq<string>, es: seq<Entry>, piece: string, e: Entry)
    requires ParseEntries(pieces) == Some(es) && ParseEntry(piece) == Some(e)
    ensures ParseEntries(pieces + [piece]) == Some(es + [e])
  {
    assert (pieces + [piece])[..|pieces|] == pieces;
  }

  lemma RenderMore(front: seq<Entry>, last: Entry)
    requires front != []
    ensures Render(front + [last]) == Render(front) + [','] + PrintEntry(last)
  {
    assert (front + [last])[..|front|] == front;
  }

  lemma FirstPiece(e: Entry)
    requires 0 <= e.frame && 0 <= e.state
    ensures ParseEntries(Split(PrintEntry(e), ',')) == Some([e])
  {
    PrintedEntryParses(e);
    SplitPlain(PrintEntry(e), ',');
    PieceMore([], [], PrintEntry(e), e);
    assert [] + [PrintEntry(e)] == [PrintEntry(e)];
    assert [] + [e] == [e];
  }

  lemma {:induction false} RenderedPieces(es: seq<Entry>)
    requires es != [] && NonNegative(es)
    ensures Render(es) != [] && ParseEntries(Split(Render(es), ',')) == Some(es)
    decreases |es|
  {
    var front, last := es[..|es| - 1], es[|es| - 1];
    assert es == front + [last];
    PrintedEntryParses(last);
    if |es| == 1 {
      FirstPiece(last);
    } else {
      RenderedPieces(front);
      RenderMore(front, last);
      SplitLast(Render(front), ',', PrintEntry(last));
      PieceMore(Split(Render(front), ','), front, PrintEntry(last), last);
    }
  }

  /** Whatever is written can be read back. */
  lemma RoundTrip(es: seq<Entry>)
    requires NonNegative(es)
    ensures Parse(Render(es)) == Some(es)
  {
    if es != [] {
      RenderedPieces(es);
    }
  }

  /** The documentation's example, printed. */
  lemma DocumentedLog()
    ensures Render([Entry(0, 0), Entry(40, 2), Entry(95, 1), Entry(210, 0)]) == "0:0,40:2,95:1,210:0"
  {
    var first, second, third := [Entry(0, 0)], [Entry(0, 0), Entry(40, 2)], [Entry(0, 0), Entry(40, 2), Entry(95, 1)];
    RenderMore(first, Entry(40, 2));
    RenderMore(second, Entry(95, 1));
    RenderMore(third, Entry(210, 0));
    assert first + [Entry(40, 2)] == second;
    assert second + [Entry(95, 1)] == third;
    assert third + [Entry(210, 0)] == [Entry(0, 0), Entry(40, 2), Entry(95, 1), Entry(210, 0)];
    DecimalDigits(4, 0);
    DecimalDigits(0, 4);
    DecimalDigits(9, 5);
    DecimalDigits(0, 9);
    DecimalDigits(2, 1);
    DecimalDigits(21, 0);
    DecimalDigits(0, 2);
    assert Render(second) == "0:0,40:2";
    assert Render(third) == "0:0,40:2,95:1";
  }

  // ---- what recording promises ----

  lemma {:induction false} EntriesComeFromCalls(calls: seq<Call>)
    ensures forall e | e in Entries(calls) :: exists c :: c in calls && e == Entry(c.frame, Mask(c.state))
    decreases |calls|
  {
    if calls != [] {
      EntriesComeFromCalls(calls[..|calls| - 1]);
      forall e | e in Entries(calls)
        ensures exists c :: c in calls && e == Entry(c.frame, Mask(c.state))
      {
        if e in Entries(calls[..|calls| - 1]) {
          var c :| c in calls[..|calls| - 1] && e == Entry(c.frame, Mask(c.state));
          assert c in calls;
        } else {
          assert calls[|calls| - 1] in calls;
        }
      }
    }
  }

  /** Recording at ascending frames keeps the reader's rules. */
  lemma {:induction false} RecordingIsWellFormed(calls: seq<Call>)
    requires Ascending(calls)
    ensures WellFormed(Entries(calls))
    decreases |calls|
  {
    if calls != [] {
      var front, last := calls[..|calls| - 1], calls[|calls| - 1];
      RecordingIsWellFormed(front);
      EntriesComeFromCalls(front);
      forall i | 0 <= i < |Entries(front)|
        ensures Entries(front)[i].frame < last.frame
      {
        assert Entries(front)[i] in Entries(front);
        var c :| c in front && Entries(front)[i] == Entry(c.frame, Mask(c.state));
      }
    }
  }

  /** What the caller said last at or before frame f, masked; by default 0. */
  function SaidAt(calls: seq<Call>, f: int): nat {
    if calls == [] then 0
    else if calls[|calls| - 1].frame <= f then Mask(calls[|calls| - 1].state)
    else SaidAt(calls[..|calls| - 1], f)
  }

  ghost predicate InOrder(calls: seq<Call>) {
    forall i, j | 0 <= i < j < |calls| :: calls[i].frame <= calls[j].frame
  }

  /** Leaving out unchanged states loses nothing: the reader sees at every frame what the caller last said. */
  lemma {:induction false} LogMeansWhatWasSaid(calls: seq<Call>, f: int)
    requires InOrder(calls)
    ensures StateAt(Entries(calls), f) == SaidAt(calls, f)
    decreases |calls|
  {
    if calls != [] {
      var front, last := calls[..|calls| - 1], calls[|calls| - 1];
      LogMeansWhatWasSaid(front, f);
      var es := Entries(front);
      if Mask(last.state) == LastState(es) && last.frame <= f {
        assert es[|es| - 1] in es;
        EntriesComeFromCalls(front);
        var c :| c in front && es[|es| - 1] == Entry(c.frame, Mask(c.state));
      }
    }
  }

  /** The calls of a game that records every frame from 0 on. */
  function EveryFrame(states: seq<int>): (calls: seq<Call>)
    ensures |calls| == |states|
  {
    seq(|states|, f requires 0 <= f < |states| => Call(f, states[f]))
  }

  lemma {:induction false} SaidEveryFrame(states: seq<int>, f: nat)
    requires f < |states|
    ensures SaidAt(EveryFrame(states), f) == Mask(states[f])
    decreases |states|
  {
    var front := states[..|states| - 1];
    assert EveryFrame(states)[..|states| - 1] == EveryFrame(front);
    if f < |states| - 1 {
      SaidEveryFrame(front, f);
    }
  }

  /** A log of every frame, written and read back, gives each frame its masked state. */
  lemma LogOfEveryFrame(states: seq<int>, f: nat)
    requires f < |states|
    ensures WellFormed(Entries(EveryFrame(states)))
    ensures Parse(Render(Entries(EveryFrame(states)))) == Some(Entries(EveryFrame(states)))
    ensures StateAt(Entries(EveryFrame(states)), f) == Mask(states[f])
  {
    RecordingIsWellFormed(EveryFrame(states));
    RoundTrip(Entries(EveryFrame(states)));
    LogMeansWhatWasSaid(EveryFrame(states), f);
    SaidEveryFrame(states, f);
  }
}
