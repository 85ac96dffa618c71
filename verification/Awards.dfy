/** Which achievements are awarded, and which toasts were shown. */
module Awards {
  import opened Common

  const XBL_ACH_MAX := 32

  type Id = Option<string>

  datatype Mark = Award(id: Id) | Silent(id: Id)

  /** A catalog, whether there is a toast callback, the flags, and the toasts shown since the flags were last cleared. */
  datatype Board = Board(ids: seq<Id>, toasting: bool, awarded: seq<bool>, shown: seq<nat>)

  predicate Sized(b: Board) {
    |b.ids| <= |b.awarded|
  }

  /** The first place of an id in the catalog, or -1. */
  function Index(ids: seq<Id>, id: Id): (i: int)
    ensures -1 <= i < |ids|
    ensures i >= 0 ==> ids[i] == id && id.Some? && id !in ids[..i]
    ensures i == -1 ==> id.None? || id !in ids
  {
    if ids == [] || id == None then -1
    else
      var i := Index(ids[..|ids| - 1], id);
      if i >= 0 then assert ids[..|ids| - 1][..i] == ids[..i]; i
      else if ids[|ids| - 1] == id then |ids| - 1
      else
        assert ids == ids[..|ids| - 1] + [ids[|ids| - 1]];
        -1
  }

  function Apply(b: Board, m: Mark): (r: Board)
    requires Sized(b)
    ensures r.ids == b.ids && r.toasting == b.toasting && |r.awarded| == |b.awarded|
  {
    var i := Index(b.ids, m.id);
    if i < 0 || b.awarded[i] then b
    else b.(awarded := b.awarded[i := true],
            shown := if m.Award? && b.toasting then b.shown + [i] else b.shown)
  }

  function Run(b: Board, marks: seq<Mark>): (r: Board)
    requires Sized(b)
    ensures r.ids == b.ids && r.toasting == b.toasting && |r.awarded| == |b.awarded|
  {
    if marks == [] then b else Apply(Run(b, marks[..|marks| - 1]), marks[|marks| - 1])
  }

  function Cleared(ids: seq<Id>, toasting: bool): (b: Board)
    requires |ids| <= XBL_ACH_MAX
    ensures Sized(b) && b.shown == [] && forall i | 0 <= i < |b.awarded| :: !b.awarded[i]
  {
    Board(ids, toasting, seq(XBL_ACH_MAX, _ => false), [])
  }

  // ---- each toast at most once, and none after a silent mark ----

  ghost predicate Named(ids: seq<Id>, marks: seq<Mark>, i: nat) {
    exists k :: 0 <= k < |marks| && Index(ids, marks[k].id) == i
  }

  /** The first mark that names achievement i is an award, not a silent mark. */
  ghost predicate AwardedFirst(ids: seq<Id>, marks: seq<Mark>, i: nat) {
    exists k :: 0 <= k < |marks| && Index(ids, marks[k].id) == i && marks[k].Award? && !Named(ids, marks[..k], i)
  }

  lemma NamedStep(ids: seq<Id>, front: seq<Mark>, m: Mark, i: nat)
    ensures Named(ids, front + [m], i) <==> Named(ids, front, i) || Index(ids, m.id) == i
  {
    var marks := front + [m];
    if Named(ids, front, i) {
      var k :| 0 <= k < |front| && Index(ids, front[k].id) == i;
      assert marks[k] == front[k];
    }
    if Index(ids, m.id) == i {
      assert marks[|front|] == m;
    }
    if Named(ids, marks, i) && Index(ids, m.id) != i {
      var k :| 0 <= k < |marks| && Index(ids, marks[k].id) == i;
      assert marks[k] == front[k];
    }
  }

  lemma AwardedFirstStep(ids: seq<Id>, front: seq<Mark>, m: Mark, i: nat)
    ensures AwardedFirst(ids, front + [m], i) <==>
            AwardedFirst(ids, front, i) || (!Named(ids, front, i) && m.Award? && Index(ids, m.id) == i)
  {
    var marks := front + [m];
    forall k | 0 <= k < |front|
      ensures marks[..k] == front[..k] && marks[k] == front[k]
    {
    }
    assert marks[..|front|] == front && marks[|front|] == m;
    if AwardedFirst(ids, front, i) {
      var k :| 0 <= k < |front| && Index(ids, front[k].id) == i && front[k].Award? && !Named(ids, front[..k], i);
      assert marks[k] == front[k] && marks[..k] == front[..k];
    }
    if AwardedFirst(ids, marks, i) {
      var k :| 0 <= k < |marks| && Index(ids, marks[k].id) == i && marks[k].Award? && !Named(ids, marks[..k], i);
      assert k < |front| ==> marks[k] == front[k] && marks[..k] == front[..k];
    }
  }

  /** After any marks since the flags were cleared, achievement i is awarded exactly when it was named, and its toast was
      shown exactly once if its first mark was an award, and never otherwise. */
  lemma {:induction false} ToastedOnce(ids: seq<Id>, toasting: bool, marks: seq<Mark>, i: nat)
    requires i < |ids| <= XBL_ACH_MAX
    ensures var b := Run(Cleared(ids, toasting), marks);
            (b.awarded[i] <==> Named(ids, marks, i)) &&
            multiset(b.shown)[i] == if toasting && AwardedFirst(ids, marks, i) then 1 else 0
    decreases |marks|
  {
    if marks != [] {
      var front, m := marks[..|marks| - 1], marks[|marks| - 1];
      assert marks == front + [m];
      ToastedOnce(ids, toasting, front, i);
      NamedStep(ids, front, m, i);
      AwardedFirstStep(ids, front, m, i);
      AwardedFirstIsNamed(ids, front, i);
      ToastOne(Run(Cleared(ids, toasting), front), m, i);
    }
  }

  lemma ToastOne(b: Board, m: Mark, i: nat)
    requires Sized(b) && i < |b.ids|
    ensures var named, r := Index(b.ids, m.id) == i, Apply(b, m);
            && (r.awarded[i] <==> b.awarded[i] || named)
            && multiset(r.shown)[i] == multiset(b.shown)[i] + if named && !b.awarded[i] && m.Award? && b.toasting then 1 else 0
  {
  }

  lemma AwardedFirstJoined(ids: seq<Id>, first: seq<Mark>, more: seq<Mark>, i: nat)
    ensures AwardedFirst(ids, first + more, i) <==>
            AwardedFirst(ids, first, i) || (!Named(ids, first, i) && AwardedFirst(ids, more, i))
    decreases |more|
  {
    if more == [] {
      assert first + more == first;
    } else {
      var front, m := more[..|more| - 1], more[|more| - 1];
      assert first + more == first + front + [m] && more == front + [m];
      AwardedFirstJoined(ids, first, front, i);
      AwardedFirstStep(ids, first + front, m, i);
      AwardedFirstStep(ids, front, m, i);
      NamedJoined(ids, first, front, i);
      AwardedFirstIsNamed(ids, first, i);
    }
  }

  lemma NamedJoined(ids: seq<Id>, first: seq<Mark>, more: seq<Mark>, i: nat)
    ensures Named(ids, first + more, i) <==> Named(ids, first, i) || Named(ids, more, i)
  {
    var all := first + more;
    forall k | 0 <= k < |all|
      ensures all[k] == if k < |first| then first[k] else more[k - |first|]
    {
    }
    if Named(ids, first, i) {
      var k :| 0 <= k < |first| && Index(ids, first[k].id) == i;
      assert all[k] == first[k];
    }
    if Named(ids, more, i) {
      var k :| 0 <= k < |more| && Index(ids, more[k].id) == i;
      assert all[k + |first|] == more[k];
    }
  }

  lemma AwardedFirstIsNamed(ids: seq<Id>, marks: seq<Mark>, i: nat)
    ensures AwardedFirst(ids, marks, i) ==> Named(ids, marks, i)
  {
  }

  lemma NotBefore(ids: seq<Id>, marks: seq<Mark>, before: seq<Mark>, k: nat, i: nat)
    requires before <= marks && k < |marks| && Index(ids, marks[k].id) == i && !Named(ids, before, i)
    ensures |before| <= k
  {
    if k < |before| {
      assert false;
    }
  }

  /** An achievement that was silently marked before any award is never toasted, whatever follows. */
  lemma SilentStaysSilent(ids: seq<Id>, toasting: bool, before: seq<Mark>, id: string, after: seq<Mark>, i: nat)
    requires i < |ids| <= XBL_ACH_MAX && Index(ids, Some(id)) == i && !Named(ids, before, i)
    ensures i !in Run(Cleared(ids, toasting), before + [Silent(Some(id))] + after).shown
  {
    var marks := before + [Silent(Some(id))] + after;
    assert marks[|before|] == Silent(Some(id));
    forall k | 0 <= k < |marks| && Index(ids, marks[k].id) == i && marks[k].Award?
      ensures Named(ids, marks[..k], i)
    {
      NotBefore(ids, marks, before, k, i);
      assert marks[..k][|before|] == Silent(Some(id));
    }
    ToastedOnce(ids, toasting, marks, i);
  }

  /** New toasts come in the order of the awards that cause them. */
  ghost predicate Follows(b: Board, marks: seq<Mark>, r: Board, at: seq<nat>) {
    && |r.shown| == |b.shown| + |at| && b.shown <= r.shown
    && (forall x, y | 0 <= x < y < |at| :: at[x] < at[y])
    && (forall k | 0 <= k < |at| ::
          at[k] < |marks| && marks[at[k]].Award? && Index(b.ids, marks[at[k]].id) == r.shown[|b.shown| + k])
  }

  lemma {:induction false} ToastsFollowAwards(b: Board, marks: seq<Mark>) returns (at: seq<nat>)
    requires Sized(b)
    ensures Follows(b, marks, Run(b, marks), at)
    decreases |marks|
  {
    if marks == [] {
      at := [];
    } else {
      var before := ToastsFollowAwards(b, marks[..|marks| - 1]);
      at := FollowsOn(b, marks, Run(b, marks[..|marks| - 1]), before);
    }
  }

  lemma FollowsOn(b: Board, marks: seq<Mark>, r: Board, at: seq<nat>) returns (more: seq<nat>)
    requires Sized(b) && marks != [] && Follows(b, marks[..|marks| - 1], r, at) && Sized(r) && r.ids == b.ids
    ensures Follows(b, marks, Apply(r, marks[|marks| - 1]), more)
  {
    more := if Apply(r, marks[|marks| - 1]).shown == r.shown then at else at + [|marks| - 1];
    forall k | 0 <= k < |at|
      ensures at[k] < |marks| - 1 && marks[at[k]] == marks[..|marks| - 1][at[k]]
    {
    }
  }

  /** The toasts that were shown stay shown, and only catalog entries are. */
  lemma {:induction false} ShownGrows(b: Board, marks: seq<Mark>)
    requires Sized(b)
    ensures b.shown <= Run(b, marks).shown
    ensures forall k | |b.shown| <= k < |Run(b, marks).shown| :: Run(b, marks).shown[k] < |b.ids|
    decreases |marks|
  {
    if marks != [] {
      ShownGrows(b, marks[..|marks| - 1]);
    }
  }
}
