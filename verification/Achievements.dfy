/** The achievement flags and toasts, and the scans of the server's answers. */
module Achievements {
  import opened Common
  import opened AwardText
  import opened Awards

  const XBL_OK := 0
  const XBL_ERR_CONFIG := -1
  const XBL_ERR_NET := -2
  const XBL_ERR_HTTP := -3

  /** What comes of an HTTPS request. */
  datatype Response = Unreachable | Refused | Answer(body: string)

  function Awarding(ids: seq<string>): (marks: seq<Mark>)
    ensures |marks| == |ids|
  {
    seq(|ids|, i requires 0 <= i < |ids| => Award(Some(ids[i])))
  }

  function Silencing(ids: seq<string>): (marks: seq<Mark>)
    ensures |marks| == |ids|
  {
    seq(|ids|, i requires 0 <= i < |ids| => Silent(Some(ids[i])))
  }

  /** The marks a report's answer stands for: the new ones with a toast, then all of them without. */
  ghost function ReportMarks(body: string): seq<Mark> {
    Awarding(Newly(body)) + Silencing(Everything(body))
  }

  lemma Slices(t: string, a: nat, b: nat)
    requires a <= b <= |t|
    ensures t[a..][b - a..] == t[b..] && t[..b][a..] == t[a..][..b - a]
  {
  }

  /** strstr: how far the first place of a key lies, or -1. */
  method Strstr(t: string, key: string) returns (p: int)
    requires key != []
    ensures p == Find(t, key) && p + |key| <= |t| + if p < 0 then |key| else 0
  {
    p := 0;
    while p < |t|
      invariant 0 <= p <= |t|
      invariant forall q | 0 <= q < p :: !Occurs(t, key, q)
    {
      if p + |key| <= |t| && t[p..p + |key|] == key {
        FindAt(t, key, p);
        return;
      }
      p := p + 1;
    }
    p := -1;
  }

  /** Reads an id from the first n characters of a text. */
  method ReadId(t: string, n: nat) returns (id: string)
    requires n <= |t|
    ensures id == IdAt(t[..n]) && |id| <= n
    ensures id == t[..|id|] && '"' !in id && |id| <= 47 && (|id| == n || |id| == 47 || t[|id|] == '"')
  {
    id := [];
    while |id| < n && t[|id|] != '"' && |id| < XBL_ACH_ID_MAX - 1
      invariant |id| <= n && id == t[..|id|] && |id| < XBL_ACH_ID_MAX && '"' !in id
    {
      id := id + [t[|id|]];
    }
    IdIs(t[..n], |id|);
  }

  /** An id ends at a quote, at the end of the text, or where there is no more room. */
  lemma IdIs(t: string, k: nat)
    requires k <= |t| && '"' !in t[..k] && k < XBL_ACH_ID_MAX
    requires k == |t| || k == XBL_ACH_ID_MAX - 1 || t[k] == '"'
    ensures IdAt(t) == t[..k]
  {
    forall p | 0 <= p < |t|
      ensures Occurs(t, QUOTE, p) <==> t[p] == '"'
    {
      assert t[p..p + 1] == [t[p]];
    }
    forall p | 0 <= p < k
      ensures t[p] != '"'
    {
      assert t[..k][p] == t[p];
    }
    if k < |t| && t[k] == '"' {
      FindAt(t, QUOTE, k);
    }
  }

  /** The first flag starts at u, before any next id, and reads true. */
  ghost predicate IsOwnFlag(t: string, u: nat) {
    && FirstAt(t, UNLOCKED, u)
    && (forall q | 0 <= q <= u :: !Occurs(t, ID, q))
    && Occurs(SkipSpaces(t[u + |UNLOCKED|..]), "true", 0)
  }

  lemma FlagIs(t: string)
    ensures IsUnlocked(t) <==> exists u: nat :: IsOwnFlag(t, u)
  {
    if u: nat :| IsOwnFlag(t, u) {
      FindAt(t, UNLOCKED, u);
    }
    if IsUnlocked(t) {
      KeysDiffer(t, Find(t, UNLOCKED));
      assert IsOwnFlag(t, Find(t, UNLOCKED));
    }
  }

  /** The two keys do not start at the same place. */
  lemma KeysDiffer(t: string, p: nat)
    requires Occurs(t, UNLOCKED, p)
    ensures !Occurs(t, ID, p)
  {
    assert t[p..p + |UNLOCKED|][1] == t[p + 1];
    if p + |ID| <= |t| {
      assert t[p..p + |ID|][1] == t[p + 1];
    }
  }

  /** Whether the flag behind an id is its own and true. */
  method ReadFlag(t: string) returns (unlocked: bool)
    ensures unlocked == IsUnlocked(t)
    ensures unlocked <==> exists u: nat :: IsOwnFlag(t, u)
  {
    FlagIs(t);
    var next := Strstr(t, ID);
    var unl := Strstr(t, UNLOCKED);
    if unl < 0 || (0 <= next && next <= unl) {
      return false;
    }
    ghost var flag := t[unl + |UNLOCKED|..];
    var value := t[unl + |UNLOCKED|..];
    while value != [] && value[0] == ' '
      invariant SkipSpaces(value) == SkipSpaces(flag)
      decreases |value|
    {
      value := value[1..];
    }
    unlocked := |"true"| <= |value| && value[0..|"true"|] == "true";
  }

  /** The text from the array behind a key on, if there is one. */
  method ListStart(body: string, key: string) returns (r: Option<string>)
    requires key != []
    ensures r == ListFrom(body, key)
  {
    var a := Strstr(body, key);
    if a < 0 {
      return None;
    }
    var b := Strstr(body[a..], OPEN);
    r := if b < 0 then None else Some(body[a..][b..]);
  }

  /** The text from the array behind a key on, and how far off its closing bracket is. */
  method RegionOf(body: string, key: string) returns (r: Option<string>, n: int)
    requires key != []
    ensures r.None? ==> Region(body, key) == None
    ensures r.Some? ==> 0 <= n < |r.value| && r.value[n] == ']' && Region(body, key) == Some(r.value[..n])
  {
    n := 0;
    r := ListStart(body, key);
    if r.Some? {
      n := Strstr(r.value, CLOSE);
      if n < 0 {
        r := None;
      } else {
        assert r.value[n..n + 1][0] == r.value[n];
      }
    }
  }

  /** A key without the character at n does not lie across n. */
  lemma OccursInside(s: string, n: nat, key: string, q: nat)
    requires q <= n < |s| && key != [] && s[n] !in key
    ensures Occurs(s[..n], key, q) <==> Occurs(s, key, q)
  {
    if q + |key| <= n {
      assert s[..n][q..q + |key|] == s[q..q + |key|];
    } else if Occurs(s, key, q) {
      OccursChar(s, key, q, n - q);
    }
  }

  lemma OccursChar(s: string, key: string, q: nat, k: nat)
    requires Occurs(s, key, q) && k < |key|
    ensures s[q + k] == key[k]
  {
    assert s[q..q + |key|][k] == s[q + k];
  }

  lemma FindInside(s: string, n: nat, key: string)
    requires n < |s| && key != [] && s[n] !in key
    ensures Find(s[..n], key) == if Find(s, key) > n then -1 else Find(s, key)
  {
    forall q | 0 <= q <= n
      ensures Occurs(s[..n], key, q) <==> Occurs(s, key, q)
    {
      OccursInside(s, n, key, q);
    }
    if 0 <= Find(s, key) <= n {
      FindAt(s[..n], key, Find(s, key));
    }
  }

  lemma NoIds(key: string, past: bool)
    requires key != []
    ensures Ids("", key, past) == []
  {
  }

  /** One id of an array. */
  lemma IdsTurn(region: string, key: string, past: bool)
    requires key != [] && Find(region, key) >= 0
    ensures var r := region[Find(region, key) + |key|..];
            Ids(region, key, past) == OptId(IdAt(r)) + Ids(Behind(r[|IdAt(r)|..], past), key, past)
  {
  }

  lemma BehindIs(rest: string, m: nat, past: bool)
    requires m < |rest|
    ensures Behind(rest[..m], past) == if past && m > 0 then rest[1..][..m - 1] else rest[..m]
  {
  }

  /** Looks for the next key in the first n characters of a text: the text behind the key, and how much of that is still
      in the array; -1 when there is no key in it. */
  method SkipPast(t: string, n: nat, key: string) returns (rest: string, m: int)
    requires n < |t| && t[n] == ']' && ']' !in key && key != []
    ensures var p := Find(t[..n], key);
            if p < 0 then m == -1
            else 0 <= m < n && m < |rest| && rest[m] == ']' && rest[..m] == t[..n][p + |key|..]
  {
    var p := Strstr(t, key);
    FindInside(t, n, key);
    if p < 0 || p > n {
      return "", -1;
    }
    Slices(t, p + |key|, n);
    rest, m := t[p + |key|..], n - p - |key|;
  }

  /** Reads an id and moves behind it. */
  method ReadAndMove(t: string, n: nat, past: bool) returns (id: string, rest: string, m: nat)
    requires n < |t| && t[n] == ']'
    ensures id == IdAt(t[..n]) && m <= n && m < |rest| && rest[m] == ']'
    ensures rest[..m] == Behind(t[..n][|id|..], past)
  {
    id := ReadId(t, n);
    Slices(t, |id|, n);
    rest, m := t[|id|..], n - |id|;
    BehindIs(rest, m, past);
    if past && m > 0 {
      rest, m := rest[1..], m - 1;
    }
  }

  /** The next id of an array of n characters, the text to go on with, and how much of that is still in the array;
      -1 when there is no id. */
  method TakeId(t: string, n: nat, key: string, past: bool) returns (id: string, rest: string, m: int)
    requires n < |t| && t[n] == ']' && ']' !in key && key != []
    ensures m == -1 ==> Ids(t[..n], key, past) == []
    ensures m != -1 ==>
              0 <= m < n && m < |rest| && rest[m] == ']' &&
              Ids(t[..n], key, past) == OptId(id) + Ids(rest[..m], key, past)
  {
    id := "";
    rest, m := SkipPast(t, n, key);
    if m == -1 {
      return;
    }
    IdsTurn(t[..n], key, past);
    id, rest, m := ReadAndMove(rest, m, past);
  }

  lemma ScanTurn(t: string)
    requires Find(t, ID) >= 0
    ensures var r := t[Find(t, ID) + |ID|..];
            Scan(t) == (if IsUnlocked(r[|IdAt(r)|..]) then OptId(IdAt(r)) else []) + Scan(r[|IdAt(r)|..])
  {
  }

  /** The next id of the catalog, whether it is unlocked, and the text behind it, if there is one. */
  method TakeEntry(t: string) returns (id: string, unlocked: bool, rest: Option<string>)
    ensures rest == None ==> Scan(t) == []
    ensures rest.Some? ==>
              |rest.value| < |t| && Scan(t) == (if unlocked then OptId(id) else []) + Scan(rest.value)
  {
    var p := Strstr(t, ID);
    if p < 0 {
      return "", false, None;
    }
    ScanTurn(t);
    var r := t[p + |ID|..];
    assert r[..|r|] == r;
    id := ReadId(r, |r|);
    unlocked := ReadFlag(r[|id|..]);
    rest := Some(r[|id|..]);
  }

  lemma SilencingMore(old_: seq<Mark>, marked: seq<string>, id: string)
    ensures old_ + Silencing(marked) + [Silent(Some(id))] == old_ + Silencing(marked + [id])
    ensures marked + [] == marked
  {
    assert Silencing(marked + [id]) == Silencing(marked) + [Silent(Some(id))];
  }

  lemma AwardingMore(old_: seq<Mark>, marked: seq<string>, id: string)
    ensures old_ + Awarding(marked) + [Award(Some(id))] == old_ + Awarding(marked + [id])
    ensures marked + [] == marked
  {
    assert Awarding(marked + [id]) == Awarding(marked) + [Award(Some(id))];
  }

  lemma KeysAreUnbracketed()
    ensures ']' !in ID && ']' !in QUOTE
  {
  }

  lemma RunOne(b: Board, marks: seq<Mark>, m: Mark)
    requires Sized(b)
    ensures Run(b, marks + [m]) == Apply(Run(b, marks), m)
  {
    assert (marks + [m])[..|marks|] == marks;
  }

  /** Setting a flag that is set already changes nothing. */
  lemma SilentSets(b: Board, id: Id, flags: seq<bool>)
    requires Sized(b)
    requires flags == if Index(b.ids, id) >= 0 then b.awarded[Index(b.ids, id) := true] else b.awarded
    ensures Apply(b, Silent(id)) == b.(awarded := flags)
  {
  }

  /** The same for every way to read the body, and every achievement. */
  lemma ReportedAll(ids: seq<Id>, toasting: bool, before: seq<Mark>, body: string)
    requires |ids| <= XBL_ACH_MAX
    ensures forall granted, all, i: nat | Grants(body, granted) && ListsAll(body, all) && i < |ids| ::
              IsReported(ids, toasting, granted, all, Run(Cleared(ids, toasting), before),
                         Run(Cleared(ids, toasting), before + ReportMarks(body)), i)
  {
    forall granted, all, i: nat | Grants(body, granted) && ListsAll(body, all) && i < |ids|
      ensures IsReported(ids, toasting, granted, all, Run(Cleared(ids, toasting), before),
                         Run(Cleared(ids, toasting), before + ReportMarks(body)), i)
    {
      ReportEffect(ids, toasting, before, body, granted, all, i);
    }
  }

  lemma SyncedAll(ids: seq<Id>, toasting: bool, before: seq<Mark>, body: string)
    requires |ids| <= XBL_ACH_MAX
    ensures forall entries, i: nat | IsCatalog(body, entries) && i < |ids| ::
              IsSynced(ids, entries, Run(Cleared(ids, toasting), before),
                       Run(Cleared(ids, toasting), before + Silencing(SyncIds(body))), i)
  {
    forall entries, i: nat | IsCatalog(body, entries) && i < |ids|
      ensures IsSynced(ids, entries, Run(Cleared(ids, toasting), before),
                       Run(Cleared(ids, toasting), before + Silencing(SyncIds(body))), i)
    {
      SyncEffect(ids, toasting, before, body, entries, i);
    }
  }

  /** What a sync's answer in the documented shape does to one achievement: it is awarded if it was or its own flag is true,
      and no toast is shown for it. */
  ghost predicate IsSynced(ids: seq<Id>, entries: seq<Entry>, was: Board, now: Board, i: nat)
    requires i < |was.awarded| == |now.awarded|
  {
    (now.awarded[i] <==> was.awarded[i] || UnlockedIn(ids, entries, i)) && multiset(now.shown)[i] == multiset(was.shown)[i]
  }

  lemma SyncEffect(ids: seq<Id>, toasting: bool, before: seq<Mark>, body: string, entries: seq<Entry>, i: nat)
    requires i < |ids| <= XBL_ACH_MAX && IsCatalog(body, entries)
    ensures IsSynced(ids, entries, Run(Cleared(ids, toasting), before),
                     Run(Cleared(ids, toasting), before + Silencing(SyncIds(body))), i)
  {
    var marks := Silencing(SyncIds(body));
    SyncFindsUnlocked(body, entries);
    UnlockedAre(ids, entries, i);
    NamedJoined(ids, before, marks, i);
    AwardedFirstJoined(ids, before, marks, i);
    MarksAre(SyncIds(body));
    AwardedFirstIsNamed(ids, before, i);
    ToastedOnce(ids, toasting, before, i);
    ToastedOnce(ids, toasting, before + marks, i);
  }

  /** One mark for each id, in order. */
  lemma MarksAre(ids: seq<string>)
    ensures forall k | 0 <= k < |ids| :: Awarding(ids)[k] == Award(Some(ids[k])) && Silencing(ids)[k] == Silent(Some(ids[k]))
  {
  }

  class Catalog {
    var ids: seq<Id>
    var toasting: bool
    const awarded: array<bool>
    var shown: seq<nat>
    /** Every mark since the flags were last cleared. */
    ghost var history: seq<Mark>

    ghost predicate Valid()
      reads this, awarded
    {
      awarded.Length == XBL_ACH_MAX && |ids| <= XBL_ACH_MAX && View() == Run(Cleared(ids, toasting), history)
    }

    function View(): Board
      reads this, awarded
    {
      Board(ids, toasting, awarded[..], shown)
    }

    constructor ()
      ensures Valid() && fresh(awarded) && ids == [] && !toasting && history == []
    {
      ids, toasting, shown, history := [], false, [], [];
      awarded := new bool[XBL_ACH_MAX](_ => false);
      new;
      assert awarded[..] == seq(XBL_ACH_MAX, _ => false);
    }

    method Clear()
      requires awarded.Length == XBL_ACH_MAX && |ids| <= XBL_ACH_MAX
      modifies this`shown, this`history, awarded
      ensures Valid() && history == [] && shown == [] && forall i | 0 <= i < 32 :: !awarded[i]
    {
      for k := 0 to XBL_ACH_MAX
        invariant forall j | 0 <= j < k :: !awarded[j]
      {
        awarded[k] := false;
      }
      shown, history := [], [];
      assert awarded[..] == seq(XBL_ACH_MAX, _ => false);
    }

    method Init(defs: Option<seq<Id>>, count: int, onToast: bool) returns (rc: int)
      requires Valid() && (defs.Some? ==> count <= |defs.value|)
      modifies this, awarded
      ensures Valid()
      ensures defs.None? || count < 0 ==>
                rc == -1 && View() == old(View()) && history == old(history)
      ensures defs.Some? && 0 <= count ==>
                rc == 0 && toasting == onToast && history == [] && shown == [] && (forall i | 0 <= i < 32 :: !awarded[i]) &&
                ids == defs.value[..if count <= 32 then count else 32]
    {
      if defs.None? || count < 0 {
        return XBL_ERR_CONFIG;
      }
      ids := defs.value[..if count > XBL_ACH_MAX then XBL_ACH_MAX else count];
      toasting := onToast;
      Clear();
      rc := XBL_OK;
    }

    method Reset()
      requires Valid()
      modifies this`shown, this`history, awarded
      ensures Valid() && history == [] && shown == [] && forall i | 0 <= i < 32 :: !awarded[i]
    {
      Clear();
    }

    method AchIndex(id: Id) returns (i: int)
      ensures i == Index(ids, id)
    {
      if id.None? {
        return -1;
      }
      i := 0;
      while i < |ids|
        invariant 0 <= i <= |ids| && id !in ids[..i]
      {
        if ids[i].Some? && ids[i] == id {
          return;
        }
        i := i + 1;
      }
      i := -1;
    }

    method AwardId(id: Id)
      requires Valid()
      modifies this`shown, this`history, awarded
      ensures Valid() && history == old(history) + [Award(id)]
    {
      ghost var start, marks := Cleared(ids, toasting), history;
      history := history + [Award(id)];
      RunOne(start, marks, Award(id));
      var i := AchIndex(id);
      if i < 0 || awarded[i] {
        return;
      }
      awarded[i] := true;
      if toasting {
        shown := shown + [i];
      }
    }

    method WasAwarded(id: Id) returns (yes: bool)
      requires Valid()
      ensures yes <==> Index(ids, id) >= 0 && Named(ids, history, Index(ids, id))
    {
      var i := AchIndex(id);
      yes := i >= 0 && awarded[i];
      if i >= 0 {
        ToastedOnce(ids, toasting, history, i);
      }
    }

    method MarkSilent(id: Id)
      requires Valid()
      modifies this`history, awarded
      ensures Valid() && history == old(history) + [Silent(id)]
    {
      ghost var before := View();
      ghost var start, marks := Cleared(ids, toasting), history;
      var i := AchIndex(id);
      if i >= 0 {
        awarded[i] := true;
      }
      SilentSets(before, id, awarded[..]);
      history := history + [Silent(id)];
      RunOne(start, marks, Silent(id));
    }

    /** Walks the catalog the server sent and marks what is unlocked in it. */
    method ScanCatalog(body: string)
      requires Valid()
      modifies this`history, awarded
      ensures Valid() && history == old(history) + Silencing(SyncIds(body))
    {
      var list := ListStart(body, LIST);
      if list.None? {
        assert history + [] == history;
        return;
      }
      var cur := list.value;
      ghost var marked: seq<string> := [];
      assert marked + Scan(cur) == Scan(cur);
      assert history + Silencing(marked) == history;
      while true
        invariant Valid()
        invariant marked + Scan(cur) == SyncIds(body)
        invariant history == old(history) + Silencing(marked)
        decreases |cur|
      {
        var id, unlocked, rest := TakeEntry(cur);
        if rest.None? {
          break;
        }
        ghost var found := if unlocked then OptId(id) else [];
        Joined(marked, found, Scan(rest.value));
        if id != [] && unlocked {
          MarkSilent(Some(id));
        }
        SilencingMore(old(history), marked, id);
        marked := marked + found;
        cur := rest.value;
      }
      assert marked + [] == marked;
    }

    /** Toasts each id of the granted array. */
    method ToastUnlocked(body: string)
      requires Valid()
      modifies this`shown, this`history, awarded
      ensures Valid() && history == old(history) + Awarding(Newly(body))
    {
      var list, n := RegionOf(body, NEW);
      if list.None? {
        assert history + [] == history;
        return;
      }
      var cur := list.value;
      ghost var marked: seq<string> := [];
      assert marked + Ids(cur[..n], ID, false) == Ids(cur[..n], ID, false);
      assert history + Awarding(marked) == history;
      KeysAreUnbracketed();
      while 0 < n
        invariant Valid() && 0 <= n < |cur| && cur[n] == ']'
        invariant marked + Ids(cur[..n], ID, false) == Newly(body)
        invariant history == old(history) + Awarding(marked)
      {
        var id, rest, m := TakeId(cur, n, ID, false);
        if m == -1 {
          break;
        }
        Joined(marked, OptId(id), Ids(rest[..m], ID, false));
        if id != [] {
          AwardId(Some(id));
        }
        AwardingMore(old(history), marked, id);
        marked := marked + OptId(id);
        cur, n := rest, m;
      }
      NoIds(ID, false);
      assert marked + [] == marked;
    }

    /** Marks each id of the full array. */
    method MarkAll(body: string)
      requires Valid()
      modifies this`history, awarded
      ensures Valid() && history == old(history) + Silencing(Everything(body))
    {
      var list, n := RegionOf(body, ALL);
      if list.None? {
        assert history + [] == history;
        return;
      }
      var cur := list.value;
      ghost var marked: seq<string> := [];
      assert marked + Ids(cur[..n], QUOTE, true) == Ids(cur[..n], QUOTE, true);
      assert history + Silencing(marked) == history;
      KeysAreUnbracketed();
      while 0 < n
        invariant Valid() && 0 <= n < |cur| && cur[n] == ']'
        invariant marked + Ids(cur[..n], QUOTE, true) == Everything(body)
        invariant history == old(history) + Silencing(marked)
      {
        var id, rest, m := TakeId(cur, n, QUOTE, true);
        if m == -1 {
          break;
        }
        Joined(marked, OptId(id), Ids(rest[..m], QUOTE, true));
        if id != [] {
          MarkSilent(Some(id));
        }
        SilencingMore(old(history), marked, id);
        marked := marked + OptId(id);
        cur, n := rest, m;
      }
      NoIds(QUOTE, true);
      assert marked + [] == marked;
    }

    /** Takes in the answer to the request for the player's catalog. */
    method Sync(inited: bool, response: Response) returns (rc: int)
      requires Valid()
      modifies this`history, awarded
      ensures Valid()
      ensures inited && |ids| > 0 && response.Answer? ==>
                rc == 0 && history == old(history) + Silencing(SyncIds(response.body))
      ensures !(inited && |ids| > 0 && response.Answer?) ==> history == old(history)
      ensures inited && |ids| > 0 && response.Answer? ==>
                forall entries, i: nat | IsCatalog(response.body, entries) && i < |ids| ::
                  IsSynced(ids, entries, old(View()), View(), i)
      ensures rc == if !inited then -1 else if |ids| == 0 || response.Answer? then 0 else if response.Unreachable? then -2 else -3
    {
      if !inited {
        return XBL_ERR_CONFIG;
      }
      if |ids| == 0 {
        return XBL_OK;
      }
      match response {
        case Unreachable => return XBL_ERR_NET;
        case Refused => return XBL_ERR_HTTP;
        case Answer(body) =>
          ScanCatalog(body);
          SyncedAll(ids, toasting, old(history), body);
          rc := XBL_OK;
      }
    }

    /** Takes in the answer to the report of a run. */
    method Report(inited: bool, response: Response) returns (rc: int)
      requires Valid()
      modifies this`shown, this`history, awarded
      ensures Valid()
      ensures inited && |ids| > 0 && response.Answer? ==>
                history == old(history) + ReportMarks(response.body)
      ensures !(inited && |ids| > 0 && response.Answer?) ==> history == old(history) && shown == old(shown)
      ensures inited && |ids| > 0 && response.Answer? ==>
                forall granted, all, i: nat | Grants(response.body, granted) && ListsAll(response.body, all) && i < |ids| ::
                  IsReported(ids, toasting, granted, all, old(View()), View(), i)
      ensures rc == if !inited then -1 else if |ids| == 0 || response.Answer? then 0 else if response.Unreachable? then -2 else -3
    {
      if !inited {
        return XBL_ERR_CONFIG;
      }
      if |ids| == 0 {
        return XBL_OK;
      }
      match response {
        case Unreachable => return XBL_ERR_NET;
        case Refused => return XBL_ERR_HTTP;
        case Answer(body) =>
          ghost var start := history;
          ToastUnlocked(body);
          MarkAll(body);
          Joined(start, Awarding(Newly(body)), Silencing(Everything(body)));
          ReportedAll(ids, toasting, start, body);
          rc := XBL_OK;
      }
    }
  }

  // ---- what a sync is for ----

  ghost predicate UnlockedIn(ids: seq<Id>, entries: seq<Entry>, i: nat) {
    exists k :: 0 <= k < |entries| && entries[k].unlocked && Index(ids, Some(entries[k].id)) == i
  }

  lemma {:induction false} UnlockedAre(ids: seq<Id>, entries: seq<Entry>, i: nat)
    ensures Named(ids, Silencing(UnlockedIds(entries)), i) <==> UnlockedIn(ids, entries, i)
    decreases |entries|
  {
    if entries != [] {
      var e, others := entries[0], entries[1..];
      UnlockedAre(ids, others, i);
      NamedBySome(ids, if e.unlocked then [e.id] else [], UnlockedIds(others), i);
      UnlockedInSome(ids, e, others, i);
      assert entries == [e] + others;
    }
  }

  lemma NamedBySome(ids: seq<Id>, first: seq<string>, more: seq<string>, i: nat)
    requires |first| <= 1
    ensures Named(ids, Silencing(first + more), i) <==>
            (first != [] && Index(ids, Some(first[0])) == i) || Named(ids, Silencing(more), i)
  {
    assert Silencing(first + more) == Silencing(first) + Silencing(more);
    NamedJoined(ids, Silencing(first), Silencing(more), i);
    if first != [] {
      assert Silencing(first)[0] == Silent(Some(first[0]));
    }
  }

  lemma UnlockedInSome(ids: seq<Id>, e: Entry, others: seq<Entry>, i: nat)
    ensures UnlockedIn(ids, [e] + others, i) <==>
            (e.unlocked && Index(ids, Some(e.id)) == i) || UnlockedIn(ids, others, i)
  {
    var all := [e] + others;
    assert all[0] == e;
    forall k | 0 <= k < |others|
      ensures all[k + 1] == others[k]
    {
    }
  }

  lemma SilencedFirst(ids: seq<Id>, before: seq<Mark>, marks: seq<Mark>, after: seq<Mark>, i: nat)
    requires !Named(ids, before, i) && Named(ids, marks, i) && forall m | m in marks :: m.Silent?
    ensures !AwardedFirst(ids, before + marks + after, i)
  {
    var all := before + marks + after;
    var n :| 0 <= n < |marks| && Index(ids, marks[n].id) == i;
    assert all[|before| + n] == marks[n] && marks[n] in marks;
    forall k | |before| <= k < |before| + |marks|
      ensures all[k].Silent?
    {
      assert all[k] == marks[k - |before|] && marks[k - |before|] in marks;
    }
    forall k | 0 <= k < |all| && Index(ids, all[k].id) == i && all[k].Award?
      ensures Named(ids, all[..k], i)
    {
      NotBefore(ids, all, before, k, i);
      assert all[..k][|before| + n] == marks[n];
    }
  }

  /** A sync on a documented answer takes exactly the known ids whose flag is true as awarded, and from then on until the
      flags are cleared none of those is toasted, unless a mark before the sync named it. */
  lemma SyncKeepsQuiet(ids: seq<Id>, toasting: bool, before: seq<Mark>, body: string, entries: seq<Entry>,
                       after: seq<Mark>, i: nat)
    requires i < |ids| <= XBL_ACH_MAX && !Named(ids, before, i) && IsCatalog(body, entries)
    ensures var synced := Run(Cleared(ids, toasting), before + Silencing(SyncIds(body)));
            synced.awarded[i] <==> UnlockedIn(ids, entries, i)
    ensures UnlockedIn(ids, entries, i) ==>
              i !in Run(Cleared(ids, toasting), before + Silencing(SyncIds(body)) + after).shown
  {
    var marks := Silencing(SyncIds(body));
    SyncFindsUnlocked(body, entries);
    UnlockedAre(ids, entries, i);
    NamedJoined(ids, before, marks, i);
    ToastedOnce(ids, toasting, before + marks, i);
    if UnlockedIn(ids, entries, i) {
      SilencedFirst(ids, before, marks, after, i);
      ToastedOnce(ids, toasting, before + marks + after, i);
    }
  }

  // ---- what a report is for ----

  ghost predicate ItemNamed(ids: seq<Id>, items: seq<Item>, i: nat) {
    exists k :: 0 <= k < |items| && Index(ids, Some(items[k].id)) == i
  }

  lemma {:induction false} ItemIdAt(items: seq<Item>, k: nat)
    requires k < |items|
    ensures |ItemIds(items)| == |items| && ItemIds(items)[k] == items[k].id
    decreases |items|
  {
    if |items| > 1 {
      ItemIdAt(items[1..], if k == 0 then 0 else k - 1);
    }
  }

  lemma ItemsNamed(ids: seq<Id>, items: seq<Item>, i: nat)
    ensures |ItemIds(items)| == |items|
    ensures Named(ids, Awarding(ItemIds(items)), i) <==> ItemNamed(ids, items, i)
    ensures Named(ids, Silencing(ItemIds(items)), i) <==> ItemNamed(ids, items, i)
    ensures AwardedFirst(ids, Awarding(ItemIds(items)), i) <==> ItemNamed(ids, items, i)
    ensures !AwardedFirst(ids, Silencing(ItemIds(items)), i)
  {
    if items != [] {
      ItemIdAt(items, 0);
    }
    forall k | 0 <= k < |items|
      ensures ItemIds(items)[k] == items[k].id
    {
      ItemIdAt(items, k);
    }
    var a, s := Awarding(ItemIds(items)), Silencing(ItemIds(items));
    MarksAre(ItemIds(items));
    if ItemNamed(ids, items, i) {
      var k :| 0 <= k < |items| && Index(ids, Some(items[k].id)) == i;
      assert a[k].id == Some(items[k].id) && s[k].id == Some(items[k].id);
    }
    AllAwards(ids, a, i);
  }

  /** Among awards only, the first that names an achievement is an award. */
  lemma {:induction false} AllAwards(ids: seq<Id>, marks: seq<Mark>, i: nat)
    requires forall k | 0 <= k < |marks| :: marks[k].Award?
    ensures AwardedFirst(ids, marks, i) <==> Named(ids, marks, i)
    decreases |marks|
  {
    if marks != [] {
      var front, m := marks[..|marks| - 1], marks[|marks| - 1];
      assert marks == front + [m];
      AllAwards(ids, front, i);
      NamedStep(ids, front, m, i);
      AwardedFirstStep(ids, front, m, i);
    }
  }

  /** What a report's answer in the documented shape does to one achievement: it is awarded if it was or stands in either
      array, and a toast is shown for it exactly if it was not and stands in the granted one, in the full one too or not. */
  ghost predicate IsReported(ids: seq<Id>, toasting: bool, granted: seq<Item>, all: seq<Item>, was: Board, now: Board, i: nat)
    requires i < |was.awarded| == |now.awarded|
  {
    && (now.awarded[i] <==> was.awarded[i] || ItemNamed(ids, granted, i) || ItemNamed(ids, all, i))
    && multiset(now.shown)[i] ==
       multiset(was.shown)[i] + if toasting && !was.awarded[i] && ItemNamed(ids, granted, i) then 1 else 0
  }

  lemma ReportEffect(ids: seq<Id>, toasting: bool, before: seq<Mark>, body: string, granted: seq<Item>, all: seq<Item>, i: nat)
    requires i < |ids| <= XBL_ACH_MAX && Grants(body, granted) && ListsAll(body, all)
    ensures IsReported(ids, toasting, granted, all, Run(Cleared(ids, toasting), before),
                       Run(Cleared(ids, toasting), before + ReportMarks(body)), i)
  {
    ReportFindsNew(body, granted);
    ReportFindsAll(body, all);
    var new_, rest := Awarding(ItemIds(granted)), Silencing(ItemIds(all));
    ItemsNamed(ids, granted, i);
    ItemsNamed(ids, all, i);
    NamedJoined(ids, new_, rest, i);
    AwardedFirstJoined(ids, new_, rest, i);
    NamedJoined(ids, before, new_ + rest, i);
    AwardedFirstJoined(ids, before, new_ + rest, i);
    AwardedFirstIsNamed(ids, before, i);
    ToastedOnce(ids, toasting, before, i);
    ToastedOnce(ids, toasting, before + (new_ + rest), i);
  }
}
