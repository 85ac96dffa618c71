/** The bounded move-to-front list behind the account store, and its file. */
module AccountList {
  import opened Common
  import opened Decimal
  import opened AccountText

  function Without(list: seq<Account>, name: string): (l: seq<Account>)
    ensures |l| <= |list|
  {
    if list == [] then []
    else Without(list[..|list| - 1], name) + (if list[|list| - 1].username == name then [] else [list[|list| - 1]])
  }

  lemma {:induction false} WithoutMembers(list: seq<Account>, name: string)
    ensures forall a | a in Without(list, name) :: a in list && a.username != name
    decreases |list|
  {
    if list != [] {
      WithoutMembers(list[..|list| - 1], name);
    }
  }

  /** The places of the accounts with other names, in order. */
  ghost predicate AreOthers(list: seq<Account>, name: string, places: seq<nat>) {
    && (forall a, b | 0 <= a < b < |places| :: places[a] < places[b])
    && (forall i: nat :: i in places <==> i < |list| && list[i].username != name)
  }

  /** What stands at these places of a list. */
  ghost predicate Picks(l: seq<Account>, list: seq<Account>, places: seq<nat>) {
    |l| == |places| && forall k | 0 <= k < |l| :: places[k] < |list| && l[k] == list[places[k]]
  }

  lemma PicksLonger(l: seq<Account>, list: seq<Account>, places: seq<nat>)
    requires list != [] && Picks(l, list[..|list| - 1], places)
    ensures Picks(l, list, places)
    ensures Picks(l + [list[|list| - 1]], list, places + [|list| - 1])
    ensures Picks([list[|list| - 1]] + l, list, [|list| - 1] + places)
  {
  }

  /** Without a name is the list of the accounts with other names, in the same order. */
  lemma {:induction false} WithoutIs(list: seq<Account>, name: string) returns (places: seq<nat>)
    ensures AreOthers(list, name, places) && Picks(Without(list, name), list, places)
    decreases |list|
  {
    if list == [] {
      places := [];
    } else {
      var n := |list| - 1;
      var front := WithoutIs(list[..n], name);
      OthersMore(list, name, front);
      PicksLonger(Without(list[..n], name), list, front);
      assert Without(list[..n], name) + [] == Without(list[..n], name);
      places := if list[n].username == name then front else front + [n];
    }
  }

  lemma OthersMore(list: seq<Account>, name: string, front: seq<nat>)
    requires list != [] && AreOthers(list[..|list| - 1], name, front)
    ensures AreOthers(list, name, if list[|list| - 1].username == name then front else front + [|list| - 1])
  {
    var n := |list| - 1;
    var more := front + [n];
    forall i: nat
      ensures i in more <==> i in front || i == n
    {
    }
    forall k | 0 <= k < |front|
      ensures front[k] < n
    {
      assert front[k] in front;
    }
    forall i: nat
      ensures i in front <==> i < n && list[i].username != name
    {
      assert i < n ==> list[..n][i] == list[i];
    }
  }

  /** Remembering an account: to the front, without its older copies, and no more than fit. */
  function MoveToFront(list: seq<Account>, a: Account): seq<Account> {
    AtMost([a] + Without(list, a.username), ACCOUNTS_MAX)
  }

  // ---- the file ----

  /** A C string ends at its first NUL. */
  function CString(t: string): string {
    t[..IndexOf(t, '\0')]
  }

  /** What the store loads from a file: the buffer takes so much of it, and the text in it ends at a NUL. */
  function Loaded(file: Option<string>, max: nat): seq<Account> {
    match file
    case None => []
    case Some(t) => Load(CString(if |t| <= BUFFER then t else t[..BUFFER]), max)
  }

  /** The load buffer takes the first 3119 characters, and a NUL ends the text in it. */
  lemma LoadedIs(t: string, more: string, max: nat)
    requires '\0' !in t
    ensures |t| <= 3119 ==> Loaded(Some(t), max) == Load(t, max)
    ensures |t| == 3119 || (|t| < 3119 && more != "" && more[0] == '\0') ==> Loaded(Some(t + more), max) == Load(t, max)
  {
    NoNul(t);
    if |t| == 3119 {
      assert (t + more)[..3119] == t;
    } else if more != "" && more[0] == '\0' && |t| < 3119 {
      var u := t + more;
      var cut := if |u| <= BUFFER then u else u[..BUFFER];
      assert cut[..|t|] == t && cut[|t|] == '\0';
      IndexOfAt(cut, '\0', |t|);
    }
  }

  lemma NoNul(t: string)
    requires '\0' !in t
    ensures CString(t) == t
  {
    assert t[..|t|] == t;
    IndexOfAt(t, '\0', |t|);
  }

  function Remembered(file: Option<string>, a: Account): Option<string> {
    Some(Render(MoveToFront(Loaded(file, ACCOUNTS_MAX), a)))
  }

  function Forgotten(file: Option<string>, name: string): Option<string> {
    var list := Loaded(file, ACCOUNTS_MAX);
    var rest := Without(list, name);
    if |rest| == |list| then file
    else if rest == [] then None
    else Some(Render(rest))
  }

  datatype Op = Remember(account: Account) | Forget(name: string)

  /** The file after some operations on an empty store, oldest first. */
  function FileAfter(ops: seq<Op>): Option<string> {
    if ops == [] then None
    else
      var file := FileAfter(ops[..|ops| - 1]);
      match ops[|ops| - 1]
      case Remember(a) => Remembered(file, a)
      case Forget(name) => Forgotten(file, name)
  }

  /** The same operations on a list. */
  function ListAfter(ops: seq<Op>): seq<Account> {
    if ops == [] then []
    else
      var list := ListAfter(ops[..|ops| - 1]);
      match ops[|ops| - 1]
      case Remember(a) => MoveToFront(list, a)
      case Forget(name) => Without(list, name)
  }

  /** A session the line format can hold. */
  predicate Sound(a: Account) {
    Session(a) && Storable(a)
  }

  /** A session as the SDK accepts it: C strings, neither of them empty. */
  predicate Session(a: Account) {
    Filled(a) && '\0' !in a.username && '\0' !in a.sessionKey
  }

  predicate AllSessions(list: seq<Account>) {
    forall a | a in list :: Session(a)
  }

  predicate AllSound(list: seq<Account>) {
    forall a | a in list :: Sound(a)
  }

  lemma {:induction false} RenderedHasNoNul(list: seq<Account>)
    requires AllSessions(list)
    ensures '\0' !in Render(list)
    decreases |list|
  {
    if list != [] {
      RenderedHasNoNul(list[..|list| - 1]);
      assert list[|list| - 1] in list;
    }
  }

  /** A sound list comes back from its file. */
  lemma LoadedBack(list: seq<Account>)
    requires AllSound(list) && |list| <= ACCOUNTS_MAX
    ensures Loaded(Some(Render(list)), ACCOUNTS_MAX) == list
  {
    LoadedIsLoad(list);
    SoundComesBack(list);
  }

  /** A file the store wrote is loaded whole. */
  lemma LoadedIsLoad(list: seq<Account>)
    requires AllSessions(list) && |list| <= ACCOUNTS_MAX
    ensures Loaded(Some(Render(list)), ACCOUNTS_MAX) == Load(Render(list), ACCOUNTS_MAX)
  {
    FileFits(list);
    RenderedHasNoNul(list);
    IndexOfAt(Render(list), '\0', |Render(list)|);
    assert CString(Render(list)) == Render(list);
  }

  lemma SoundComesBack(list: seq<Account>)
    requires AllSound(list) && |list| <= ACCOUNTS_MAX
    ensures Load(Render(list), ACCOUNTS_MAX) == list
  {
    RoundTrip(list, ACCOUNTS_MAX);
  }

  lemma {:induction false} ListStaysSound(ops: seq<Op>)
    requires forall op | op in ops && op.Remember? :: Sound(op.account)
    ensures AllSound(ListAfter(ops)) && |ListAfter(ops)| <= ACCOUNTS_MAX
    decreases |ops|
  {
    if ops != [] {
      ListStaysSound(ops[..|ops| - 1]);
      assert ops[|ops| - 1] in ops;
      var list, last := ListAfter(ops[..|ops| - 1]), ops[|ops| - 1];
      WithoutMembers(list, if last.Remember? then last.account.username else last.name);
    }
  }

  lemma {:induction false} WithoutNobody(list: seq<Account>, name: string)
    requires |Without(list, name)| == |list|
    ensures Without(list, name) == list
    decreases |list|
  {
    if list != [] {
      WithoutNobody(list[..|list| - 1], name);
    }
  }

  /** The file store is a bounded move-to-front list, through every sequence of remembers and forgets. */
  lemma {:induction false} StoreIsAList(ops: seq<Op>)
    requires forall op | op in ops && op.Remember? :: Sound(op.account)
    ensures Loaded(FileAfter(ops), ACCOUNTS_MAX) == ListAfter(ops)
    decreases |ops|
  {
    if ops != [] {
      var front, last := ops[..|ops| - 1], ops[|ops| - 1];
      StoreIsAList(front);
      ListStaysSound(front);
      ListStaysSound(ops);
      match last
      case Remember(a) => LoadedBack(MoveToFront(ListAfter(front), a));
      case Forget(name) =>
        var rest := Without(ListAfter(front), name);
        if |rest| == |ListAfter(front)| {
          WithoutNobody(ListAfter(front), name);
        } else if rest != [] {
          LoadedBack(rest);
        }
    }
  }

  // ---- most recently used ----

  /** The accounts of a history, newest first, each username once with its latest key; names in `seen` are left out. */
  function Newest(history: seq<Account>, seen: set<string>): seq<Account> {
    if history == [] then []
    else
      var a := history[|history| - 1];
      if a.username in seen then Newest(history[..|history| - 1], seen)
      else [a] + Newest(history[..|history| - 1], seen + {a.username})
  }

  ghost predicate Distinct(list: seq<Account>) {
    forall i, j | 0 <= i < j < |list| :: list[i].username != list[j].username
  }

  lemma {:induction false} NewestIsDistinct(history: seq<Account>, seen: set<string>)
    ensures Distinct(Newest(history, seen))
    ensures forall a | a in Newest(history, seen) :: a.username !in seen
    decreases |history|
  {
    if history != [] {
      var a, front := history[|history| - 1], history[..|history| - 1];
      NewestIsDistinct(front, seen);
      NewestIsDistinct(front, seen + {a.username});
    }
  }

  /** Nobody of that name comes after place i. */
  ghost predicate LastNamed(history: seq<Account>, i: nat) {
    i < |history| && forall j | i < j < |history| :: history[j].username != history[i].username
  }

  ghost predicate AreLatest(history: seq<Account>, seen: set<string>, places: seq<nat>) {
    && (forall a, b | 0 <= a < b < |places| :: places[a] > places[b])
    && (forall i: nat :: i in places <==> LastNamed(history, i) && history[i].username !in seen)
  }

  /** The newest accounts are those no later one of the same name replaces, newest first. */
  lemma {:induction false} NewestIs(history: seq<Account>, seen: set<string>) returns (places: seq<nat>)
    ensures AreLatest(history, seen, places) && Picks(Newest(history, seen), history, places)
    decreases |history|
  {
    if history == [] {
      places := [];
    } else {
      var n := |history| - 1;
      var a, front := history[n], history[..n];
      if a.username in seen {
        places := NewestIs(front, seen);
        LatestMore(history, seen, places);
        PicksLonger(Newest(front, seen), history, places);
      } else {
        var rest := NewestIs(front, seen + {a.username});
        places := [n] + rest;
        LatestFirst(history, seen, rest);
        PicksLonger(Newest(front, seen + {a.username}), history, rest);
      }
    }
  }

  lemma LatestMore(history: seq<Account>, seen: set<string>, places: seq<nat>)
    requires history != [] && history[|history| - 1].username in seen && AreLatest(history[..|history| - 1], seen, places)
    ensures AreLatest(history, seen, places)
  {
    forall i: nat
      ensures i in places <==> LastNamed(history, i) && history[i].username !in seen
    {
      LastNamedMore(history, i);
    }
  }

  lemma LatestFirst(history: seq<Account>, seen: set<string>, rest: seq<nat>)
    requires history != [] && history[|history| - 1].username !in seen
    requires AreLatest(history[..|history| - 1], seen + {history[|history| - 1].username}, rest)
    ensures AreLatest(history, seen, [|history| - 1] + rest)
  {
    var n := |history| - 1;
    var places := [n] + rest;
    forall i: nat
      ensures i in places <==> LastNamed(history, i) && history[i].username !in seen
    {
      LastNamedMore(history, i);
      assert i in places <==> i == n || i in rest;
    }
    forall k | 0 <= k < |rest|
      ensures rest[k] < n
    {
      assert rest[k] in rest;
    }
  }

  lemma LastNamedMore(history: seq<Account>, i: nat)
    requires history != []
    ensures var n := |history| - 1;
            LastNamed(history, i) <==>
            i == n || (i < n && LastNamed(history[..n], i) && history[i].username != history[n].username)
  {
    var n := |history| - 1;
    assert forall j | 0 <= j < n :: history[..n][j] == history[j];
  }

  lemma {:induction false} WithoutPrefix(a: Account, list: seq<Account>, name: string)
    ensures Without([a] + list, name) == (if a.username == name then [] else [a]) + Without(list, name)
    decreases |list|
  {
    if list == [] {
      assert [a] + list == [a] && [a][..0] == [];
    } else {
      var front := list[..|list| - 1];
      assert ([a] + list)[..|list|] == [a] + front;
      WithoutPrefix(a, front, name);
    }
  }

  /** Leaving a name out of the scan is leaving it out of the result. */
  lemma {:induction false} NewestWithout(history: seq<Account>, seen: set<string>, name: string)
    ensures Newest(history, seen + {name}) == Without(Newest(history, seen), name)
    decreases |history|
  {
    if history != [] {
      var a, front := history[|history| - 1], history[..|history| - 1];
      if a.username in seen {
        NewestWithout(front, seen, name);
      } else {
        var rest := Newest(front, seen + {a.username});
        WithoutPrefix(a, rest, name);
        if a.username == name {
          NewestIsDistinct(front, seen + {a.username});
          NobodyNamed(rest, name);
        } else {
          NewestWithout(front, seen + {a.username}, name);
          assert seen + {name} + {a.username} == seen + {a.username} + {name};
        }
      }
    }
  }

  lemma {:induction false} NobodyNamed(list: seq<Account>, name: string)
    requires forall a | a in list :: a.username != name
    ensures Without(list, name) == list
    decreases |list|
  {
    if list != [] {
      NobodyNamed(list[..|list| - 1], name);
      assert list[|list| - 1] in list;
    }
  }

  /** Cutting off the tail first loses nothing a front of k - 1 needs. */
  lemma {:induction false} TruncatedWithout(list: seq<Account>, k: nat, name: string)
    requires Distinct(list) && 0 < k
    ensures AtMost(Without(AtMost(list, k), name), k - 1) == AtMost(Without(list, name), k - 1)
    decreases |list|
  {
    if |list| > k {
      var front, last := list[..|list| - 1], list[|list| - 1];
      assert AtMost(front, k) == AtMost(list, k);
      TruncatedWithout(front, k, name);
      AtMostOneNamed(front, name);
    }
  }

  /** Distinct names: at most one entry goes. */
  lemma {:induction false} AtMostOneNamed(list: seq<Account>, name: string)
    requires Distinct(list)
    ensures |Without(list, name)| >= |list| - 1
    decreases |list|
  {
    if list != [] {
      var front, last := list[..|list| - 1], list[|list| - 1];
      if last.username == name {
        forall a | a in front
          ensures a.username != name
        {
        }
        NobodyNamed(front, name);
      } else {
        AtMostOneNamed(front, name);
      }
    }
  }

  /** Truncation commutes with moving to the front. */
  lemma TruncationCommutes(list: seq<Account>, a: Account)
    requires Distinct(list)
    ensures MoveToFront(AtMost(list, ACCOUNTS_MAX), a) == AtMost([a] + Without(list, a.username), ACCOUNTS_MAX)
  {
    TruncatedWithout(list, ACCOUNTS_MAX, a.username);
    FrontAtMost(a, Without(AtMost(list, ACCOUNTS_MAX), a.username), ACCOUNTS_MAX);
    FrontAtMost(a, Without(list, a.username), ACCOUNTS_MAX);
  }

  lemma FrontAtMost(a: Account, list: seq<Account>, k: nat)
    requires 0 < k
    ensures AtMost([a] + list, k) == [a] + AtMost(list, k - 1)
  {
  }

  function Remembers(history: seq<Account>): (ops: seq<Op>)
    ensures |ops| == |history|
  {
    seq(|history|, i requires 0 <= i < |history| => Remember(history[i]))
  }

  lemma {:induction false} ListOfRemembers(history: seq<Account>)
    ensures ListAfter(Remembers(history)) == AtMost(Newest(history, {}), ACCOUNTS_MAX)
    decreases |history|
  {
    if history != [] {
      var a, front := history[|history| - 1], history[..|history| - 1];
      assert Remembers(history)[..|history| - 1] == Remembers(front);
      ListOfRemembers(front);
      NewestIsDistinct(front, {});
      NewestWithout(front, {}, a.username);
      TruncationCommutes(Newest(front, {}), a);
    }
  }

  /** The store is an exact MRU cache: after any remembers, the 8 most recently remembered names,
      newest first, each with its latest key. */
  lemma StoreIsMostRecentlyUsed(history: seq<Account>)
    requires AllSound(history)
    ensures Loaded(FileAfter(Remembers(history)), 8) == AtMost(Newest(history, {}), 8)
  {
    OpsAreSound(history);
    StoreIsAList(Remembers(history));
    ListOfRemembers(history);
  }

  lemma OpsAreSound(history: seq<Account>)
    requires AllSound(history)
    ensures forall op | op in Remembers(history) && op.Remember? :: Sound(op.account)
  {
    forall op | op in Remembers(history)
      ensures Sound(op.account)
    {
      var i :| 0 <= i < |history| && op == Remember(history[i]);
      assert history[i] in history;
    }
  }

  // ---- when it is not ----

  /** After this history, what loads is what was most recently remembered. */
  ghost predicate Exact(history: seq<Account>) {
    Loaded(FileAfter(Remembers(history)), ACCOUNTS_MAX) == AtMost(Newest(history, {}), ACCOUNTS_MAX)
  }

  ghost predicate AlwaysExact(history: seq<Account>) {
    forall k | 0 <= k <= |history| :: Exact(history[..k])
  }

  lemma RemembersStep(front: seq<Account>, a: Account)
    ensures var ops := Remembers(front + [a]);
            FileAfter(ops) == Remembered(FileAfter(Remembers(front)), a) &&
            ListAfter(ops) == MoveToFront(ListAfter(Remembers(front)), a)
  {
    var ops := Remembers(front + [a]);
    assert ops[..|ops| - 1] == Remembers(front);
  }

  /** A session the line format cannot hold is not loaded back right after it is remembered. */
  lemma UnstorableIsLost(front: seq<Account>, a: Account)
    requires AllSound(front) && Session(a) && !Storable(a)
    ensures !Exact(front + [a])
  {
    OpsAreSound(front);
    StoreIsAList(Remembers(front));
    ListStaysSound(Remembers(front));
    RemembersStep(front, a);
    LostFile(FileAfter(Remembers(front)), ListAfter(Remembers(front)), a);
    ListOfRemembers(front + [a]);
  }

  lemma InFront(list: seq<Account>, a: Account)
    requires AllSound(list) && Session(a)
    ensures a in MoveToFront(list, a) && AllSessions(MoveToFront(list, a))
  {
    WithoutMembers(list, a.username);
    var moved := MoveToFront(list, a);
    assert moved[0] == a;
    forall b | b in moved
      ensures Session(b)
    {
      assert b in [a] + Without(list, a.username);
    }
  }

  lemma LostFile(file: Option<string>, list: seq<Account>, a: Account)
    requires Loaded(file, ACCOUNTS_MAX) == list && AllSound(list) && Session(a) && !Storable(a)
    ensures Loaded(Remembered(file, a), ACCOUNTS_MAX) != MoveToFront(list, a)
  {
    InFront(list, a);
    NotLoadedBack(MoveToFront(list, a), a);
  }

  lemma NotLoadedBack(list: seq<Account>, a: Account)
    requires a in list && !Storable(a) && |list| <= ACCOUNTS_MAX && AllSessions(list)
    ensures Loaded(Some(Render(list)), ACCOUNTS_MAX) != list
  {
    LoadedIsLoad(list);
    RoundTrip(list, ACCOUNTS_MAX);
  }

  lemma {:induction false} AlwaysExactIsStorable(history: seq<Account>)
    requires AllSessions(history) && AlwaysExact(history)
    ensures AllStorable(history)
    decreases |history|
  {
    if history != [] {
      var front, a := history[..|history| - 1], history[|history| - 1];
      LastApart(history);
      AlwaysExactBefore(front, a);
      AllSessionsStep(front, a);
      AlwaysExactIsStorable(front);
      LastIsStorable(front, a);
    }
  }

  lemma LastApart(history: seq<Account>)
    requires history != []
    ensures history == history[..|history| - 1] + [history[|history| - 1]]
  {
  }

  lemma LastIsStorable(front: seq<Account>, a: Account)
    requires AllSound(front) && Session(a) && Exact(front + [a])
    ensures AllStorable(front + [a])
  {
    AllStorableStep(front, a);
    if !Storable(a) {
      UnstorableIsLost(front, a);
    }
  }

  lemma AllSessionsStep(front: seq<Account>, last: Account)
    requires AllSessions(front + [last])
    ensures AllSessions(front) && Session(last) && (AllStorable(front) ==> AllSound(front))
  {
    assert last in front + [last];
    assert forall a | a in front :: a in front + [last];
  }

  lemma AlwaysExactBefore(front: seq<Account>, a: Account)
    requires AlwaysExact(front + [a])
    ensures AlwaysExact(front) && Exact(front + [a])
  {
    var history := front + [a];
    assert history[..|history|] == history;
    forall k | 0 <= k <= |front|
      ensures Exact(front[..k])
    {
      assert front[..k] == history[..k];
    }
  }

  /** For sessions of any text the store is an exact MRU cache all along exactly when every one of them is storable. */
  lemma ExactMeansStorable(history: seq<Account>)
    requires AllSessions(history)
    ensures AlwaysExact(history) <==> AllStorable(history)
  {
    if AllStorable(history) {
      forall k | 0 <= k <= |history|
        ensures Exact(history[..k])
      {
        StoreIsMostRecentlyUsed(history[..k]);
      }
    }
    if AlwaysExact(history) {
      AlwaysExactIsStorable(history);
    }
  }
}
