/** Finding achievement ids in the text of a response. A C string is the text before its NUL, and a pointer into it is
    the suffix that starts there. */
module AwardText {
  import opened Common
  
  const XBL_ACH_ID_MAX := 48

  const ID := "\"id\":\""
  const UNLOCKED := "\"unlocked\":"
  const LIST := "\"achievements\""

  predicate Occurs(t: string, key: string, p: nat) {
    p + |key| <= |t| && t[p..p + |key|] == key
  }

  ghost predicate FirstAt(t: string, key: string, p: nat) {
    Occurs(t, key, p) && forall q | 0 <= q < p :: !Occurs(t, key, q)
  }

  lemma {:induction false} SomeFirst(t: string, key: string, p: nat)
    requires Occurs(t, key, p)
    ensures exists q | 0 <= q <= p :: FirstAt(t, key, q)
  {
    if q :| 0 <= q < p && Occurs(t, key, q) {
      SomeFirst(t, key, q);
    } else {
      assert FirstAt(t, key, p);
    }
  }

  /** The first place of a key, or -1. */
  ghost function Find(t: string, key: string): (p: int)
    ensures -1 <= p <= |t|
    ensures p >= 0 ==> FirstAt(t, key, p)
    ensures p < 0 ==> forall q: nat :: !Occurs(t, key, q)
  {
    if q: nat :| Occurs(t, key, q) then
      SomeFirst(t, key, q);
      var p: nat :| p <= q && FirstAt(t, key, p);
      p
    else -1
  }

  lemma FindAt(t: string, key: string, p: nat)
    requires FirstAt(t, key, p)
    ensures Find(t, key) == p
  {
  }

  const QUOTE := "\""
  const OPEN := "["
  const CLOSE := "]"

  /** Text without a character has none of it as a key. */
  lemma NoCharacter(gap: string, c: char)
    requires c !in gap
    ensures Clear(gap, [c])
  {
    forall p | 0 <= p < |gap|
      ensures !Occurs(gap + [c], [c], p)
    {
      assert (gap + [c])[p..p + 1] == [gap[p]];
    }
  }

  /** A gap before a key: the key starts nowhere in it, not even across its end. */
  ghost predicate Clear(gap: string, key: string) {
    forall p | 0 <= p < |gap| :: !Occurs(gap + key, key, p)
  }

  lemma FindAfterGap(gap: string, key: string, more: string)
    requires Clear(gap, key)
    ensures Find(gap + key + more, key) == |gap|
  {
    var t := gap + key + more;
    assert t[|gap|..|gap| + |key|] == key;
    forall q | 0 <= q < |gap|
      ensures !Occurs(t, key, q)
    {
      assert !Occurs(gap + key, key, q);
      assert t[q..q + |key|] == (gap + key)[q..q + |key|];
    }
    FindAt(t, key, |gap|);
  }

  lemma FindNowhere(gap: string, key: string)
    requires Clear(gap, key) && key != []
    ensures Find(gap, key) == -1
  {
    forall q | 0 <= q <= |gap|
      ensures !Occurs(gap, key, q)
    {
      if q + |key| <= |gap| {
        assert !Occurs(gap + key, key, q);
        assert (gap + key)[q..q + |key|] == gap[q..q + |key|];
      }
    }
  }

  /** Up to a key; the whole text when there is none. */
  ghost function UpTo(t: string, key: string): (r: string)
    ensures |r| <= |t|
  {
    var p := Find(t, key);
    if p < 0 then t else t[..p]
  }

  /** The id at the start of a text: up to a quote, and no longer than fits. */
  ghost function IdAt(t: string): (id: string)
    ensures |id| <= |t| && |id| <= 47
  {
    var id := UpTo(t, QUOTE);
    if |id| < XBL_ACH_ID_MAX then id else id[..XBL_ACH_ID_MAX - 1]
  }

  /** An empty id names nothing. */
  function OptId(id: string): seq<string> {
    if id == [] then [] else [id]
  }

  predicate PlainId(id: string) {
    0 < |id| < 48 && '"' !in id
  }

  lemma PlainIdAt(id: string, rest: string)
    requires PlainId(id) && rest != [] && rest[0] == '"'
    ensures IdAt(id + rest) == id && (id + rest)[|id|..] == rest
  {
    NoCharacter(id, '"');
    FindAfterGap(id, QUOTE, rest[1..]);
    assert id + QUOTE + rest[1..] == id + rest;
  }

  // ---- the catalog of a signed-in player ----

  function SkipSpaces(t: string): (r: string)
    ensures |r| <= |t| && r == t[|t| - |r|..] && (r != [] ==> r[0] != ' ')
    ensures forall k | 0 <= k < |t| - |r| :: t[k] == ' '
  {
    if t != [] && t[0] == ' ' then
      var r := SkipSpaces(t[1..]);
      assert forall k | 0 < k < |t| - |r| :: t[k] == t[1..][k - 1];
      r
    else t
  }

  /** Whether the object whose id was just read is unlocked: its flag stands before the next id and is true. */
  ghost predicate IsUnlocked(rest: string) {
    var next, unl := Find(rest, ID), Find(rest, UNLOCKED);
    0 <= unl && (next < 0 || unl < next) && Occurs(SkipSpaces(rest[unl + |UNLOCKED|..]), "true", 0)
  }

  /** The ids the scan marks, from a place in the list on. */
  ghost function Scan(t: string): seq<string>
    decreases |t|
  {
    var i := Find(t, ID);
    if i < 0 then []
    else
      var r := t[i + |ID|..];
      var id := IdAt(r);
      var rest := r[|id|..];
      (if id != [] && IsUnlocked(rest) then [id] else []) + Scan(rest)
  }

  /** What follows a key, from the next opening bracket on. */
  ghost function ListFrom(body: string, key: string): (r: Option<string>)
    ensures r.Some? ==> r.value != [] && r.value[0] == '['
  {
    var a := Find(body, key);
    if a < 0 then None
    else
      var list := body[a..];
      var b := Find(list, OPEN);
      assert 0 <= b ==> list[b..b + 1][0] == list[b];
      if b < 0 then None else Some(list[b..])
  }

  ghost function SyncIds(body: string): seq<string> {
    match ListFrom(body, LIST)
    case None => []
    case Some(list) => Scan(list)
  }

  /** One entry of the list: id first, then its flag, with other fields between and behind. */
  datatype Entry = Entry(id: string, gap: string, spaces: nat, unlocked: bool, after: string)

  function Spaces(n: nat): (s: string)
    ensures |s| == n && forall c | c in s :: c == ' '
  {
    if n == 0 then [] else [' '] + Spaces(n - 1)
  }

  function Value(b: bool): string {
    if b then "true" else "false"
  }

  /** An entry, from the quote that closes its id up to the next entry's id key. */
  function Fields(e: Entry): string {
    "\"" + e.gap + UNLOCKED + (Spaces(e.spaces) + Value(e.unlocked) + e.after)
  }

  function Text(entries: seq<Entry>): string {
    if entries == [] then []
    else ID + (entries[0].id + (Fields(entries[0]) + Text(entries[1..])))
  }

  /** No look-alike keys: the id key stands only before ids, and the flag key only once before the flag. */
  ghost predicate Documented(e: Entry) {
    PlainId(e.id) && Clear("\"" + e.gap, UNLOCKED) && Clear(Fields(e), ID)
  }

  function UnlockedIds(entries: seq<Entry>): seq<string> {
    if entries == [] then []
    else (if entries[0].unlocked then [entries[0].id] else []) + UnlockedIds(entries[1..])
  }

  lemma {:induction false} ValueAfterSpaces(n: nat, b: bool, more: string)
    ensures Occurs(SkipSpaces(Spaces(n) + Value(b) + more), "true", 0) <==> b
  {
    var t := Spaces(n) + Value(b) + more;
    if n == 0 {
      assert t == Value(b) + more;
      assert t[0] == if b then 't' else 'f';
    } else {
      assert t[1..] == Spaces(n - 1) + Value(b) + more;
      ValueAfterSpaces(n - 1, b, more);
    }
  }

  lemma FlagAfterGap(gap: string, key: string, n: nat, b: bool, more: string)
    requires Clear(gap, key)
    ensures var t := gap + key + (Spaces(n) + Value(b) + more);
            Find(t, key) == |gap| && (Occurs(SkipSpaces(t[|gap| + |key|..]), "true", 0) <==> b)
  {
    FindAfterGap(gap, key, Spaces(n) + Value(b) + more);
    ValueAfterSpaces(n, b, more);
    assert (gap + key + (Spaces(n) + Value(b) + more))[|gap| + |key|..] == Spaces(n) + Value(b) + more;
  }

  lemma Regroup(gap: string, key: string, a: string, b: string, c: string, d: string)
    ensures gap + key + (a + b + c) + d == gap + key + (a + b + (c + d))
  {
  }

  /** The flag found behind an id is the entry's own. */
  lemma OwnFlag(e: Entry, entries: seq<Entry>)
    requires Documented(e)
    ensures IsUnlocked(Fields(e) + Text(entries)) <==> e.unlocked
  {
    Regroup("\"" + e.gap, UNLOCKED, Spaces(e.spaces), Value(e.unlocked), e.after, Text(entries));
    FlagAfterGap("\"" + e.gap, UNLOCKED, e.spaces, e.unlocked, e.after + Text(entries));
    NextId(e, entries);
  }

  /** The next id key behind an entry is the next entry's. */
  lemma NextId(e: Entry, entries: seq<Entry>)
    requires Documented(e)
    ensures Find(Fields(e) + Text(entries), ID) == if entries == [] then -1 else |Fields(e)|
  {
    if entries == [] {
      assert Fields(e) + Text(entries) == Fields(e);
      FindNowhere(Fields(e), ID);
    } else {
      var more := entries[0].id + (Fields(entries[0]) + Text(entries[1..]));
      assert Fields(e) + Text(entries) == Fields(e) + ID + more;
      FindAfterGap(Fields(e), ID, more);
    }
  }

  lemma {:induction false} ScanFinds(lead: string, entries: seq<Entry>)
    requires Clear(lead, ID) && AllDocumented(entries)
    ensures Scan(lead + Text(entries)) == UnlockedIds(entries)
    decreases |entries|
  {
    var t := lead + Text(entries);
    if entries == [] {
      assert t == lead;
      FindNowhere(lead, ID);
    } else {
      var e, others := entries[0], entries[1..];
      assert Documented(e);
      assert t == lead + ID + (e.id + (Fields(e) + Text(others)));
      ScanStep(lead, e.id, Fields(e) + Text(others));
      OwnFlag(e, others);
      ScanFinds(Fields(e), others);
    }
  }

  /** One turn of the scan. */
  lemma ScanStep(lead: string, id: string, rest: string)
    requires Clear(lead, ID) && PlainId(id) && rest != [] && rest[0] == '"'
    ensures Scan(lead + ID + (id + rest)) == (if IsUnlocked(rest) then [id] else []) + Scan(rest)
  {
    var t := lead + ID + (id + rest);
    FindAfterGap(lead, ID, id + rest);
    PlainIdAt(id, rest);
    assert t[|lead| + |ID|..] == id + rest && (id + rest)[|id|..] == rest;
  }

  lemma ListAfterKey(head: string, key: string, between: string, rest: string)
    requires Clear(head, key) && '[' !in key && '[' !in between
    ensures ListFrom(head + key + (between + ("[" + rest)), key) == Some("[" + rest)
  {
    var more := between + ("[" + rest);
    FindAfterGap(head, key, more);
    assert (head + key + more)[|head|..] == key + more;
    assert key + more == key + between + OPEN + rest;
    NoCharacter(key + between, '[');
    FindAfterGap(key + between, OPEN, rest);
    assert (key + more)[|key + between|..] == "[" + rest;
  }

  lemma Joined<T>(a: seq<T>, b: seq<T>, c: seq<T>)
    ensures a + (b + c) == a + b + c
  {
  }

  lemma SyncScans(body: string, list: string)
    requires ListFrom(body, LIST) == Some(list)
    ensures SyncIds(body) == Scan(list)
  {
  }

  ghost predicate AllDocumented(entries: seq<Entry>) {
    forall e | e in entries :: Documented(e)
  }

  /** The body of an answer, from what comes before the list. */
  function CatalogText(head: string, between: string, lead: string, entries: seq<Entry>): string {
    head + LIST + (between + ("[" + (lead + Text(entries))))
  }

  /** A body in the documented shape. */
  ghost predicate IsCatalog(body: string, entries: seq<Entry>) {
    exists head, between, lead ::
      body == CatalogText(head, between, lead, entries) && AllDocumented(entries)
      && Clear(head, LIST) && '[' !in between && Clear("[" + lead, ID)
  }

  /** On a response in the documented shape the scan finds exactly the ids whose flag is true, in order. */
  lemma SyncFindsUnlocked(body: string, entries: seq<Entry>)
    requires IsCatalog(body, entries)
    ensures SyncIds(body) == UnlockedIds(entries)
  {
    var head, between, lead :|
      body == CatalogText(head, between, lead, entries) && AllDocumented(entries)
      && Clear(head, LIST) && '[' !in between && Clear("[" + lead, ID);
    ListAfterKey(head, LIST, between, lead + Text(entries));
    Joined("[", lead, Text(entries));
    SyncScans(body, "[" + (lead + Text(entries)));
    ScanFinds("[" + lead, entries);
  }

  /** A gap is clear of a key when none of its characters starts the key's first two. */
  lemma ClearBySecond(gap: string, key: string)
    requires |key| > 1
    requires forall p | 0 <= p < |gap| :: gap[p] != key[0] || (gap + key)[p + 1] != key[1]
    ensures Clear(gap, key)
  {
    forall p | 0 <= p < |gap|
      ensures !Occurs(gap + key, key, p)
    {
      if p + |key| <= |gap + key| {
        var w := (gap + key)[p..p + |key|];
        assert w[0] == gap[p] && w[1] == (gap + key)[p + 1];
      }
    }
  }

  /** A piece in front of a clear gap. */
  lemma ClearOnto(piece: string, gap: string, key: string)
    requires |key| > 1 && Clear(gap, key)
    requires forall p | 0 <= p < |piece| :: piece[p] != key[0] || (piece + (gap + key))[p + 1] != key[1]
    ensures Clear(piece + gap, key)
  {
    assert piece + gap + key == piece + (gap + key);
    forall p | 0 <= p < |piece + gap|
      ensures !Occurs(piece + gap + key, key, p)
    {
      if p < |piece| {
        if p + |key| <= |piece + gap + key| {
          var w := (piece + gap + key)[p..p + |key|];
          assert w[0] == piece[p] && w[1] == (piece + gap + key)[p + 1];
        }
      } else {
        assert !Occurs(gap + key, key, p - |piece|);
        if p + |key| <= |piece + gap + key| {
          assert (piece + gap + key)[p..p + |key|] == (gap + key)[p - |piece|..p - |piece| + |key|];
        }
      }
    }
  }

  /** Text without quotes in front of a clear gap. */
  lemma ClearWords(words: string, gap: string, key: string)
    requires |key| > 1 && Clear(gap, key) && key[0] !in words
    ensures Clear(words + gap, key)
  {
    ClearOnto(words, gap, key);
  }

  // The fields of the documentation's example.
  const NAME := "\",\"name\":\""
  const TITLE := "Getting the Hang of It"
  const DESCRIPTION := "\",\"description\":\""
  const TEXT := "Survive 10 seconds in a single run."
  const KIND := "\",\"kind\":\"run\","
  const AFTER := ",\"unlocked_count\":3 } ] }"

  function Described(rest: string): string {
    NAME + (TITLE + (DESCRIPTION + (TEXT + rest)))
  }

  lemma DescribedIsClear(rest: string, key: string)
    requires |key| > 1 && key[0] == '"' && key[1] != 'n' && key[1] != ',' && key[1] != ':' && key[1] != 'd' && key[1] != 'G' && key[1] != 'S'
    requires Clear(rest, key)
    ensures Clear(Described(rest), key)
  {
    ClearWords(TEXT, rest, key);
    ClearOnto(DESCRIPTION, TEXT + rest, key);
    ClearWords(TITLE, DESCRIPTION + (TEXT + rest), key);
    ClearOnto(NAME, TITLE + (DESCRIPTION + (TEXT + rest)), key);
  }

  /** The entry of the documentation's example. */
  function ExampleEntry(): Entry {
    Entry("survivor_10s", Described(KIND)[1..], 0, true, AFTER)
  }

  lemma ExampleEntryIsDocumented()
    ensures Documented(ExampleEntry())
  {
    var value := Spaces(0) + Value(true) + AFTER;
    assert "\"" + ExampleEntry().gap == Described(KIND);
    ExampleGap();
    ExampleFields(value);
    ExampleRest(value);
  }

  lemma ExampleGap()
    ensures Clear(Described(KIND), UNLOCKED)
  {
    ClearBySecond(KIND, UNLOCKED);
    DescribedIsClear(KIND, UNLOCKED);
  }

  lemma ExampleRest(value: string)
    requires value == "true" + AFTER
    ensures Clear(Described(KIND + UNLOCKED + value), ID)
  {
    ClearBySecond(KIND + UNLOCKED + value, ID);
    DescribedIsClear(KIND + UNLOCKED + value, ID);
  }

  lemma ExampleFields(value: string)
    ensures Described(KIND) + UNLOCKED + value == Described(KIND + UNLOCKED + value)
  {
  }

  const GAME := "{ \"game_id\":\"og-testgame\","
  const TITLED := "\"game_name\":\"Test Game\",\n  "

  /** The documentation's example has the documented shape, and its one unlocked id is found. */
  lemma ExampleIsFound()
    ensures var body := CatalogText(GAME + TITLED, ":", " { ", [ExampleEntry()]);
            IsCatalog(body, [ExampleEntry()]) && SyncIds(body) == ["survivor_10s"]
  {
    var entries := [ExampleEntry()];
    ClearBySecond(TITLED, LIST);
    ClearOnto(GAME, TITLED, LIST);
    ClearBySecond("[" + " { ", ID);
    ExampleEntryIsDocumented();
    assert AllDocumented(entries);
    SyncFindsUnlocked(CatalogText(GAME + TITLED, ":", " { ", entries), entries);
    assert entries[1..] == [];
  }

  // ---- the answer to a report ----

  const NEW := "\"unlocked\""
  const ALL := "\"all\""

  /** The keys as they stand in the documentation's examples. */
  lemma CatalogKeys()
    ensures LIST + ":[ { " + ID + "survivor_10s" == "\"achievements\":[ { \"id\":\"survivor_10s"
    ensures UNLOCKED + "true" == "\"unlocked\":true"
  {
  }

  lemma ReportKeys()
    ensures NEW + ": [ { " + ID == "\"unlocked\": [ { \"id\":\""
    ensures ALL + ": [ " + QUOTE + "first_run" + QUOTE == "\"all\": [ \"first_run\""
  {
  }

  lemma NotClosed(list: string)
    requires list != [] && list[0] == '['
    ensures !Occurs(list, CLOSE, 0)
  {
    assert list[0..1][0] == list[0];
  }

  /** The array behind a key, up to its closing bracket. */
  ghost function Region(body: string, key: string): (r: Option<string>)
    ensures r.Some? ==> r.value != []
  {
    match ListFrom(body, key)
    case None => None
    case Some(list) =>
      var end := Find(list, CLOSE);
      NotClosed(list);
      if end < 0 then None else Some(list[..end])
  }

  function Tail(t: string): (r: string)
    ensures |r| <= |t|
  {
    if t == [] then [] else t[1..]
  }

  /** Where the search for the next id goes on behind an id: at its closing quote, or past it. */
  function Behind(rest: string, past: bool): (r: string)
    ensures |r| <= |rest|
  {
    if past then Tail(rest) else rest
  }

  /** Every id behind a key. */
  ghost function Ids(t: string, key: string, past: bool): seq<string>
    requires key != []
    decreases |t|
  {
    var i := Find(t, key);
    if i < 0 then []
    else
      var r := t[i + |key|..];
      var id := IdAt(r);
      OptId(id) + Ids(Behind(r[|id|..], past), key, past)
  }

  ghost function Newly(body: string): seq<string> {
    match Region(body, NEW)
    case None => []
    case Some(t) => Ids(t, ID, false)
  }

  ghost function Everything(body: string): seq<string> {
    match Region(body, ALL)
    case None => []
    case Some(t) => Ids(t, QUOTE, true)
  }

  /** An id of an array, and what stands from its closing quote up to the next key. */
  datatype Item = Item(id: string, rest: string)

  /** The next key found behind an id is the next item's. */
  ghost predicate DocumentedItem(e: Item, key: string, past: bool) {
    PlainId(e.id) && e.rest != [] && e.rest[0] == '"' && Clear(Behind(e.rest, past), key)
  }

  ghost predicate AllItems(items: seq<Item>, key: string, past: bool) {
    forall e | e in items :: DocumentedItem(e, key, past)
  }

  function ItemText(items: seq<Item>, key: string): string {
    if items == [] then [] else key + (items[0].id + (items[0].rest + ItemText(items[1..], key)))
  }

  function ItemIds(items: seq<Item>): seq<string> {
    if items == [] then [] else [items[0].id] + ItemIds(items[1..])
  }

  lemma IdsStep(lead: string, key: string, past: bool, id: string, rest: string)
    requires key != [] && Clear(lead, key) && PlainId(id) && rest != [] && rest[0] == '"'
    ensures Ids(lead + key + (id + rest), key, past) == [id] + Ids(Behind(rest, past), key, past)
  {
    var t := lead + key + (id + rest);
    FindAfterGap(lead, key, id + rest);
    PlainIdAt(id, rest);
    assert t[|lead| + |key|..] == id + rest && (id + rest)[|id|..] == rest;
  }

  lemma BehindMore(rest: string, more: string, past: bool)
    requires rest != []
    ensures Behind(rest + more, past) == Behind(rest, past) + more
  {
    assert (rest + more)[1..] == rest[1..] + more;
  }

  lemma {:induction false} IdsFound(lead: string, items: seq<Item>, key: string, past: bool)
    requires key != [] && Clear(lead, key) && AllItems(items, key, past)
    ensures Ids(lead + ItemText(items, key), key, past) == ItemIds(items)
    decreases |items|
  {
    var t := lead + ItemText(items, key);
    if items == [] {
      assert t == lead;
      FindNowhere(lead, key);
    } else {
      var e, others := items[0], items[1..];
      assert DocumentedItem(e, key, past);
      assert t == lead + key + (e.id + (e.rest + ItemText(others, key)));
      IdsStep(lead, key, past, e.id, e.rest + ItemText(others, key));
      BehindMore(e.rest, ItemText(others, key), past);
      IdsFound(Behind(e.rest, past), others, key, past);
    }
  }

  lemma RegionAfterKey(head: string, key: string, between: string, inside: string, tail: string)
    requires Clear(head, key) && '[' !in key && '[' !in between && ']' !in inside
    ensures Region(head + key + (between + ("[" + (inside + ("]" + tail)))), key) == Some("[" + inside)
  {
    ListAfterKey(head, key, between, inside + ("]" + tail));
    var list := "[" + (inside + ("]" + tail));
    NoCharacter("[" + inside, ']');
    assert list == "[" + inside + CLOSE + tail;
    FindAfterGap("[" + inside, CLOSE, tail);
    assert list[..1 + |inside|] == "[" + inside;
  }

  lemma NewScans(body: string, inside: string)
    requires Region(body, NEW) == Some(inside)
    ensures Newly(body) == Ids(inside, ID, false)
  {
  }

  lemma AllScans(body: string, inside: string)
    requires Region(body, ALL) == Some(inside)
    ensures Everything(body) == Ids(inside, QUOTE, true)
  {
  }

  /** The body of an answer, around its granted array. */
  function GrantText(head: string, between: string, lead: string, items: seq<Item>, tail: string): string {
    head + NEW + (between + ("[" + (lead + ItemText(items, ID) + ("]" + tail))))
  }

  /** A body in the documented shape that grants these. */
  ghost predicate Grants(body: string, items: seq<Item>) {
    exists head, between, lead, tail ::
      body == GrantText(head, between, lead, items, tail) && AllItems(items, ID, false)
      && Clear(head, NEW) && '[' !in between && ']' !in lead + ItemText(items, ID) && Clear("[" + lead, ID)
  }

  /** The ids of the granted array, in order. */
  lemma ReportFindsNew(body: string, items: seq<Item>)
    requires Grants(body, items)
    ensures Newly(body) == ItemIds(items)
  {
    var head, between, lead, tail :|
      body == GrantText(head, between, lead, items, tail) && AllItems(items, ID, false)
      && Clear(head, NEW) && '[' !in between && ']' !in lead + ItemText(items, ID) && Clear("[" + lead, ID);
    var inside := lead + ItemText(items, ID);
    RegionAfterKey(head, NEW, between, inside, tail);
    Joined("[", lead, ItemText(items, ID));
    NewScans(body, "[" + inside);
    IdsFound("[" + lead, items, ID, false);
  }

  /** The body of an answer, around its full array. */
  function FullText(head: string, between: string, lead: string, items: seq<Item>, tail: string): string {
    head + ALL + (between + ("[" + (lead + ItemText(items, QUOTE) + ("]" + tail))))
  }

  /** A body in the documented shape that lists these as all there are. */
  ghost predicate ListsAll(body: string, items: seq<Item>) {
    exists head, between, lead, tail ::
      body == FullText(head, between, lead, items, tail) && AllItems(items, QUOTE, true)
      && Clear(head, ALL) && '[' !in between && ']' !in lead + ItemText(items, QUOTE) && '"' !in lead
  }

  /** The ids of the full array, in order. */
  lemma ReportFindsAll(body: string, items: seq<Item>)
    requires ListsAll(body, items)
    ensures Everything(body) == ItemIds(items)
  {
    var head, between, lead, tail :|
      body == FullText(head, between, lead, items, tail) && AllItems(items, QUOTE, true)
      && Clear(head, ALL) && '[' !in between && ']' !in lead + ItemText(items, QUOTE) && '"' !in lead;
    var inside := lead + ItemText(items, QUOTE);
    RegionAfterKey(head, ALL, between, inside, tail);
    Joined("[", lead, ItemText(items, QUOTE));
    AllScans(body, "[" + inside);
    NoCharacter("[" + lead, '"');
    IdsFound("[" + lead, items, QUOTE, true);
  }
}
