/** The documentation's own answer to a report, read by the scanners. */
module ReportExample {
  import opened Common
  import opened AwardText

  /** A piece of text that has at most one quote, in front, and no key behind it. */
  ghost predicate Piece(p: string, second: char) {
    && (p != [] && p[0] == '"' ==> |p| > 1 && p[1] != second)
    && (forall k | 0 < k < |p| :: p[k] != '"')
  }

  lemma {:induction false} ClearPieces(pieces: seq<string>, key: string)
    requires |key| > 1 && key[0] == '"' && forall p | p in pieces :: Piece(p, key[1])
    ensures Clear(Concat(pieces), key)
    decreases |pieces|
  {
    if pieces != [] {
      ClearPieces(pieces[1..], key);
      ClearPiece(pieces[0], Concat(pieces[1..]), key);
    }
  }

  lemma ClearPiece(p: string, gap: string, key: string)
    requires |key| > 1 && key[0] == '"' && Piece(p, key[1]) && Clear(gap, key)
    ensures Clear(p + gap, key)
  {
    ClearOnto(p, gap, key);
  }

  lemma {:induction false} NowhereIn(pieces: seq<string>, c: char)
    requires forall p | p in pieces :: c !in p
    ensures c !in Concat(pieces)
    decreases |pieces|
  {
    if pieces != [] {
      NowhereIn(pieces[1..], c);
    }
  }

  lemma {:induction false} Concats(a: seq<string>, b: seq<string>)
    ensures Concat(a + b) == Concat(a) + Concat(b)
    decreases |a|
  {
    if a == [] {
      assert a + b == b;
    } else {
      Concats(a[1..], b);
      assert (a + b)[1..] == a[1..] + b;
    }
  }

  lemma {:induction false} NoBracket(items: seq<Item>, key: string)
    requires ']' !in key && forall e | e in items :: ']' !in e.id && ']' !in e.rest
    ensures ']' !in ItemText(items, key)
    decreases |items|
  {
    if items != [] {
      NoBracket(items[1..], key);
    }
  }

  // The documented answer, in pieces: up to the granted array, behind its one id, and between the arrays.
  const SUCCESS := ["{ ", "\"success", "\": true,\n  "]
  const SCORE := ["\"stats", "\": { ", "\"score", "\": 1653, "]
  const PASSED := ["\"obstaclesPassed", "\": 42 },\n  "]
  const NAMED := ["\", ", "\"name", "\":"]
  const TITLED := ["\"G", "etting the Hang of It"]
  const INDENTED := ["\",\n", "                  "]
  const DESCRIBED := ["\"description", "\":", "\"S"]
  const SURVIVED := ["urvive 10 seconds in a single run."]
  const ENDED := ["\", ", "\"kind", "\":", "\"run", "\" } "]
  const INTO := ["\"unlocked", "\": [ { ", "\"id", "\":", "\"survivor_10s"]
  const BETWEEN := "],\n  "

  const LISTED := [Item("survivor_10s", "\", "), Item("survivor_20s", "\", "), Item("dodger_25", "\", "), Item("first_run", "\" ")]

  /** An answer that grants survivor_10s. */
  function AnswerOf(stats: seq<string>, grant: seq<string>, listed: seq<Item>): string {
    FullText(Concat(stats + INTO + grant + [BETWEEN]), ": ", " ", listed, " }")
  }

  /** The answer as it stands in the documentation. */
  function Answer(): string {
    AnswerOf(SUCCESS + SCORE + PASSED, NAMED + TITLED + INDENTED + DESCRIBED + SURVIVED + ENDED, LISTED)
  }

  ghost predicate StatsPieces(stats: seq<string>) {
    forall p | p in stats :: Piece(p, 'u') && Piece(p, 'a')
  }

  ghost predicate GrantPieces(grant: seq<string>) {
    forall p | p in grant :: Piece(p, 'i') && Piece(p, 'a') && ']' !in p
  }

  lemma SuccessFits()
    ensures StatsPieces(SUCCESS)
  {
  }

  lemma ScoreFits()
    ensures StatsPieces(SCORE)
  {
  }

  lemma PassedFits()
    ensures StatsPieces(PASSED)
  {
  }

  lemma NamedFits()
    ensures GrantPieces(NAMED)
  {
  }

  lemma WordsFit(words: string)
    requires '"' !in words && ']' !in words
    ensures GrantPieces([words])
  {
  }

  lemma TitledFits()
    ensures GrantPieces(TITLED)
  {
    WordsFit("etting the Hang of It");
  }

  lemma IndentedFits()
    ensures GrantPieces(INDENTED)
  {
    WordsFit("                  ");
  }

  lemma DescribedFits()
    ensures GrantPieces(DESCRIBED)
  {
  }

  lemma SurvivedFits()
    ensures GrantPieces(SURVIVED)
  {
    WordsFit(SURVIVED[0]);
  }

  lemma EndedFits()
    ensures GrantPieces(ENDED)
  {
  }

  ghost predicate ListedItem(e: Item) {
    PlainId(e.id) && ']' !in e.id && (e.rest == "\", " || e.rest == "\" ")
  }

  ghost predicate ListedItems(items: seq<Item>) {
    forall e | e in items :: ListedItem(e)
  }

  lemma ItemsFit()
    ensures ListedItem(Item("survivor_10s", "\", ")) && ListedItem(Item("survivor_20s", "\", "))
    ensures ListedItem(Item("dodger_25", "\", ")) && ListedItem(Item("first_run", "\" "))
  {
  }

  lemma ListedFits()
    ensures ListedItems(LISTED)
  {
    forall e | e in LISTED
      ensures ListedItem(e)
    {
      ItemsFit();
    }
  }

  lemma HeadIsClear(stats: seq<string>, grant: seq<string>)
    requires StatsPieces(stats) && GrantPieces(grant)
    ensures Clear(Concat(stats + INTO + grant + [BETWEEN]), ALL)
  {
    assert forall p | p in INTO + [BETWEEN] :: Piece(p, 'a');
    ClearPieces(stats + INTO + grant + [BETWEEN], ALL);
  }

  lemma ListedIsDocumented(e: Item)
    requires ListedItem(e)
    ensures DocumentedItem(e, QUOTE, true) && ']' !in e.rest
  {
    NoCharacter(e.rest[1..], '"');
  }

  lemma AnswerLists(stats: seq<string>, grant: seq<string>, listed: seq<Item>)
    requires StatsPieces(stats) && GrantPieces(grant) && ListedItems(listed)
    ensures ListsAll(AnswerOf(stats, grant, listed), listed)
  {
    HeadIsClear(stats, grant);
    forall e | e in listed
      ensures DocumentedItem(e, QUOTE, true) && ']' !in e.id && ']' !in e.rest
    {
      ListedIsDocumented(e);
    }
    NoBracket(listed, QUOTE);
  }

  lemma GrantedIsItem(rest: string)
    requires Clear(rest, ID) && ']' !in rest && rest != [] && rest[0] == '"'
    ensures var items := [Item("survivor_10s", rest)];
            && AllItems(items, ID, false) && ']' !in " { " + ItemText(items, ID)
            && ItemText(items, ID) == ID + ("survivor_10s" + rest) && ItemIds(items) == ["survivor_10s"]
  {
    var items := [Item("survivor_10s", rest)];
    assert items[1..] == [];
  }

  /** Where the answer divides does not matter. */
  lemma Divided(stats: string, rest: string, list: string)
    ensures stats + "\"unlocked\": [ { \"id\":\"survivor_10s" + rest + BETWEEN + list ==
            stats + NEW + (": " + ("[" + (" { " + (ID + ("survivor_10s" + rest)) + ("]" + (",\n  " + list)))))
  {
  }

  lemma IntoIs()
    ensures Concat(INTO) == "\"unlocked\": [ { \"id\":\"survivor_10s"
  {
  }

  lemma HeadIs(stats: seq<string>, grant: seq<string>)
    ensures Concat(stats + INTO + grant + [BETWEEN]) ==
            Concat(stats) + "\"unlocked\": [ { \"id\":\"survivor_10s" + Concat(grant) + BETWEEN
  {
    Concats(stats, INTO);
    Concats(stats + INTO, grant);
    Concats(stats + INTO + grant, [BETWEEN]);
    assert Concat([BETWEEN]) == BETWEEN;
    IntoIs();
  }

  lemma AnswerGrants(stats: seq<string>, grant: seq<string>, listed: seq<Item>)
    requires StatsPieces(stats) && GrantPieces(grant) && grant != [] && grant[0] != [] && grant[0][0] == '"'
    ensures Grants(AnswerOf(stats, grant, listed), [Item("survivor_10s", Concat(grant))])
  {
    var list := ALL + (": " + ("[" + (" " + ItemText(listed, QUOTE) + ("]" + " }"))));
    ClearPieces(stats, NEW);
    ClearPieces(grant, ID);
    NowhereIn(grant, ']');
    GrantedIsItem(Concat(grant));
    ClearBySecond("[" + " { ", ID);
    AnswerIsGrant(stats, grant, listed, list);
    GrantsBy(Concat(stats), ": ", " { ", [Item("survivor_10s", Concat(grant))], ",\n  " + list);
  }

  lemma GrantsBy(head: string, between: string, lead: string, items: seq<Item>, tail: string)
    requires Clear(head, NEW) && '[' !in between && Clear("[" + lead, ID)
    requires AllItems(items, ID, false) && ']' !in lead + ItemText(items, ID)
    ensures Grants(GrantText(head, between, lead, items, tail), items)
  {
  }

  lemma AnswerIsGrant(stats: seq<string>, grant: seq<string>, listed: seq<Item>, list: string)
    requires list == ALL + (": " + ("[" + (" " + ItemText(listed, QUOTE) + ("]" + " }"))))
    requires ItemText([Item("survivor_10s", Concat(grant))], ID) == ID + ("survivor_10s" + Concat(grant))
    ensures AnswerOf(stats, grant, listed) ==
            GrantText(Concat(stats), ": ", " { ", [Item("survivor_10s", Concat(grant))], ",\n  " + list)
  {
    HeadIs(stats, grant);
    Divided(Concat(stats), Concat(grant), list);
    Joined(Concat(stats + INTO + grant + [BETWEEN]), ALL, (": " + ("[" + (" " + ItemText(listed, QUOTE) + ("]" + " }")))));
  }

  lemma FourIds(a: Item, b: Item, c: Item, d: Item)
    ensures ItemIds([a, b, c, d]) == [a.id, b.id, c.id, d.id]
  {
    assert [a, b, c, d][1..] == [b, c, d] && [b, c, d][1..] == [c, d] && [c, d][1..] == [d] && [d][1..] == [];
    assert ItemIds([d]) == [d.id] && ItemIds([c, d]) == [c.id, d.id] && ItemIds([b, c, d]) == [b.id, c.id, d.id];
  }

  /** The documentation's answer has the documented shape: it grants survivor_10s and lists four, that one among them. */
  lemma AnswerIsFound()
    ensures Newly(Answer()) == ["survivor_10s"]
    ensures Everything(Answer()) == ["survivor_10s", "survivor_20s", "dodger_25", "first_run"]
  {
    SuccessFits();
    ScoreFits();
    PassedFits();
    NamedFits();
    TitledFits();
    IndentedFits();
    DescribedFits();
    SurvivedFits();
    EndedFits();
    ListedFits();
    FourIds(LISTED[0], LISTED[1], LISTED[2], LISTED[3]);
    Found(SUCCESS + SCORE + PASSED, NAMED + TITLED + INDENTED + DESCRIBED + SURVIVED + ENDED, LISTED);
  }

  lemma Found(stats: seq<string>, grant: seq<string>, listed: seq<Item>)
    requires StatsPieces(stats) && GrantPieces(grant) && ListedItems(listed)
    requires grant != [] && grant[0] != [] && grant[0][0] == '"'
    ensures Newly(AnswerOf(stats, grant, listed)) == ["survivor_10s"]
    ensures Everything(AnswerOf(stats, grant, listed)) == ItemIds(listed)
  {
    AnswerGrants(stats, grant, listed);
    AnswerLists(stats, grant, listed);
    ReportFindsNew(AnswerOf(stats, grant, listed), [Item("survivor_10s", Concat(grant))]);
    ReportFindsAll(AnswerOf(stats, grant, listed), listed);
    assert [Item("survivor_10s", Concat(grant))][1..] == [];
  }
}
