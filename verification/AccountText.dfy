/** Remembered accounts as lines of text. */
module AccountText {
  import opened Common
  import opened Decimal

  const USER_MAX := 128
  const KEY_MAX := 256
  const ACCOUNTS_MAX := 8

  /** Strings in buffers of fixed size, less their NUL. */
  type Username = s: string | |s| < USER_MAX witness ""
  type Key = s: string | |s| < KEY_MAX witness ""

  datatype Account = Account(username: Username, sessionKey: Key)

  /** strncpy into a buffer of the given size. */
  function Truncate(s: string, size: nat): (t: string)
    requires 0 < size
    ensures t <= s && |t| == if |s| < size then |s| else size - 1
  {
    if |s| < size then s else s[..size - 1]
  }

  /** The first position of c, or the length of the text. */
  function IndexOf(t: string, c: char): (i: nat)
    ensures i <= |t| && c !in t[..i] && (i < |t| ==> t[i] == c)
  {
    if t == [] || t[0] == c then 0
    else
      var i := 1 + IndexOf(t[1..], c);
      assert t[..i] == [t[0]] + t[1..][..i - 1];
      i
  }

  predicate Filled(a: Account) {
    a.username != [] && a.sessionKey != []
  }

  function WrittenLine(a: Account): string {
    a.username + "\t" + a.sessionKey
  }

  function Line(a: Account): string {
    WrittenLine(a) + "\n"
  }

  /** What is written for a list; entries with an empty field are skipped. */
  function Render(list: seq<Account>): string {
    if list == [] then []
    else Render(list[..|list| - 1]) + (if Filled(list[|list| - 1]) then Line(list[|list| - 1]) else [])
  }

  function StripCr(line: string): string {
    if line != [] && line[|line| - 1] == '\r' then line[..|line| - 1] else line
  }

  /** The account of a line with a tab at i. */
  function TwoFields(l: string, i: nat): Option<Account>
    requires i < |l|
  {
    if i == 0 || i + 1 == |l| then None
    else Some(Account(Truncate(l[..i], USER_MAX), Truncate(l[i + 1..], KEY_MAX)))
  }

  /** One line: user, tab, key; None when there is no tab or a part is empty. */
  function ParseLine(line: string): Option<Account>
  {
    var l := StripCr(line);
    var tab := IndexOf(l, '\t');
    if tab == |l| then None else TwoFields(l, tab)
  }

  function Opt(o: Option<Account>): seq<Account> {
    match o case None => [] case Some(a) => [a]
  }

  /** The accounts of some lines; lines that hold none are skipped. */
  function Accounts(lines: seq<string>): seq<Account> {
    if lines == [] then [] else Accounts(lines[..|lines| - 1]) + Opt(ParseLine(lines[|lines| - 1]))
  }

  function AtMost(list: seq<Account>, max: nat): (l: seq<Account>)
    ensures l <= list && |l| == if |list| <= max then |list| else max
  {
    if |list| <= max then list else list[..max]
  }

  /** What a text loads to: the first `max` accounts of its lines. */
  function Load(t: string, max: nat): seq<Account> {
    AtMost(Accounts(Split(t, '\n')), max)
  }

  /** The file in so many characters: one line for each filled account, name, tab, key, newline. */
  lemma {:induction false} FileFormat(first: seq<Account>, more: seq<Account>, a: Account)
    ensures Render(first + more) == Render(first) + Render(more)
    ensures Render([a]) == if a.username == "" || a.sessionKey == "" then "" else a.username + "\t" + a.sessionKey + "\n"
    decreases |more|
  {
    assert [a][..0] == [];
    if more == [] {
      assert first + more == first;
    } else {
      assert (first + more)[..|first + more| - 1] == first + more[..|more| - 1];
      FileFormat(first, more[..|more| - 1], a);
    }
  }

  /** What any line is taken for: the first tab parts the name from the key, a carriage return at the end is dropped, both
      are cut to their fields, and a line without a tab or with an empty part holds nothing. */
  lemma AnyLine(user: string, key: string)
    requires '\t' !in user
    ensures ParseLine(user) == None
    ensures key != "" && key[|key| - 1] != '\r' ==> ParseLine(user + "\t" + key + "\r") == ParseLine(user + "\t" + key)
    ensures key == "" || key[|key| - 1] != '\r' ==>
              ParseLine(user + "\t" + key) ==
              if user == "" || key == "" then None
              else Some(Account(if |user| < 128 then user else user[..127], if |key| < 256 then key else key[..255]))
  {
    NoTabNoAccount(user);
    if key != "" && key[|key| - 1] != '\r' {
      StripOne(user + "\t" + key);
    }
    if key == "" || key[|key| - 1] != '\r' {
      TwoParts(user, key);
    }
  }

  lemma NoTabNoAccount(user: string)
    requires '\t' !in user
    ensures ParseLine(user) == None
  {
    var l := StripCr(user);
    IndexOfAt(l, '\t', |l|);
  }

  lemma StripOne(line: string)
    requires line != "" && line[|line| - 1] != '\r'
    ensures ParseLine(line + "\r") == ParseLine(line)
  {
    assert StripCr(line + "\r") == line;
  }

  lemma TwoParts(user: string, key: string)
    requires '\t' !in user && (key == "" || key[|key| - 1] != '\r')
    ensures ParseLine(user + "\t" + key) ==
            if user == "" || key == "" then None
            else Some(Account(if |user| < 128 then user else user[..127], if |key| < 256 then key else key[..255]))
  {
    var line := user + "\t" + key;
    assert StripCr(line) == line;
    assert line[..|user|] == user && line[|user| + 1..] == key;
    IndexOfAt(line, '\t', |user|);
  }

  // ---- when a list survives being written and read ----

  /** Fields that do not break the line format. */
  predicate Plain(a: Account) {
    '\t' !in a.username && '\n' !in a.username && '\n' !in a.sessionKey
  }

  predicate Storable(a: Account) {
    Plain(a) && a.sessionKey != [] && a.sessionKey[|a.sessionKey| - 1] != '\r'
  }

  predicate AllPlain(list: seq<Account>) {
    forall a | a in list :: Plain(a) && Filled(a)
  }

  predicate AllStorable(list: seq<Account>) {
    forall a | a in list :: Storable(a)
  }

  lemma AllPlainStep(front: seq<Account>, last: Account)
    requires AllPlain(front + [last])
    ensures AllPlain(front) && Plain(last) && Filled(last)
  {
    assert last in front + [last];
    assert forall a | a in front :: a in front + [last];
  }

  lemma {:induction false} IndexOfAt(t: string, c: char, i: nat)
    requires i <= |t| && c !in t[..i] && (i < |t| ==> t[i] == c)
    ensures IndexOf(t, c) == i
  {
    if 0 < i {
      assert t[0] == t[..i][0] && t[1..][..i - 1] == t[..i][1..];
      IndexOfAt(t[1..], c, i - 1);
    }
  }

  /** What becomes of one written plain account. */
  lemma PlainLineParses(a: Account)
    requires Plain(a) && Filled(a)
    ensures Storable(a) ==> ParseLine(WrittenLine(a)) == Some(a)
    ensures !Storable(a) ==> ParseLine(WrittenLine(a)) != Some(a)
  {
    var line := WrittenLine(a);
    assert line[|line| - 1] == a.sessionKey[|a.sessionKey| - 1];
    if Storable(a) {
      assert line[..|a.username|] == a.username && line[|a.username| + 1..] == a.sessionKey;
      IndexOfAt(line, '\t', |a.username|);
    } else {
      var l := line[..|line| - 1];
      assert l[..|a.username|] == a.username;
      IndexOfAt(l, '\t', |a.username|);
      assert |l[|a.username| + 1..]| < |a.sessionKey|;
    }
  }

  /** Whatever is read is plain: no tab or newline in a name, no newline in a key. */
  lemma ParsedIsPlain(line: string)
    requires '\n' !in line
    ensures ParseLine(line).Some? ==> Plain(ParseLine(line).value) && Filled(ParseLine(line).value)
  {
  }

  lemma {:induction false} AccountsArePlain(lines: seq<string>)
    requires forall l | l in lines :: '\n' !in l
    ensures forall a | a in Accounts(lines) :: Plain(a) && Filled(a)
    decreases |lines|
  {
    if lines != [] {
      AccountsArePlain(lines[..|lines| - 1]);
      ParsedIsPlain(lines[|lines| - 1]);
    }
  }

  lemma {:induction false} PiecesHaveNoSeparator(t: string, sep: char)
    ensures forall l | l in Split(t, sep) :: sep !in l
    decreases |t|
  {
    if t != [] {
      PiecesHaveNoSeparator(t[..|t| - 1], sep);
    }
  }

  lemma LoadedIsPlain(t: string, max: nat)
    ensures forall a | a in Load(t, max) :: Plain(a) && Filled(a)
  {
    PiecesHaveNoSeparator(t, '\n');
    AccountsArePlain(Split(t, '\n'));
  }

  /** Text without a separator joins the last piece. */
  lemma {:induction false} SplitExtends(t: string, sep: char, more: string)
    requires sep !in more
    ensures Split(t + more, sep) == Split(t, sep)[..|Split(t, sep)| - 1] + [Split(t, sep)[|Split(t, sep)| - 1] + more]
    decreases |more|
  {
    if more == [] {
      assert t + more == t;
      assert Split(t, sep)[|Split(t, sep)| - 1] + more == Split(t, sep)[|Split(t, sep)| - 1];
    } else {
      var front := more[..|more| - 1];
      assert (t + more)[..|t + more| - 1] == t + front;
      SplitExtends(t, sep, front);
      var c, p := more[|more| - 1], Split(t, sep);
      var q := Split(t + front, sep);
      assert (t + more)[|t + more| - 1] == c && c in more;
      assert q[|q| - 1] + [c] == p[|p| - 1] + more;
      assert Split(t + more, sep) == q[|q| - 1 := q[|q| - 1] + [c]];
    }
  }

  function WrittenLines(list: seq<Account>): (lines: seq<string>)
    ensures |lines| == |list|
  {
    seq(|list|, i requires 0 <= i < |list| => WrittenLine(list[i]))
  }

  /** One finished line more. */
  lemma SplitLine(t: string, pieces: seq<string>, line: string)
    requires Split(t, '\n') == pieces + [[]] && '\n' !in line
    ensures Split(t + line + "\n", '\n') == pieces + [line] + [[]]
  {
    SplitExtends(t, '\n', line);
    assert [] + line == line;
    assert Split(t + line, '\n') == pieces + [line];
    SplitLast(t + line, '\n', []);
    assert t + line + ['\n'] + [] == t + line + "\n";
  }

  lemma RenderStep(front: seq<Account>, last: Account)
    requires Filled(last)
    ensures Render(front + [last]) == Render(front) + WrittenLine(last) + "\n"
  {
    assert (front + [last])[..|front|] == front;
  }

  lemma WrittenStep(front: seq<Account>, last: Account)
    ensures WrittenLines(front + [last]) == WrittenLines(front) + [WrittenLine(last)]
    ensures Accounts(WrittenLines(front + [last])) == Accounts(WrittenLines(front)) + Opt(ParseLine(WrittenLine(last)))
  {
    var lines := WrittenLines(front + [last]);
    assert lines == WrittenLines(front) + [WrittenLine(last)];
    assert lines[..|lines| - 1] == WrittenLines(front);
  }

  /** The lines of a written list of plain accounts. */
  lemma {:induction false} SplitRendered(list: seq<Account>)
    requires AllPlain(list)
    ensures Split(Render(list), '\n') == WrittenLines(list) + [[]]
    decreases |list|
  {
    if list != [] {
      var front, last := list[..|list| - 1], list[|list| - 1];
      assert list == front + [last];
      AllPlainStep(front, last);
      SplitRendered(front);
      SplitLine(Render(front), WrittenLines(front), WrittenLine(last));
      WrittenStep(front, last);
      RenderStep(front, last);
    }
  }

  lemma AppendedAlike(p: seq<Account>, front: seq<Account>, o: seq<Account>, a: Account)
    requires |p| <= |front| && |o| <= 1
    ensures p + o == front + [a] <==> p == front && o == [a]
  {
    if p + o == front + [a] {
      assert (p + o)[..|front|] == p && (p + o)[|front|] == a;
    }
  }

  lemma AllStorableStep(front: seq<Account>, last: Account)
    ensures AllStorable(front + [last]) <==> AllStorable(front) && Storable(last)
  {
    assert last in front + [last];
    assert forall a | a in front :: a in front + [last];
  }

  lemma {:induction false} PlainRoundTrip(list: seq<Account>)
    requires AllPlain(list)
    ensures |Accounts(WrittenLines(list))| <= |list|
    ensures Accounts(WrittenLines(list)) == list <==> AllStorable(list)
    decreases |list|
  {
    if list != [] {
      var front, last := list[..|list| - 1], list[|list| - 1];
      assert list == front + [last];
      AllPlainStep(front, last);
      PlainRoundTrip(front);
      PlainLineParses(last);
      WrittenStep(front, last);
      AllStorableStep(front, last);
      AppendedAlike(Accounts(WrittenLines(front)), front, Opt(ParseLine(WrittenLine(last))), last);
    }
  }

  /** A list of at most `max` filled accounts written and loaded gives back the same list exactly when none of its
      fields contains a separator: no tab or newline in a name, no newline in a key, no carriage return ending a key. */
  lemma RoundTrip(list: seq<Account>, max: nat)
    requires |list| <= max && forall a | a in list :: Filled(a)
    ensures Load(Render(list), max) == list <==> AllStorable(list)
  {
    LoadedIsPlain(Render(list), max);
    if AllPlain(list) {
      SplitRendered(list);
      assert (WrittenLines(list) + [[]])[..|list|] == WrittenLines(list);
      PlainRoundTrip(list);
    }
  }

  /** The size of the load buffer, less its NUL. */
  const BUFFER := (USER_MAX + KEY_MAX + 4) * ACCOUNTS_MAX + 16 - 1

  lemma {:induction false} RenderLength(list: seq<Account>)
    ensures |Render(list)| <= (USER_MAX + KEY_MAX) * |list|
    decreases |list|
  {
    if list != [] {
      RenderLength(list[..|list| - 1]);
    }
  }

  /** Every file the store writes fits the buffer it is loaded into. */
  lemma FileFits(list: seq<Account>)
    requires |list| <= ACCOUNTS_MAX
    ensures |Render(list)| <= BUFFER == 3119
  {
    RenderLength(list);
  }
}
