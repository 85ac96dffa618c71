/** The account store: its file, and the parser that cuts the load buffer up in place. */
module AccountStore {
  import opened Common
  import opened Decimal
  import opened AccountText
  import opened AccountList

  const XBL_OK := 0
  const XBL_ERR_CONFIG := -1
  const XBL_ERR_AUTH := -4

  // ---- C strings inside a buffer ----

  /** The C string that starts at position p of a text (a NUL follows the text). */
  function At(t: string, p: nat): string
    requires p <= |t|
  {
    CString(t[p..])
  }

  /** Moving on inside a C string. */
  lemma AtFurther(t: string, p: nat, k: nat)
    requires p <= |t| && k <= |At(t, p)|
    ensures p + k <= |t| && At(t, p + k) == At(t, p)[k..]
  {
    var s := t[p..];
    assert s[k..] == t[p + k..];
    assert CString(s)[k..] == s[k..][..|CString(s)| - k];
    IndexOfAt(s[k..], '\0', |CString(s)| - k);
  }

  /** A NUL written into a C string ends it there. */
  lemma AtCut(t: string, p: nat, k: nat)
    requires p <= |t| && k < |At(t, p)|
    ensures p + k < |t| && At(t[p + k := '\0'], p) == At(t, p)[..k]
  {
    var s := t[p..];
    var cut := t[p + k := '\0'][p..];
    assert cut == s[k := '\0'];
    assert cut[..k] == CString(s)[..k];
    IndexOfAt(cut, '\0', k);
  }

  /** C strings do not depend on what lies before them. */
  lemma AtSuffix(t: string, u: string, p: nat)
    requires p <= |t| == |u| && t[p..] == u[p..]
    ensures At(t, p) == At(u, p)
  {
  }

  /** strchr: the position of c in the C string at `start`, or -1. */
  method Strchr(buf: array<char>, read: nat, start: nat, c: char) returns (pos: int)
    requires start <= read < buf.Length && buf[read] == '\0' && c != '\0'
    ensures var s := At(buf[..read], start);
            if IndexOf(s, c) == |s| then pos == -1 else start <= pos < read && pos == start + IndexOf(s, c)
  {
    ghost var t := buf[..read];
    ghost var s := At(t, start);
    var k := 0;
    while buf[start + k] != '\0'
      invariant k <= |s| && start + k <= read && c !in s[..k]
      invariant start + |s| <= read
      decreases read - k
    {
      AtFurther(t, start, k);
      NonEmptyAt(t, start + k);
      if buf[start + k] == c {
        IndexOfAt(s, c, k);
        return start + k;
      }
      assert s[..k + 1] == s[..k] + [s[k]];
      k := k + 1;
    }
    AtFurther(t, start, k);
    EndAt(t, start, k);
    IndexOfAt(s, c, k);
    pos := -1;
  }

  lemma NonEmptyAt(t: string, p: nat)
    requires p < |t| && t[p] != '\0'
    ensures At(t, p) != [] && At(t, p)[0] == t[p]
  {
  }

  lemma EndAt(t: string, p: nat, k: nat)
    requires p <= |t| && k <= |At(t, p)| && p + k <= |t| && (p + k < |t| ==> t[p + k] == '\0')
    ensures |At(t, p)| == k
  {
    AtFurther(t, p, k);
  }

  /** strlen. */
  method Strlen(buf: array<char>, read: nat, start: nat) returns (k: nat)
    requires start <= read < buf.Length && buf[read] == '\0'
    ensures k == |At(buf[..read], start)|
  {
    ghost var t := buf[..read];
    k := 0;
    while buf[start + k] != '\0'
      invariant k <= |At(t, start)| && start + k <= read
      decreases read - k
    {
      AtFurther(t, start, k);
      NonEmptyAt(t, start + k);
      k := k + 1;
    }
    EndAt(t, start, k);
  }

  /** strncpy of at most size - 1 characters. */
  method Strncpy(buf: array<char>, read: nat, start: nat, size: nat) returns (s: string)
    requires start <= read < buf.Length && buf[read] == '\0' && 0 < size
    ensures s == Truncate(At(buf[..read], start), size)
  {
    ghost var t := buf[..read];
    ghost var whole := At(t, start);
    s := [];
    while buf[start + |s|] != '\0' && |s| < size - 1
      invariant |s| <= |whole| && start + |s| <= read && |s| <= size - 1 && s == whole[..|s|]
      decreases read - |s|
    {
      AtFurther(t, start, |s|);
      NonEmptyAt(t, start + |s|);
      s := s + [buf[start + |s|]];
    }
    if buf[start + |s|] == '\0' {
      EndAt(t, start, |s|);
    }
  }

  // ---- one line ----

  /** Takes a carriage return off the end of the line. */
  method StripCrInPlace(buf: array<char>, read: nat, line: nat)
    requires line <= read < buf.Length && buf[read] == '\0'
    modifies buf
    ensures At(buf[..read], line) == StripCr(old(At(buf[..read], line)))
    ensures forall k | line + old(|At(buf[..read], line)|) <= k < buf.Length :: buf[k] == old(buf[k])
  {
    ghost var t := buf[..read];
    var ll := Strlen(buf, read, line);
    AtFurther(t, line, ll);
    if ll != 0 {
      NonEmptyAtOf(t, line, ll - 1);
      if buf[line + ll - 1] == '\r' {
        AtCut(t, line, ll - 1);
        buf[line + ll - 1] := '\0';
        assert buf[..read] == t[line + (ll - 1) := '\0'];
      }
    }
  }

  lemma NonEmptyAtOf(t: string, p: nat, k: nat)
    requires p <= |t| && k < |At(t, p)|
    ensures p + k < |t| && t[p + k] == At(t, p)[k]
  {
  }

  /** Cuts one line up in place. */
  method ParseLineInPlace(buf: array<char>, read: nat, line: nat) returns (r: Option<Account>)
    requires line <= read < buf.Length && buf[read] == '\0'
    modifies buf
    ensures r == ParseLine(old(At(buf[..read], line)))
    ensures forall k | line + old(|At(buf[..read], line)|) <= k < buf.Length :: buf[k] == old(buf[k])
    ensures buf[read] == '\0'
  {
    AtFurther(buf[..read], line, |At(buf[..read], line)|);
    StripCrInPlace(buf, read, line);
    ghost var l := At(buf[..read], line);
    var tab := Strchr(buf, read, line, '\t');
    if tab == -1 {
      return None;
    }
    r := SplitAtTab(buf, read, line, tab, l);
  }

  lemma CutAt(t: string, line: nat, i: nat)
    requires line <= |t| && i < |At(t, line)|
    ensures line + i + 1 <= |t|
    ensures var u := t[line + i := '\0'];
            At(u, line) == At(t, line)[..i] && At(u, line + i + 1) == At(t, line)[i + 1..]
  {
    AtCut(t, line, i);
    AtFurther(t, line, i + 1);
    AtSuffix(t, t[line + i := '\0'], line + i + 1);
  }

  /** Ends the string at `line` at position `cut`; what follows the cut is the other string. */
  method CutInPlace(buf: array<char>, read: nat, line: nat, cut: nat)
    requires line <= cut < read < buf.Length && cut - line < |At(buf[..read], line)|
    modifies buf
    ensures At(buf[..read], line) == old(At(buf[..read], line))[..cut - line]
    ensures At(buf[..read], cut + 1) == old(At(buf[..read], line))[cut - line + 1..]
    ensures forall k | 0 <= k < buf.Length && k != cut :: buf[k] == old(buf[k])
  {
    ghost var t := buf[..read];
    CutAt(t, line, cut - line);
    buf[cut] := '\0';
    assert buf[..read] == t[cut := '\0'];
  }

  method SplitAtTab(buf: array<char>, read: nat, line: nat, tab: nat, ghost l: string) returns (r: Option<Account>)
    requires line <= tab < read < buf.Length && buf[read] == '\0'
    requires l == At(buf[..read], line) && tab - line < |l|
    modifies buf
    ensures r == TwoFields(l, tab - line)
    ensures forall k | 0 <= k < buf.Length && k != tab :: buf[k] == old(buf[k])
  {
    CutInPlace(buf, read, line, tab);
    var user := Strncpy(buf, read, line, USER_MAX);
    var key := Strncpy(buf, read, tab + 1, KEY_MAX);
    r := if user != [] && key != [] then Some(Account(user, key)) else None;
  }

  // ---- the whole buffer ----

  /** Takes the line at `line` out of the buffer; `next` is -1 after the last one. */
  method NextLine(buf: array<char>, read: nat, line: nat) returns (r: Option<Account>, next: int)
    requires line <= read < buf.Length && buf[read] == '\0'
    modifies buf
    ensures buf[read] == '\0'
    ensures var s := old(At(buf[..read], line));
            var i := IndexOf(s, '\n');
            r == ParseLine(s[..i]) &&
            if i == |s| then next == -1
            else next == line + i + 1 && next <= read && At(buf[..read], next) == s[i + 1..]
  {
    ghost var s := At(buf[..read], line);
    var nl := Strchr(buf, read, line, '\n');
    if nl == -1 {
      WholeLine(s);
      r := LastLine(buf, read, line);
      next := -1;
    } else {
      r := CutLine(buf, read, line, nl);
      next := nl + 1;
    }
  }

  method LastLine(buf: array<char>, read: nat, line: nat) returns (r: Option<Account>)
    requires line <= read < buf.Length && buf[read] == '\0'
    modifies buf
    ensures buf[read] == '\0' && r == ParseLine(old(At(buf[..read], line)))
  {
    r := ParseLineInPlace(buf, read, line);
  }

  method CutLine(buf: array<char>, read: nat, line: nat, nl: nat) returns (r: Option<Account>)
    requires line <= nl < read < buf.Length && buf[read] == '\0' && nl - line < |At(buf[..read], line)|
    modifies buf
    ensures buf[read] == '\0'
    ensures r == ParseLine(old(At(buf[..read], line))[..nl - line])
    ensures At(buf[..read], nl + 1) == old(At(buf[..read], line))[nl - line + 1..]
  {
    CutInPlace(buf, read, line, nl);
    ghost var u := buf[..read];
    r := ParseLineInPlace(buf, read, line);
    assert u[nl + 1..] == buf[..read][nl + 1..];
    AtSuffix(u, buf[..read], nl + 1);
  }

  lemma WholeLine(s: string)
    ensures s[..|s|] == s
  {
  }

  lemma {:induction false} SplitFirst(line: string, rest: string, sep: char)
    requires sep !in line
    ensures Split(line + [sep] + rest, sep) == [line] + Split(rest, sep)
    decreases |rest|
  {
    var t := line + [sep] + rest;
    if rest == [] {
      assert t[..|t| - 1] == line;
      SplitPlain(line, sep);
    } else {
      var front := rest[..|rest| - 1];
      assert t[..|t| - 1] == line + [sep] + front;
      SplitFirst(line, front, sep);
    }
  }

  lemma {:induction false} AccountsFirst(line: string, lines: seq<string>)
    ensures Accounts([line] + lines) == Opt(ParseLine(line)) + Accounts(lines)
    decreases |lines|
  {
    var all := [line] + lines;
    if lines == [] {
      assert all[..|all| - 1] == [];
    } else {
      assert all[..|all| - 1] == [line] + lines[..|lines| - 1];
      AccountsFirst(line, lines[..|lines| - 1]);
    }
  }

  /** The accounts of a text are those of its first line and those of what follows it. */
  lemma FirstLine(s: string)
    ensures var i := IndexOf(s, '\n');
            Held(s) == Opt(ParseLine(s[..i])) + if i == |s| then [] else Held(s[i + 1..])
  {
    var i := IndexOf(s, '\n');
    if i == |s| {
      assert s[..i] == s;
      OnlyLine(s);
    } else {
      Reassembled(s, i);
      LineThenRest(s[..i], s[i + 1..]);
    }
  }

  lemma Reassembled(s: string, i: nat)
    requires i < |s|
    ensures s == s[..i] + [s[i]] + s[i + 1..]
  {
  }

  lemma OnlyLine(s: string)
    requires '\n' !in s
    ensures Held(s) == Opt(ParseLine(s)) + []
  {
    SplitPlain(s, '\n');
    AccountsFirst(s, []);
    assert [s] + [] == [s];
  }

  lemma LineThenRest(line: string, rest: string)
    requires '\n' !in line
    ensures Held(line + ['\n'] + rest) == Opt(ParseLine(line)) + Held(rest)
  {
    SplitFirst(line, rest, '\n');
    AccountsFirst(line, Split(rest, '\n'));
  }

  /** What a text in the buffer still holds. */
  function Held(s: string): seq<Account> {
    Accounts(Split(s, '\n'))
  }

  /** The text from position `line` on; -1 is the end. */
  function Rest(t: string, line: int): string
    requires -1 <= line <= |t|
  {
    if line == -1 then "" else At(t, line)
  }

  lemma NoAccounts()
    ensures Accounts(Split("", '\n')) == []
  {
    assert [""][..0] == [];
  }

  method NextAccount(buf: array<char>, read: nat, line: nat) returns (r: Option<Account>, next: int)
    requires line < read < buf.Length && buf[read] == '\0' && buf[line] != '\0'
    modifies buf
    ensures buf[read] == '\0' && -1 <= next <= read
    ensures Held(old(At(buf[..read], line))) == Opt(r) + Held(Rest(buf[..read], next))
    ensures next == -1 || line < next
  {
    ghost var s := At(buf[..read], line);
    FirstLine(s);
    NoAccounts();
    r, next := NextLine(buf, read, line);
  }

  method Put(out: array<Account>, n: nat, r: Option<Account>) returns (m: nat)
    requires n < out.Length
    modifies out
    ensures m == n + |Opt(r)| && out[..m] == old(out[..n]) + Opt(r)
    ensures forall k | m <= k < out.Length :: out[k] == old(out[k])
  {
    if r.Some? {
      out[n] := r.value;
      m := n + 1;
    } else {
      m := n;
    }
  }

  /** In the middle of the loop: what is loaded and what is still held are what the text held. */
  ghost predicate Loading(t: string, line: int, got: seq<Account>, text: string) {
    -1 <= line <= |t| && got + Held(Rest(t, line)) == Held(text)
  }

  method TakeLine(buf: array<char>, read: nat, line: nat, out: array<Account>, n: nat, ghost text: string)
    returns (next: int, m: nat)
    requires line < read < buf.Length && buf[read] == '\0' && buf[line] != '\0' && n < out.Length
    requires Loading(buf[..read], line, out[..n], text)
    modifies buf, out
    ensures next == -1 || line < next <= read
    ensures buf[read] == '\0' && n <= m <= n + 1
    ensures Loading(buf[..read], next, out[..m], text)
    ensures forall k | m <= k < out.Length :: out[k] == old(out[k])
  {
    ghost var got := out[..n];
    var r: Option<Account>;
    r, next := NextAccount(buf, read, line);
    m := Put(out, n, r);
    Regroup(got, Opt(r), Held(Rest(buf[..read], next)));
  }

  /** The loop that cuts the buffer into lines and the lines into accounts: what it leaves in `out` is what the text
      that was in the buffer loads to. */
  method ParseBuffer(buf: array<char>, read: nat, out: array<Account>, max: nat) returns (n: nat)
    requires read < buf.Length && buf[read] == '\0' && max <= out.Length
    modifies buf, out
    ensures n <= max && out[..n] == Load(CString(old(buf[..read])), max)
    ensures forall k | n <= k < out.Length :: out[k] == old(out[k])
  {
    ghost var text := CString(buf[..read]);
    Started(buf[..read]);
    n := 0;
    var line: int := 0;
    assert out[..n] == [];
    while line != -1 && buf[line] != '\0' && n < max
      invariant 0 <= n <= max && -1 <= line <= read && buf[read] == '\0'
      invariant Loading(buf[..read], line, out[..n], text)
      invariant forall k | n <= k < out.Length :: out[k] == old(out[k])
      decreases if line == -1 then 0 else read + 1 - line
    {
      line, n := TakeLine(buf, read, line, out, n, text);
    }
    Finished(buf[..read], line, out[..n], text, max);
  }

  lemma Regroup(a: seq<Account>, b: seq<Account>, c: seq<Account>)
    ensures a + (b + c) == a + b + c
  {
  }

  lemma Started(t: string)
    ensures Loading(t, 0, [], CString(t))
  {
    assert t[0..] == t;
    assert [] + Held(CString(t)) == Held(CString(t));
  }

  lemma Finished(t: string, line: int, got: seq<Account>, text: string, max: nat)
    requires Loading(t, line, got, text) && |got| <= max
    requires |got| == max || line == -1 || line == |t| || t[line] == '\0'
    ensures got == Load(text, max)
  {
    if line != -1 && |got| < max {
      EndAt(t, line, 0);
    }
    NoAccounts();
    Cut(got, Held(Rest(t, line)), max);
  }

  lemma Cut(got: seq<Account>, more: seq<Account>, max: nat)
    requires |got| <= max && (|got| == max || more == [])
    ensures AtMost(got + more, max) == got
  {
    if |got| < max {
      assert got + more == got;
    } else {
      assert (got + more)[..max] == got;
    }
  }

  /** Copies the accounts of other usernames behind the first `start` entries of a list, as many as fit. */
  method CopyOthers(prev: array<Account>, n: nat, name: string, list: array<Account>, start: nat) returns (w: nat)
    requires n <= prev.Length && start <= list.Length && prev != list
    modifies list
    ensures w <= list.Length && list[..w] == AtMost(old(list[..start]) + Without(prev[..n], name), list.Length)
  {
    ghost var first := list[..start];
    ghost var all := prev[..n];
    w := start;
    var i := 0;
    assert first + [] == first;
    while i < n && w < list.Length
      invariant i <= n && start <= w <= list.Length && prev[..n] == all
      invariant list[..w] == first + Without(all[..i], name)
    {
      WithoutStep(all, i, name);
      if prev[i].username != name {
        ghost var before := list[..w];
        list[w] := prev[i];
        w := w + 1;
        assert list[..w] == before + [all[i]];
      }
      i := i + 1;
    }
    if i == n {
      assert all[..i] == all;
    }
    WithoutGrows(all, i, name);
    PrefixFits(first, Without(all[..i], name), Without(all, name), list.Length);
  }

  lemma PrefixFits(first: seq<Account>, part: seq<Account>, rest: seq<Account>, max: nat)
    requires part <= rest && |first + part| <= max && (|first + part| == max || part == rest)
    ensures AtMost(first + rest, max) == first + part
  {
    if part != rest {
      assert (first + rest)[..max] == first + part;
    }
  }

  /** A session in front, the others behind it. */
  method Promote(prev: array<Account>, n: nat, session: Account, list: array<Account>) returns (w: nat)
    requires n <= prev.Length && list.Length == ACCOUNTS_MAX && prev != list
    modifies list
    ensures w <= list.Length
    ensures list[..w] == AtMost([session] + Without(prev[..n], session.username), ACCOUNTS_MAX)
  {
    list[0] := session;
    assert list[..1] == [session];
    w := CopyOthers(prev, n, session.username, list, 1);
  }

  // ---- the store ----

  /** How the disk behaves during a call: whether the file can be read, whether it can be opened for writing, how many
      characters can be written then, and whether it can be deleted. */
  datatype Disk = Disk(readable: bool, opens: bool, room: nat, deletes: bool)

  /** A disk that does all a store of this size needs. */
  predicate Healthy(disk: Disk) {
    disk.readable && disk.opens && BUFFER <= disk.room && disk.deletes
  }

  function Seen(file: Option<string>, disk: Disk): Option<string> {
    if disk.readable then file else None
  }

  function Fitting(text: string, room: nat): (t: string)
    ensures t <= text && |t| == if |text| <= room then |text| else room
  {
    if |text| <= room then text else text[..room]
  }

  /** The file after a text was written over it, and what that returns. */
  function Written(file: Option<string>, text: string, disk: Disk): Option<string> {
    if disk.opens then Some(Fitting(text, disk.room)) else file
  }

  function WriteCode(text: string, disk: Disk): int {
    if disk.opens && |text| <= disk.room then XBL_OK else XBL_ERR_CONFIG
  }

  lemma {:induction false} RenderedPart(list: seq<Account>, i: nat)
    requires i <= |list|
    ensures Render(list[..i]) <= Render(list)
    decreases |list|
  {
    if i == |list| {
      assert list[..i] == list;
    } else {
      assert list[..|list| - 1][..i] == list[..i];
      RenderedPart(list[..|list| - 1], i);
    }
  }

  lemma RenderedNext(list: seq<Account>, i: nat)
    requires i < |list|
    ensures Render(list[..i + 1]) == Render(list[..i]) + (if Filled(list[i]) then Line(list[i]) else [])
  {
    assert list[..i + 1][..i] == list[..i];
  }

  /** What fits of a text is what fits of any part of it that is already too long. */
  lemma FittingPart(part: string, text: string, room: nat)
    requires part <= text && room <= |part|
    ensures Fitting(part, room) == Fitting(text, room)
  {
  }

  /** One more piece to a file that was not full. */
  lemma FittingMore(text: string, piece: string, room: nat)
    requires |text| <= room
    ensures Fitting(text + piece, room) == text + piece[..if |piece| <= room - |text| then |piece| else room - |text|]
  {
  }

  lemma RememberedFile(file: Option<string>, a: Account, loaded: seq<Account>, list: seq<Account>)
    requires loaded == Loaded(file, ACCOUNTS_MAX) && list == AtMost([a] + Without(loaded, a.username), ACCOUNTS_MAX)
    ensures Remembered(file, a) == Some(Render(list)) && |Render(list)| <= BUFFER
  {
    FileFits(list);
  }

  /** What forgetting a name leaves to be done: nothing, deleting the file, or writing the rest over it. */
  function Others(file: Option<string>, name: string): seq<Account> {
    Without(Loaded(file, ACCOUNTS_MAX), name)
  }

  function ForgottenOn(file: Option<string>, name: string, disk: Disk): Option<string> {
    var seen := Seen(file, disk);
    var rest := Others(seen, name);
    if |rest| == |Loaded(seen, ACCOUNTS_MAX)| then file
    else if rest == [] then if disk.deletes then None else file
    else Written(file, Render(rest), disk)
  }

  function ForgetCode(file: Option<string>, name: string, disk: Disk): int {
    var seen := Seen(file, disk);
    var rest := Others(seen, name);
    if |rest| == |Loaded(seen, ACCOUNTS_MAX)| || rest == [] then XBL_OK else WriteCode(Render(rest), disk)
  }

  /** On a healthy disk forgetting is what it is meant to be. */
  lemma ForgottenOnHealthy(file: Option<string>, name: string, disk: Disk)
    requires Healthy(disk)
    ensures ForgottenOn(file, name, disk) == Forgotten(file, name) && ForgetCode(file, name, disk) == XBL_OK
  {
    FileFits(Others(file, name));
  }

  lemma RestOf(file: Option<string>, name: string, loaded: seq<Account>, list: seq<Account>)
    requires loaded == Loaded(file, ACCOUNTS_MAX) && list == AtMost([] + Without(loaded, name), ACCOUNTS_MAX)
    ensures list == Others(file, name)
  {
    assert [] + Without(loaded, name) == Without(loaded, name);
  }

  /** The account file and whether the SDK is initialised. */
  class Store {
    var inited: bool
    var file: Option<string>

    constructor ()
      ensures !inited && file == None
    {
      inited, file := false, None;
    }

    /** Overwrites the file with the filled entries of a list, as far as the disk takes them. */
    method Write(list: array<Account>, n: nat, disk: Disk) returns (rc: int)
      requires n <= list.Length
      modifies this`file
      ensures file == Written(old(file), Render(list[..n]), disk)
      ensures rc == WriteCode(Render(list[..n]), disk)
      ensures rc == if disk.opens && |Render(list[..n])| <= disk.room then 0 else -1
      ensures !disk.opens ==> file == old(file)
      ensures disk.opens ==> file.Some? && file.value <= Render(list[..n])
                             && |file.value| == if |Render(list[..n])| <= disk.room then |Render(list[..n])| else disk.room
    {
      if !disk.opens {
        return XBL_ERR_CONFIG;
      }
      var text, ok, i := "", true, 0;
      ghost var all := list[..n];
      assert Render(all[..0]) == [];
      while i < n && ok
        invariant i <= n && text == Fitting(Render(all[..i]), disk.room) && (ok <==> |Render(all[..i])| <= disk.room)
        decreases n - i
      {
        RenderedNext(all, i);
        assert all[i] == list[i];
        if list[i].username == [] || list[i].sessionKey == [] {
          assert Render(all[..i]) + [] == Render(all[..i]);
          i := i + 1;
          continue;
        }
        var line := list[i].username + "\t" + list[i].sessionKey + "\n";
        FittingMore(text, line, disk.room);
        var w := if |line| <= disk.room - |text| then |line| else disk.room - |text|;
        text := text + line[..w];
        ok := w == |line|;
        i := i + 1;
      }
      RenderedPart(all, i);
      if i == n {
        assert all[..n] == all;
      } else {
        FittingPart(Render(all[..i]), Render(all), disk.room);
      }
      file := Some(text);
      rc := if ok then XBL_OK else XBL_ERR_CONFIG;
    }

    /** Loads up to `max` accounts into `out`. */
    method Load(out: array<Account>, max: int, disk: Disk) returns (rc: int, count: nat)
      requires max <= out.Length
      modifies out
      ensures !inited || max <= 0 ==> rc == -1 && count == 0 && out[..] == old(out[..])
      ensures inited && 0 < max ==> count <= max && out[..count] == Loaded(Seen(file, disk), max)
      ensures inited && 0 < max ==> rc == if count > 0 then 0 else -4
      ensures inited && 0 < max && (file.None? || !disk.readable) ==> count == 0
      ensures forall k | count <= k < out.Length :: out[k] == old(out[k])
    {
      if !inited || max <= 0 {
        return XBL_ERR_CONFIG, 0;
      }
      if file.None? || !disk.readable {
        return XBL_ERR_AUTH, 0;
      }
      var t := file.value;
      var read := if |t| <= BUFFER then |t| else BUFFER;
      if read == 0 {
        NoAccounts();
        assert CString(t) == "";
        return XBL_ERR_AUTH, 0;
      }
      var buf := new char[BUFFER + 1](i requires 0 <= i < BUFFER + 1 => if i < read then t[i] else '\0');
      assert buf[..read] == t[..read];
      assert t[..|t|] == t;
      count := ParseBuffer(buf, read, out, max);
      rc := if count > 0 then XBL_OK else XBL_ERR_AUTH;
    }

    /** Puts a session at the front of the remembered accounts. A file that cannot be read counts as empty. */
    method Remember(session: Account, disk: Disk) returns (rc: int)
      modifies this`file
      ensures !inited || !Filled(session) ==> rc == -1 && file == old(file)
      ensures inited && Filled(session) ==>
                var text := Remembered(Seen(old(file), disk), session).value;
                file == Written(old(file), text, disk) && rc == WriteCode(text, disk)
      ensures inited && Filled(session) && Healthy(disk) ==> rc == 0 && file == Remembered(old(file), session)
    {
      if !inited || session.sessionKey == [] || session.username == [] {
        return XBL_ERR_CONFIG;
      }
      var prev := new Account[ACCOUNTS_MAX](_ => Account("", ""));
      var code, n := Load(prev, ACCOUNTS_MAX, disk);
      var list := new Account[ACCOUNTS_MAX](_ => Account("", ""));
      var w := Promote(prev, n, session, list);
      RememberedFile(Seen(file, disk), session, prev[..n], list[..w]);
      rc := Write(list, w, disk);
    }

    /** Takes a username out of the remembered accounts. */
    method Forget(name: string, disk: Disk) returns (rc: int)
      modifies this`file
      ensures !inited || name == [] ==> rc == -1 && file == old(file)
      ensures inited && name != [] ==>
                file == ForgottenOn(old(file), name, disk) && rc == ForgetCode(old(file), name, disk)
      ensures inited && name != [] ==>
                var loaded := Loaded(if disk.readable then old(file) else None, 8);
                var rest := Without(loaded, name);
                && (|rest| == |loaded| ==> rc == 0 && file == old(file))
                && (rest == [] != loaded ==> rc == 0 && file == if disk.deletes then None else old(file))
                && (0 < |rest| < |loaded| ==>
                      && rc == (if disk.opens && |Render(rest)| <= disk.room then 0 else -1)
                      && (!disk.opens ==> file == old(file))
                      && (disk.opens ==> file.Some? && file.value <= Render(rest)
                                         && |file.value| == if |Render(rest)| <= disk.room then |Render(rest)| else disk.room))
      ensures inited && name != [] && Healthy(disk) ==> rc == 0 && file == Forgotten(old(file), name)
    {
      if !inited || name == [] {
        return XBL_ERR_CONFIG;
      }
      if Healthy(disk) {
        ForgottenOnHealthy(file, name, disk);
      }
      rc := ForgetOn(name, disk);
    }

    method ForgetOn(name: string, disk: Disk) returns (rc: int)
      requires inited
      modifies this`file
      ensures file == ForgottenOn(old(file), name, disk) && rc == ForgetCode(old(file), name, disk)
    {
      var prev := new Account[ACCOUNTS_MAX](_ => Account("", ""));
      var code, n := Load(prev, ACCOUNTS_MAX, disk);
      if code != XBL_OK {
        RestOf(Seen(file, disk), name, [], []);
        return XBL_OK;
      }
      var list := new Account[ACCOUNTS_MAX](_ => Account("", ""));
      assert list[..0] == [];
      var w := CopyOthers(prev, n, name, list, 0);
      RestOf(Seen(file, disk), name, prev[..n], list[..w]);
      if w == n {
        return XBL_OK;
      }
      if w == 0 {
        if disk.deletes {
          file := None;
        }
        return XBL_OK;
      }
      rc := Write(list, w, disk);
    }
  }

  lemma WithoutStep(list: seq<Account>, i: nat, name: string)
    requires i < |list|
    ensures Without(list[..i + 1], name) == Without(list[..i], name) + if list[i].username == name then [] else [list[i]]
  {
    assert list[..i + 1][..i] == list[..i];
  }

  /** What is filtered from a longer list starts with what is filtered from its front. */
  lemma {:induction false} WithoutGrows(list: seq<Account>, i: nat, name: string)
    requires i <= |list|
    ensures Without(list[..i], name) <= Without(list, name)
    decreases |list|
  {
    if i == |list| {
      assert list[..i] == list;
    } else {
      var front := list[..|list| - 1];
      assert front[..i] == list[..i];
      WithoutGrows(front, i, name);
    }
  }
}
