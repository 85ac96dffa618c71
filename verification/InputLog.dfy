/** The input recorder with its growing, NUL-terminated buffer. */
module InputLog {
  import opened Common
  import opened Decimal
  import opened InputLogText

  /** A C int. */
  type CInt = n: int | -0x8000_0000 <= n < 0x8000_0000

  const XBL_OK := 0
  const XBL_ERR_NOMEM := -7

  /** snprintf writes the separator, the frame and the state into a 32-byte buffer. */

  function Piece(first: bool, frame: int, state: int): string {
    (if first then "" else ",") + PrintEntry(Entry(frame, state))
  }

  /** Nothing is ever cut off. */
  lemma PieceFits(first: bool, frame: CInt, state: nat)
    requires state < 64
    ensures 0 < |Piece(first, frame, state)| < 32
  {
    var n: int := frame;
    var m: nat := if n < 0 then -n else n;
    assert m < Pow10(10) by {
      assert Pow10(5) == 100000;
      assert Pow10(10) == 10_000_000_000;
    }
    PrintLength(m, 10);
    assert Pow10(2) == 100;
    PrintLength(state, 2);
  }

  ghost predicate IsCapacity(cap: nat) {
    exists k: nat :: cap == 256 * Power(k)
  }

  lemma DoubledIsCapacity(cap: nat)
    requires IsCapacity(cap)
    ensures IsCapacity(2 * cap)
  {
    var k: nat :| cap == 256 * Power(k);
    assert 2 * cap == 256 * Power(k + 1);
  }

  /** Only the defined input bits. */
  ghost predicate SixBits(es: seq<Entry>) {
    forall e | e in es :: 0 <= e.state < 64
  }

  /** One more call that adds an entry: what the calls come to, and how it is printed. */
  lemma EntryJoins(cs: seq<Call>, c: Call, es: seq<Entry>, e: Entry)
    requires es == Entries(cs) && Append(es, c) == es + [e] && SixBits(es) && 0 <= e.state < 64
    ensures Entries(cs + [c]) == es + [e] && SixBits(es + [e]) && LastState(es + [e]) == e.state
    ensures Render(es + [e]) == Render(es) + Piece(es == [], e.frame, e.state)
  {
    EntriesMore(cs, c);
    RenderJoins(es, e);
    SixBitsJoin(es, e);
  }

  lemma SixBitsJoin(es: seq<Entry>, e: Entry)
    requires SixBits(es) && 0 <= e.state < 64
    ensures SixBits(es + [e]) && LastState(es + [e]) == e.state
  {
  }

  lemma RenderJoins(es: seq<Entry>, e: Entry)
    ensures Render(es + [e]) == Render(es) + Piece(es == [], e.frame, e.state)
  {
    assert (es + [e])[..|es|] == es;
  }

  lemma EntriesMore(cs: seq<Call>, c: Call)
    ensures Entries(cs + [c]) == Append(Entries(cs), c)
  {
    assert (cs + [c])[..|cs|] == cs;
  }

  class Log {
    var buf: array<char>
    var len: nat
    var cap: nat
    var lastState: int
    var count: nat
    ghost var calls: seq<Call>      // every successful call since the log was empty
    ghost var entries: seq<Entry>   // what they come to

    /** The buffer is absent (cap 0) or NUL-terminated, of size 256 * 2^k, and at most half wasted. */
    ghost predicate Valid()
      reads this, buf
    {
      && buf.Length == cap && entries == Entries(calls)
      && count == |entries| && lastState == LastState(entries)
      && SixBits(entries)
      && (cap == 0 ==> len == 0 && entries == [])
      && (cap > 0 ==> len < cap && buf[len] == '\0' && IsCapacity(cap) && (cap == 256 || cap <= 2 * (len + 1)))
      && len <= buf.Length && buf[..len] == Render(entries)
    }

    constructor ()
      ensures Valid() && calls == [] && fresh(buf)
    {
      buf := new char[0];
      len, cap, lastState, count := 0, 0, -1, 0;
      calls, entries := [], [];
    }

    function Text(): string
      requires len <= buf.Length
      reads this, buf
    {
      buf[..len]
    }

    /** Doubles until `need` bytes fit. */
    method NewCapacity(need: nat) returns (newcap: nat)
      requires Valid() && cap < need
      ensures need <= newcap && IsCapacity(newcap)
      ensures newcap == 256 || newcap <= 2 * need
    {
      newcap := if cap == 0 then 256 else 2 * cap;
      assert 256 == 256 * Power(0);
      if cap > 0 {
        DoubledIsCapacity(cap);
      }
      while newcap < need
        invariant IsCapacity(newcap) && 0 < newcap
        invariant newcap == 256 || newcap <= 2 * need
        decreases need - newcap
      {
        DoubledIsCapacity(newcap);
        newcap := 2 * newcap;
      }
    }

    /** realloc: a bigger buffer with the old bytes. */
    method Grow(newcap: nat)
      requires Valid() && cap < newcap
      modifies this`buf, this`cap
      ensures fresh(buf) && buf.Length == cap == newcap
      ensures buf[..old(cap)] == old(buf[..])
    {
      var grown := new char[newcap](_ => '\0');
      for i := 0 to cap
        modifies grown
        invariant grown[..i] == buf[..i]
      {
        grown[i] := buf[i];
      }
      buf := grown;
      cap := newcap;
    }

    /** memcpy and the new NUL. */
    method Put(piece: string)
      requires len + |piece| < buf.Length
      modifies this`len, buf
      ensures len == old(len) + |piece| && buf[len] == '\0'
      ensures Text() == old(Text()) + piece
    {
      for i := 0 to |piece|
        modifies buf
        invariant buf[..len + i] == old(Text()) + piece[..i]
      {
        buf[len + i] := piece[i];
      }
      assert piece[..|piece|] == piece;
      len := len + |piece|;
      buf[len] := '\0';
    }

    /** Makes the buffer big enough; `memory` says whether a realloc would succeed. */
    method EnsureRoom(need: nat, memory: bool) returns (ok: bool)
      requires Valid()
      modifies this`buf, this`cap
      ensures ok <==> need <= old(cap) || memory
      ensures !ok || need <= old(cap) ==> unchanged(this)
      ensures buf == old(buf) || fresh(buf)
      ensures ok ==> need <= cap == buf.Length && len <= cap && Text() == old(Text())
      ensures ok && need > old(cap) ==> IsCapacity(cap) && (cap == 256 || cap <= 2 * need)
    {
      if need > cap {
        var newcap := NewCapacity(need);
        if !memory {
          return false;
        }
        Grow(newcap);
        assert Text() == old(Text());
      }
      ok := true;
    }

    /** Writes a new entry where there is room for it. */
    method AppendEntry(e: Entry, piece: string, ghost c: Call)
      requires entries == Entries(calls) && Append(entries, c) == entries + [e]
      requires count == |entries| && 0 <= e.state < 64 && SixBits(entries)
      requires piece == Piece(count == 0, e.frame, e.state)
      requires len + |piece| < cap == buf.Length && Text() == Render(entries)
      requires IsCapacity(cap) && (cap == 256 || cap <= 2 * (len + |piece| + 1))
      modifies this`len, this`lastState, this`count, this`calls, this`entries, buf
      ensures Valid() && calls == old(calls) + [c]
    {
      EntryJoins(calls, c, entries, e);
      Put(piece);
      lastState := e.state;
      count := count + 1;
      calls, entries := calls + [c], entries + [e];
    }

    method Record(frame: CInt, state: int, memory: bool) returns (rc: int)
      requires Valid()
      modifies this, buf
      ensures Valid()
      ensures rc == 0 || rc == -7
      ensures rc == XBL_OK ==> calls == old(calls) + [Call(frame, state)] && Text() == Render(Entries(calls))
      ensures rc == XBL_ERR_NOMEM ==> unchanged(this) && unchanged(buf)
      ensures rc == XBL_ERR_NOMEM <==>
              Mask(state) != old(lastState) && !memory
              && old(len) + |Piece(old(count) == 0, frame, Mask(state))| + 1 > old(cap)
      ensures buf == old(buf) || fresh(buf)
    {
      var masked := Mask(state);
      if masked == lastState {
        EntriesMore(calls, Call(frame, state));
        calls := calls + [Call(frame, state)];
        return XBL_OK;
      }
      var piece := Piece(count == 0, frame, masked);
      PieceFits(count == 0, frame, masked);
      var room := EnsureRoom(len + |piece| + 1, memory);
      if !room {
        return XBL_ERR_NOMEM;
      }
      AppendEntry(Entry(frame, masked), piece, Call(frame, state));
      rc := XBL_OK;
    }
  }
}
