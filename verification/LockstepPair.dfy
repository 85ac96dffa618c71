/** The two-player lockstep session with its arrays, refining PairConsole.Console. */
module LockstepPair {
  import opened Frames
  import opened PairConsole

  const RC_OK := 0
  const RC_BAD := -1

  class Session {
    var role: nat
    var delay: nat
    var cap: nat
    var mine: array<Word>
    var peer: array<Word>
    var peerKnown: array<bool>

    /** An empty struct; Init fills it. */
    constructor ()
    {
      role, delay, cap := 0, 0, 0;
      mine := new Word[0];
      peer := new Word[0];
      peerKnown := new bool[0];
    }

    ghost predicate Valid()
      reads this
    {
      role < 2 && mine.Length == peer.Length == peerKnown.Length == cap && mine != peer
    }

    /** The console this session stands for. */
    ghost function View(): (c: Console)
      requires Valid()
      reads this, mine, peer, peerKnown
      ensures c.Valid()
    {
      Console(role, delay, mine[..], peer[..], peerKnown[..])
    }

    /** `memory` says whether the three allocations succeed. */
    method Init(role: int, delay: int, maxFrames: int, memory: bool) returns (rc: int)
      modifies this
      ensures rc == if 0 <= delay && 0 < maxFrames && memory then 0 else -1
      ensures delay < 0 || maxFrames <= 0 ==> unchanged(this)
      ensures 0 <= delay && 0 < maxFrames && !memory ==>
                Valid() && View() == Console(if role == 0 then 0 else 1, delay, [], [], [])
      ensures rc == RC_OK ==> Valid() && fresh(mine) && fresh(peer) && fresh(peerKnown)
                              && View() == InitialConsole(if role == 0 then 0 else 1, delay, maxFrames)
    {
      if delay < 0 || maxFrames <= 0 {
        return RC_BAD;
      }
      this.role := if role == 0 then 0 else 1;
      this.delay := delay;
      var c := if memory then maxFrames + delay + 1 else 0;
      mine := new Word[c](_ => 0);
      peer := new Word[c](_ => 0);
      peerKnown := new bool[c](_ => false);
      cap := c;
      if !memory {
        return RC_BAD;
      }
      rc := RC_OK;
    }

    /** Absorbs every pending datagram; `got` is what the socket returns until it is empty. */
    method Drain(got: seq<Datagram>)
      requires Valid()
      modifies peer, peerKnown
      ensures Valid() && View() == old(View()).Drain(got)
    {
      ghost var start := View();
      for i := 0 to |got|
        invariant Valid() && View() == start.Drain(got[..i])
      {
        assert got[..i + 1][..i] == got[..i];
        var d := got[i];
        if d.Packet? && 0 <= d.frame < cap {
          peer[d.frame] := d.state;
          peerKnown[d.frame] := true;
        }
      }
      assert got[..|got|] == got;
    }

    /** The handshake until it succeeds or the clock runs out; its r-th round meets rounds[r]. */
    method Handshake(rounds: seq<Round>) returns (ok: bool, hellos: nat)
      requires Valid()
      modifies peer, peerKnown
      ensures Valid()
      ensures Handshaken(View(), ok, hellos) == HandshakeRun(old(View()), rounds, 0)
    {
      ok, hellos := false, 0;
      ghost var whole := HandshakeRun(View(), rounds, 0);
      var r := 0;
      while r < |rounds| && !ok
        invariant 0 <= r <= |rounds| && Valid()
        invariant ok ==> whole == Handshaken(View(), true, hellos)
        invariant !ok ==> whole == HandshakeRun(View(), rounds[r..], hellos)
      {
        assert rounds[r..][1..] == rounds[r + 1..];
        hellos := hellos + 1;
        Drain(rounds[r].kept);
        var dropped := rounds[r].dropped;
        for k := 0 to |dropped|
          invariant ok == Heard(dropped[..k])
        {
          assert dropped[..k + 1] == dropped[..k] + [dropped[k]];
          if dropped[k].Packet? {
            ok := true;
          }
        }
        assert dropped[..|dropped|] == dropped;
        r := r + 1;
      }
    }

    method RecordLocal(frame: int, state: Word)
      requires Valid()
      modifies mine
      ensures Valid() && View() == old(View()).Record(frame, state)
    {
      var sched := frame + delay;
      if 0 <= sched < cap {
        mine[sched] := state;
      }
    }

    method Pump(frame: int, got: seq<Datagram>) returns (out: seq<Datagram>)
      requires Valid()
      modifies peer, peerKnown
      ensures Valid() && View() == old(View()).Drain(got)
      ensures out == old(View()).SendWindow(frame + delay, delay + 1)
    {
      var sched := frame + delay;
      out := [];
      for k := 0 to delay + 1
        invariant out == View().SendWindow(sched, k)
      {
        var sf := sched - k;
        if 0 <= sf < cap {
          out := out + [Packet(sf, mine[sf])];
        }
      }
      Drain(got);
    }

    method Have(frame: int) returns (r: bool)
      requires Valid()
      ensures r == View().Have(frame)
      ensures r <==> 0 <= frame < cap && View().peerKnown[frame]
    {
      if frame < 0 || frame >= cap {
        return false;
      }
      r := peerKnown[frame];
    }

    method Local(frame: int) returns (w: Word)
      requires Valid()
      ensures w == View().Local(frame)
      ensures w == if 0 <= frame < cap then View().mine[frame] else 0
    {
      if frame < 0 || frame >= cap {
        return 0;
      }
      w := mine[frame];
    }

    method Inputs(frame: int) returns (s0: Word, s1: Word)
      requires Valid()
      ensures (s0, s1) == View().Inputs(frame)
      ensures s0 == if !(0 <= frame < cap) then 0 else if role == 0 then View().mine[frame] else View().peer[frame]
      ensures s1 == if !(0 <= frame < cap) then 0 else if role == 0 then View().peer[frame] else View().mine[frame]
    {
      var own: Word, other: Word := 0, 0;
      if 0 <= frame < cap {
        own := mine[frame];
        other := peer[frame];
      }
      s0 := if role == 0 then own else other;
      s1 := if role == 0 then other else own;
    }
  }
}
