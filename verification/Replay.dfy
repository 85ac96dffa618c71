/** End to end: what a server reads out of the players' logs is what every console applied. */
module Replay {
  import opened Frames
  import opened RelayRun
  import opened RelaySafety
  import InputLogText

  /** The states player p's game logs for its first `frames` frames: its own applied inputs. */
  ghost function LoggedStates(w: World, p: nat, frames: nat): (s: seq<int>)
    requires p < |w.nodes|
    ensures |s| == frames
  {
    seq(frames, f requires 0 <= f < frames => w.nodes[p].con.Local(f))
  }

  /** The text player p uploads. */
  ghost function LogText(w: World, p: nat, frames: nat): string
    requires p < |w.nodes|
  {
    InputLogText.Render(InputLogText.Entries(InputLogText.EveryFrame(LoggedStates(w, p, frames))))
  }

  /** What the server takes player p to have held at frame f. */
  ghost function ServerReads(text: string, f: nat): int {
    match InputLogText.Parse(text)
    case Some(es) => InputLogText.StateAt(es, f)
    case None => -1
  }

  /** The server reads, for every player and every passed frame, exactly the input every console applied, masked to the defined bits. */
  lemma ServerReadsWhatWasApplied(cfg: Config, w: World, i: nat, p: nat, frames: nat, f: nat)
    requires cfg.Valid() && Reachable(cfg, w) && i < cfg.players && p < cfg.players
    requires f < w.nodes[i].frame && f < frames <= w.nodes[p].frame
    ensures ServerReads(LogText(w, p, frames), f) == InputLogText.Mask(w.nodes[i].con.Inputs(f, cfg.players)[p])
    ensures Scheduled(cfg.delay, w.samples[p], f) && w.nodes[i].con.Inputs(f, cfg.players)[p] == Applied(cfg.delay, w.samples[p], f)
    ensures InputLogText.WellFormed(InputLogText.Entries(InputLogText.EveryFrame(LoggedStates(w, p, frames))))
  {
    InputLogText.LogOfEveryFrame(LoggedStates(w, p, frames), f);
    PassedFramesAreHad(cfg, w, i, f);
    NoDesync(cfg, w, i, f, cfg.players);
    LocalIsApplied(cfg, w, p, f);
  }

  /** The server's input vector for frame f, from all logs. */
  ghost function ServerVector(w: World, frames: nat, f: nat): (v: seq<int>)
    ensures |v| == |w.nodes|
  {
    seq(|w.nodes|, p requires 0 <= p < |w.nodes| => ServerReads(LogText(w, p, frames), f))
  }

  /** Any deterministic simulation, stepped with the vectors of frames 0..k-1. */
  ghost function Simulate<S>(step: (S, seq<int>) -> S, start: S, inputs: nat -> seq<int>, k: nat): S {
    if k == 0 then start else step(Simulate(step, start, inputs, k - 1), inputs(k - 1))
  }

  lemma {:induction false} SameInputsSameGame<S>(step: (S, seq<int>) -> S, start: S, a: nat -> seq<int>, b: nat -> seq<int>, k: nat)
    requires forall f: nat | f < k :: a(f) == b(f)
    ensures Simulate(step, start, a, k) == Simulate(step, start, b, k)
  {
    if k > 0 {
      SameInputsSameGame(step, start, a, b, k - 1);
    }
  }

  ghost predicate Small(samples: seq<Word>) {
    forall k | 0 <= k < |samples| :: samples[k] < 64
  }

  /** Only the defined input bits were ever sampled. */
  ghost predicate FitsMask(w: World) {
    forall p | 0 <= p < |w.samples| :: Small(w.samples[p])
  }

  lemma AppliedFits(delay: nat, samples: seq<Word>, f: nat)
    requires Scheduled(delay, samples, f) && Small(samples)
    ensures Applied(delay, samples, f) < 64
  {
  }

  lemma ServerReadsTheInput(cfg: Config, w: World, i: nat, p: nat, frames: nat, f: nat)
    requires cfg.Valid() && Reachable(cfg, w) && i < cfg.players && p < cfg.players && FitsMask(w)
    requires f < w.nodes[i].frame && f < frames <= w.nodes[p].frame
    ensures ServerReads(LogText(w, p, frames), f) == w.nodes[i].con.Inputs(f, cfg.players)[p]
  {
    ServerReadsWhatWasApplied(cfg, w, i, p, frames, f);
    AppliedFits(cfg.delay, w.samples[p], f);
    InputLogText.MaskDropsHighBits(w.nodes[i].con.Inputs(f, cfg.players)[p], 0);
  }

  /** Within the mask, the server's vectors are the consoles' vectors. */
  lemma ServerVectorIsApplied(cfg: Config, w: World, i: nat, frames: nat, f: nat)
    requires cfg.Valid() && Reachable(cfg, w) && i < cfg.players && FitsMask(w)
    requires forall p | 0 <= p < cfg.players :: frames <= w.nodes[p].frame
    requires f < frames
    ensures ServerVector(w, frames, f) == w.nodes[i].con.Inputs(f, cfg.players)
  {
    var served, applied := ServerVector(w, frames, f), w.nodes[i].con.Inputs(f, cfg.players);
    forall p: nat | p < cfg.players
      ensures served[p] == applied[p]
    {
      ServerReadsTheInput(cfg, w, i, p, frames, f);
    }
  }

  /** Replaying all logs reproduces the game every console played, whatever the simulation is. */
  lemma ReplayReproducesTheGame<S>(cfg: Config, w: World, i: nat, frames: nat, step: (S, seq<int>) -> S, start: S)
    requires cfg.Valid() && Reachable(cfg, w) && i < cfg.players && FitsMask(w)
    requires forall p | 0 <= p < cfg.players :: frames <= w.nodes[p].frame
    ensures Simulate(step, start, (f: nat) => ServerVector(w, frames, f), frames)
         == Simulate(step, start, (f: nat) => w.nodes[i].con.Inputs(f, cfg.players), frames)
  {
    forall f: nat | f < frames
      ensures ServerVector(w, frames, f) == w.nodes[i].con.Inputs(f, cfg.players)
    {
      ServerVectorIsApplied(cfg, w, i, frames, f);
    }
    SameInputsSameGame(step, start, (f: nat) => ServerVector(w, frames, f), (f: nat) => w.nodes[i].con.Inputs(f, cfg.players), frames);
  }
}
