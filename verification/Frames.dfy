/** Frames, inputs and the input-delay schedule shared by both lockstep protocols. */
module Frames {

  /** A controller state: the C code keeps it in a uint16_t. */
  type Word = w: int | 0 <= w < 0x1_0000

  /** The player limit of the relay protocol. */
  const MAX_PLAYERS := 8

  /** The settings every console of one match agrees on. */
  datatype Config = Config(players: nat, delay: nat, maxFrames: nat) {

    predicate Valid() {
      2 <= players <= MAX_PLAYERS && 0 < maxFrames
    }

    /** The number of frames each console allocates room for. */
    function Cap(): nat {
      maxFrames + delay + 1
    }
  }

  /** A player who has sampled frames 0..|samples| has fixed its input for every frame below delay + |samples|. */
  predicate Scheduled(delay: nat, samples: seq<Word>, f: nat) {
    f < delay + |samples|
  }

  /** The input the game promises to apply at frame f: neutral during the warm-up, the sample of frame f - delay after it. */
  function Applied(delay: nat, samples: seq<Word>, f: nat): Word
    requires Scheduled(delay, samples, f)
  {
    if f < delay then 0 else samples[f - delay]
  }

  /** Every player has fixed its input for frame f. */
  ghost predicate AllScheduled(delay: nat, samples: seq<seq<Word>>, f: nat) {
    forall p | 0 <= p < |samples| :: Scheduled(delay, samples[p], f)
  }

  /** The input vector of frame f, in player order: what every simulation has to be stepped with. */
  ghost function AppliedVector(delay: nat, samples: seq<seq<Word>>, f: nat): (v: seq<Word>)
    requires AllScheduled(delay, samples, f)
    ensures |v| == |samples|
  {
    seq(|samples|, p requires 0 <= p < |samples| => Applied(delay, samples[p], f))
  }

  /** Samples only ever grow at the end. */
  ghost predicate Extends(before: seq<seq<Word>>, after: seq<seq<Word>>) {
    |before| == |after| && forall p | 0 <= p < |before| :: before[p] <= after[p]
  }

  /** A fixed input never changes again. */
  lemma AppliedIsStable(delay: nat, before: seq<Word>, after: seq<Word>, f: nat)
    requires before <= after && Scheduled(delay, before, f)
    ensures Scheduled(delay, after, f) && Applied(delay, after, f) == Applied(delay, before, f)
  {
  }
}
