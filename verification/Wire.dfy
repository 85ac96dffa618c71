/** The datagrams of the host-relay protocol. */
module Wire {
  import opened Frames

  /** The state[] field of a packet always has room for every player. */
  type States = s: seq<Word> | |s| == MAX_PLAYERS witness [0, 0, 0, 0, 0, 0, 0, 0]

  datatype Kind = InputKind | AggKind | HelloKind

  /** Junk stands for a datagram that is too short or carries another magic number. */
  datatype Datagram =
    | Junk
    | Packet(kind: Kind, frame: int, player: nat, n: nat, state: States)

  /** A datagram between two addresses. The address of console p is p. */
  datatype Envelope = Envelope(src: nat, dst: nat, body: Datagram)

  const BLANK: States := [0, 0, 0, 0, 0, 0, 0, 0]

  /** A guest's own input for one frame, on its way to the host. */
  function InputEnvelope(player: nat, frame: int, state: Word): Envelope {
    Envelope(player, 0, Packet(InputKind, frame, player, 1, BLANK[0 := state]))
  }

  /** The aggregated frame, on its way from the host to address dst. */
  function AggEnvelope(dst: nat, players: nat, frame: int, states: States): Envelope {
    Envelope(0, dst, Packet(AggKind, frame, players, players, states))
  }

  function HelloEnvelope(src: nat, dst: nat): Envelope {
    Envelope(src, dst, Packet(HelloKind, -1, src, 0, BLANK))
  }
}
