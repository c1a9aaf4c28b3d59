/** The VP8 codec engine the players sit on. Its internals are not part of
    this model: every type is abstract and every operation is a total
    function value carried in an `Engine` record, so each theorem about the
    players holds for whatever engine is plugged in. */
module Codec {
  import opened Wrappers

  /** Frame dimensions are `uint16_t` in the players and in the IVF header. */
  type Dim = x: int | 0 <= x < 0x1_0000

  /** Raw compressed bytes of one frame. */
  type Chunk

  /** A decoded picture handed back for display. */
  type Raster

  /** Content fingerprint of a decoder state. */
  type Hash(==, !new)

  /** The complete decoder configuration: probabilities, references, filters. */
  type DecoderState(==, !new)

  /** The part of a decoder difference that concerns the continuation raster. */
  type ContinuationDiff

  /** Every other component of a decoder difference. */
  type StateDiff

  /** Difference between two decoder states of equal dimensions. */
  datatype DecoderDiff = DecoderDiff(continuation: ContinuationDiff, rest: StateDiff)

  /** The outcome of feeding one chunk to a decoder: the new state and, when
      the frame is meant to be shown, the raster to display. */
  datatype Decoded = Decoded(state: DecoderState, raster: Option<Raster>)

  /** The engine operations the players call, as uninterpreted functions.
      - init: the decoder a player of the given width and height starts with;
      - decodeFrame: decode one chunk;
      - hash: the fingerprint of a state;
      - subtract: `a - b`, the difference that takes `b` to `a`;
      - apply: use a difference on a state;
      - syncContinuation: take over the second state's continuation raster;
      - isKeyFrame: parse a chunk's uncompressed header for the key-frame bit. */
  datatype Engine = Engine(
    init: (Dim, Dim) -> DecoderState,
    decodeFrame: (DecoderState, Chunk) -> Decoded,
    hash: DecoderState -> Hash,
    subtract: (DecoderState, DecoderState) -> DecoderDiff,
    apply: (DecoderState, DecoderDiff) -> DecoderState,
    syncContinuation: (DecoderState, DecoderState) -> DecoderState,
    isKeyFrame: (Chunk, Dim, Dim) -> bool)

  /** The algebraic law the engine is expected to keep for two states of
      equal dimensions: applying `a - b` to `b` gives back `a`. It belongs to
      the engine, so the model only ever assumes it, one pair at a time. */
  ghost predicate SubtractApplyLaw(engine: Engine, a: DecoderState, b: DecoderState)
  {
    engine.apply(b, engine.subtract(a, b)) == a
  }
}
