/** `FramePlayer`: one decoder of fixed width and height, with the checked
    decode of serialized frames and the difference bookkeeping between two
    players. A player is an immutable value; an operation that mutates the
    C++ object returns the new player instead. */
module FramePlayers {
  import opened Wrappers
  import opened Codec

  /** The `Unsupported` exception and the message it carries. */
  datatype Unsupported = Unsupported(message: string)

  const StreamSizeMismatch: string := "stream size mismatch"

  datatype FramePlayer = FramePlayer(width: Dim, height: Dim, decoder: DecoderState)

  /** A chunk together with the fingerprints of the state it must be decoded
      from and of the state decoding it leads to. */
  datatype SerializedFrame = SerializedFrame(chunk: Chunk, source: Hash, target: Hash) {
    predicate ValidateSource(h: Hash)
    {
      source == h
    }

    predicate ValidateTarget(h: Hash)
    {
      target == h
    }
  }

  /** A new player: the engine's initial decoder for these dimensions. */
  function NewFramePlayer(engine: Engine, width: Dim, height: Dim): (p: FramePlayer)
    ensures p.width == width && p.height == height
    ensures p.decoder == engine.init(width, height)
  {
    FramePlayer(width, height, engine.init(width, height))
  }

  function Fingerprint(engine: Engine, p: FramePlayer): Hash
  {
    engine.hash(p.decoder)
  }

  /** Plain decode: the chunk goes through the engine once; the dimensions of
      the player never change. */
  function Decode(engine: Engine, p: FramePlayer, chunk: Chunk): (r: (FramePlayer, Option<Raster>))
    ensures r.0.width == p.width && r.0.height == p.height
    ensures r.0.decoder == engine.decodeFrame(p.decoder, chunk).state
    ensures r.1 == engine.decodeFrame(p.decoder, chunk).raster
  {
    var d := engine.decodeFrame(p.decoder, chunk);
    (p.(decoder := d.state), d.raster)
  }

  /** The player after decoding `chunks` in order. */
  function DecodeChunks(engine: Engine, p: FramePlayer, chunks: seq<Chunk>): FramePlayer
    decreases |chunks|
  {
    if |chunks| == 0 then p
    else DecodeChunks(engine, Decode(engine, p, chunks[0]).0, chunks[1..])
  }

  /** Whether `frame` applies to the player's current state. Being a pure
      query, it returns only a boolean: the player is left as it was. */
  function CanDecode(engine: Engine, p: FramePlayer, frame: SerializedFrame): (r: bool)
    ensures r <==> frame.source == engine.hash(p.decoder)
  {
    frame.ValidateSource(Fingerprint(engine, p))
  }

  /** The condition the assertion after a checked decode insists on. */
  predicate TargetCheck(engine: Engine, p: FramePlayer, frame: SerializedFrame)
  {
    frame.ValidateTarget(Fingerprint(engine, Decode(engine, p, frame.chunk).0))
  }

  /** The promise a serialized frame makes: decoding its chunk from any state
      with the source fingerprint leads to a state with the target one. */
  ghost predicate HonoursFingerprints(engine: Engine, frame: SerializedFrame)
  {
    forall s: DecoderState {:trigger engine.hash(s)} ::
      engine.hash(s) == frame.source ==>
        engine.hash(engine.decodeFrame(s, frame.chunk).state) == frame.target
  }

  /** Checked decode. The two assertions around the decode become the
      precondition: the source fingerprint must match before, and the target
      fingerprint must match after. The result is exactly that of the plain
      decode of the frame's chunk. */
  function CheckedDecode(engine: Engine, p: FramePlayer, frame: SerializedFrame): (r: (FramePlayer, Option<Raster>))
    requires CanDecode(engine, p, frame)
    requires TargetCheck(engine, p, frame)
    ensures r == Decode(engine, p, frame.chunk)
    ensures frame.ValidateSource(engine.hash(p.decoder))
    ensures frame.ValidateTarget(engine.hash(r.0.decoder))
  {
    Decode(engine, p, frame.chunk)
  }

  /** A frame that honours its fingerprints can be decoded, checked, by every
      player that `CanDecode` accepts it for: the second assertion never fires. */
  lemma HonouredFramesPassTargetCheck(engine: Engine, p: FramePlayer, frame: SerializedFrame)
    requires HonoursFingerprints(engine, frame)
    requires CanDecode(engine, p, frame)
    ensures TargetCheck(engine, p, frame)
  {
    assert engine.hash(p.decoder) == frame.source;
  }

  /** `decoder_ - other.decoder_`, unless the dimensions differ. */
  function DecoderDifference(engine: Engine, p: FramePlayer, other: FramePlayer): (r: Result<DecoderDiff, Unsupported>)
    ensures r.Failure? <==> (p.width != other.width || p.height != other.height)
    ensures r.Failure? ==> r.error == Unsupported(StreamSizeMismatch)
    ensures r.Success? ==> r.value == engine.subtract(p.decoder, other.decoder)
  {
    if p.width != other.width || p.height != other.height then
      Failure(Unsupported(StreamSizeMismatch))
    else
      Success(engine.subtract(p.decoder, other.decoder))
  }

  /** Recompute the difference against `other` but keep the continuation part
      of the previous `diff`. A mismatch throws before anything is assigned. */
  function UpdateDifference(engine: Engine, p: FramePlayer, diff: DecoderDiff, other: FramePlayer): (r: Result<DecoderDiff, Unsupported>)
    ensures r.Failure? <==> DecoderDifference(engine, p, other).Failure?
    ensures r.Failure? ==> r.error == Unsupported(StreamSizeMismatch)
    ensures r.Success? ==> r.value.continuation == diff.continuation
    ensures r.Success? ==> r.value.rest == engine.subtract(p.decoder, other.decoder).rest
  {
    var recomputed :- DecoderDifference(engine, p, other);
    Success(recomputed.(continuation := diff.continuation))
  }

  /** The value of the in/out parameter `diff` once `update_difference`
      returns or throws. */
  function DiffAfterUpdate(engine: Engine, p: FramePlayer, diff: DecoderDiff, other: FramePlayer): (d: DecoderDiff)
    ensures (p.width != other.width || p.height != other.height) ==> d == diff
    ensures p.width == other.width && p.height == other.height ==>
      d == DecoderDiff(diff.continuation, engine.subtract(p.decoder, other.decoder).rest)
  {
    match UpdateDifference(engine, p, diff, other)
    case Success(d) => d
    case Failure(_) => diff
  }

  /** The carried-over continuation is exact precisely when it already equals
      the recomputed one: only then does the update agree with a full recomputation. */
  lemma UpdateIsExactIff(engine: Engine, p: FramePlayer, diff: DecoderDiff, other: FramePlayer)
    requires p.width == other.width && p.height == other.height
    ensures UpdateDifference(engine, p, diff, other) == DecoderDifference(engine, p, other)
        <==> diff.continuation == engine.subtract(p.decoder, other.decoder).continuation
  {
    var recomputed := engine.subtract(p.decoder, other.decoder);
    if diff.continuation == recomputed.continuation {
      assert recomputed.(continuation := diff.continuation) == recomputed;
    }
  }

  /** Two updates in a row, against `other` and then `other2`, equal one update
      against `other2`: the second update decides the rest of the diff, and
      the continuation part stays the original one throughout. */
  lemma UpdateDifferenceTwice(engine: Engine, p: FramePlayer, diff: DecoderDiff, other: FramePlayer, other2: FramePlayer)
    requires p.width == other.width && p.height == other.height
    requires p.width == other2.width && p.height == other2.height
    ensures UpdateDifference(engine, p, UpdateDifference(engine, p, diff, other).value, other2)
         == UpdateDifference(engine, p, diff, other2)
  {
  }

  /** When the engine keeps its subtract/apply law for these two decoders, the
      difference of `p` against `other` takes `other`'s decoder to `p`'s, not
      the other way round. */
  lemma DifferenceRestoresSelf(engine: Engine, p: FramePlayer, other: FramePlayer)
    requires SubtractApplyLaw(engine, p.decoder, other.decoder)
    requires p.width == other.width && p.height == other.height
    ensures DecoderDifference(engine, p, other).Success?
    ensures engine.apply(other.decoder, DecoderDifference(engine, p, other).value) == p.decoder
  {
  }

  /** Align this player's continuation raster with `other`'s. */
  function SyncContinuationRaster(engine: Engine, p: FramePlayer, other: FramePlayer): (r: FramePlayer)
    ensures r.width == p.width && r.height == p.height
    ensures r.decoder == engine.syncContinuation(p.decoder, other.decoder)
  {
    p.(decoder := engine.syncContinuation(p.decoder, other.decoder))
  }

  /** `operator==`: equal decoders, whatever the dimensions. */
  function Equal(p: FramePlayer, q: FramePlayer): (r: bool)
    ensures r <==> p.decoder == q.decoder
  {
    p.decoder == q.decoder
  }

  /** `operator!=`: the negation of `operator==`. */
  function NotEqual(p: FramePlayer, q: FramePlayer): (r: bool)
    ensures r <==> !Equal(p, q)
    ensures r <==> p.decoder != q.decoder
  {
    !Equal(p, q)
  }

  /** Player equality is an equivalence relation. */
  lemma EqualIsEquivalence(p: FramePlayer, q: FramePlayer, s: FramePlayer)
    ensures Equal(p, p)
    ensures Equal(p, q) ==> Equal(q, p)
    ensures Equal(p, q) && Equal(q, s) ==> Equal(p, s)
  {
  }

  /** Equal players cannot be told apart by any query: they have the same
      fingerprint, accept the same serialized frames, and stay equal after
      decoding the same chunk while yielding the same raster. */
  lemma EqualPlayersAgree(engine: Engine, p: FramePlayer, q: FramePlayer, frame: SerializedFrame, chunk: Chunk)
    requires Equal(p, q)
    ensures Fingerprint(engine, p) == Fingerprint(engine, q)
    ensures CanDecode(engine, p, frame) == CanDecode(engine, q, frame)
    ensures Equal(Decode(engine, p, chunk).0, Decode(engine, q, chunk).0)
    ensures Decode(engine, p, chunk).1 == Decode(engine, q, chunk).1
  {
  }

  /** Two equal players fed the same chunk sequence stay equal after every
      chunk; the dimensions are kept throughout. */
  lemma {:induction false} DecodeChunksPreservesEqual(engine: Engine, p: FramePlayer, q: FramePlayer, chunks: seq<Chunk>)
    requires Equal(p, q)
    ensures Equal(DecodeChunks(engine, p, chunks), DecodeChunks(engine, q, chunks))
    ensures DecodeChunks(engine, p, chunks).width == p.width
    ensures DecodeChunks(engine, p, chunks).height == p.height
    decreases |chunks|
  {
    if |chunks| > 0 {
      DecodeChunksPreservesEqual(engine, Decode(engine, p, chunks[0]).0, Decode(engine, q, chunks[0]).0, chunks[1..]);
    }
  }

  /** Decoding `a ++ b` is decoding `a`, then `b`. */
  lemma {:induction false} DecodeChunksAppend(engine: Engine, p: FramePlayer, a: seq<Chunk>, b: seq<Chunk>)
    ensures DecodeChunks(engine, p, a + b) == DecodeChunks(engine, DecodeChunks(engine, p, a), b)
    decreases |a|
  {
    if |a| == 0 {
      assert a + b == b;
    } else {
      assert (a + b)[0] == a[0];
      assert (a + b)[1..] == a[1..] + b;
      DecodeChunksAppend(engine, Decode(engine, p, a[0]).0, a[1..], b);
    }
  }
}
