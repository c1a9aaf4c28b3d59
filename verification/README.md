# Decoder-state orchestration of the alfalfa VP8 player

This project models the player layer of alfalfa's VP8 decoder, `src/decoder/player.cc`, and proves properties of that model in Dafny.

- `FramePlayer` owns one decoder of fixed width and height. It provides:
  - plain decode;
  - fingerprint-checked decode of a serialized frame;
  - the `can_decode` applicability query;
  - the decoder difference between two players;
  - the `update_difference` splice, which keeps the old continuation part of a diff and recomputes everything else;
  - continuation-raster synchronisation;
  - equality.
- `FilePlayer` runs a `FramePlayer` over the chunks of an IVF file. Its constructor rejects non-VP8 files and places the cursor on the first key frame. It also provides `get_next_frame`, `advance` and `eof`.

The codec engine stays abstract. Its decoder state, fingerprint (hash), rasters, chunks and diff components are abstract types. Its operations are total function values gathered in one `Engine` record: initial state, frame decode, hash, subtraction, diff application, continuation sync, and the key-frame test on a chunk's uncompressed header. Every theorem therefore holds for any engine.

The model is functional. `FramePlayer` and `FilePlayer` are immutable records. An operation that mutates the C++ object returns the new value instead. An operation that throws `Unsupported` returns a `Result`. `advance` returns the player state in both outcomes, because the C++ object survives the exception with its cursor moved.

Files:
- `wrappers.dfy`: `Option` and `Result`.
- `codec.dfy`: the abstract engine and the `DecoderDiff` record, which has a `continuation` part and a `rest` part.
- `frame_player.dfy`: module `FramePlayers`.
- `file_player.dfy`: module `FilePlayers`.

## Model

| member | source | states |
|---|---|---|
| FramePlayers.NewFramePlayer | src/decoder/player.cc:10-14 | a new player has the requested width and height and the engine's initial decoder for exactly those dimensions |
| FramePlayers.Decode | src/decoder/player.cc:16-19 | plain decode runs the chunk through the engine once; the new decoder and the optional raster are the engine's; width and height never change |
| FramePlayers.CheckedDecode | src/decoder/player.cc:21-30 | callable only when the source fingerprint validates before decoding and the target fingerprint validates after; the result is exactly the plain decode of the frame's chunk, and the target fingerprint then holds of the new decoder |
| FramePlayers.HonouredFramesPassTargetCheck | src/decoder/player.cc:27 | for a serialized frame that keeps its fingerprint promise, every player that accepts it in `can_decode` also passes the assertion after decoding |
| FramePlayers.CanDecode | src/decoder/player.cc:32-35 | true exactly when the frame's source fingerprint equals the hash of the current decoder; it returns only a boolean, so the player is untouched |
| FramePlayers.SyncContinuationRaster | src/decoder/player.cc:42-45 | the decoder becomes the engine's continuation sync of this decoder with the other player's; width and height are kept |
| FramePlayers.DecoderDifference | src/decoder/player.cc:47-55 | fails with "stream size mismatch" exactly when width or height differ; otherwise yields `this.decoder - other.decoder`, in that operand order |
| FramePlayers.DifferenceRestoresSelf | src/decoder/player.cc:54 | if the engine keeps its subtract/apply law for these two decoders, applying the difference of `p` against `other` to `other`'s decoder gives `p`'s decoder; this catches swapped operands |
| FramePlayers.UpdateDifference | src/decoder/player.cc:57-67 | fails exactly when the difference fails, with the same error; on success the continuation part is the old diff's and every other part is the freshly computed difference's |
| FramePlayers.DiffAfterUpdate | src/decoder/player.cc:60-67 | the in/out diff after the call: unchanged when the call throws on a size mismatch, otherwise the old continuation spliced onto the fresh remainder |
| FramePlayers.UpdateIsExactIff | src/decoder/player.cc:57-67 | the spliced diff equals the full recomputation if and only if the carried continuation already equals the fresh one |
| FramePlayers.UpdateDifferenceTwice | src/decoder/player.cc:60-67 | updating against `other` and then `other2` gives the same diff as one update against `other2`: the second update decides the rest, and the continuation part is never refreshed |
| FramePlayers.Equal | src/decoder/player.cc:69-72 | two players are equal exactly when their decoders are equal; dimensions play no part |
| FramePlayers.NotEqual | src/decoder/player.cc:74-77 | exactly the negation of `Equal` |
| FramePlayers.EqualIsEquivalence | src/decoder/player.cc:69-72 | player equality is reflexive, symmetric and transitive |
| FramePlayers.EqualPlayersAgree | src/decoder/player.cc:69-72 | equal players have the same fingerprint, accept the same serialized frames, yield the same raster for a chunk and stay equal after decoding it |
| FramePlayers.DecodeChunksPreservesEqual | src/decoder/player.cc:16-19 | two equal players fed the same chunk sequence stay equal after every chunk and keep their dimensions |
| FilePlayers.Open | src/decoder/player.cc:88-105 | fails with "not a VP8 file" exactly when the fourcc is not "VP80"; otherwise the cursor is the first key frame from index 0, or the frame count if there is none, it is at most the frame count, and the player is still the fresh one, so no decode happens |
| FilePlayers.FirstKeyFrame | src/decoder/player.cc:96-104 | the recursive scan returns an index between the start and the frame count, with no key frame before it and a key frame at it unless it is the frame count |
| FilePlayers.ScanForKeyFrame | src/decoder/player.cc:96-104 | the constructor's `while` loop, counting up from 0, stops at the first key frame or at the frame count, which is the index the recursive scan gives |
| FilePlayers.OpenStartsAtFirstKeyFrame | src/decoder/player.cc:88-105 | a VP8 file whose first key frame is chunk `k` opens with cursor exactly `k`; it opens at end of file exactly when it has no key frame |
| FilePlayers.GetNextFrame | src/decoder/player.cc:107-110 | returns the chunk under the cursor and moves the cursor by exactly one, leaving player and file alone; the cursor must be before the frame count |
| FilePlayers.Eof | src/decoder/player.cc:124-127 | true exactly when the cursor equals the frame count |
| FilePlayers.DecodeNext | src/decoder/player.cc:114-115 | one pass of the `advance` loop decodes exactly the chunk under the cursor, giving the player and raster of the plain decode of that chunk, moves the cursor by one, and keeps the file and the cursor bound |
| FilePlayers.Advance | src/decoder/player.cc:112-122 | the chunks from the cursor are decoded in order; on success the cursor is one past the first chunk that yields a raster, which is returned, and every chunk before it was hidden; otherwise the cursor is at the frame count, every remaining chunk was hidden, and "hidden frames at end of file" is thrown |
| FilePlayers.AdvanceLoop | src/decoder/player.cc:112-122 | the `while ( not eof() )` loop as written ends in exactly the state and outcome of the recursive definition |
| FilePlayers.AdvanceFailsIffAllHidden | src/decoder/player.cc:112-122 | `advance` throws if and only if every chunk from the cursor to the end is hidden |
| FilePlayers.AdvanceFindsFirstDisplayable | src/decoder/player.cc:112-122 | when chunk `k` is the first displayable one from the cursor, `advance` returns its raster and leaves the cursor at `k + 1` |
| FilePlayers.AdvanceAtEof | src/decoder/player.cc:114-121 | at end of file `advance` throws "hidden frames at end of file" and changes nothing |
| FilePlayers.AdvanceResumes | src/decoder/player.cc:112-122 | a later `advance` sees, from its new cursor, the same rasters the earlier call would have seen there, so successive calls return successive displayable frames |
| FilePlayers.SecondAdvanceAfterHiddenTail | src/decoder/player.cc:112-122 | after an `advance` that displayed a chunk, if every later chunk is hidden, the next `advance` throws "hidden frames at end of file" and leaves the cursor at end of file |

## Left out

- FramePlayers.CheckedDecode: the assertion after decoding cannot be proved about an abstract engine, so it becomes a precondition the caller must meet. `HonouredFramesPassTargetCheck` discharges it for frames that keep their fingerprint promise. The C++ `assert` disappears under `NDEBUG`; that build is not modelled.
- `SerializedFrame::validate_source` and `validate_target` are modelled as equality with the declared fingerprint. `serialized_frame.hh` is not part of this model.
- `FramePlayer::operator==` compares `decoder_ == other.decoder_` (player.cc:71). The type of `decoder_` and its `operator==` are not part of this model. The model takes that operator to be identity of the abstract state, and `EqualPlayersAgree` and `DecodeChunksPreservesEqual` rely on that. An `operator==` that compared less than the whole state would not give those guarantees. Equality of `get_hash()` would be a coarser relation than the one `operator==` uses; it is not modelled.
- The cursor's initial value 0 comes from `player.hh`, which is not part of this model.
- The codec engine is not modelled: frame decoding, hashing, state subtraction and application, `sync_continuation_raster`, and the `UncompressedChunk` key-frame parse are all uninterpreted. The law that applying `a - b` to `b` gives `a` is only ever assumed, and only for the pair of states at hand (`SubtractApplyLaw`).
- Engine decode failures on a malformed chunk are not modelled: the engine's decode is total. In the C++ such an exception passes through `decode` and `advance` unchanged.
- A failed key-frame parse is not modelled either. During the constructor's scan, building an `UncompressedChunk` (player.cc:98-99) may throw; the model's key-frame test is total, so construction never fails that way.
- `example_raster` (player.cc:37-40) is not modelled. It only forwards to the engine's accessor, so there is nothing of the player's own to state.
- The filename constructor, IVF file opening and `fourcc()` reading (player.cc:84-92) are file I/O. The file is a value with a fourcc, dimensions and a chunk sequence.
- `original_size` (player.cc:129-132) is not modelled. It depends on `cur_frame_no()`, which is declared in `player.hh`, and that header is not part of this model.
- `operator<<` (player.cc:79-82) is stream printing.
- Raster reference counting and shared ownership are not modelled. Rasters are plain values.
- `src/decoder/vp8_prob_data.cc` holds only constant probability tables from RFC 6386. It contains no logic to prove.
- Widths and heights are modelled as `uint16_t` values through the subtype `Dim`. The cursor is an unbounded `nat` kept at most the frame count, so `unsigned int` wrap-around cannot occur in the model.
- FilePlayers.GetNextFrame: requires the cursor to be before the frame count, but `get_next_frame` is public and has no bounds check (player.cc:109). Called at end of file, it moves `frame_no_` past `frame_count()`. From then on the `==` test in `eof()` (player.cc:126) never holds, and `advance` keeps reading chunks past the end of the file. The model keeps the cursor at most the frame count (`FilePlayer.Valid`), and the termination of `Advance` and `AdvanceLoop` depends on that bound. The overrun state is not modelled.
