/** `FilePlayer`: a `FramePlayer` driven by the ordered chunks of an IVF
    file, with a cursor that starts at the first key frame and only moves
    forward. */
module FilePlayers {
  import opened Wrappers
  import opened Codec
  import opened FramePlayers

  /** The only codec tag a file player accepts. */
  const Vp8Fourcc: string := "VP80"

  const NotVp8File: string := "not a VP8 file"

  const HiddenFramesAtEnd: string := "hidden frames at end of file"

  /** The IVF container, as far as the player reads it. */
  datatype IvfFile = IvfFile(fourcc: string, width: Dim, height: Dim, frames: seq<Chunk>)

  /** The player, its file, and the index of the next chunk to be read. */
  datatype FilePlayer = FilePlayer(player: FramePlayer, file: IvfFile, frameNo: nat) {
    /** The cursor never passes the frame count, and the player has the
        file's dimensions. */
    predicate Valid()
    {
      && frameNo <= |file.frames|
      && player.width == file.width
      && player.height == file.height
    }
  }

  function FrameCount(file: IvfFile): nat
  {
    |file.frames|
  }

  /** `eof()`: the cursor has reached the frame count. */
  function Eof(fp: FilePlayer): (r: bool)
    ensures r <==> fp.frameNo == FrameCount(fp.file)
  {
    fp.frameNo == FrameCount(fp.file)
  }

  predicate IsKeyFrameAt(engine: Engine, file: IvfFile, i: nat)
    requires i < |file.frames|
  {
    engine.isKeyFrame(file.frames[i], file.width, file.height)
  }

  /** `k` is the first key frame at or after `from`, or the frame count when
      there is none. */
  ghost predicate IsFirstKeyFrameFrom(engine: Engine, file: IvfFile, from: nat, k: nat)
  {
    && from <= k <= |file.frames|
    && (forall j :: from <= j < k ==> !IsKeyFrameAt(engine, file, j))
    && (k < |file.frames| ==> IsKeyFrameAt(engine, file, k))
  }

  /** At most one index is the first key frame from a given start. */
  lemma FirstKeyFrameUnique(engine: Engine, file: IvfFile, from: nat, k1: nat, k2: nat)
    requires IsFirstKeyFrameFrom(engine, file, from, k1)
    requires IsFirstKeyFrameFrom(engine, file, from, k2)
    ensures k1 == k2
  {
  }

  /** The forward scan for a key frame, by recursion on the chunks left. */
  function FirstKeyFrame(engine: Engine, file: IvfFile, from: nat): (k: nat)
    requires from <= |file.frames|
    ensures IsFirstKeyFrameFrom(engine, file, from, k)
    decreases |file.frames| - from
  {
    if from == |file.frames| then from
    else if IsKeyFrameAt(engine, file, from) then from
    else FirstKeyFrame(engine, file, from + 1)
  }

  /** The scan loop of the constructor as written, with its cursor counting
      up from frame 0; it lands where the recursive scan does. */
  method ScanForKeyFrame(engine: Engine, file: IvfFile) returns (frameNo: nat)
    ensures IsFirstKeyFrameFrom(engine, file, 0, frameNo)
    ensures frameNo == FirstKeyFrame(engine, file, 0)
  {
    frameNo := 0;
    while frameNo < |file.frames|
      invariant frameNo <= |file.frames|
      invariant forall j :: 0 <= j < frameNo ==> !IsKeyFrameAt(engine, file, j)
    {
      if IsKeyFrameAt(engine, file, frameNo) {
        break;
      }
      frameNo := frameNo + 1;
    }
    FirstKeyFrameUnique(engine, file, 0, frameNo, FirstKeyFrame(engine, file, 0));
  }

  /** The constructor: reject anything but VP8, then put the cursor on the
      first key frame. The scan decodes nothing, so the player is still the
      freshly initialised one. */
  function Open(engine: Engine, file: IvfFile): (r: Result<FilePlayer, Unsupported>)
    ensures r.Failure? <==> file.fourcc != Vp8Fourcc
    ensures r.Failure? ==> r.error == Unsupported(NotVp8File)
    ensures r.Success? ==> r.value.Valid() && r.value.file == file
    ensures r.Success? ==> r.value.player == NewFramePlayer(engine, file.width, file.height)
    ensures r.Success? ==> IsFirstKeyFrameFrom(engine, file, 0, r.value.frameNo)
  {
    if file.fourcc != Vp8Fourcc then
      Failure(Unsupported(NotVp8File))
    else
      Success(FilePlayer(NewFramePlayer(engine, file.width, file.height), file, FirstKeyFrame(engine, file, 0)))
  }

  /** A VP8 file whose first key frame is chunk `k` opens with its cursor
      exactly on `k`; one without key frames opens at end of file. */
  lemma OpenStartsAtFirstKeyFrame(engine: Engine, file: IvfFile, k: nat)
    requires file.fourcc == Vp8Fourcc
    requires IsFirstKeyFrameFrom(engine, file, 0, k)
    ensures Open(engine, file).Success?
    ensures Open(engine, file).value.frameNo == k
    ensures Eof(Open(engine, file).value) <==> forall j :: 0 <= j < |file.frames| ==> !IsKeyFrameAt(engine, file, j)
  {
    FirstKeyFrameUnique(engine, file, 0, k, Open(engine, file).value.frameNo);
  }

  /** `get_next_frame()`: the chunk under the cursor, and the cursor moved on
      by exactly one. The source does no bounds check, hence the requires. */
  function GetNextFrame(fp: FilePlayer): (r: (Chunk, FilePlayer))
    requires fp.Valid() && !Eof(fp)
    ensures r.0 == fp.file.frames[fp.frameNo]
    ensures r.1.frameNo == fp.frameNo + 1
    ensures r.1.player == fp.player && r.1.file == fp.file
    ensures r.1.Valid()
  {
    (fp.file.frames[fp.frameNo], fp.(frameNo := fp.frameNo + 1))
  }

  /** One pass of the loop in `advance()`: take the next chunk and decode it. */
  function DecodeNext(engine: Engine, fp: FilePlayer): (r: (FilePlayer, Option<Raster>))
    requires fp.Valid() && !Eof(fp)
    ensures r.0.Valid() && r.0.file == fp.file && r.0.frameNo == fp.frameNo + 1
    ensures (r.0.player, r.1) == Decode(engine, fp.player, fp.file.frames[fp.frameNo])
  {
    var (chunk, next) := GetNextFrame(fp);
    var (player, raster) := Decode(engine, next.player, chunk);
    (next.(player := player), raster)
  }

  /** The player once every chunk from the cursor up to (not including) `n`
      has been decoded. */
  function PlayerAt(engine: Engine, fp: FilePlayer, n: nat): FramePlayer
    requires fp.Valid() && fp.frameNo <= n <= |fp.file.frames|
  {
    DecodeChunks(engine, fp.player, fp.file.frames[fp.frameNo..n])
  }

  /** What chunk `j` yields when decoding goes on from the cursor: `None` for
      a hidden frame, the raster to show otherwise. */
  function RasterAt(engine: Engine, fp: FilePlayer, j: nat): Option<Raster>
    requires fp.Valid() && fp.frameNo <= j < |fp.file.frames|
  {
    Decode(engine, PlayerAt(engine, fp, j), fp.file.frames[j]).1
  }

  /** After one loop pass, decoding on from the new cursor sees the same
      players and rasters as decoding on from the old one. */
  lemma DecodeNextResumes(engine: Engine, fp: FilePlayer)
    requires fp.Valid() && !Eof(fp)
    ensures DecodeNext(engine, fp).1 == RasterAt(engine, fp, fp.frameNo)
    ensures forall n :: fp.frameNo < n <= |fp.file.frames| ==>
      PlayerAt(engine, DecodeNext(engine, fp).0, n) == PlayerAt(engine, fp, n)
    ensures forall j :: fp.frameNo < j < |fp.file.frames| ==>
      RasterAt(engine, DecodeNext(engine, fp).0, j) == RasterAt(engine, fp, j)
  {
    var next := DecodeNext(engine, fp).0;
    var c := fp.frameNo;
    var frames := fp.file.frames;
    assert frames[c..c] == [];
    forall n | c < n <= |frames|
      ensures PlayerAt(engine, next, n) == PlayerAt(engine, fp, n)
    {
      assert frames[c..n][0] == frames[c];
      assert frames[c..n][1..] == frames[c + 1..n];
    }
  }

  /** What `advance()` leaves behind: the player after the call, and either
      the raster it returns or the exception it throws. */
  datatype Advanced = Advanced(state: FilePlayer, raster: Result<Raster, Unsupported>)

  /** `advance()`: decode chunk after chunk until one yields a raster. The
      chunks are decoded in order from the cursor, the cursor stops one past
      the first displayable chunk, and when none is left the cursor is at the
      end of the file and "hidden frames at end of file" is thrown. */
  function Advance(engine: Engine, fp: FilePlayer): (r: Advanced)
    requires fp.Valid()
    ensures r.state.Valid() && r.state.file == fp.file
    ensures fp.frameNo <= r.state.frameNo
    ensures r.state.player == PlayerAt(engine, fp, r.state.frameNo)
    ensures r.raster.Success? ==>
      && fp.frameNo < r.state.frameNo
      && RasterAt(engine, fp, r.state.frameNo - 1) == Some(r.raster.value)
      && forall j :: fp.frameNo <= j < r.state.frameNo - 1 ==> RasterAt(engine, fp, j).None?
    ensures r.raster.Failure? ==>
      && r.raster.error == Unsupported(HiddenFramesAtEnd)
      && Eof(r.state)
      && forall j :: fp.frameNo <= j < r.state.frameNo ==> RasterAt(engine, fp, j).None?
    decreases |fp.file.frames| - fp.frameNo
  {
    if Eof(fp) then
      assert fp.file.frames[fp.frameNo..fp.frameNo] == [];
      Advanced(fp, Failure(Unsupported(HiddenFramesAtEnd)))
    else
      var (next, raster) := DecodeNext(engine, fp);
      DecodeNextResumes(engine, fp);
      if raster.Some? then
        Advanced(next, Success(raster.value))
      else
        Advance(engine, next)
  }

  /** The `while ( not eof() )` loop of `advance()` as written; it ends
      exactly where the recursive definition does. */
  method AdvanceLoop(engine: Engine, fp: FilePlayer) returns (r: Advanced)
    requires fp.Valid()
    ensures r == Advance(engine, fp)
  {
    var cur := fp;
    while !Eof(cur)
      invariant cur.Valid()
      invariant Advance(engine, cur) == Advance(engine, fp)
      decreases |cur.file.frames| - cur.frameNo
    {
      var (next, raster) := DecodeNext(engine, cur);
      if raster.Some? {
        return Advanced(next, Success(raster.value));
      }
      cur := next;
    }
    return Advanced(cur, Failure(Unsupported(HiddenFramesAtEnd)));
  }

  /** `advance()` throws exactly when every chunk left is hidden. */
  lemma AdvanceFailsIffAllHidden(engine: Engine, fp: FilePlayer)
    requires fp.Valid()
    ensures Advance(engine, fp).raster.Failure?
        <==> forall j :: fp.frameNo <= j < |fp.file.frames| ==> RasterAt(engine, fp, j).None?
  {
    var r := Advance(engine, fp);
    if r.raster.Success? {
      assert RasterAt(engine, fp, r.state.frameNo - 1).Some?;
    }
  }

  /** When chunk `k` is the first displayable one from the cursor, `advance()`
      returns its raster and leaves the cursor at `k + 1`. */
  lemma AdvanceFindsFirstDisplayable(engine: Engine, fp: FilePlayer, k: nat)
    requires fp.Valid() && fp.frameNo <= k < |fp.file.frames|
    requires RasterAt(engine, fp, k).Some?
    requires forall j :: fp.frameNo <= j < k ==> RasterAt(engine, fp, j).None?
    ensures Advance(engine, fp).raster == Success(RasterAt(engine, fp, k).value)
    ensures Advance(engine, fp).state.frameNo == k + 1
  {
  }

  /** At end of file `advance()` throws and changes nothing. */
  lemma AdvanceAtEof(engine: Engine, fp: FilePlayer)
    requires fp.Valid() && Eof(fp)
    ensures Advance(engine, fp) == Advanced(fp, Failure(Unsupported(HiddenFramesAtEnd)))
  {
  }

  /** A later `advance()` carries on from where the previous one stopped: the
      rasters it sees from the new cursor are the ones the first call would
      have seen there. */
  lemma AdvanceResumes(engine: Engine, fp: FilePlayer, j: nat)
    requires fp.Valid()
    requires Advance(engine, fp).state.frameNo <= j < |fp.file.frames|
    ensures RasterAt(engine, Advance(engine, fp).state, j) == RasterAt(engine, fp, j)
  {
    var st := Advance(engine, fp).state;
    var frames := fp.file.frames;
    var c, m := fp.frameNo, st.frameNo;
    assert frames[c..j] == frames[c..m] + frames[m..j];
    DecodeChunksAppend(engine, fp.player, frames[c..m], frames[m..j]);
  }

  /** Two calls in a row: when every chunk after the one the first `advance()`
      displayed is hidden, the second call throws "hidden frames at end of
      file" rather than returning anything, and leaves the player at end of
      file. */
  lemma SecondAdvanceAfterHiddenTail(engine: Engine, fp: FilePlayer)
    requires fp.Valid()
    requires Advance(engine, fp).raster.Success?
    requires forall j :: Advance(engine, fp).state.frameNo <= j < |fp.file.frames| ==> RasterAt(engine, fp, j).None?
    ensures Advance(engine, Advance(engine, fp).state).raster == Failure(Unsupported(HiddenFramesAtEnd))
    ensures Eof(Advance(engine, Advance(engine, fp).state).state)
  {
    var st := Advance(engine, fp).state;
    forall j | st.frameNo <= j < |fp.file.frames|
      ensures RasterAt(engine, st, j).None?
    {
      AdvanceResumes(engine, fp, j);
    }
    AdvanceFailsIffAllHidden(engine, st);
  }
}
