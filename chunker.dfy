/**
 * How `_uploadNext(part)` cuts an image: part `p` covers the bytes
 * `[p * 16384, min(p * 16384 + 16384, fileLen))`, and it is sent as pieces of at
 * most 200 bytes, each in a `0xFB` frame headed by its index within the part,
 * followed by one `0xFC` trailer holding the part's byte count and index.
 */
module Chunker {
  import opened Wrappers
  import opened Bytes
  import opened Frames

  type Image = seq<byte>

  /** `start = part * _partSize`. */
  function PartStart(part: nat): int
  {
    part * 16384
  }

  /** `end = start + _partSize`, cut back to `fileLen` for the last part. */
  function PartEnd(fileLen: nat, part: nat): int
  {
    if fileLen < PartStart(part) + 16384 then fileLen else PartStart(part) + 16384
  }

  /**
   * `Math.ceil(len / _mtu)` as the number of times the piece loop runs: a
   * length of zero or less gives no iteration.
   */
  function PieceCount(len: int): (n: nat)
    ensures len <= 0 ==> n == 0
    ensures len > 0 ==> n * 200 >= len && (n - 1) * 200 < len
  {
    if len <= 0 then 0 else (len + 200 - 1) / 200
  }

  /** `pieceStart = start + piece * _mtu`. */
  function PieceStart(start: int, piece: nat): int
  {
    start + piece * 200
  }

  /** `pieceEnd = pieceStart + _mtu`, cut back to the end of the part. */
  function PieceEnd(start: int, end: int, piece: nat): int
  {
    if end < PieceStart(start, piece) + 200 then end else PieceStart(start, piece) + 200
  }

  /** The `0xFB` frames of the first `count` pieces of the range `[start, end)`. */
  function PieceFrames(image: Image, start: int, end: int, count: nat): (fs: seq<Frame>)
    requires count <= PieceCount(end - start)
    requires count > 0 ==> 0 <= start && end <= |image|
    ensures |fs| == count
  {
    seq(count, i requires 0 <= i < count => PieceFrame(i, image[PieceStart(start, i)..PieceEnd(start, end, i)]))
  }

  /**
   * Every frame `_uploadNext(part)` sends, in order.  A part beyond the image
   * has an empty or negative range: no piece, only a trailer.  An `undefined`
   * part (`None`) gives NaN bounds: no piece and an all-zero trailer.
   */
  function PartFrames(image: Image, part: Option<nat>): seq<Frame>
  {
    match part
    case None => [NaNTrailerFrame()]
    case Some(p) =>
      var start, end := PartStart(p), PartEnd(|image|, p);
      PieceFrames(image, start, end, PieceCount(end - start)) + [TrailerFrame(end - start, p)]
  }

  /** The image bytes a `0xFB` frame carries: everything after the command and the index. */
  function PieceBytes(f: Frame): seq<byte>
  {
    if |f| >= 2 && f[0] == CmdWritePiece then f[2..] else []
  }

  /** What a receiver that appends the bytes of every `0xFB` frame in order ends up with. */
  function Received(frames: seq<Frame>): seq<byte>
  {
    if frames == [] then []
    else Received(frames[..|frames| - 1]) + PieceBytes(frames[|frames| - 1])
  }

  /** The `0xFC` frames among `frames`, in order. */
  function Trailers(frames: seq<Frame>): seq<Frame>
  {
    if frames == [] then []
    else
      var last := frames[|frames| - 1];
      Trailers(frames[..|frames| - 1]) + (if |last| > 0 && last[0] == CmdPartComplete then [last] else [])
  }

  /** Frame sequences one after the other. */
  function Flatten(parts: seq<seq<Frame>>): seq<Frame>
  {
    if |parts| == 0 then [] else Flatten(parts[..|parts| - 1]) + parts[|parts| - 1]
  }

  /** The frames of parts `0 .. count - 1`, one part after the other. */
  function AllPartFrames(image: Image, count: nat): seq<Frame>
  {
    Flatten(seq(count, p requires 0 <= p => PartFrames(image, Some(p))))
  }

  /** The frames of parts `0 .. count` are those of parts `0 .. count - 1`, then part `count`'s. */
  lemma AllPartFramesSnoc(image: Image, count: nat)
    ensures AllPartFrames(image, count + 1) == AllPartFrames(image, count) + PartFrames(image, Some(count))
  {
    var parts := seq(count + 1, p requires 0 <= p => PartFrames(image, Some(p)));
    assert parts[..count] == seq(count, p requires 0 <= p => PartFrames(image, Some(p)));
  }

  /** Where the first `count` parts of a `fileLen`-byte image end. */
  function PartsEnd(fileLen: nat, count: nat): nat
  {
    if fileLen < count * 16384 then fileLen else count * 16384
  }

  /** The image bytes part `part` covers. */
  function PartData(image: Image, part: nat): seq<byte>
    requires part < FileParts(|image|)
  {
    image[PartStart(part)..PartEnd(|image|, part)]
  }

  /** The trailer that closes part `part` of a `fileLen`-byte image. */
  function PartTrailer(fileLen: nat, part: nat): Frame
  {
    TrailerFrame(PartEnd(fileLen, part) - PartStart(part), part)
  }

  // ----- Ranges -----

  /**
   * The parts tile the file: part 0 starts at 0, each part is non-empty and at
   * most 16384 bytes, each one starts where the previous ended, and the last
   * ends at the file length.
   */
  lemma PartsTileFile(fileLen: nat, part: nat)
    requires part < FileParts(fileLen)
    ensures PartStart(0) == 0
    ensures 0 <= PartStart(part) < PartEnd(fileLen, part) <= fileLen
    ensures PartEnd(fileLen, part) - PartStart(part) <= 16384
    ensures part + 1 < FileParts(fileLen) ==>
      PartEnd(fileLen, part) == PartStart(part + 1) && PartEnd(fileLen, part) - PartStart(part) == 16384
    ensures part + 1 == FileParts(fileLen) ==> PartEnd(fileLen, part) == fileLen
  {
  }

  /**
   * The pieces tile their part: piece 0 starts at the part's start, every piece
   * is non-empty and at most 200 bytes, every piece but the last is exactly 200
   * bytes and ends where the next starts, and the last ends at the part's end.
   */
  lemma PiecesTilePart(start: int, end: int, piece: nat)
    requires start < end && piece < PieceCount(end - start)
    ensures PieceStart(start, 0) == start
    ensures start <= PieceStart(start, piece) < PieceEnd(start, end, piece) <= end
    ensures PieceEnd(start, end, piece) - PieceStart(start, piece) <= 200
    ensures piece + 1 < PieceCount(end - start) ==>
      PieceEnd(start, end, piece) == PieceStart(start, piece + 1)
      && PieceEnd(start, end, piece) - PieceStart(start, piece) == 200
    ensures piece + 1 == PieceCount(end - start) ==> PieceEnd(start, end, piece) == end
  {
  }

  /** A part has at most 82 pieces, so each piece index fits its byte unchanged. */
  lemma PieceIndexFitsByte(fileLen: nat, part: nat, piece: nat)
    requires piece < PieceCount(PartEnd(fileLen, part) - PartStart(part))
    ensures piece < 82 && ToUint8(piece) as int == piece
  {
  }

  // ----- Frames of one part -----

  /**
   * The piece frames, one per piece, each `0xFB`, the piece's index, then the
   * image bytes of exactly that piece's range.
   */
  lemma PieceFramesAt(image: Image, start: int, end: int, count: nat, i: nat)
    requires count <= PieceCount(end - start)
    requires count > 0 ==> 0 <= start && end <= |image|
    requires i < count
    ensures |PieceFrames(image, start, end, count)| == count
    ensures start <= PieceStart(start, i) < PieceEnd(start, end, i) <= end
    ensures PieceFrames(image, start, end, count)[i]
      == [CmdWritePiece, ToUint8(i)] + image[PieceStart(start, i)..PieceEnd(start, end, i)]
  {
    PiecesTilePart(start, end, i);
  }

  /** The first `count` piece frames are the first `count - 1`, then piece `count - 1`'s. */
  lemma PieceFramesSnoc(image: Image, start: int, end: int, count: nat)
    requires 0 < count <= PieceCount(end - start)
    requires 0 <= start && end <= |image|
    ensures start <= PieceStart(start, count - 1) < PieceEnd(start, end, count - 1) <= end
    ensures PieceFrames(image, start, end, count)
      == PieceFrames(image, start, end, count - 1)
         + [PieceFrame(count - 1, image[PieceStart(start, count - 1)..PieceEnd(start, end, count - 1)])]
  {
    PiecesTilePart(start, end, count - 1);
    assert PieceFrames(image, start, end, count)[..count - 1] == PieceFrames(image, start, end, count - 1);
  }

  /** Appending frames appends what the receiver collects from them. */
  lemma {:induction false} ReceivedAppend(a: seq<Frame>, b: seq<Frame>)
    ensures Received(a + b) == Received(a) + Received(b)
    decreases |b|
  {
    if b == [] {
      assert a + b == a;
    } else {
      var b', last := b[..|b| - 1], b[|b| - 1];
      var ab := a + b;
      assert ab[..|ab| - 1] == a + b' && ab[|ab| - 1] == last;
      calc {
        Received(ab);
        Received(a + b') + PieceBytes(last);
        { ReceivedAppend(a, b'); }
        Received(a) + Received(b') + PieceBytes(last);
        Received(a) + (Received(b') + PieceBytes(last));
        Received(a) + Received(b);
      }
    }
  }

  /** Appending frames appends their trailers. */
  lemma {:induction false} TrailersAppend(a: seq<Frame>, b: seq<Frame>)
    ensures Trailers(a + b) == Trailers(a) + Trailers(b)
    decreases |b|
  {
    if b == [] {
      assert a + b == a;
    } else {
      var b' := b[..|b| - 1];
      assert (a + b)[..|a + b| - 1] == a + b';
      TrailersAppend(a, b');
    }
  }

  /** A single piece frame delivers its bytes and holds no trailer. */
  lemma PieceFrameAlone(piece: nat, data: seq<byte>)
    ensures Received([PieceFrame(piece, data)]) == data
    ensures Trailers([PieceFrame(piece, data)]) == []
  {
    var f := PieceFrame(piece, data);
    assert [f][..0] == [];
    assert PieceBytes(f) == data;
  }

  /** Adjacent slices join. */
  lemma SliceJoin(image: Image, a: int, b: int, c: int)
    requires 0 <= a <= b <= c <= |image|
    ensures image[a..b] + image[b..c] == image[a..c]
  {
  }

  /** Frames delivering `image[a..b]`, then frames delivering `image[b..c]`, deliver `image[a..c]`. */
  lemma ReceivedJoin(image: Image, x: seq<Frame>, y: seq<Frame>, a: int, b: int, c: int)
    requires 0 <= a <= b <= c <= |image|
    requires Received(x) == image[a..b] && Received(y) == image[b..c]
    ensures Received(x + y) == image[a..c]
  {
    ReceivedAppend(x, y);
    SliceJoin(image, a, b, c);
  }

  /** The first `count` pieces carry the image bytes from `start` up to where piece `count - 1` ends. */
  lemma {:induction false} PieceFramesReceived(image: Image, start: int, end: int, count: nat)
    requires 0 < count <= PieceCount(end - start)
    requires 0 <= start && end <= |image|
    ensures Received(PieceFrames(image, start, end, count)) == image[start..PieceEnd(start, end, count - 1)]
  {
    var prev := PieceFrames(image, start, end, count - 1);
    var ps, pe := PieceStart(start, count - 1), PieceEnd(start, end, count - 1);
    PieceFramesSnoc(image, start, end, count);
    var f := PieceFrame(count - 1, image[ps..pe]);
    assert Received(prev) == image[start..ps] by {
      if count > 1 {
        PieceFramesReceived(image, start, end, count - 1);
        PiecesTilePart(start, end, count - 2);
      } else {
        assert prev == [];
      }
    }
    assert Received([f]) == image[ps..pe] by {
      PieceFrameAlone(count - 1, image[ps..pe]);
    }
    ReceivedJoin(image, prev, [f], start, ps, pe);
  }

  /** Piece frames hold no trailer. */
  lemma {:induction false} PieceFramesNoTrailer(image: Image, start: int, end: int, count: nat)
    requires count <= PieceCount(end - start)
    requires count > 0 ==> 0 <= start && end <= |image|
    ensures Trailers(PieceFrames(image, start, end, count)) == []
  {
    if count > 0 {
      var prev := PieceFrames(image, start, end, count - 1);
      var ps, pe := PieceStart(start, count - 1), PieceEnd(start, end, count - 1);
      PieceFramesSnoc(image, start, end, count);
      var f := PieceFrame(count - 1, image[ps..pe]);
      PieceFrameAlone(count - 1, image[ps..pe]);
      TrailersAppend(prev, [f]);
      PieceFramesNoTrailer(image, start, end, count - 1);
    }
  }

  /**
   * The frames of part `p` deliver exactly the image bytes of the part's
   * range, and their only trailer is the last frame, which names the part's
   * byte count and index.
   */
  lemma PartFramesDeliverPart(image: Image, part: nat)
    requires part < FileParts(|image|)
    ensures Received(PartFrames(image, Some(part))) == PartData(image, part)
    ensures Trailers(PartFrames(image, Some(part))) == [PartTrailer(|image|, part)]
  {
    var start, end := PartStart(part), PartEnd(|image|, part);
    var count := PieceCount(end - start);
    var pieces, t := PieceFrames(image, start, end, count), TrailerFrame(end - start, part);
    assert PartFrames(image, Some(part)) == pieces + [t];
    assert t == PartTrailer(|image|, part) && |t| > 0 && t[0] == CmdPartComplete;
    assert Received(pieces) == PartData(image, part) by {
      LastPieceEndsPart(|image|, part);
      PieceFramesReceived(image, start, end, count);
    }
    assert Trailers(pieces) == [] by {
      LastPieceEndsPart(|image|, part);
      PieceFramesNoTrailer(image, start, end, count);
    }
    TrailerAfterPieces(pieces, t);
  }

  /** A part's pieces are at least one, and its last piece ends where the part ends. */
  lemma LastPieceEndsPart(fileLen: nat, part: nat)
    requires part < FileParts(fileLen)
    ensures 0 <= PartStart(part) < PartEnd(fileLen, part) <= fileLen
    ensures PieceCount(PartEnd(fileLen, part) - PartStart(part)) > 0
    ensures var start, end := PartStart(part), PartEnd(fileLen, part);
      PieceEnd(start, end, PieceCount(end - start) - 1) == end
  {
    PartsTileFile(fileLen, part);
    var start, end := PartStart(part), PartEnd(fileLen, part);
    PiecesTilePart(start, end, PieceCount(end - start) - 1);
  }

  /** A trailer after piece frames adds no byte and is their only trailer. */
  lemma TrailerAfterPieces(pieces: seq<Frame>, t: Frame)
    requires Trailers(pieces) == [] && |t| > 0 && t[0] == CmdPartComplete
    ensures Received(pieces + [t]) == Received(pieces)
    ensures Trailers(pieces + [t]) == [t]
  {
    assert [t][..0] == [];
    assert Received([t]) == [] && Trailers([t]) == [t];
    ReceivedAppend(pieces, [t]);
    TrailersAppend(pieces, [t]);
  }

  /**
   * Frame sequences whose `p`-th member delivers the bytes of part `p` deliver,
   * one after the other, the image up to the end of the last of them.
   */
  lemma {:induction false} FlattenReceived(image: Image, parts: seq<seq<Frame>>)
    requires |parts| <= FileParts(|image|)
    requires forall p :: 0 <= p < |parts| ==> Received(parts[p]) == PartData(image, p)
    ensures Received(Flatten(parts)) == image[..PartsEnd(|image|, |parts|)]
  {
    var n := |parts|;
    if n > 0 {
      var prev, last := parts[..n - 1], parts[n - 1];
      PartsTileFile(|image|, n - 1);
      var mid, end := PartStart(n - 1), PartEnd(|image|, n - 1);
      assert Received(Flatten(prev)) == image[0..mid] by {
        forall p | 0 <= p < |prev|
          ensures Received(prev[p]) == PartData(image, p)
        {
          assert prev[p] == parts[p];
        }
        FlattenReceived(image, prev);
        assert image[..mid] == image[0..mid];
      }
      assert Received(last) == image[mid..end];
      ReceivedJoin(image, Flatten(prev), last, 0, mid, end);
      assert Flatten(parts) == Flatten(prev) + last;
      assert image[0..end] == image[..PartsEnd(|image|, n)];
    }
  }

  /** The trailer of part `p` is entry `p` of `PartTrailers`. */
  function PartTrailers(fileLen: nat, count: nat): (r: seq<Frame>)
    ensures |r| == count
    ensures forall p :: 0 <= p < count ==> r[p] == PartTrailer(fileLen, p)
  {
    seq(count, p requires 0 <= p => PartTrailer(fileLen, p))
  }

  /**
   * Frame sequences whose `p`-th member holds exactly the trailer of part `p`
   * hold, one after the other, the trailers of parts `0, 1, 2, ...` in order.
   */
  lemma {:induction false} FlattenTrailers(fileLen: nat, parts: seq<seq<Frame>>)
    requires forall p :: 0 <= p < |parts| ==> Trailers(parts[p]) == [PartTrailer(fileLen, p)]
    ensures Trailers(Flatten(parts)) == PartTrailers(fileLen, |parts|)
  {
    var n := |parts|;
    if n > 0 {
      var prev := parts[..n - 1];
      assert Trailers(Flatten(prev)) == PartTrailers(fileLen, n - 1) by {
        assert forall p :: 0 <= p < |prev| ==> prev[p] == parts[p];
        FlattenTrailers(fileLen, prev);
      }
      assert Flatten(parts) == Flatten(prev) + parts[n - 1];
      TrailersAppend(Flatten(prev), parts[n - 1]);
      PartTrailersSnoc(fileLen, n - 1);
    }
  }

  /** The trailers of parts `0 .. count` are those of parts `0 .. count - 1`, then part `count`'s. */
  lemma PartTrailersSnoc(fileLen: nat, count: nat)
    ensures PartTrailers(fileLen, count + 1) == PartTrailers(fileLen, count) + [PartTrailer(fileLen, count)]
  {
  }

  /**
   * The frames of parts `0 .. count - 1` deliver the image from its first byte
   * to the end of part `count - 1`, and their trailers name those parts in order.
   */
  lemma AllPartFramesDeliver(image: Image, count: nat)
    requires count <= FileParts(|image|)
    ensures Received(AllPartFrames(image, count)) == image[..PartsEnd(|image|, count)]
    ensures Trailers(AllPartFrames(image, count)) == PartTrailers(|image|, count)
  {
    var parts := seq(count, p requires 0 <= p => PartFrames(image, Some(p)));
    forall p | 0 <= p < count
      ensures Received(parts[p]) == PartData(image, p)
      ensures Trailers(parts[p]) == [PartTrailer(|image|, p)]
    {
      PartFramesDeliverPart(image, p);
    }
    FlattenReceived(image, parts);
    FlattenTrailers(|image|, parts);
  }

  /**
   * Sending every part in order delivers the whole image, byte for byte, and
   * closes each part with one trailer, in part order.
   */
  lemma AllPartsDeliverImage(image: Image)
    ensures Received(AllPartFrames(image, FileParts(|image|))) == image
    ensures Trailers(AllPartFrames(image, FileParts(|image|))) == PartTrailers(|image|, FileParts(|image|))
  {
    AllPartFramesDeliver(image, FileParts(|image|));
    assert image[..|image|] == image;
  }
}
