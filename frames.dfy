/**
 * The wire frames of the OTA protocol: one command byte followed by its
 * payload (`_sendMessage` builds `[cmd, ...data]`), the three frames that open
 * an upload, the frames that carry a part, and the reading of inbound frames.
 */
module Frames {
  import opened Wrappers
  import opened Bytes

  type Frame = seq<byte>

  // Commands sent to the device.
  const CmdWritePiece: byte := 0xFB
  const CmdPartComplete: byte := 0xFC
  const CmdDeleteImage: byte := 0xFD
  const CmdFileLength: byte := 0xFE
  const CmdOtaParams: byte := 0xFF

  // Commands received from the device.
  const CmdTransferMode: byte := 0xAA
  const CmdRequestPart: byte := 0xF1
  const CmdInstalling: byte := 0xF2
  const CmdResultText: byte := 0x0F

  // The part size `_partSize` (16384) and the transmission unit `_mtu` (200)
  // appear below as literals, as they do in the arithmetic of the source.

  /** `_sendMessage(cmd, data)`: the command byte, then the payload. */
  function Encode(cmd: byte, data: seq<byte>): (f: Frame)
    ensures |f| == 1 + |data| && f[0] == cmd && f[1..] == data
  {
    [cmd] + data
  }

  /**
   * `const [cmd, ...data] = message`: the first byte is the command, the rest
   * the payload; an empty message leaves `cmd` undefined.
   */
  function Decode(message: seq<byte>): (r: (Option<byte>, seq<byte>))
    ensures |message| == 0 <==> r.0 == None
    ensures |message| > 0 ==> [r.0.value] + r.1 == message
    ensures |message| == 0 ==> r.1 == []
  {
    if |message| == 0 then (None, []) else (Some(message[0]), message[1..])
  }

  /** Decoding what `_sendMessage` sends gives back its command and payload. */
  lemma DecodeEncode(cmd: byte, data: seq<byte>)
    ensures Decode(Encode(cmd, data)) == (Some(cmd), data)
  {
  }

  /** Ceiling of `fileLen / _partSize`: the number of parts of the image. */
  function FileParts(fileLen: nat): (n: nat)
    ensures n * 16384 >= fileLen
    ensures n == 0 || (n - 1) * 16384 < fileLen
  {
    (fileLen + 16384 - 1) / 16384
  }

  /**
   * `_uploadInit`: delete the staged image, announce the file length, then
   * announce the part count and the transmission unit.
   */
  function InitFrames(fileLen: nat): (fs: seq<Frame>)
    ensures |fs| == 3 && fs[0] == [CmdDeleteImage]
    ensures |fs[1]| == 5 && fs[1][0] == CmdFileLength
    ensures |fs[2]| == 5 && fs[2][0] == CmdOtaParams
  {
    [ Encode(CmdDeleteImage, []),
      Encode(CmdFileLength, Be32(fileLen)),
      Encode(CmdOtaParams, Be16(FileParts(fileLen)) + Be16(200)) ]
  }

  /**
   * The three init frames, read back the way the device reads them: the
   * length field gives the file length and the parameter frame the part count
   * and the unit 200, whenever those fit their fields.
   */
  lemma InitFramesDecode(fileLen: nat)
    ensures var fs := InitFrames(fileLen);
      && |fs| == 3
      && fs[0] == [CmdDeleteImage]
      && |fs[1]| == 5 && fs[1][0] == CmdFileLength
      && (fileLen < 0x1_0000_0000 ==> DecodeBe32(fs[1][1..]) == fileLen)
      && |fs[2]| == 5 && fs[2][0] == CmdOtaParams
      && fs[2][3..] == [0, 200]
      && (FileParts(fileLen) < 0x1_0000 ==> DecodeBe16(fs[2][1..3]) == FileParts(fileLen))
  {
    var fs := InitFrames(fileLen);
    Be32RoundTrip(fileLen);
    Be16RoundTrip(FileParts(fileLen));
    assert fs[1][1..] == Be32(fileLen);
    assert fs[2][1..3] == Be16(FileParts(fileLen));
  }

  /** One `0xFB` frame: the piece's index within its part, then its bytes. */
  function PieceFrame(piece: nat, data: seq<byte>): (f: Frame)
    ensures |f| == 2 + |data| && f[0] == CmdWritePiece && f[2..] == data
    ensures piece < 256 ==> f[1] as int == piece
  {
    Encode(CmdWritePiece, [ToUint8(piece)] + data)
  }

  /** The `0xFC` frame that closes a part: its byte count and its index. */
  function TrailerFrame(byteCount: int, part: int): (f: Frame)
    ensures |f| == 5 && f[0] == CmdPartComplete
  {
    Encode(CmdPartComplete, Be16(byteCount) + Be16(part))
  }

  /**
   * The `0xFC` frame `_uploadNext` sends when its part is `undefined` or NaN:
   * every field evaluates to NaN or 0, and ToUint8 of NaN is 0.  The device
   * reads it as the trailer of an empty part 0.
   */
  function NaNTrailerFrame(): (f: Frame)
    ensures f == TrailerFrame(0, 0)
  {
    Encode(CmdPartComplete, [0, 0, 0, 0])
  }

  /** The trailer of a part carries its byte count and index, as the device reads them. */
  lemma TrailerFrameDecode(byteCount: nat, part: nat)
    requires byteCount < 0x1_0000 && part < 0x1_0000
    ensures var f := TrailerFrame(byteCount, part);
      |f| == 5 && f[0] == CmdPartComplete
      && DecodeBe16(f[1..3]) == byteCount && DecodeBe16(f[3..]) == part
  {
    var f := TrailerFrame(byteCount, part);
    assert f[1..3] == Be16(byteCount);
    assert f[3..] == Be16(part);
    Be16RoundTrip(byteCount);
    Be16RoundTrip(part);
  }

  /** What the dispatcher `_notification` does with an inbound message. */
  datatype Action =
    | SendPart(part: Option<nat>)  // `_uploadNext(part)`; `None` when the index is NaN
    | SendAllParts                 // fast mode: the `for` loop over the parts
    | Finish                       // 0xF2: the upload is done, the device installs
    | NoAction                     // result text, unknown commands, unknown modes

  /**
   * `data[0] * 256 + data[1]`: the part index of a 0xF1 request, NaN (here
   * `None`) when the payload is shorter than two bytes.
   */
  function RequestedPart(data: seq<byte>): (part: Option<nat>)
    ensures part.Some? <==> |data| >= 2
    ensures |data| >= 2 ==> part.value == DecodeBe16(data[..2])
  {
    if |data| >= 2 then Some(data[0] as nat * 256 + data[1] as nat) else None
  }

  /** The branch of `_notification` a message takes. */
  function Dispatch(message: seq<byte>): (a: Action)
    ensures a == Finish <==> |message| > 0 && message[0] == CmdInstalling
    ensures |message| > 0 && message[0] == CmdRequestPart ==> a == SendPart(RequestedPart(message[1..]))
    ensures a == SendAllParts ==> |message| > 1 && message[..2] == [CmdTransferMode, 1]
  {
    var (cmd, data) := Decode(message);
    if cmd == Some(CmdTransferMode) then
      if |data| > 0 && data[0] == 0 then SendPart(Some(0))
      else if |data| > 0 && data[0] == 1 then SendAllParts
      else NoAction
    else if cmd == Some(CmdRequestPart) then SendPart(RequestedPart(data))
    else if cmd == Some(CmdInstalling) then Finish
    else NoAction
  }

  /**
   * A request the device encodes as `0xF1` with a two-byte big-endian index is
   * answered by sending exactly that part.
   */
  lemma DispatchRequestRoundTrip(part: nat, extra: seq<byte>)
    requires part < 0x1_0000
    ensures Dispatch([CmdRequestPart] + Be16(part) + extra) == SendPart(Some(part))
  {
    var message := [CmdRequestPart] + Be16(part) + extra;
    assert message[1..][..2] == Be16(part);
    Be16RoundTrip(part);
  }

  /**
   * The dispatcher acts on the four inbound commands only: every other command,
   * the result text 0x0F and an empty message leave it with nothing to do.
   */
  lemma DispatchIgnoresOtherCommands(message: seq<byte>)
    ensures Dispatch(message) != NoAction ==>
      |message| > 0 && message[0] in {CmdTransferMode, CmdRequestPart, CmdInstalling}
    ensures |message| > 0 && message[0] == CmdTransferMode ==>
      (Dispatch(message) == SendPart(Some(0)) <==> |message| > 1 && message[1] == 0)
      && (Dispatch(message) == SendAllParts <==> |message| > 1 && message[1] == 1)
  {
  }
}
