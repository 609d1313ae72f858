/**
 * The uploader object `ESP32OTA`: its upload flag, its user-requested-disconnect
 * flag, the stored image, the Bluetooth handles, and what it does to the world.
 *
 * The Web Bluetooth transport is replaced by an abstract link: `gattConnected`
 * is the transport's own view of the connection, a write succeeds exactly when
 * the write characteristic is held and the link is up, and the outcomes of
 * device selection and of a connect attempt are parameters.  Every frame
 * written and every callback fired is appended, in order, to `log`.  Each
 * asynchronous handler is modelled as running to completion; a thrown
 * exception ends the handler at the point where it is thrown.
 */
module Ota {
  import opened Wrappers
  import opened Bytes
  import opened Frames
  import opened Chunker

  /** The callbacks the uploader fires (all registered by the page that uses it). */
  datatype Event =
    | Connecting                                        // `_connectingCallback()`
    | Connected                                         // `_connectCallback()`
    | Disconnected                                      // `_disconnectCallback()`
    | UploadProgress(part: Option<nat>, fileParts: nat) // `_imageUploadProgressCallback`, from which the percentage is computed
    | UploadFinished                                    // `_imageUploadFinishedCallback()`
    | Message(cmd: Option<byte>, data: seq<byte>)       // `_messageCallback({cmd, data})`

  /** One thing the uploader does to the outside world. */
  datatype Output = Sent(frame: Frame) | Observed(event: Event)

  /** Writing `frames` one after the other. */
  function Sends(frames: seq<Frame>): seq<Output>
  {
    seq(|frames|, i requires 0 <= i < |frames| => Sent(frames[i]))
  }

  /** Writing one frame after a sequence of them. */
  lemma SendsSnoc(frames: seq<Frame>, f: Frame)
    ensures Sends(frames + [f]) == Sends(frames) + [Sent(f)]
  {
  }

  /** Writing piece `k` after pieces `0 .. k - 1`. */
  lemma SendsNextPiece(prefix: seq<Output>, image: Image, start: int, end: int, k: nat)
    requires k < PieceCount(end - start) && 0 <= start && end <= |image|
    ensures prefix + Sends(PieceFrames(image, start, end, k + 1))
      == prefix + Sends(PieceFrames(image, start, end, k))
         + [Sent(PieceFrame(k, image[PieceStart(start, k)..PieceEnd(start, end, k)]))]
  {
    PieceFramesSnoc(image, start, end, k + 1);
    var frame := PieceFrame(k, image[PieceStart(start, k)..PieceEnd(start, end, k)]);
    SendsSnoc(PieceFrames(image, start, end, k), frame);
  }

  /** The frames written, in order, among `outs`. */
  function SentFrames(outs: seq<Output>): seq<Frame>
  {
    if |outs| == 0 then []
    else SentFrames(outs[..|outs| - 1]) + (if outs[|outs| - 1].Sent? then [outs[|outs| - 1].frame] else [])
  }

  lemma {:induction false} SentFramesAppend(a: seq<Output>, b: seq<Output>)
    ensures SentFrames(a + b) == SentFrames(a) + SentFrames(b)
    decreases |b|
  {
    if |b| == 0 {
      assert a + b == a;
    } else {
      var b', last := b[..|b| - 1], b[|b| - 1];
      assert (a + b)[..|a + b| - 1] == a + b' && (a + b)[|a + b| - 1] == last;
      SentFramesAppend(a, b');
    }
  }

  /** The frames recovered from writing `frames` are `frames`. */
  lemma {:induction false} SentFramesOfSends(frames: seq<Frame>)
    ensures SentFrames(Sends(frames)) == frames
  {
    if |frames| > 0 {
      var prev := frames[..|frames| - 1];
      var last := frames[|frames| - 1];
      assert prev + [last] == frames;
      SendsSnoc(prev, last);
      SentFramesOfSends(prev);
      SentFramesAppend(Sends(prev), [Sent(last)]);
      assert [Sent(last)][..0] == [];
    }
  }

  /**
   * What `_uploadNext(part)` does, and whether it returns without throwing.
   * Without an image, reading its length throws before anything happens.
   * Otherwise the progress callback fires first; then the part's frames are
   * written, and when the link cannot take a write the first one throws.
   */
  function UploadNextEffect(image: Option<Image>, canSend: bool, part: Option<nat>): (r: (seq<Output>, bool))
    ensures r.1 <==> image.Some? && canSend
    ensures image.None? <==> r.0 == []
    ensures image.Some? ==> r.0[0] == Observed(UploadProgress(part, FileParts(|image.value|)))
  {
    match image
    case None => ([], false)
    case Some(img) =>
      var progress := [Observed(UploadProgress(part, FileParts(|img|)))];
      if canSend then (progress + Sends(PartFrames(img, part)), true) else (progress, false)
  }

  /**
   * What the fast-mode loop `for (part = 0; part < count; part++) await
   * _uploadNext(part)` does: parts `0 .. count - 1` in turn, stopping at the
   * first one that throws.
   */
  function UploadPartsEffect(image: Option<Image>, canSend: bool, count: nat): (r: (seq<Output>, bool))
    ensures r.1 <==> count == 0 || (image.Some? && canSend)
    ensures r.0 == [] <==> count == 0 || image.None?
  {
    if count == 0 then ([], true)
    else
      var (before, ok) := UploadPartsEffect(image, canSend, count - 1);
      if !ok then (before, false)
      else
        var (outs, ok') := UploadNextEffect(image, canSend, Some(count - 1));
        (before + outs, ok')
  }

  /**
   * The value of `this._fileParts`, the bound of the fast-mode loop.  No code
   * assigns that field (`_uploadInit` and `_uploadNext` only set locals), so it
   * stays `undefined`, and `part < undefined` is false.
   */
  function FilePartsField(): (bound: Option<nat>)
    ensures LoopCount(bound) == 0
  {
    None
  }

  /**
   * The number of iterations of `for (part = 0; part < bound; part++)`: none
   * when the bound is `undefined`, since `0 < undefined` is false.
   */
  function LoopCount(bound: Option<nat>): nat
  {
    if bound.Some? then bound.value else 0
  }

  /**
   * What `_notification(message)` does, and the upload flag afterwards, when
   * the fast-mode loop runs up to `fileParts` (as written, `FilePartsField()`).
   * The message is forwarded to the message callback last, unless a part
   * upload threw first.
   */
  function NotificationEffect(image: Option<Image>, canSend: bool, inProgress: bool, message: seq<byte>,
                              fileParts: Option<nat>): (r: (seq<Output>, bool))
    ensures Dispatch(message) in {Finish, NoAction} ==>
      |r.0| > 0 && r.0[|r.0| - 1] == Observed(Message(Decode(message).0, Decode(message).1))
    ensures !r.1 ==> !inProgress || Dispatch(message) == Finish
  {
    var (cmd, data) := Decode(message);
    var forward := [Observed(Message(cmd, data))];
    match Dispatch(message)
    case SendPart(part) =>
      var (outs, ok) := UploadNextEffect(image, canSend, part);
      (if ok then outs + forward else outs, inProgress)
    case SendAllParts =>
      var (outs, ok) := UploadPartsEffect(image, canSend, LoopCount(fileParts));
      (if ok then outs + forward else outs, inProgress)
    case Finish => ([Observed(UploadFinished)] + forward, false)
    case NoAction => (forward, inProgress)
  }

  class Engine {
    var uploadIsInProgress: bool
    var userRequestedDisconnect: bool
    /** `_uploadImage`: `None` until the first upload is requested. */
    var uploadImage: Option<Image>
    // Whether `_device`, `_service`, `_characteristicRx` (written to) and
    // `_characteristicTx` (notifying) hold a handle rather than null.
    var hasDevice: bool
    var hasService: bool
    var hasRx: bool
    var hasTx: bool
    /** The transport's view of the link: up between a connect and a drop. */
    var gattConnected: bool
    /** Connect attempts waiting in the browser's timer queue (`setTimeout` in `_connect`). */
    var scheduledConnects: nat
    /** Every frame written and every callback fired, in order. */
    var log: seq<Output>

    /** An upload in progress always has its image. */
    ghost predicate Valid()
      reads this
    {
      uploadIsInProgress ==> uploadImage.Some?
    }

    /** `writeValueWithoutResponse` succeeds: there is a write characteristic and the link is up. */
    predicate CanSend()
      reads this
    {
      hasRx && gattConnected
    }

    constructor ()
      ensures Valid()
      ensures !uploadIsInProgress && !userRequestedDisconnect && uploadImage == None
      ensures !hasDevice && !hasService && !hasRx && !hasTx && !gattConnected
      ensures scheduledConnects == 0 && log == []
    {
      uploadIsInProgress, userRequestedDisconnect, uploadImage := false, false, None;
      hasDevice, hasService, hasRx, hasTx := false, false, false, false;
      gattConnected, scheduledConnects, log := false, 0, [];
    }

    /** `_sendMessage(cmd, data)`: write one frame, or throw when the link cannot take it. */
    method SendMessage(cmd: byte, data: seq<byte>) returns (ok: bool)
      modifies this`log
      ensures ok == CanSend()
      ensures log == old(log) + (if ok then [Sent(Encode(cmd, data))] else [])
    {
      ok := CanSend();
      if ok {
        log := log + [Sent([cmd] + data)];
      }
    }

    /** `_uploadInit()`: the three frames that open an upload. */
    method UploadInit() returns (ok: bool)
      requires uploadImage.Some?
      modifies this`log
      ensures ok == CanSend()
      ensures log == old(log) + (if ok then Sends(InitFrames(|uploadImage.value|)) else [])
    {
      var fileLen := |uploadImage.value|;
      ok := SendMessage(CmdDeleteImage, []);
      if !ok { return; }
      ok := SendMessage(CmdFileLength, Be32(fileLen));
      ok := SendMessage(CmdOtaParams, Be16(FileParts(fileLen)) + Be16(200));
      assert Sends(InitFrames(fileLen))[..2] == Sends(InitFrames(fileLen)[..2]);
    }

    /** `_uploadNext(part)`: report progress, write the part's pieces, then its trailer. */
    method UploadNext(part: Option<nat>) returns (completed: bool)
      modifies this`log
      ensures log == old(log) + UploadNextEffect(uploadImage, CanSend(), part).0
      ensures completed == UploadNextEffect(uploadImage, CanSend(), part).1
    {
      if uploadImage.None? {
        return false;
      }
      var image := uploadImage.value;
      var fileLen := |image|;
      var progress := [Observed(UploadProgress(part, FileParts(fileLen)))];
      log := log + progress;
      ghost var progressed := log;
      if part.None? {
        completed := SendMessage(CmdPartComplete, [0, 0, 0, 0]);
        assert Sends(PartFrames(image, part)) == [Sent(NaNTrailerFrame())];
      } else {
        completed := WritePart(image, part.value);
      }
      ghost var frames := if completed then Sends(PartFrames(image, part)) else [];
      assert log == progressed + frames;
      UploadNextEffectSplit(image, CanSend(), part);
      assert old(log) + progress + frames == old(log) + (progress + frames);
    }

    /** The body of `_uploadNext` after the progress report, for part `p`: its pieces, then its trailer. */
    method WritePart(image: Image, p: nat) returns (completed: bool)
      modifies this`log
      ensures completed == CanSend()
      ensures log == old(log) + (if completed then Sends(PartFrames(image, Some(p))) else [])
    {
      var fileLen := |image|;
      var start := p * 16384;
      var end := start + 16384;
      if fileLen < end { end := fileLen; }
      assert start == PartStart(p) && end == PartEnd(fileLen, p);
      completed := SendPieces(image, start, end);
      if !completed {
        return;
      }
      completed := SendMessage(CmdPartComplete, Be16(end - start) + Be16(p));
      PartFramesSends(image, p);
    }

    /** The piece loop of `_uploadNext`: the `0xFB` frames of the range `[start, end)`. */
    method SendPieces(image: Image, start: int, end: int) returns (ok: bool)
      requires 0 <= start && end <= |image|
      modifies this`log
      ensures ok == (CanSend() || PieceCount(end - start) == 0)
      ensures log == old(log) + (if ok then Sends(PieceFrames(image, start, end, PieceCount(end - start))) else [])
    {
      var pieces := PieceCount(end - start);
      var piece := 0;
      while piece < pieces
        invariant piece <= pieces
        invariant CanSend() || piece == 0
        invariant log == old(log) + Sends(PieceFrames(image, start, end, piece))
      {
        var pieceStart := start + piece * 200;
        var pieceEnd := pieceStart + 200;
        if end < pieceEnd { pieceEnd := end; }
        assert pieceStart == PieceStart(start, piece) && pieceEnd == PieceEnd(start, end, piece);
        ok := SendMessage(CmdWritePiece, [ToUint8(piece)] + image[pieceStart..pieceEnd]);
        if !ok {
          return;
        }
        SendsNextPiece(old(log), image, start, end, piece);
        piece := piece + 1;
      }
      ok := true;
    }

    /** The fast-mode loop over parts `0 .. bound - 1`, stopping when a part throws. */
    method UploadParts(bound: Option<nat>) returns (completed: bool)
      modifies this`log
      ensures log == old(log) + UploadPartsEffect(uploadImage, CanSend(), LoopCount(bound)).0
      ensures completed == UploadPartsEffect(uploadImage, CanSend(), LoopCount(bound)).1
    {
      var count := LoopCount(bound);
      var part := 0;
      while part < count
        invariant part <= count
        invariant log == old(log) + UploadPartsEffect(uploadImage, CanSend(), part).0
        invariant UploadPartsEffect(uploadImage, CanSend(), part).1
      {
        var ok := UploadPartsStep(old(log), part);
        if !ok {
          FailureIsFinal(uploadImage, CanSend(), part + 1, count);
          return false;
        }
        part := part + 1;
      }
      completed := true;
    }

    /** One iteration of the fast-mode loop: `_uploadNext(part)`. */
    method UploadPartsStep(ghost start: seq<Output>, part: nat) returns (ok: bool)
      requires UploadPartsEffect(uploadImage, CanSend(), part).1
      requires log == start + UploadPartsEffect(uploadImage, CanSend(), part).0
      modifies this`log
      ensures log == start + UploadPartsEffect(uploadImage, CanSend(), part + 1).0
      ensures ok == UploadPartsEffect(uploadImage, CanSend(), part + 1).1
    {
      ok := UploadNext(Some(part));
      PartsEffectStep(start, uploadImage, CanSend(), part);
    }

    /**
     * `cmdUpload(image)`: refused, with nothing changed, while an upload is in
     * progress; otherwise marks the upload in progress, keeps the image and
     * writes the init frames.
     */
    method CmdUpload(image: Image)
      requires Valid()
      modifies this`uploadIsInProgress, this`uploadImage, this`log
      ensures Valid()
      ensures old(uploadIsInProgress) ==>
        uploadIsInProgress && uploadImage == old(uploadImage) && log == old(log)
      ensures !old(uploadIsInProgress) ==>
        uploadIsInProgress && uploadImage == Some(image)
        && log == old(log) + (if CanSend() then Sends(InitFrames(|image|)) else [])
    {
      if uploadIsInProgress {
        return;
      }
      uploadIsInProgress := true;
      uploadImage := Some(image);
      var _ := UploadInit();
    }

    /** `_notification(event)`: handle one message from the device. */
    method Notification(message: seq<byte>)
      requires Valid()
      modifies this`uploadIsInProgress, this`log
      ensures Valid()
      ensures log == old(log) + NotificationEffect(uploadImage, CanSend(), old(uploadIsInProgress), message, FilePartsField()).0
      ensures uploadIsInProgress == NotificationEffect(uploadImage, CanSend(), old(uploadIsInProgress), message, FilePartsField()).1
    {
      var (cmd, data) := Decode(message);
      // The source tests the command with consecutive `if`s; at most one matches.
      if cmd == Some(CmdTransferMode) {
        if |data| > 0 && data[0] == 0 {
          var ok := UploadNext(Some(0));
          if !ok { return; }
        } else if |data| > 0 && data[0] == 1 {
          var ok := UploadParts(FilePartsField());
          if !ok { return; }
        }
      } else if cmd == Some(CmdRequestPart) {
        var nextPart := if |data| >= 2 then Some(data[0] as nat * 256 + data[1] as nat) else None;
        assert nextPart == RequestedPart(data);
        var ok := UploadNext(nextPart);
        if !ok { return; }
      } else if cmd == Some(CmdInstalling) {
        uploadIsInProgress := false;
        log := log + [Observed(UploadFinished)];
      }
      // 0x0F shows the device's result text in an alert and changes nothing.
      log := log + [Observed(Message(cmd, data))];
    }

    /** `_disconnected()`: report, drop every handle, clear both flags. */
    method Disconnected()
      modifies this`hasDevice, this`hasService, this`hasRx, this`hasTx
      modifies this`uploadIsInProgress, this`userRequestedDisconnect, this`log
      ensures Valid()
      ensures !hasDevice && !hasService && !hasRx && !hasTx
      ensures !uploadIsInProgress && !userRequestedDisconnect
      ensures log == old(log) + [Observed(Event.Disconnected)]
    {
      log := log + [Observed(Event.Disconnected)];
      hasDevice, hasService, hasTx, hasRx := false, false, false, false;
      uploadIsInProgress := false;
      userRequestedDisconnect := false;
    }

    /**
     * `connect(filters)`: a device the user selects is kept and a connect
     * attempt is scheduled; a failed selection goes to `_disconnected`.
     */
    method Connect(deviceSelected: bool)
      requires Valid()
      modifies this`hasDevice, this`hasService, this`hasRx, this`hasTx
      modifies this`uploadIsInProgress, this`userRequestedDisconnect, this`log, this`scheduledConnects
      ensures Valid()
      ensures deviceSelected ==>
        && hasDevice && scheduledConnects == old(scheduledConnects) + 1
        && hasService == old(hasService) && hasRx == old(hasRx) && hasTx == old(hasTx)
        && uploadIsInProgress == old(uploadIsInProgress)
        && userRequestedDisconnect == old(userRequestedDisconnect)
        && log == old(log)
      ensures !deviceSelected ==>
        && !hasDevice && !hasService && !hasRx && !hasTx
        && !uploadIsInProgress && !userRequestedDisconnect
        && scheduledConnects == old(scheduledConnects)
        && log == old(log) + [Observed(Event.Disconnected)]
    {
      if !deviceSelected {
        Disconnected();
        return;
      }
      hasDevice := true;
      scheduledConnects := scheduledConnects + 1;
    }

    /**
     * The scheduled body of `_connect`: report connecting, then either hold the
     * service and both characteristics, report connected and, with an upload
     * in progress, call `_uploadNext()` with no part; or, when there is no
     * device or any step of the connection fails, go to `_disconnected`.
     */
    method ConnectAttempt(linkEstablished: bool)
      requires Valid() && scheduledConnects > 0
      modifies this`hasDevice, this`hasService, this`hasRx, this`hasTx, this`gattConnected
      modifies this`uploadIsInProgress, this`userRequestedDisconnect, this`log, this`scheduledConnects
      ensures Valid()
      ensures scheduledConnects == old(scheduledConnects) - 1
      ensures old(hasDevice) && linkEstablished ==>
        && hasDevice && hasService && hasRx && hasTx && gattConnected
        && uploadIsInProgress == old(uploadIsInProgress)
        && userRequestedDisconnect == old(userRequestedDisconnect)
        && (!uploadIsInProgress ==> log == old(log) + [Observed(Connecting), Observed(Connected)])
        && (uploadIsInProgress ==>
              log == old(log) + [Observed(Connecting), Observed(Connected),
                                 Observed(UploadProgress(None, FileParts(|uploadImage.value|))),
                                 Sent([CmdPartComplete, 0, 0, 0, 0])])
      ensures !(old(hasDevice) && linkEstablished) ==>
        && !hasDevice && !hasService && !hasRx && !hasTx
        && gattConnected == old(gattConnected)
        && !uploadIsInProgress && !userRequestedDisconnect
        && log == old(log) + [Observed(Connecting), Observed(Event.Disconnected)]
    {
      scheduledConnects := scheduledConnects - 1;
      log := log + [Observed(Connecting)];
      if !hasDevice || !linkEstablished {
        Disconnected();
        return;
      }
      gattConnected := true;
      hasService, hasRx, hasTx := true, true, true;
      log := log + [Observed(Connected)];
      if uploadIsInProgress {
        ghost var connected := log;
        var _ := UploadNext(None);
        ResumeSendsNoImageBytes(uploadImage.value);
        assert log == connected + UploadNextEffect(uploadImage, true, None).0;
      }
    }

    /** `disconnect()`: mark the disconnect as requested and ask the transport to drop the link. */
    method Disconnect()
      modifies this`userRequestedDisconnect, this`gattConnected
      ensures userRequestedDisconnect
      ensures gattConnected == (old(gattConnected) && !hasDevice)
    {
      userRequestedDisconnect := true;
      if hasDevice {
        gattConnected := false;
      }
    }

    /**
     * The `gattserverdisconnected` listener: after an unsolicited drop a
     * reconnect is scheduled and the upload flag is kept; after a requested
     * one, `_disconnected`.
     */
    method LinkDropped()
      requires Valid()
      modifies this`hasDevice, this`hasService, this`hasRx, this`hasTx, this`gattConnected
      modifies this`uploadIsInProgress, this`userRequestedDisconnect, this`log, this`scheduledConnects
      ensures Valid()
      ensures !gattConnected
      ensures !old(userRequestedDisconnect) ==>
        && scheduledConnects == old(scheduledConnects) + 1
        && hasDevice == old(hasDevice) && hasService == old(hasService)
        && hasRx == old(hasRx) && hasTx == old(hasTx)
        && uploadIsInProgress == old(uploadIsInProgress) && !userRequestedDisconnect
        && log == old(log)
      ensures old(userRequestedDisconnect) ==>
        && scheduledConnects == old(scheduledConnects)
        && !hasDevice && !hasService && !hasRx && !hasTx
        && !uploadIsInProgress && !userRequestedDisconnect
        && log == old(log) + [Observed(Event.Disconnected)]
    {
      gattConnected := false;
      if !userRequestedDisconnect {
        scheduledConnects := scheduledConnects + 1;
      } else {
        Disconnected();
      }
    }
  }

  /**
   * One more iteration of the fast-mode loop, after iterations that all
   * returned, appended to whatever `start` was logged before the loop.
   */
  lemma PartsEffectStep(start: seq<Output>, image: Option<Image>, canSend: bool, k: nat)
    requires UploadPartsEffect(image, canSend, k).1
    ensures start + UploadPartsEffect(image, canSend, k + 1).0
      == start + UploadPartsEffect(image, canSend, k).0 + UploadNextEffect(image, canSend, Some(k)).0
    ensures UploadPartsEffect(image, canSend, k + 1).1 == UploadNextEffect(image, canSend, Some(k)).1
  {
  }

  /** Writing a part's frames is writing its piece frames, then its trailer. */
  lemma PartFramesSends(image: Image, p: nat)
    ensures var start, end := PartStart(p), PartEnd(|image|, p);
      Sends(PartFrames(image, Some(p)))
        == Sends(PieceFrames(image, start, end, PieceCount(end - start))) + [Sent(TrailerFrame(end - start, p))]
  {
    var start, end := PartStart(p), PartEnd(|image|, p);
    var pieces, t := PieceFrames(image, start, end, PieceCount(end - start)), TrailerFrame(end - start, p);
    assert PartFrames(image, Some(p)) == pieces + [t];
    SendsSnoc(pieces, t);
  }

  /** `_uploadNext` with an image: the progress report, then the part's frames when the link takes them. */
  lemma UploadNextEffectSplit(image: Image, canSend: bool, part: Option<nat>)
    ensures UploadNextEffect(Some(image), canSend, part)
      == ([Observed(UploadProgress(part, FileParts(|image|)))] + (if canSend then Sends(PartFrames(image, part)) else []),
          canSend)
  {
    var progress := [Observed(UploadProgress(part, FileParts(|image|)))];
    assert progress + [] == progress;
  }

  /** Once a part of the fast-mode loop throws, later iterations never run. */
  lemma {:induction false} FailureIsFinal(image: Option<Image>, canSend: bool, k: nat, m: nat)
    requires k <= m && !UploadPartsEffect(image, canSend, k).1
    ensures UploadPartsEffect(image, canSend, m) == UploadPartsEffect(image, canSend, k)
    decreases m
  {
    if k < m {
      FailureIsFinal(image, canSend, k, m - 1);
    }
  }

  // ----- What the handlers promise -----

  /**
   * `_uploadNext(part)` on a link that takes writes: the progress callback
   * fires before any frame, then exactly the part's frames are written.  On a
   * link that does not, only the progress callback fires.
   */
  lemma UploadNextWritesPart(image: Image, canSend: bool, part: Option<nat>)
    ensures var (outs, ok) := UploadNextEffect(Some(image), canSend, part);
      && ok == canSend
      && |outs| >= 1 && outs[0] == Observed(UploadProgress(part, FileParts(|image|)))
      && SentFrames(outs) == (if canSend then PartFrames(image, part) else [])
  {
    var progress := [Observed(UploadProgress(part, FileParts(|image|)))];
    assert SentFrames(progress) == [] by {
      assert progress[..0] == [];
    }
    if canSend {
      SentFramesAppend(progress, Sends(PartFrames(image, part)));
      SentFramesOfSends(PartFrames(image, part));
    }
  }

  /**
   * A part in range, once written, gives the device exactly that part's bytes
   * and one trailer naming the part and its byte count.
   */
  lemma UploadNextDeliversPart(image: Image, part: nat)
    requires part < FileParts(|image|)
    ensures var (outs, ok) := UploadNextEffect(Some(image), true, Some(part));
      && ok
      && Received(SentFrames(outs)) == PartData(image, part)
      && Trailers(SentFrames(outs)) == [PartTrailer(|image|, part)]
  {
    UploadNextWritesPart(image, true, Some(part));
    PartFramesDeliverPart(image, part);
  }

  /**
   * The resume call `_uploadNext()` after a reconnect has no part index: it
   * reports progress for no part and writes one all-zero trailer, so no image
   * byte is sent again.
   */
  lemma ResumeSendsNoImageBytes(image: Image)
    ensures UploadNextEffect(Some(image), true, None).0
      == [Observed(UploadProgress(None, FileParts(|image|))), Sent([CmdPartComplete, 0, 0, 0, 0])]
    ensures Received(SentFrames(UploadNextEffect(Some(image), true, None).0)) == []
  {
    UploadNextWritesPart(image, true, None);
    var t: Frame := [CmdPartComplete, 0, 0, 0, 0];
    assert NaNTrailerFrame() == t;
    assert Sends(PartFrames(image, None)) == [Sent(t)];
    assert [t][..0] == [];
    assert Received([t]) == [];
  }

  /** One more iteration of the fast-mode loop on a working link writes the next part's frames. */
  lemma PartsEffectWritesNextPart(image: Image, k: nat)
    requires UploadPartsEffect(Some(image), true, k).1
    ensures UploadPartsEffect(Some(image), true, k + 1).1
    ensures SentFrames(UploadPartsEffect(Some(image), true, k + 1).0)
      == SentFrames(UploadPartsEffect(Some(image), true, k).0) + PartFrames(image, Some(k))
  {
    var before := UploadPartsEffect(Some(image), true, k).0;
    var outs := UploadNextEffect(Some(image), true, Some(k)).0;
    PartsEffectStep([], Some(image), true, k);
    assert [] + before + outs == before + outs;
    assert SentFrames(outs) == PartFrames(image, Some(k)) by {
      UploadNextWritesPart(image, true, Some(k));
    }
    SentFramesAppend(before, outs);
  }

  /** The frames of the fast-mode loop over parts `0 .. count - 1` on a working link. */
  lemma {:induction false} UploadPartsWritesParts(image: Image, count: nat)
    ensures UploadPartsEffect(Some(image), true, count).1
    ensures SentFrames(UploadPartsEffect(Some(image), true, count).0) == AllPartFrames(image, count)
  {
    if count > 0 {
      UploadPartsWritesParts(image, count - 1);
      PartsEffectWritesNextPart(image, count - 1);
      AllPartFramesSnoc(image, count - 1);
    }
  }

  /**
   * As written, the fast-mode announcement `[0xAA, 1, ...]` makes the uploader
   * write no frame at all, whatever image is stored: the loop bound
   * `this._fileParts` is never assigned.  The device receives nothing of a
   * non-empty image.
   */
  lemma FastModeAsWrittenSendsNothing(image: Option<Image>, canSend: bool, inProgress: bool, rest: seq<byte>)
    ensures var (outs, flag) := NotificationEffect(image, canSend, inProgress,
                                                   [CmdTransferMode, 1] + rest, FilePartsField());
      && outs == [Observed(Message(Some(CmdTransferMode), [1] + rest))]
      && flag == inProgress
      && SentFrames(outs) == []
      && (image.Some? && |image.value| > 0 ==> Received(SentFrames(outs)) != image.value)
  {
    var message := [CmdTransferMode, 1] + rest;
    assert message[1..] == [1] + rest;
    assert Decode(message) == (Some(CmdTransferMode), [1] + rest);
    var outs := [Observed(Message(Some(CmdTransferMode), [1] + rest))];
    assert outs[..0] == [];
    assert SentFrames(outs) == [];
  }

  /**
   * With the loop bound the fast mode evidently intends, the part count of the
   * image, the announcement `[0xAA, 1, ...]` writes every part in order: the
   * device receives the whole image byte for byte and one trailer per part,
   * in part order, and the message is then forwarded.
   */
  lemma FastModeIntendedDeliversImage(image: Image, inProgress: bool, rest: seq<byte>)
    ensures var (outs, flag) := NotificationEffect(Some(image), true, inProgress,
                                                   [CmdTransferMode, 1] + rest, Some(FileParts(|image|)));
      && flag == inProgress
      && |outs| > 0 && outs[|outs| - 1] == Observed(Message(Some(CmdTransferMode), [1] + rest))
      && Received(SentFrames(outs)) == image
      && Trailers(SentFrames(outs)) == PartTrailers(|image|, FileParts(|image|))
  {
    var message := [CmdTransferMode, 1] + rest;
    assert message[1..] == [1] + rest;
    assert Decode(message) == (Some(CmdTransferMode), [1] + rest);
    var n := FileParts(|image|);
    var parts := UploadPartsEffect(Some(image), true, n).0;
    var forward := [Observed(Message(Some(CmdTransferMode), [1] + rest))];
    UploadPartsWritesParts(image, n);
    SentFramesAppend(parts, forward);
    assert forward[..0] == [];
    assert SentFrames(forward) == [];
    assert SentFrames(parts + forward) == AllPartFrames(image, n);
    AllPartsDeliverImage(image);
  }

  /**
   * Normal mode: `[0xAA, 0, ...]` makes the uploader report progress for part
   * 0, write part 0 and nothing else, then forward the message.
   */
  lemma NormalModeSendsPartZero(image: Image, inProgress: bool, rest: seq<byte>)
    ensures NotificationEffect(Some(image), true, inProgress, [CmdTransferMode, 0] + rest, FilePartsField())
      == ([Observed(UploadProgress(Some(0), FileParts(|image|)))] + Sends(PartFrames(image, Some(0)))
          + [Observed(Message(Some(CmdTransferMode), [0] + rest))], inProgress)
  {
    var message := [CmdTransferMode, 0] + rest;
    assert message[1..] == [0] + rest;
    assert Decode(message) == (Some(CmdTransferMode), [0] + rest);
  }

  /**
   * A request `[0xF1, hi, lo, ...]` makes the uploader write the part the two
   * bytes name big-endian, then forward the message.
   */
  lemma RequestSendsNamedPart(image: Image, inProgress: bool, part: nat, rest: seq<byte>)
    requires part < 0x1_0000
    ensures NotificationEffect(Some(image), true, inProgress, [CmdRequestPart] + Be16(part) + rest, FilePartsField())
      == (UploadNextEffect(Some(image), true, Some(part)).0
          + [Observed(Message(Some(CmdRequestPart), Be16(part) + rest))], inProgress)
  {
    var message := [CmdRequestPart] + Be16(part) + rest;
    assert message[1..] == Be16(part) + rest;
    assert Decode(message) == (Some(CmdRequestPart), Be16(part) + rest);
    DispatchRequestRoundTrip(part, rest);
  }

  /**
   * `[0xF2, ...]` clears the upload flag and fires the finished callback
   * exactly once, before forwarding the message; nothing is written.
   */
  lemma InstallingEndsUpload(image: Option<Image>, canSend: bool, inProgress: bool, rest: seq<byte>)
    ensures NotificationEffect(image, canSend, inProgress, [CmdInstalling] + rest, FilePartsField())
      == ([Observed(UploadFinished), Observed(Message(Some(CmdInstalling), rest))], false)
  {
    var message := [CmdInstalling] + rest;
    assert message[1..] == rest;
    assert Decode(message) == (Some(CmdInstalling), rest);
    assert Dispatch(message) == Finish;
    var finished, forward := Observed(UploadFinished), Observed(Message(Some(CmdInstalling), rest));
    assert [finished] + [forward] == [finished, forward];
  }

  /**
   * Any other command, the result text 0x0F included, changes no flag and
   * writes nothing: the message is only forwarded.
   */
  lemma OtherCommandsOnlyForward(image: Option<Image>, canSend: bool, inProgress: bool, cmd: byte, data: seq<byte>)
    requires cmd !in {CmdTransferMode, CmdRequestPart, CmdInstalling}
    ensures NotificationEffect(image, canSend, inProgress, [cmd] + data, FilePartsField())
      == ([Observed(Message(Some(cmd), data))], inProgress)
  {
    var message := [cmd] + data;
    assert message[1..] == data;
    assert Decode(message) == (Some(cmd), data);
  }

  /**
   * `[0xAA]` with no mode byte, or with a mode other than 0 and 1, writes
   * nothing and keeps the flag: the message is only forwarded.
   */
  lemma TransferModeOtherwiseOnlyForwards(image: Option<Image>, canSend: bool, inProgress: bool, data: seq<byte>,
                                          fileParts: Option<nat>)
    requires |data| == 0 || data[0] !in {0, 1}
    ensures NotificationEffect(image, canSend, inProgress, [CmdTransferMode] + data, fileParts)
      == ([Observed(Message(Some(CmdTransferMode), data))], inProgress)
  {
    var message := [CmdTransferMode] + data;
    assert message[1..] == data;
  }

  /**
   * The message is forwarded, as the last thing `_notification` does, exactly
   * when the upload it starts returns: a part upload needs an image and a link
   * that takes writes, and the fast-mode loop needs them too unless it has no
   * iteration.  A message that starts no upload is always forwarded.
   */
  lemma NotificationForwardsExactlyWhenHandled(image: Option<Image>, canSend: bool, inProgress: bool,
                                               message: seq<byte>, fileParts: Option<nat>)
    ensures var outs := NotificationEffect(image, canSend, inProgress, message, fileParts).0;
      (|outs| > 0 && outs[|outs| - 1] == Observed(Message(Decode(message).0, Decode(message).1)))
      <==> (Dispatch(message).SendPart? ==> image.Some? && canSend)
           && (Dispatch(message) == SendAllParts ==> LoopCount(fileParts) == 0 || (image.Some? && canSend))
  {
    var n := LoopCount(fileParts);
    if Dispatch(message) == SendAllParts && n > 0 && !(image.Some? && canSend) {
      FailureIsFinal(image, canSend, 1, n);
    }
  }

  /**
   * A request `[0xF1]` with fewer than two data bytes names no part: on a
   * working link it reports progress for no part, writes only the all-zero
   * trailer, and is then forwarded.
   */
  lemma ShortRequestSendsEmptyTrailer(image: Image, inProgress: bool, data: seq<byte>, fileParts: Option<nat>)
    requires |data| < 2
    ensures NotificationEffect(Some(image), true, inProgress, [CmdRequestPart] + data, fileParts)
      == ([Observed(UploadProgress(None, FileParts(|image|))), Sent([CmdPartComplete, 0, 0, 0, 0]),
           Observed(Message(Some(CmdRequestPart), data))], inProgress)
  {
    var message := [CmdRequestPart] + data;
    assert message[1..] == data;
    assert Decode(message) == (Some(CmdRequestPart), data);
    assert Dispatch(message) == SendPart(None);
    ResumeSendsNoImageBytes(image);
    var progress, trailer := Observed(UploadProgress(None, FileParts(|image|))), Sent([CmdPartComplete, 0, 0, 0, 0]);
    var forward := Observed(Message(Some(CmdRequestPart), data));
    assert [progress, trailer] + [forward] == [progress, trailer, forward];
  }

  /**
   * Only `[0xF2, ...]` clears the upload flag; no message sets it, and a part
   * upload that throws leaves it as it was.
   */
  lemma OnlyInstallingClearsFlag(image: Option<Image>, canSend: bool, inProgress: bool, message: seq<byte>,
                                 fileParts: Option<nat>)
    ensures NotificationEffect(image, canSend, inProgress, message, fileParts).1
      == (inProgress && Dispatch(message) != Finish)
  {
  }

  /**
   * A part request that reaches `_uploadNext` before any image was stored
   * throws there: nothing is written and the message is not forwarded.
   */
  lemma RequestWithoutImageIsDropped(canSend: bool, inProgress: bool, message: seq<byte>)
    requires Dispatch(message).SendPart?
    ensures NotificationEffect(None, canSend, inProgress, message, FilePartsField()) == ([], inProgress)
  {
  }

  /**
   * A session: connect, start an upload, the device asks for normal mode,
   * then the link drops without the user asking and the scheduled reconnect
   * succeeds.  The upload is still marked in progress, and the reconnect
   * resumes with `_uploadNext()` with no part: a progress report for no part
   * and one all-zero trailer, not the part the device was waiting for.
   */
  method ReconnectDuringUpload(image: Image) returns (resumed: seq<Output>, stillUploading: bool)
    ensures stillUploading
    ensures resumed == [Observed(Connecting), Observed(Connected),
                        Observed(UploadProgress(None, FileParts(|image|))), Sent([CmdPartComplete, 0, 0, 0, 0])]
  {
    var engine := new Engine();
    engine.Connect(true);
    engine.ConnectAttempt(true);
    engine.CmdUpload(image);
    engine.Notification([CmdTransferMode, 0]);
    OnlyInstallingClearsFlag(engine.uploadImage, engine.CanSend(), true, [CmdTransferMode, 0], FilePartsField());
    assert engine.uploadIsInProgress && engine.uploadImage == Some(image);
    engine.LinkDropped();
    var before := engine.log;
    engine.ConnectAttempt(true);
    resumed := engine.log[|before|..];
    stillUploading := engine.uploadIsInProgress;
  }
}
