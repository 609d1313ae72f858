# ESP32 OTA uploader — a verified model

This project models the browser-side engine of the ESP32 over-the-air
firmware uploader (`ESP32OTA` in `js/esp32-ota.js`). The engine streams a
firmware image to a device over a Bluetooth LE UART service. The model covers:

- the firmware-header check `imageInfo` (magic byte, SPI flash mode, flash
  size and frequency nibbles);
- the wire format of `_sendMessage`: one command byte, then the payload;
- the three frames `_uploadInit` writes: delete staged image `0xFD`, file
  length `0xFE` (4 bytes big-endian), and OTA parameters `0xFF` (part count
  and MTU, 2 bytes each);
- the chunking done by `_uploadNext`. It cuts the image into 16384-byte parts
  and each part into 200-byte pieces. Each piece is a `0xFB` frame headed by
  its index. The part ends with a `0xFC` trailer carrying the part's byte
  count and index;
- the dispatch of inbound frames by `_notification`: transfer mode `0xAA`,
  part request `0xF1`, installing `0xF2`, result text `0x0F`, anything else;
- the flags and handles that `cmdUpload`, `connect`, the scheduled connect
  body of `_connect`, `disconnect`, the `gattserverdisconnected` listener
  and `_disconnected` update.

Modules:

- `Bytes`: the byte type, JavaScript's truncation to an unsigned byte, and
  big-endian encoding with its round trips.
- `ImageHeader`: `imageInfo`.
- `Frames`: framing, the init, piece and trailer frames, and inbound dispatch.
- `Chunker`: part and piece boundaries, the frames of a part, and what the
  device reassembles from them.
- `Ota`: the class `Engine` whose methods are the handlers. The fields are
  the source's flags and handles. The field `log` is the ordered record of
  every frame written and every observer callback fired. Next to the class
  are the specification functions the handlers are proved against, and the
  lemmas about them.

JavaScript's `x >> k` followed by `Uint8Array.from` is modelled as
`(x / 2^k) % 256` with Dafny's Euclidean operators. This is exact for every
operand in the signed 32-bit range, negative ones included.

A part index that is not a number is modelled as `None`. This happens in the
resume call `_uploadNext()` after a reconnect, and for a `0xF1` request with
fewer than two data bytes. As written, such a call reports progress and
writes the single trailer `[0xFC, 0, 0, 0, 0]`. It writes no piece.

A write throws when there is no write characteristic or the link is down
(`Engine.CanSend`). The model then stops the handler at the first write, as
the awaited promise rejection does in the source.

Behaviours of the code worth noting, all modelled as written:

- `cmdUpload` does not reject an empty image (`js/esp32-ota.js:196-205`).
- Flash-size code 5 passes the check at `js/esp32-ota.js:228`. It yields no
  label (`ImageInfo.flashSize == None`).
- After a reconnect with an upload in progress, the source calls
  `_uploadNext()` with no part (`js/esp32-ota.js:71-73`). The device
  therefore gets an empty trailer, not the part it was waiting for
  (`Ota.ReconnectDuringUpload`).
- The fast mode sends nothing; see "Findings".

## Model

| member | source | states |
|---|---|---|
| Bytes.ToUint8 | js/esp32-ota.js:127 | truncation to an unsigned byte keeps values 0..255 and is congruent to its input modulo 256 |
| Bytes.Be16 | js/esp32-ota.js:169 | a value as two bytes, high byte first, each truncated to 8 bits as `Uint8Array.from` does; `Be16RoundTrip` reads them back |
| Bytes.Be32 | js/esp32-ota.js:168 | the file length as four bytes, most significant first, each masked to 8 bits; `Be32RoundTrip` reads them back |
| Bytes.Be16RoundTrip | js/esp32-ota.js:169 | decoding the two bytes `x >> 8, x % 256` gives `x` modulo 2^16, and `x` itself when it fits in 16 bits |
| Bytes.Be32RoundTrip | js/esp32-ota.js:168 | decoding the four file-length bytes gives the length modulo 2^32, and the length itself when it fits in 32 bits |
| ImageHeader.FlashSizeLabel | js/esp32-ota.js:226-231 | a flash-size code has a label exactly when it is below 5 |
| ImageHeader.FlashFreqLabel | js/esp32-ota.js:233-238 | the sparse frequency table has an entry exactly for codes 0, 1, 2 and 15 |
| ImageHeader.SizeCode | js/esp32-ota.js:226 | the flash-size code `view[3] >> 4` is below 16 |
| ImageHeader.FreqCode | js/esp32-ota.js:233 | the frequency code `view[3] % 16` is below 16, and with the size code as high nibble it rebuilds byte 3 |
| ImageHeader.Info | js/esp32-ota.js:206-241 | the header is accepted exactly when it is well formed; an accepted header reports the labels of its size and frequency codes |
| ImageHeader.InfoFirstFailureDecides | js/esp32-ota.js:213-237 | the checks run in source order and the first one that fails names the error: too short, magic, flash mode, size, frequency |
| ImageHeader.InfoLabels | js/esp32-ota.js:226-238 | an accepted header's labels are those of the source's tables: sizes 0..4 name 1MB..16MB, code 5 passes with no label, frequencies 0, 1, 2, 15 name 40, 26, 20, 80 MHz |
| ImageHeader.InfoExampleMinimalHeader | js/esp32-ota.js:206-241 | a 32-byte header with magic 0xE9, mode 0 and byte 3 = 0x00 reads as 1MB at 40MHz |
| ImageHeader.InfoExampleBadSize | js/esp32-ota.js:226-230 | size code 15 is refused as an invalid flash size |
| Frames.Encode | js/esp32-ota.js:124-128 | a frame is the command byte followed by the payload, one byte longer than the payload |
| Frames.Decode | js/esp32-ota.js:131-134 | an inbound message has no command exactly when it is empty, and then its data is empty too; command and data put back together give the message |
| Frames.DecodeEncode | js/esp32-ota.js:124-134 | decoding a written frame gives back its command and payload |
| Frames.FileParts | js/esp32-ota.js:165 | the part count is the least number of 16384-byte parts that covers the file |
| Frames.InitFrames | js/esp32-ota.js:163-170 | the frames `_uploadInit` writes are three: 0xFD alone, then 0xFE and 0xFF with four payload bytes each; `InitFramesDecode` reads their fields back |
| Frames.InitFramesDecode | js/esp32-ota.js:163-170 | the init frames are 0xFD with no payload, 0xFE whose payload decodes to the file length, 0xFF whose payload decodes to the part count and the MTU 200 |
| Frames.PieceFrame | js/esp32-ota.js:188-189 | a 0xFB frame is the command, the piece index byte (the index itself below 256), then exactly the piece's bytes |
| Frames.TrailerFrame | js/esp32-ota.js:193-194 | a 0xFC trailer is five bytes long; `TrailerFrameDecode` reads its byte count and part back |
| Frames.NaNTrailerFrame | js/esp32-ota.js:193 | with a part that is not a number every trailer field is 0, so the frame equals the trailer of an empty part 0 |
| Frames.TrailerFrameDecode | js/esp32-ota.js:193-194 | a part trailer is 0xFC followed by the part's byte count and index, each decoding back big-endian |
| Frames.RequestedPart | js/esp32-ota.js:148 | a request names a part exactly when it has two data bytes, and the part is their big-endian value |
| Frames.Dispatch | js/esp32-ota.js:134-155 | the branch a message takes: it finishes exactly for 0xF2, a 0xF1 request sends the part its data names, and only `[0xAA, 1, ...]` selects fast mode |
| Frames.DispatchRequestRoundTrip | js/esp32-ota.js:147-150 | a request for part `p` encoded big-endian is answered by sending part `p` |
| Frames.DispatchIgnoresOtherCommands | js/esp32-ota.js:135-155 | only 0xAA with mode 0 or 1, 0xF1 and 0xF2 trigger an action |
| Chunker.PieceCount | js/esp32-ota.js:181 | the piece count is the least number of 200-byte pieces that covers the range, and 0 for an empty range |
| Chunker.PartStart | js/esp32-ota.js:177 | the first byte of part `p` is `p * 16384`; `PartsTileFile` proves what the part ranges do |
| Chunker.PartEnd | js/esp32-ota.js:178-179 | part `p` ends 16384 bytes after its start or at the file length, whichever comes first; `PartsTileFile` proves what the part ranges do |
| Chunker.PieceStart | js/esp32-ota.js:184 | piece `i` starts `i * 200` bytes into its part; `PiecesTilePart` proves what the piece ranges do |
| Chunker.PieceEnd | js/esp32-ota.js:185-186 | piece `i` ends 200 bytes after its start or at the end of the part, whichever comes first; `PiecesTilePart` proves what the piece ranges do |
| Chunker.PieceFrames | js/esp32-ota.js:183-191 | the piece loop's frames for the first `count` pieces, one frame per piece; `PieceFramesAt` states frame `i` |
| Chunker.PartFrames | js/esp32-ota.js:171-195 | every frame `_uploadNext(part)` writes: the piece frames then the trailer, or only the all-zero trailer for a part that is not a number; `PartFramesDeliverPart` states what they carry |
| Chunker.PartsTileFile | js/esp32-ota.js:177-179 | parts are non-empty, at most 16384 bytes, adjacent, start at 0 and the last one ends at the file length |
| Chunker.PiecesTilePart | js/esp32-ota.js:183-186 | pieces are non-empty, at most 200 bytes, adjacent, start at the part start and the last one ends at the part end |
| Chunker.PieceIndexFitsByte | js/esp32-ota.js:188 | a piece index is below 82, so the byte written for it is the index itself |
| Chunker.PieceFramesAt | js/esp32-ota.js:183-189 | piece frame `i` is 0xFB, the index byte, then exactly the image bytes of piece `i`, whose range lies inside the part |
| Chunker.PartFramesDeliverPart | js/esp32-ota.js:177-194 | the frames of one part carry exactly that part's bytes and one trailer with its byte count and index |
| Chunker.AllPartFramesDeliver | js/esp32-ota.js:171-194 | the frames of parts `0 .. k-1` carry the image up to the end of part `k-1` and one trailer per part, in order |
| Chunker.AllPartsDeliverImage | js/esp32-ota.js:163-194 | the frames of every part, in order, reassemble to the whole image |
| Ota.Engine.CanSend | js/esp32-ota.js:127 | `writeValueWithoutResponse` succeeds exactly when the write characteristic is held and the link is up; every writing method's contract is stated through it |
| Ota.FilePartsField | js/esp32-ota.js:142 | the loop bound `this._fileParts`, which no code assigns, so the fast-mode loop runs zero times |
| Ota.LoopCount | js/esp32-ota.js:142 | the number of iterations of `part < bound`: the bound itself, and none for an `undefined` bound |
| Ota.UploadNextEffect | js/esp32-ota.js:171-195 | `_uploadNext` returns exactly when there is an image and the link takes writes; it outputs nothing exactly when there is no image, and otherwise reports progress first |
| Ota.UploadPartsEffect | js/esp32-ota.js:142-144 | the loop over `count` parts returns exactly when it has no iteration or the link takes writes, and outputs nothing exactly when it has no iteration or no image |
| Ota.NotificationEffect | js/esp32-ota.js:129-162 | a message that starts no upload is forwarded last; the upload flag drops only when the message is 0xF2 |
| Ota.Engine.constructor | js/esp32-ota.js:8-26 | a new uploader holds no handle, has both flags cleared, no image, no scheduled connect and an empty log |
| Ota.Engine.SendMessage | js/esp32-ota.js:124-128 | one frame is written exactly when the link can take it |
| Ota.Engine.UploadInit | js/esp32-ota.js:163-170 | the three init frames are written in order, or none when the first write throws |
| Ota.Engine.UploadNext | js/esp32-ota.js:171-195 | the new log is the old one plus the progress report and the part's frames, by `UploadNextEffect` |
| Ota.Engine.WritePart | js/esp32-ota.js:177-194 | the part's piece frames and then its trailer are written exactly when the link takes writes; otherwise nothing is |
| Ota.Engine.SendPieces | js/esp32-ota.js:181-191 | the piece loop writes exactly the part's piece frames in index order, or nothing when the first write throws |
| Ota.Engine.UploadParts | js/esp32-ota.js:142-144 | the fast-mode loop runs the parts in order and stops at the first that throws |
| Ota.Engine.UploadPartsStep | js/esp32-ota.js:142-144 | one iteration of the fast-mode loop extends the log as one more step of `UploadPartsEffect` |
| Ota.Engine.CmdUpload | js/esp32-ota.js:196-205 | a second upload while one is in progress changes nothing; otherwise the flag is set, the image kept and the init frames written |
| Ota.Engine.Notification | js/esp32-ota.js:129-162 | the log and the upload flag change as `NotificationEffect` says for the message |
| Ota.Engine.Disconnected | js/esp32-ota.js:111-120 | the disconnect observer fires, every handle is dropped and both flags are cleared |
| Ota.Engine.Connect | js/esp32-ota.js:38-57 | a selected device is kept and one connect is scheduled; a failed selection goes to the disconnected state |
| Ota.Engine.ConnectAttempt | js/esp32-ota.js:58-79 | the connecting observer fires, then either all handles are held and the connect observer fires, and an upload in progress resumes with no part, logging a progress report for no part and the all-zero trailer `[0xFC, 0, 0, 0, 0]`; or the engine goes to the disconnected state |
| Ota.Engine.Disconnect | js/esp32-ota.js:80-83 | the disconnect is marked as requested and the link goes down |
| Ota.Engine.LinkDropped | js/esp32-ota.js:42-50 | an unsolicited drop schedules one reconnect and keeps the upload flag; a requested one goes to the disconnected state |
| Ota.FailureIsFinal | js/esp32-ota.js:142-144 | once a part throws, no later iteration of the fast-mode loop writes anything |
| Ota.UploadNextWritesPart | js/esp32-ota.js:171-195 | progress is reported before any frame, then exactly the part's frames are written, or none when the link cannot take them |
| Ota.UploadNextDeliversPart | js/esp32-ota.js:171-195 | a part in range, once written, gives the device exactly that part's bytes and its trailer |
| Ota.ResumeSendsNoImageBytes | js/esp32-ota.js:171-195 | the resume call reports progress for no part and writes only `[0xFC, 0, 0, 0, 0]`, so no image byte is written |
| Ota.UploadPartsWritesParts | js/esp32-ota.js:142-144 | on a working link the loop over parts `0 .. k-1` completes and writes the frames of those parts in order |
| Ota.FastModeAsWrittenSendsNothing | js/esp32-ota.js:141-145 | as written, the fast-mode announcement writes no frame whatever image is stored, keeps the flag and is only forwarded, so the device receives nothing of a non-empty image |
| Ota.FastModeIntendedDeliversImage | js/esp32-ota.js:141-145 | with the part count as the loop bound, the fast mode delivers the whole image and one trailer per part in order, then forwards the message |
| Ota.NormalModeSendsPartZero | js/esp32-ota.js:135-161 | normal mode reports progress for part 0, writes part 0 only and forwards the message |
| Ota.RequestSendsNamedPart | js/esp32-ota.js:147-161 | a request writes the part its two bytes name, then forwards the message |
| Ota.ShortRequestSendsEmptyTrailer | js/esp32-ota.js:147-150 | a 0xF1 request with fewer than two data bytes names no part: it reports progress for no part, writes only `[0xFC, 0, 0, 0, 0]` and is then forwarded |
| Ota.InstallingEndsUpload | js/esp32-ota.js:151-161 | 0xF2 clears the upload flag, fires the finished observer exactly once and writes nothing |
| Ota.OtherCommandsOnlyForward | js/esp32-ota.js:156-161 | any other command, 0x0F included, writes nothing, keeps the flag and is only forwarded |
| Ota.TransferModeOtherwiseOnlyForwards | js/esp32-ota.js:135-146 | `[0xAA]` with no mode byte, or with a mode other than 0 and 1, writes nothing, keeps the flag and is only forwarded |
| Ota.NotificationForwardsExactlyWhenHandled | js/esp32-ota.js:135-161 | a message is forwarded last exactly when the upload it starts returns: a part upload needs an image and a link that takes writes, the fast-mode loop needs them unless it has no iteration, and any other message is always forwarded |
| Ota.OnlyInstallingClearsFlag | js/esp32-ota.js:129-162 | after a message the upload flag is what it was, cleared exactly when the message is 0xF2 |
| Ota.RequestWithoutImageIsDropped | js/esp32-ota.js:173 | a part request before any upload throws: nothing is written and the message is not forwarded |
| Ota.ReconnectDuringUpload | js/esp32-ota.js:38-79 | after an unsolicited drop mid-upload and a successful reconnect, the upload is still in progress and the resume writes only an empty trailer |

## Left out

- Web Bluetooth itself: the device chooser, the GATT server, the service,
  the characteristics and the subscription to notifications. The model
  reduces each to a parameter (`deviceSelected`, `linkEstablished`) or a
  handle flag. `gattConnected` stands for the transport's view of the link.
- Timers: the one-second settle delay of `_connect` and `wait(5)` between
  pieces. A scheduled connect is a count (`scheduledConnects`), and its body
  runs when `ConnectAttempt` is called.
- Interleaving of asynchronous handlers. Each handler runs to completion
  atomically, and a write either succeeds or throws.
- The progress percentage `Math.floor(part / fileParts * 100)` is floating
  point. The model records the part and the part count it is computed from.
- Logging, `console.log`, the text of `0x0F` results shown with `alert`, the
  logger injection, the `name` getter and the service and characteristic
  UUIDs.
- Observers are taken to be registered. Calling an unregistered finished or
  progress observer throws in the source; the model does not cover that.
- Each call to `connect` adds another `gattserverdisconnected` listener. The
  model handles one drop as one listener run.
- The filters passed to `_requestDevice`: device selection is a parameter.
- `js/index.js`, the page that drives the engine, is not part of this model.
- Ota.Engine.Disconnect: when no device is held, the source's call to
  `this._device.gatt.disconnect()` throws after setting the flag. The model
  only sets the flag and leaves the link as it is.

## Findings

| source | as written | input that shows it | evidently intended | confidence | as-written member | corrected member |
|---|---|---|---|---|---|---|
| js/esp32-ota.js:142 | the fast-mode loop is bounded by `this._fileParts`, which no code assigns, so `part < undefined` is false and the loop never runs | any non-empty image, then the device message `[0xAA, 1]`: no frame is written | the loop runs over every part, `0 .. fileParts - 1`, as `_uploadInit` computes it | high, not executed | Ota.FastModeAsWrittenSendsNothing | Ota.FastModeIntendedDeliversImage |

The engine keeps the loop bound as written (`Ota.FilePartsField()` is `None`).
`Ota.NotificationEffect` takes the bound as a parameter. The corrected
lemma gives it the part count and proves the whole image is delivered.
