/**
 * The image-header check run on a firmware file before it is offered for
 * upload (`imageInfo`).  It reads the first 32 bytes of an ESP32 application
 * image as laid out in Espressif's esptool "firmware image format": byte 0 is
 * the magic 0xE9, byte 2 the SPI flash mode, byte 3 holds the flash-size code
 * in its high nibble and the flash-frequency code in its low nibble.
 */
module ImageHeader {
  import opened Wrappers
  import opened Bytes

  /** The five exceptions `imageInfo` throws, in the order it checks for them. */
  datatype ImageError = TooShort | BadMagic | BadFlashMode | BadFlashSize | BadFlashFreq

  /**
   * The `info` object: a flash-size label and a flash-frequency label.  The size
   * label is `None` where the source indexes past the end of its label table
   * (size code 5) and so stores `undefined`.
   */
  datatype ImageInfo = ImageInfo(flashSize: Option<string>, flashFreq: string)

  const HeaderLength := 32
  const Magic: byte := 0xE9

  /** The flash-size label table, indexed by the size code. */
  const FlashSizes: seq<string> := ["1MB", "2MB", "4MB", "8MB", "16MB"]

  /** The flash-frequency label table: a sparse array with entries at 0, 1, 2 and 15. */
  function FlashFreqLabel(code: nat): (name: Option<string>)
    ensures name.Some? <==> code in {0, 1, 2, 15}
  {
    if code == 0 then Some("40MHz")
    else if code == 1 then Some("26MHz")
    else if code == 2 then Some("20MHz")
    else if code == 15 then Some("80MHz")
    else None
  }

  /** Reading `flashSizes[code]`: `undefined` past the end of the table. */
  function FlashSizeLabel(code: nat): (name: Option<string>)
    ensures name.Some? <==> code < 5
  {
    if code < |FlashSizes| then Some(FlashSizes[code]) else None
  }

  /** The high nibble of byte 3, `view[3] >> 4`. */
  function SizeCode(image: seq<byte>): (code: nat)
    requires |image| >= HeaderLength
    ensures code < 16
  {
    image[3] as nat / 16
  }

  /** The low nibble of byte 3, `view[3] % 16`. */
  function FreqCode(image: seq<byte>): (code: nat)
    requires |image| >= HeaderLength
    ensures code < 16
    ensures SizeCode(image) * 16 + code == image[3] as nat
  {
    image[3] as nat % 16
  }

  /** Every header condition the esptool format demands and the source checks. */
  predicate WellFormed(image: seq<byte>)
  {
    && |image| >= HeaderLength
    && image[0] == Magic
    && image[2] <= 4
    && SizeCode(image) <= 5
    && FreqCode(image) in {0, 1, 2, 15}
  }

  /**
   * `imageInfo(image)`: the checks run one after another and the first one that
   * fails decides the exception; otherwise both labels are read from byte 3.
   */
  function Info(image: seq<byte>): (r: Result<ImageInfo, ImageError>)
    ensures r.Success? <==> WellFormed(image)
    ensures r.Success? ==> r.value.flashSize == FlashSizeLabel(SizeCode(image))
    ensures r.Success? ==> Some(r.value.flashFreq) == FlashFreqLabel(FreqCode(image))
  {
    if |image| < HeaderLength then Failure(TooShort)
    else if image[0] != Magic then Failure(BadMagic)
    else if image[2] > 4 then Failure(BadFlashMode)
    else
      var flashSize := SizeCode(image);
      if flashSize > 5 then Failure(BadFlashSize)
      else
        var flashFreq := FreqCode(image);
        if flashFreq > 2 && flashFreq != 15 then Failure(BadFlashFreq)
        else Success(ImageInfo(FlashSizeLabel(flashSize), FlashFreqLabel(flashFreq).value))
  }

  /**
   * The error reported is that of the first check, in the order length, magic,
   * flash mode, flash size, flash frequency, that the image fails.
   */
  lemma InfoFirstFailureDecides(image: seq<byte>)
    ensures |image| < HeaderLength ==> Info(image) == Failure(TooShort)
    ensures |image| >= HeaderLength && image[0] != Magic ==> Info(image) == Failure(BadMagic)
    ensures |image| >= HeaderLength && image[0] == Magic && image[2] > 4
            ==> Info(image) == Failure(BadFlashMode)
    ensures |image| >= HeaderLength && image[0] == Magic && image[2] <= 4 && SizeCode(image) > 5
            ==> Info(image) == Failure(BadFlashSize)
    ensures |image| >= HeaderLength && image[0] == Magic && image[2] <= 4 && SizeCode(image) <= 5
            && FreqCode(image) !in {0, 1, 2, 15}
            ==> Info(image) == Failure(BadFlashFreq)
  {
  }

  /**
   * The label tables: size codes 0..4 name 1MB..16MB and code 5 passes the
   * check with no label; frequency codes 0, 1, 2, 15 name 40, 26, 20, 80 MHz.
   */
  lemma InfoLabels(image: seq<byte>)
    requires WellFormed(image)
    ensures var info := Info(image).value;
      && (SizeCode(image) == 0 ==> info.flashSize == Some("1MB"))
      && (SizeCode(image) == 1 ==> info.flashSize == Some("2MB"))
      && (SizeCode(image) == 2 ==> info.flashSize == Some("4MB"))
      && (SizeCode(image) == 3 ==> info.flashSize == Some("8MB"))
      && (SizeCode(image) == 4 ==> info.flashSize == Some("16MB"))
      && (SizeCode(image) == 5 ==> info.flashSize == None)
      && (FreqCode(image) == 0 ==> info.flashFreq == "40MHz")
      && (FreqCode(image) == 1 ==> info.flashFreq == "26MHz")
      && (FreqCode(image) == 2 ==> info.flashFreq == "20MHz")
      && (FreqCode(image) == 15 ==> info.flashFreq == "80MHz")
  {
  }

  /** A 32-byte header with magic, mode 0 and byte 3 = 0x00 reads as 1MB at 40MHz. */
  lemma InfoExampleMinimalHeader(image: seq<byte>)
    requires |image| == 32 && image[0] == 0xE9 && image[2] == 0 && image[3] == 0x00
    ensures Info(image) == Success(ImageInfo(Some("1MB"), "40MHz"))
  {
  }

  /** Byte 3 = 0xF5 has size code 15 and is rejected for its flash size. */
  lemma InfoExampleBadSize(image: seq<byte>)
    requires |image| >= 32 && image[0] == 0xE9 && image[2] <= 4 && image[3] == 0xF5
    ensures Info(image) == Failure(BadFlashSize)
  {
  }
}
