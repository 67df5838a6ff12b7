/**
  The LSB steganography codec: a payload (scrambled by the password shift and
  followed by the delimiter "<<END>>") is written, one bit per channel value,
  into the least significant bits of an RGB image; decoding reads those bits
  back, regroups them into bytes and stops at the first delimiter.
 */
module Codec {
  import opened Bits
  import opened Cipher

  datatype Option<T> = None | Some(value: T)

  /** The end-of-message marker. */
  const DELIMITER: string := "<<END>>"

  /** The UTF-8 bytes of `DELIMITER`: every character is ASCII, so one byte each. */
  const DELIMITER_BYTES: seq<Byte> := [60, 60, 69, 78, 68, 62, 62]

  /** Characters subtracted from the capacity "just in case", beyond the delimiter. */
  const SAFETY_MARGIN: nat := 10

  // ---------------------------------------------------------------------
  // Images as the codec sees them

  datatype Pixel = Pixel(r: Byte, g: Byte, b: Byte)

  /** An image after conversion to RGB: its size and its pixels in scan order. */
  datatype Image = Image(width: nat, height: nat, pixels: seq<Pixel>) {
    /** One pixel per position of the raster. */
    predicate WellFormed()
    {
      |pixels| == width * height
    }
  }

  function Channel(p: Pixel, c: nat): Byte
    requires c < 3
  {
    if c == 0 then p.r else if c == 1 then p.g else p.b
  }

  /** All channel values, pixel after pixel: `[channel for pixel in pixels for channel in pixel]`. */
  function Flatten(pixels: seq<Pixel>): (flat: seq<Byte>)
    ensures |flat| == 3 * |pixels|
  {
    seq(3 * |pixels|, i requires 0 <= i < 3 * |pixels| => Channel(pixels[i / 3], i % 3))
  }

  /** Channel values put back into (r, g, b) triples, three at a time. */
  function Regroup(flat: seq<Byte>): (pixels: seq<Pixel>)
    requires |flat| % 3 == 0
    ensures |pixels| == |flat| / 3
  {
    seq(|flat| / 3, i requires 0 <= i < |flat| / 3 => Pixel(flat[3 * i], flat[3 * i + 1], flat[3 * i + 2]))
  }

  /** Regrouping flattened pixels gives back the pixels. */
  lemma RegroupFlatten(pixels: seq<Pixel>)
    ensures Regroup(Flatten(pixels)) == pixels
  {
    var flat := Flatten(pixels);
    forall i | 0 <= i < |pixels| ensures Regroup(flat)[i] == pixels[i] {
      assert (3 * i) / 3 == i && (3 * i + 1) / 3 == i && (3 * i + 2) / 3 == i;
      assert (3 * i) % 3 == 0 && (3 * i + 1) % 3 == 1 && (3 * i + 2) % 3 == 2;
    }
  }

  /** Flattening regrouped channel values gives back the channel values. */
  lemma FlattenRegroup(flat: seq<Byte>)
    requires |flat| % 3 == 0
    ensures Flatten(Regroup(flat)) == flat
  {
    var pixels := Regroup(flat);
    forall i | 0 <= i < |flat| ensures Flatten(pixels)[i] == flat[i] {
      var q, c := i / 3, i % 3;
      assert i == 3 * q + c;
    }
  }

  // ---------------------------------------------------------------------
  // Writing bits into least significant bits, and reading them back

  /** `(v & ~1) | bit`: the least significant bit of `v` replaced by `bit`. */
  function SetLsb(v: Byte, bit: Bit): (r: Byte)
    ensures r % 2 == bit && r / 2 == v / 2
  {
    v - v % 2 + bit
  }

  /** Channel values after writing `bits` into the least significant bits of the first `|bits|` of them. */
  function Embedded(flat: seq<Byte>, bits: seq<Bit>): (out: seq<Byte>)
    requires |bits| <= |flat|
    ensures |out| == |flat|
    ensures forall i :: 0 <= i < |bits| ==> out[i] % 2 == bits[i] && out[i] / 2 == flat[i] / 2
    ensures forall i :: |bits| <= i < |flat| ==> out[i] == flat[i]
  {
    seq(|flat|, i requires 0 <= i < |flat| => if i < |bits| then SetLsb(flat[i], bits[i]) else flat[i])
  }

  /** The least significant bit of every channel value: `[p & 1 for p in flat]`. */
  function Lsbs(flat: seq<Byte>): (bits: seq<Bit>)
    ensures |bits| == |flat|
  {
    seq(|flat|, i requires 0 <= i < |flat| => flat[i] % 2)
  }

  /** Reading the least significant bits back yields the written bits, then the untouched rest. */
  lemma LsbsOfEmbedded(flat: seq<Byte>, bits: seq<Bit>)
    requires |bits| <= |flat|
    ensures Lsbs(Embedded(flat, bits)) == bits + Lsbs(flat[|bits|..])
  {
    var lhs, rhs := Lsbs(Embedded(flat, bits)), bits + Lsbs(flat[|bits|..]);
    forall i | 0 <= i < |flat| ensures lhs[i] == rhs[i] {
    }
  }

  /** The embedding loop of encode, run in place over the flattened channel values. */
  method EmbedBits(flat: array<Byte>, bits: seq<Bit>)
    requires |bits| <= flat.Length
    modifies flat
    ensures flat[..] == Embedded(old(flat[..]), bits)
  {
    for idx := 0 to |bits|
      invariant forall i :: 0 <= i < idx ==> flat[i] == SetLsb(old(flat[i]), bits[i])
      invariant forall i :: idx <= i < flat.Length ==> flat[i] == old(flat[i])
    {
      flat[idx] := SetLsb(flat[idx], bits[idx]);
    }
  }

  // ---------------------------------------------------------------------
  // The delimiter protocol

  predicate EndsWithDelimiter(bytes: seq<Byte>)
  {
    |bytes| >= |DELIMITER_BYTES| && bytes[|bytes| - |DELIMITER_BYTES|..] == DELIMITER_BYTES
  }

  /** The delimiter occurs somewhere in `bytes`: some prefix of `bytes` ends with it. */
  predicate ContainsDelimiter(bytes: seq<Byte>)
  {
    exists k :: 0 <= k <= |bytes| && EndsWithDelimiter(bytes[..k])
  }

  /** The first byte count `k >= from` at which `bytes[..k]` ends with the delimiter. */
  function FirstDelimiterEnd(bytes: seq<Byte>, from: nat): (r: Option<nat>)
    requires from <= |bytes|
    ensures r.Some? ==> from <= r.value <= |bytes| && EndsWithDelimiter(bytes[..r.value])
    ensures r.Some? ==> forall j :: from <= j < r.value ==> !EndsWithDelimiter(bytes[..j])
    ensures r.None? ==> forall j :: from <= j <= |bytes| ==> !EndsWithDelimiter(bytes[..j])
    decreases |bytes| - from
  {
    if EndsWithDelimiter(bytes[..from]) then Some(from)
    else if from == |bytes| then None
    else FirstDelimiterEnd(bytes, from + 1)
  }

  /** The bytes before the first delimiter of a byte stream, if there is one. */
  function Extract(bytes: seq<Byte>): (r: Option<seq<Byte>>)
    ensures r.Some? ==> |r.value| + |DELIMITER_BYTES| <= |bytes|
    ensures r.Some? ==> bytes[..|r.value| + |DELIMITER_BYTES|] == r.value + DELIMITER_BYTES
    ensures r.Some? ==> forall j :: 0 <= j < |r.value| + |DELIMITER_BYTES| ==> !EndsWithDelimiter(bytes[..j])
    ensures r.None? ==> forall j :: 0 <= j <= |bytes| ==> !EndsWithDelimiter(bytes[..j])
  {
    match FirstDelimiterEnd(bytes, 0)
    case None => None
    case Some(k) =>
      assert bytes[..k] == bytes[..k - |DELIMITER_BYTES|] + DELIMITER_BYTES;
      Some(bytes[..k - |DELIMITER_BYTES|])
  }

  /** A delimiter ending at byte `k`, with none ending earlier, makes `Extract` return the `k - 7` bytes before it. */
  lemma FirstMatchExtracts(bytes: seq<Byte>, k: nat)
    requires k <= |bytes| && EndsWithDelimiter(bytes[..k])
    requires forall j :: 0 <= j < k ==> !EndsWithDelimiter(bytes[..j])
    ensures Extract(bytes) == Some(bytes[..k - |DELIMITER_BYTES|])
  {
    var r := FirstDelimiterEnd(bytes, 0);
    assert r.Some?;
    assert r.value == k;
  }

  /** No proper prefix of the delimiter is also a suffix of it. */
  lemma DelimiterHasNoBorder(m: nat)
    requires 0 < m < |DELIMITER_BYTES|
    ensures DELIMITER_BYTES[..m] != DELIMITER_BYTES[|DELIMITER_BYTES| - m..]
  {
    var d := DELIMITER_BYTES;
    if m < 6 {
      assert d[..m][0] == 60 != d[7 - m..][0];
    } else {
      assert d[..m][1] == 60 != d[7 - m..][1];
    }
  }

  /**
    A payload free of the delimiter, followed by the delimiter and anything
    else, is recovered exactly: the first match is the appended delimiter.
   */
  lemma ExtractFramed(payload: seq<Byte>, rest: seq<Byte>)
    requires !ContainsDelimiter(payload)
    ensures Extract(payload + DELIMITER_BYTES + rest) == Some(payload)
  {
    var s := payload + DELIMITER_BYTES + rest;
    var n, d := |payload|, |DELIMITER_BYTES|;
    forall j | 0 <= j < n + d ensures !EndsWithDelimiter(s[..j]) {
      if j <= n {
        assert s[..j] == payload[..j];
      } else if j >= d {
        var m := j - n;
        DelimiterHasNoBorder(m);
        assert s[..j][j - m..] == DELIMITER_BYTES[..m];
        assert s[..j][j - d..][d - m..] == s[..j][j - m..];
      }
    }
    assert s[..n + d] == payload + DELIMITER_BYTES;
    FirstMatchExtracts(s, n + d);
  }

  /**
    A payload that itself contains the delimiter is cut short: decoding stops
    at the earlier match and returns a proper prefix of the payload.
   */
  lemma ExtractTruncates(payload: seq<Byte>, rest: seq<Byte>)
    requires ContainsDelimiter(payload)
    ensures Extract(payload + DELIMITER_BYTES + rest).Some?
    ensures |Extract(payload + DELIMITER_BYTES + rest).value| < |payload|
    ensures Extract(payload + DELIMITER_BYTES + rest).value == payload[..|Extract(payload + DELIMITER_BYTES + rest).value|]
  {
    var s := payload + DELIMITER_BYTES + rest;
    var d := |DELIMITER_BYTES|;
    var k :| 0 <= k <= |payload| && EndsWithDelimiter(payload[..k]);
    assert s[..k] == payload[..k];
    var r := Extract(s);
    assert r.Some?;
    assert |r.value| + d <= k;
    assert s[..|r.value|] == payload[..|r.value|];
  }

  // ---------------------------------------------------------------------
  // Encode

  /** The bytes embedded by encode: the scrambled payload followed by the delimiter. */
  function Frame(message: seq<Byte>, password: string): (full: seq<Byte>)
    ensures |full| == |message| + |DELIMITER_BYTES|
    ensures full[..|message|] == Shift(message, password)
    ensures full[|message|..] == DELIMITER_BYTES
  {
    Shift(message, password) + DELIMITER_BYTES
  }

  /** The pixels of the saved stego image: the frame's bits written over the first channel values. */
  function StegoPixels(pixels: seq<Pixel>, message: seq<Byte>, password: string): seq<Pixel>
    requires 8 * (|message| + |DELIMITER_BYTES|) <= 3 * |pixels|
  {
    Regroup(Embedded(Flatten(pixels), ToBits(Frame(message, password))))
  }

  datatype EncodeOutcome =
    | Hidden(capacity: nat, used: nat, stego: Image)
    | TooLarge(capacity: nat, used: nat)

  /**
    Hide `message` (its UTF-8 bytes) in `img`. Fails, saving nothing, when the
    frame needs more bits than the image has channel values; either way it
    reports the capacity in characters and the number of bytes needed.
   */
  method Encode(img: Image, message: seq<Byte>, password: string) returns (r: EncodeOutcome)
    requires img.WellFormed()
    ensures r.capacity == img.width * img.height * 3 / 8
    ensures r.used == |message| + |DELIMITER_BYTES|
    ensures r.Hidden? <==> 8 * (|message| + |DELIMITER_BYTES|) <= img.width * img.height * 3
    ensures r.Hidden? ==> r.stego.width == img.width && r.stego.height == img.height && r.stego.WellFormed()
    ensures r.Hidden? ==> r.stego.pixels == StegoPixels(img.pixels, message, password)
    ensures r.Hidden? ==>
      var before, after, bits := Flatten(img.pixels), Flatten(r.stego.pixels), ToBits(Frame(message, password));
      && |after| == |before|
      && |bits| == 8 * (|message| + |DELIMITER_BYTES|)
      && (forall i :: 0 <= i < |bits| ==> after[i] % 2 == bits[i] && after[i] / 2 == before[i] / 2)
      && (forall i :: |bits| <= i < |before| ==> after[i] == before[i])
  {
    var width, height := img.width, img.height;
    var capacityBits := width * height * 3;
    var capacityChars := capacityBits / 8;
    var payload := Shift(message, password);
    var full := payload + DELIMITER_BYTES;
    var bits := TextToBits(full);
    if |bits| > capacityBits {
      return TooLarge(capacityChars, |full|);
    }
    var channels := Flatten(img.pixels);
    var flat := new Byte[|channels|](i requires 0 <= i < |channels| => channels[i]);
    assert flat[..] == channels;
    EmbedBits(flat, bits);
    var newPixels := Regroup(flat[..]);
    FlattenRegroup(flat[..]);
    r := Hidden(capacityChars, |full|, Image(width, height, newPixels));
  }

  // ---------------------------------------------------------------------
  // Decode

  datatype DecodeOutcome = NoMessage | Extracted(secret: string)

  /** The text of the recovered bytes: UTF-8 when they decode, otherwise Latin-1, which never fails. */
  function DecodeText(utf8: seq<Byte> -> Option<string>, bytes: seq<Byte>): string
  {
    match utf8(bytes)
    case Some(text) => text
    case None => Latin1(bytes)
  }

  /** What decode recovers from pixels: the bytes before the first delimiter, unscrambled. */
  function Recover(pixels: seq<Pixel>, password: string): Option<seq<Byte>>
  {
    match Extract(FromBits(Lsbs(Flatten(pixels))))
    case None => None
    case Some(payload) => Some(Unshift(payload, password))
  }

  /** The bytes gathered so far, plus the next complete group of eight bits, are still a prefix of the regrouped stream. */
  lemma FromBitsNextByte(rawBits: seq<Bit>, gathered: seq<Byte>, byte: Byte)
    requires 8 * |gathered| + 8 <= |rawBits|
    requires gathered == FromBits(rawBits)[..|gathered|]
    requires byte == GroupValue(rawBits[8 * |gathered| .. 8 * |gathered| + 8])
    ensures gathered + [byte] == FromBits(rawBits)[..|gathered| + 1]
  {
    var bytes, n := FromBits(rawBits), |gathered|;
    assert bytes[n] == byte;
  }

  /** None of the first `n` prefixes of `bytes` (the empty one included) ends with the delimiter. */
  predicate NoDelimiterUpTo(bytes: seq<Byte>, n: nat)
  {
    n <= |bytes| && forall j :: 0 <= j <= n ==> !EndsWithDelimiter(bytes[..j])
  }

  /** No delimiter among the first `n` prefixes and none ending at byte `n + 1`: none among the first `n + 1`. */
  lemma NoDelimiterExtend(bytes: seq<Byte>, n: nat)
    requires n < |bytes| && NoDelimiterUpTo(bytes, n)
    requires !EndsWithDelimiter(bytes[..n + 1])
    ensures NoDelimiterUpTo(bytes, n + 1)
  {
  }

  /**
    One more byte gathered by the scan: either the gathered bytes now end
    with the first delimiter of the stream, or none has been seen yet.
   */
  lemma ScanStep(bytes: seq<Byte>, n: nat)
    requires n < |bytes| && NoDelimiterUpTo(bytes, n)
    ensures EndsWithDelimiter(bytes[..n + 1]) ==>
      Extract(bytes) == Some(bytes[..n + 1 - |DELIMITER_BYTES|])
    ensures !EndsWithDelimiter(bytes[..n + 1]) ==> NoDelimiterUpTo(bytes, n + 1)
  {
    if EndsWithDelimiter(bytes[..n + 1]) {
      FirstMatchExtracts(bytes, n + 1);
    } else {
      NoDelimiterExtend(bytes, n);
    }
  }

  /**
    The state of the scan after `i` bits: every complete byte so far
    gathered, the bits of the next one buffered, and no delimiter seen.
   */
  ghost predicate Scanning(rawBits: seq<Bit>, i: nat, gathered: seq<Byte>, buffer: seq<Bit>)
  {
    && i <= |rawBits|
    && |buffer| < 8 && i == 8 * |gathered| + |buffer|
    && buffer == rawBits[8 * |gathered| .. i]
    && gathered == FromBits(rawBits)[..|gathered|]
    && NoDelimiterUpTo(FromBits(rawBits), |gathered|)
  }

  /** One bit read by the scan that leaves the buffer short of a byte: it is buffered. */
  lemma ScanBuffersBit(rawBits: seq<Bit>, i: nat, gathered: seq<Byte>, buffer: seq<Bit>)
    requires i < |rawBits| && Scanning(rawBits, i, gathered, buffer)
    requires |buffer| < 7
    ensures Scanning(rawBits, i + 1, gathered, buffer + [rawBits[i]])
  {
    assert rawBits[8 * |gathered| .. i + 1] == buffer + [rawBits[i]];
  }

  /**
    One bit read by the scan that completes a byte: the byte is gathered,
    after which either the gathered bytes end with the first delimiter of the
    stream or the scan goes on with an empty buffer.
   */
  lemma ScanCompletesByte(rawBits: seq<Bit>, i: nat, gathered: seq<Byte>, buffer: seq<Bit>)
    requires i < |rawBits| && Scanning(rawBits, i, gathered, buffer)
    requires |buffer| == 7
    ensures var next := gathered + [GroupValue(buffer + [rawBits[i]])];
      && (EndsWithDelimiter(next) ==> Extract(FromBits(rawBits)) == Some(next[..|next| - |DELIMITER_BYTES|]))
      && (!EndsWithDelimiter(next) ==> Scanning(rawBits, i + 1, next, []))
  {
    var full := buffer + [rawBits[i]];
    assert rawBits[8 * |gathered| .. 8 * |gathered| + 8] == full;
    FromBitsNextByte(rawBits, gathered, GroupValue(full));
    ScanStep(FromBits(rawBits), |gathered|);
  }

  /** A scan that read every bit without finding a delimiter: the stream holds none. */
  lemma ScanExhausted(rawBits: seq<Bit>, gathered: seq<Byte>, buffer: seq<Bit>)
    requires Scanning(rawBits, |rawBits|, gathered, buffer)
    ensures Extract(FromBits(rawBits)).None?
  {
    var bytes := FromBits(rawBits);
    assert |gathered| == |bytes|;
    assert bytes[..|bytes|] == bytes;
  }

  /**
    The extraction loop of decode: gather bits eight at a time into bytes and
    stop as soon as the bytes gathered so far end with the delimiter, which is
    then cut off.
   */
  method ScanForDelimiter(rawBits: seq<Bit>) returns (found: bool, payload: seq<Byte>)
    ensures found <==> Extract(FromBits(rawBits)).Some?
    ensures found ==> payload == Extract(FromBits(rawBits)).value
  {
    var buffer: seq<Bit> := [];
    payload := [];
    found := false;
    var i := 0;
    while i < |rawBits|
      invariant !found && Scanning(rawBits, i, payload, buffer)
    {
      if |buffer| < 7 {
        ScanBuffersBit(rawBits, i, payload, buffer);
        buffer := buffer + [rawBits[i]];
        i := i + 1;
      } else {
        ScanCompletesByte(rawBits, i, payload, buffer);
        var byte := PackByte(buffer + [rawBits[i]]);
        payload := payload + [byte];
        buffer := [];
        i := i + 1;
        if EndsWithDelimiter(payload) {
          payload := payload[..|payload| - |DELIMITER_BYTES|];
          found := true;
          break;
        }
      }
    }
    if !found {
      ScanExhausted(rawBits, payload, buffer);
    }
  }

  /**
    Read the hidden message of `img` with `password`. `utf8` is the UTF-8
    decoder of the platform (`None` when the bytes are not valid UTF-8).
    Finding no delimiter is the only failure: undecodable bytes fall back to
    Latin-1.
   */
  method Decode(img: Image, password: string, utf8: seq<Byte> -> Option<string>) returns (r: DecodeOutcome)
    ensures r.NoMessage? <==> Recover(img.pixels, password).None?
    ensures r.Extracted? ==> r.secret == DecodeText(utf8, Recover(img.pixels, password).value)
  {
    var channels := Flatten(img.pixels);
    var rawBits := Lsbs(channels);
    var found, payload := ScanForDelimiter(rawBits);
    if !found {
      return NoMessage;
    }
    var plain := Unshift(payload, password);
    r := Extracted(DecodeText(utf8, plain));
  }

  // ---------------------------------------------------------------------
  // Encode followed by decode

  /** The byte stream decode reads from a stego image is the frame, then whatever the untouched channels give. */
  lemma StegoStream(pixels: seq<Pixel>, message: seq<Byte>, password: string)
    requires 8 * (|message| + |DELIMITER_BYTES|) <= 3 * |pixels|
    ensures FromBits(Lsbs(Flatten(StegoPixels(pixels, message, password))))
         == Frame(message, password) + FromBits(Lsbs(Flatten(pixels)[8 * (|message| + |DELIMITER_BYTES|)..]))
  {
    var full := Frame(message, password);
    var bits := ToBits(full);
    var flat := Flatten(pixels);
    FlattenRegroup(Embedded(flat, bits));
    LsbsOfEmbedded(flat, bits);
    FromBitsOfToBits(full, Lsbs(flat[|bits|..]));
  }

  /**
    Decoding a stego image with the password it was made with gives back the
    message bytes, provided the scrambled payload does not itself contain
    the delimiter.
   */
  lemma RoundTrip(pixels: seq<Pixel>, message: seq<Byte>, password: string)
    requires 8 * (|message| + |DELIMITER_BYTES|) <= 3 * |pixels|
    requires !ContainsDelimiter(Shift(message, password))
    ensures Recover(StegoPixels(pixels, message, password), password) == Some(message)
  {
    StegoStream(pixels, message, password);
    var rest := FromBits(Lsbs(Flatten(pixels)[8 * (|message| + |DELIMITER_BYTES|)..]));
    ExtractFramed(Shift(message, password), rest);
    UnshiftShift(message, password);
  }

  /**
    Decoding with a password whose shift differs still finds a message (the
    delimiter is scrambled by neither), but never the original one when it
    is non-empty: either the same bytes come back offset by the difference of
    the shifts, or an early delimiter cuts them short.
   */
  lemma WrongPassword(pixels: seq<Pixel>, message: seq<Byte>, p1: string, p2: string)
    requires 8 * (|message| + |DELIMITER_BYTES|) <= 3 * |pixels|
    ensures Recover(StegoPixels(pixels, message, p1), p2).Some?
    ensures !ContainsDelimiter(Shift(message, p1)) ==>
      Recover(StegoPixels(pixels, message, p1), p2) == Some(Unshift(Shift(message, p1), p2))
    ensures EffectiveShift(p1) != EffectiveShift(p2) && message != [] ==>
      Recover(StegoPixels(pixels, message, p1), p2).value != message
  {
    StegoStream(pixels, message, p1);
    var rest := FromBits(Lsbs(Flatten(pixels)[8 * (|message| + |DELIMITER_BYTES|)..]));
    var payload := Shift(message, p1);
    if ContainsDelimiter(payload) {
      ExtractTruncates(payload, rest);
    } else {
      ExtractFramed(payload, rest);
      if EffectiveShift(p1) != EffectiveShift(p2) && message != [] {
        WrongPasswordChangesBytes(message, p1, p2);
      }
    }
  }

  /**
    The scenario of the encryption test: a message hidden with "hunter2" does
    not come back when decoded with "wrongpassword123" or with no password,
    since their shifts (200, 54 and 0) all differ.
   */
  lemma TestPasswordsGarble(pixels: seq<Pixel>, message: seq<Byte>)
    requires 8 * (|message| + |DELIMITER_BYTES|) <= 3 * |pixels|
    requires message != []
    ensures Recover(StegoPixels(pixels, message, "hunter2"), "wrongpassword123").Some?
    ensures Recover(StegoPixels(pixels, message, "hunter2"), "wrongpassword123").value != message
    ensures Recover(StegoPixels(pixels, message, "hunter2"), "").Some?
    ensures Recover(StegoPixels(pixels, message, "hunter2"), "").value != message
  {
    TestPasswordShifts();
    WrongPassword(pixels, message, "hunter2", "wrongpassword123");
    WrongPassword(pixels, message, "hunter2", "");
  }

  // ---------------------------------------------------------------------
  // Capacity query

  datatype CapacityReport = CapacityReport(width: nat, height: nat, mode: string, capacityChars: nat)

  function Min(a: nat, b: nat): nat
  {
    if a < b then a else b
  }

  /** The channel values of an image with at most three colour channels counted. */
  function CapacityBits(width: nat, height: nat, channels: nat): nat
  {
    width * height * Min(channels, 3)
  }

  /**
    The capacity query: the size of the image and how many characters it can
    hold, leaving room for the delimiter and the safety margin.
   */
  function ImageCapacity(width: nat, height: nat, mode: string, channels: nat): (r: CapacityReport)
    ensures r.width == width && r.height == height && r.mode == mode
    ensures r.capacityChars > 0 ==>
      8 * (r.capacityChars + |DELIMITER| + SAFETY_MARGIN) <= CapacityBits(width, height, channels)
    ensures 8 * (r.capacityChars + 1 + |DELIMITER| + SAFETY_MARGIN) > CapacityBits(width, height, channels)
  {
    var capacityChars := CapacityBits(width, height, channels) / 8;
    var usable := capacityChars - |DELIMITER| - SAFETY_MARGIN;
    CapacityReport(width, height, mode, if usable > 0 then usable else 0)
  }

  /** A larger raster never has a smaller capacity, for the same number of channels. */
  lemma CapacityMonotone(w1: nat, h1: nat, w2: nat, h2: nat, mode: string, channels: nat)
    requires w1 * h1 <= w2 * h2
    ensures ImageCapacity(w1, h1, mode, channels).capacityChars <= ImageCapacity(w2, h2, mode, channels).capacityChars
  {
    var c := Min(channels, 3);
    assert w1 * h1 * c <= w2 * h2 * c by {
      assert (w2 * h2 - w1 * h1) * c >= 0;
    }
  }

  /**
    A non-empty message of at most the reported capacity always fits when
    encoded: encode works on the RGB conversion, which has at least as many
    channel values as the capacity query counted.
   */
  lemma CapacityGuaranteesFit(img: Image, mode: string, channels: nat, message: seq<Byte>)
    requires 0 < |message| <= ImageCapacity(img.width, img.height, mode, channels).capacityChars
    ensures 8 * (|message| + |DELIMITER_BYTES|) <= img.width * img.height * 3
  {
    var wh := img.width * img.height;
    assert wh * Min(channels, 3) <= wh * 3;
  }
}
