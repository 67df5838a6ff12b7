# LSB steganography codec, modelled in Dafny

This project models the codec of `steganography.py`. The codec hides a text
message in the least significant bits of the channel values of an RGB image,
and reads it back.

- **Serialisation.** The message's UTF-8 bytes are expanded into bits, most
  significant bit first. On the way back, bits are regrouped eight at a time,
  and a trailing partial group is dropped.
- **Password.** An optional password scrambles the payload bytes with an
  additive shift modulo 256. The shift is the sum of the password's code
  points, modulo 256. An empty password leaves the bytes alone.
- **Encode.** The delimiter `<<END>>` is appended to the scrambled bytes.
  When the frame needs more bits than the image has channel values, encode
  fails. Otherwise the frame's bits overwrite the least significant bits of
  the first channel values, pixel after pixel, channel after channel.
- **Decode.** The least significant bits are regrouped into bytes. The scan
  stops as soon as the bytes gathered so far end with the delimiter. The
  delimiter is cut off and the shift is undone. The bytes are then read as
  UTF-8, or as Latin-1 when they are not valid UTF-8.
- **Capacity query.** It reports how many characters an image can hold. Room
  is kept for the delimiter and for a safety margin of ten characters.

The project is split into three modules:

- `bits.dfy` (module `Bits`): bytes and bits, the most-significant-first
  serialisation as functions, and the two loops of the source (`TextToBits`,
  `BitsToText`) as methods proved against those functions.
- `cipher.dfy` (module `Cipher`): the password shift and unshift.
- `codec.dfy` (module `Codec`): images, in-place embedding into an array of
  channel values, the delimiter protocol, the decode scan loop, encode,
  decode and the capacity query.

The decode scan stops at the FIRST delimiter (`Codec.Extract`). A message
therefore survives the round trip exactly when its scrambled bytes do not
themselves contain `<<END>>`. `Codec.ExtractFramed` and
`Codec.DelimiterHasNoBorder` prove that this condition is enough. The
reason is that no proper prefix of `<<END>>` is also a suffix of it, so the
appended delimiter cannot overlap an earlier match. `Codec.ExtractTruncates`
shows that an embedded delimiter cuts the message short.

## Model

| member | source | states |
|---|---|---|
| Bits.ByteBitsRoundTrip | steganography.py:15-16 | regrouping the eight most-significant-first bits of a byte by shifting left and or-ing in each bit gives the byte back |
| Bits.ToBitsGroup | steganography.py:13-17 | the `q`-th group of eight bits of the expansion is the most-significant-first expansion of byte `q`, so there are exactly eight bits per byte, in order |
| Bits.TextToBits | steganography.py:10-17 | the nested loop produces exactly the expansion `ToBits` of the bytes |
| Bits.PackByte | steganography.py:28-30 | the inner shift-and-or loop yields the value of the eight bits read most significant first |
| Bits.BitsToText | steganography.py:20-32 | the loop returns `len(bits) // 8` characters, and character `q` has as code the value of bit group `q` |
| Bits.FromBitsDropsPartialGroup | steganography.py:24-27 | a trailing group of fewer than eight bits does not change the regrouped bytes |
| Bits.FromBitsOfToBits | steganography.py:10-32 | regrouping an expansion followed by any further bits gives the original bytes first, then the regrouped rest |
| Bits.BitsRoundTrip | steganography.py:10-32 | regrouping inverts expansion: `FromBits(ToBits(b)) == b` for all byte sequences |
| Bits.Latin1 | steganography.py:169 | the fallback decoding has one character per byte, whose code is that byte |
| Cipher.ShiftAt | steganography.py:59-61 | byte `i` of the scrambled payload is `(b + shift) % 256`, with shift `sum(ord(c)) % 256`, or 0 for an empty password |
| Cipher.UnshiftAt | steganography.py:161-163 | byte `i` of the unscrambled payload is `(b - shift) % 256`, a floored modulus |
| Cipher.CrossPasswordOffset | steganography.py:161-163 | unscrambling with `p2` what was scrambled with `p1` keeps the length and moves every byte by the difference of the two shifts, modulo 256 |
| Cipher.UnshiftShift | steganography.py:161-163 | unscrambling with the same password gives back the bytes, for every byte sequence and password |
| Cipher.ShiftUnshift | steganography.py:59-61 | scrambling undoes unscrambling, so the two are mutually inverse |
| Cipher.EmptyPasswordIsIdentity | steganography.py:59 | an empty password leaves the bytes unchanged in both directions |
| Cipher.WrongPasswordChangesBytes | steganography.py:161-163 | when the effective shifts differ, a non-empty payload never comes back unchanged |
| Cipher.CodeSumHunter2 | test_encryption.py:12 | the code points of "hunter2" add up to 712 |
| Cipher.CodeSumWrongPassword123 | test_encryption.py:38 | the code points of "wrongpassword123" add up to 1590 |
| Cipher.TestPasswordShifts | steganography.py:60 | the passwords of the encryption test shift by 200, 54 and 0, all different |
| Codec.RegroupFlatten | steganography.py:84 | regrouping flattened pixels into (r, g, b) triples gives back the pixels |
| Codec.FlattenRegroup | steganography.py:89-92 | flattening regrouped triples gives back the channel values |
| Codec.SetLsb | steganography.py:86 | clearing the lowest bit of `v` and or-ing in `bit` gives a value with `bit` as its lowest bit and keeps the upper seven bits of `v` |
| Codec.Embedded | steganography.py:85-86 | after embedding, the length is unchanged; for `i < len(bits)`, `out[i] % 2 == bits[i]` and `out[i] // 2 == in[i] // 2`; every later value is unchanged |
| Codec.EmbedBits | steganography.py:84-86 | the in-place loop over the channel array leaves exactly the embedded channel values |
| Codec.LsbsOfEmbedded | steganography.py:127 | the least significant bits read back from embedded values are the written bits, then the bits of the untouched rest |
| Codec.FirstDelimiterEnd | steganography.py:137-151 | the first byte count from `from` on whose last seven bytes are the delimiter, or none when no such count exists |
| Codec.Extract | steganography.py:147-151 | the bytes before the first delimiter: they and the delimiter form a prefix of the stream, and no shorter prefix ends with the delimiter; `None` only when no prefix ends with it |
| Codec.FirstMatchExtracts | steganography.py:147-151 | a delimiter ending at byte `k`, with none ending earlier, makes extraction return the `k - 7` bytes before it |
| Codec.DelimiterHasNoBorder | steganography.py:7 | no proper prefix of `<<END>>` is also a suffix of it |
| Codec.ExtractFramed | steganography.py:64 | a payload without the delimiter, followed by the delimiter and anything else, is extracted exactly |
| Codec.ExtractTruncates | steganography.py:147-151 | a payload containing the delimiter is cut to a strictly shorter prefix of itself |
| Codec.Frame | steganography.py:58-64 | the embedded frame is the scrambled message followed by the delimiter, seven bytes longer than the message |
| Codec.Encode | steganography.py:47-104 | capacity is `w*h*3 // 8` and `used` is `len(message) + 7` in both outcomes; success exactly when `8 * used <= w*h*3`; on success the image keeps its size, only the lowest bit of the first `8 * used` channel values changes and now holds the frame's bits, and every later value is unchanged |
| Codec.ScanForDelimiter | steganography.py:133-151 | the scan loop finds a delimiter exactly when the regrouped bytes contain one, and then returns the bytes before the first one |
| Codec.Decode | steganography.py:121-171 | no message exactly when no delimiter is found; otherwise the secret is the unscrambled bytes before the first delimiter, decoded as UTF-8 or else as Latin-1, so decoding never fails on the bytes |
| Codec.StegoStream | steganography.py:126-127 | the bytes decode reads from a stego image are the frame, then whatever the untouched channel values give |
| Codec.RoundTrip | test_encryption.py:28-33 | decoding a stego image with its own password gives back the message bytes whenever the scrambled message does not contain the delimiter |
| Codec.WrongPassword | test_encryption.py:36-48 | decoding with another password always finds a message; without an early delimiter its bytes are the original ones moved by the difference of the shifts; a non-empty message never comes back when the shifts differ |
| Codec.TestPasswordsGarble | test_encryption.py:36-61 | a non-empty message hidden with "hunter2" comes back different, though found, when decoded with "wrongpassword123" or with no password |
| Codec.ImageCapacity | steganography.py:179-196 | size and mode are reported unchanged; a positive capacity leaves room, within `w*h*min(channels, 3)` bits, for the delimiter and the margin of ten, and one more character would not fit |
| Codec.CapacityMonotone | steganography.py:187-189 | for a fixed channel count, a raster with at least as many pixels never has a smaller capacity |
| Codec.CapacityGuaranteesFit | steganography.py:187-189 | a non-empty message no longer than the reported capacity always passes encode's capacity check |

## Left out

- Pillow: opening, converting to RGB, `getdata`, `putdata`, saving as PNG, `getbands` and `mode`. These are file I/O and image decoding. An image is its width, its height and its RGB pixels in scan order. The "saved" image is the image encode returns. The capacity query takes the channel count and the mode as parameters.
- Codec.Encode: requires the image to hold `width * height` pixels. The pixel list that Pillow returns always does.
- The exception handlers (steganography.py:106-109, 173-176, 197-198): missing files and other errors raised by the image library. No failure of the modelled code reaches them.
- The human-readable message strings and the `success` flag of the result dictionaries. Encode and decode return a datatype whose variant carries the same information.
- UTF-8 encoding: messages are modelled as their UTF-8 byte sequences, both for `_text_to_bits` and for encode. UTF-8 decoding is a function parameter of `Codec.Decode`, with `None` standing for a `UnicodeDecodeError`.
- Encode's inline bit loop (steganography.py:66-69) is the same loop as `_text_to_bits`, so `Codec.Encode` calls `Bits.TextToBits`. Likewise, the byte-rebuilding loop of decode (steganography.py:141-143) is `Bits.PackByte`.
- `dlm_len_bits` (steganography.py:131) is computed but never used.
- app.py, server.py and cli.py are not part of this model: they are a GUI, a web server and a command line around the codec.
