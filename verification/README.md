# enverview wire-frame core in Dafny

`enverview.js` polls a solar microinverter over TCP. It sends a trigger frame built
from the inverter ID, then decodes the response frame into one reading per panel:
ID, firmware bytes, temperature, AC power, two unidentified 16-bit fields and DC
voltage. This project models the pure part of that program and proves properties of it:

- `Trigger` (`trigger.dfy`) models `createTriggerPayload`. The request text
  `"1077" + id + "0"×24 + "e316"` is written out with Node's `'ascii'` encoding.
- `Decimal` (`decimal.dfy`) models `parseInt(s, 10)` and `Number.prototype.toString()`
  on integers, as used for panel IDs.
- `PanelIds` (`panel_ids.dfy`) models `generatePanelIds`. It produces the decimal
  renderings of `base, base + 1, …`, or no IDs when the base does not parse.
- `Field` (`field.dfy`) models `decodeValue`, a bounds-checked little-endian 16-bit
  read with a scale.
- `Frame` (`frame.dfy`) models `parseAndPrintPanelData` as a pure decoder:
  - Everything the source logs is returned as a `DecodeOutcome`. It is `TooShort`,
    `BadWidth` (which still carries the opening segment) or `Decoded` (opening
    segment, one `PanelResult` per expected ID, closing segment).
  - An encoder for frames lets the decoder be checked against its inverse.
- `Common` (`common.dfy`) holds the `byte`/`uint16` subset types and `Option`.

Numbers are mathematical integers. A decoded value is kept as `Scaled(raw, scale)`,
the raw register value together with its divisor. The source's floating-point
quotient is `raw / scale`.

### Facts about the source the model keeps

- The trigger payload is the template text written with `'ascii'`:
  `"1077"`, the ID, 24 `'0'` characters and `"e316"`. It is `|id| + 32` bytes,
  40 for an 8-digit ID (enverview.js:47-53).
- The decoded ID is never compared with the expected one. Only the expected ID's
  length is used (enverview.js:126-131), which `Frame.DecodeSeesOnlyIdLengths` states.
- IDs are written by `toString()` without padding (enverview.js:65).

## Model

| member | source | states |
|---|---|---|
| Trigger.AsciiEncode | enverview.js:53 | `Buffer.from(s, 'ascii')` gives one byte per character; ASCII text decodes back to itself |
| Trigger.AsciiDecode | enverview.js:53 | the inverse of the payload's ASCII encoding: reading bytes as characters keeps the length, and the text is ASCII exactly when every byte is below 0x80 |
| Trigger.AsciiEncodeAppend | enverview.js:51-53 | encoding the concatenated template equals concatenating the encoded pieces |
| Trigger.FixedTextBytes | enverview.js:47-49 | the prefix, padding and trailer constants are the bytes `31 30 37 37`, 24 × `30`, `65 33 31 36` |
| Trigger.PayloadPieces | enverview.js:51-53 | the payload is prefix bytes, then ID bytes, then padding bytes, then trailer bytes |
| Trigger.CreateTriggerPayload | enverview.js:46-54 | the payload has `|id| + 32` bytes: `"1077"` at 0..4, the ID's bytes at 4..4+`|id|`, `0x30` up to 28+`|id|`, then `"e316"` |
| Trigger.TriggerPayloadCarriesId | enverview.js:51-53 | an ASCII ID is recovered unchanged from bytes 4..4+`|id|` of the payload |
| Trigger.TriggerPayloadInjective | enverview.js:46-54 | different ASCII IDs give different payloads |
| Decimal.ParseInt | enverview.js:59-60 | `parseInt` is `NaN` (here `None`) exactly when no decimal digit follows the leading white space and optional sign |
| Decimal.NatToString | enverview.js:65 | `toString` of a non-negative integer is a non-empty digit string with no leading zero |
| Decimal.IntToString | enverview.js:65 | the rendering is non-empty, canonical for `x >= 0`, and `'-'` followed by a canonical numeral for `x < 0` |
| Decimal.DigitsValueOfNatToString | enverview.js:65 | the digits written for `n` have value `n` |
| Decimal.ParseIntOfIntToString | enverview.js:59-65 | `parseInt` reads back `toString(x)` followed by any text that does not start with a digit |
| Decimal.ParseIntRoundTrip | enverview.js:59-65 | `parseInt(toString(x)) == x` for every integer `x` |
| Decimal.NoDigitNoNumber | enverview.js:59-63 | a base ID without any digit makes `parseInt` give `NaN` |
| Decimal.LeadingWhitespaceTrimmed | enverview.js:59 | leading ECMAScript white space is skipped before the number is read |
| Decimal.LeadingWhitespaceIgnored | enverview.js:59 | leading white space does not change the value `parseInt` returns |
| PanelIds.GeneratePanelIds | enverview.js:57-69 | an unparseable base gives `[]`; otherwise there are `max(count, 0)` IDs, and ID `i` is written like `toString` writes `base + i`: a canonical numeral when `base + i >= 0`, otherwise `-` followed by one |
| PanelIds.GeneratedIdsCountFromBase | enverview.js:64-66 | ID `i` parses back to `base + i` |
| PanelIds.GeneratedIdsStrictlyIncrease | enverview.js:64-66 | the numeric values of the IDs strictly increase, so with exact addition no ID repeats (see "Left out" for the source past 2^53) |
| Field.DecodeValue | enverview.js:72-86 | the result is `null` (`None`) exactly when `offset + 2 > length`; otherwise it is the little-endian value at `offset`, in [0, 65535], with the given scale |
| Field.DecodeValueReadsWhatWasWritten | enverview.js:80 | a value written little-endian at an offset is read back with its scale, whatever surrounds it |
| Field.DecodeValueIsLocal | enverview.js:75-80 | only the two bytes at the offset affect the result |
| Field.DecodeValueIsQuotient | enverview.js:80-81 | the value returned is the little-endian raw value divided by the scale |
| Field.U16LEInjective | enverview.js:80 | distinct 16-bit values have distinct little-endian encodings |
| Frame.RawBytes | enverview.js:162-163 | the raw bytes of an unidentified field are present exactly when its value is, and are then the two segment bytes at its offset |
| Frame.DecodeSegment | enverview.js:126-163 | skipped exactly when the segment is shorter than `|id| + 2`; otherwise the ID is the first `|id|` bytes and the firmware the next two; field `k` is missing exactly when `|id| + 2 + 2k + 2` exceeds the segment, and otherwise is the little-endian value at that offset with scale 100, 100, 1, 1, 100; the unknown fields' raw bytes are given only when the field is |
| Frame.SegmentWidth | enverview.js:107-117 | the width is valid exactly when the panel count is positive and divides a positive block length; the width times the count is the block length |
| Frame.SegmentWidthOfProduct | enverview.js:109-114 | a block of `count` rows of positive width `w` has segment width `w` |
| Frame.Segments | enverview.js:120-123 | the reference tiling that `Frame.Decode` does not call: the block is cut into `count` segments of equal width that give back the block when laid end to end |
| Frame.Slot | enverview.js:121-123 | the slice `Frame.Decode` takes for panel `i` is `w` bytes long; by `Frame.SegmentAt` it is segment `i` of the tiling, and by `Frame.SlotInFrame` it is bytes `[i*w, i*w + w)` of the block |
| Frame.SegmentAt | enverview.js:120-123 | segment `i` is bytes `[i*w, i*w + w)` of the block |
| Frame.SegmentsOfConcat | enverview.js:120-123 | cutting equal-width segments laid end to end gives them back in order |
| Frame.SlotInFrame | enverview.js:107-123 | slot `i` of the panel block is bytes `[22 + i*w, 22 + i*w + w)` of the frame |
| Frame.Decode | enverview.js:89-170 | `TooShort` exactly when the frame has fewer than 24 bytes; the 22-byte opening is reported whenever the frame is long enough, also when the width is bad; `BadWidth` exactly when the width is not a positive integer; on success there is one result per ID and the 2-byte closing |
| Frame.DecodedPanelIsItsSegment | enverview.js:107-130 | panel `i` is decoded from frame bytes `[22 + i*w, 22 + i*w + w)` with the length of ID `i`, independently of the other panels |
| Frame.DecodedPanelsTileBlock | enverview.js:107-123 | the segments tile the panel block, and panel `i` is decoded from segment `i` |
| Frame.DecodedPanelAvailability | enverview.js:126-150 | in a decoded frame, panel `i` is skipped exactly when `w < |id| + 2`, and field `k` is missing exactly when `|id| + 2 + 2k + 2 > w` |
| Frame.DecodeSeesOnlyIdLengths | enverview.js:126-131 | two ID lists with the same lengths give the same outcome; the characters of the expected IDs are never compared |
| Frame.DecodeEncodedPanel | enverview.js:126-163 | an encoded panel followed by any padding decodes into a reading that carries exactly the encoded values |
| Frame.EncodedPanelReadsBack | enverview.js:126-163 | an encoded panel segment decodes into a reading of its values |
| Frame.DecodeEncodedFrame | enverview.js:98-169 | a frame of a 22-byte opening, equal-width segments and a 2-byte closing decodes into those segments, in order, with that opening and closing |
| Frame.TelemetryRoundTrip | enverview.js:89-170 | panels with IDs of one common, expected length are all read back with exactly the values sent |

## Left out

- TCP connection, event handlers and signal handling (enverview.js:181-226) are I/O.
  The decoder takes the received bytes as its argument.
- Logging and the logger configuration (enverview.js:25-42) are left out. What the
  source logs is returned as data instead.
- The `Buffer` → hex string → `Buffer` round trip (enverview.js:193 and 90) is the
  identity on bytes, so the decoder works on bytes directly.
- The top-level wiring (enverview.js:173-178, 196-203) is left out: the `process.exit(1)`
  when no IDs can be generated, and the caller's refusal to decode with an empty ID list.
  `Frame.Decode` still handles an empty list, which gives `BadWidth` as in the source.
- The configuration constants and the sample-frame comment at the top of the file
  (enverview.js:1-22) describe the deployment, not the behaviour.
- Field.DecodeValue: the result is the pair `Scaled(raw, scale)`. Its `Value()` is the
  exact real quotient `raw / scale` (`Field.DecodeValueIsQuotient`), not the rounded
  double JavaScript computes. The `catch` branch (enverview.js:82-85) is
  left out. The bounds check does not exclude it: a negative or fractional offset passes
  that check and makes `readUInt16LE` throw. It is unreachable because every call site
  passes a non-negative integer offset (enverview.js:137-150), which the model expresses
  by typing `offset` as `nat`.
- Decimal.ParseInt: works on exact integers. JavaScript's `parseInt` returns a double,
  so digit strings above 2^53 are rounded there and not here.
- Decimal.IntToString: writes every integer in plain digits. JavaScript switches to
  exponent form at 10^21.
- PanelIds.GeneratePanelIds: `count` is an integer. A fractional or `NaN` count is
  not modelled. The addition `base + i` is exact in the model. The source adds in double
  precision (enverview.js:65).
- PanelIds.GeneratedIdsStrictlyIncrease: holds for the source only while every `|base + i|`
  is at most 2^53. Past that the source's double addition rounds, so IDs can repeat or skip.
  For example, base `"9007199254740992"` (2^53) gives that ID twice for a count of 2.
- PanelIds.GeneratedIdsCountFromBase: holds for the source under the same bound as
  `PanelIds.GeneratedIdsStrictlyIncrease`.
- Trigger.AsciiEncode: Dafny characters are Unicode scalar values, JavaScript strings are
  UTF-16 code units. The two agree on the digit IDs the program uses. They differ on
  characters outside the Basic Multilingual Plane.
- Frame.Decode: uses `|panelIds[i]|`, the number of Unicode scalar values. The source uses
  `panelIds[i].length`, the number of UTF-16 code units. The two agree on the digit IDs
  the generator produces.
- The default arguments `count = PANEL_COUNT` and `scale = 100` (enverview.js:57, 72)
  are not modelled. Every call site passes both explicitly.
- Trigger.AsciiDecode: agrees with Node's `'ascii'` decoding only on bytes below 0x80.
- Frame.DecodeSegment: keeps the panel ID as the raw bytes found. The source turns them
  into a string with `toString('ascii')` only to log them.
