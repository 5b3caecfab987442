/**
 * `parseAndPrintPanelData` as a pure decoder: what the source logs becomes the
 * returned `DecodeOutcome`. A response frame is a 22-byte opening segment, a panel
 * block cut into one equal-width segment per expected panel ID, and a 2-byte
 * closing segment. Each segment holds the ID, two firmware bytes and five
 * little-endian 16-bit fields.
 */
module Frame {
  import opened Common
  import opened Field

  const OpeningLength: nat := 22
  const ClosingLength: nat := 2
  /** The firmware major and minor bytes that follow the ID. */
  const FirmwareLength: nat := 2
  /** Temperature, AC power, two unidentified fields, DC voltage. */
  const FieldCount: nat := 5

  /** What the source logs for one panel segment it could read. */
  datatype PanelReading = PanelReading(
    segment: seq<byte>,
    id: seq<byte>,
    firmwareMajor: byte,
    firmwareMinor: byte,
    temperature: Option<Scaled>,
    acPower: Option<Scaled>,
    unknown1: Option<Scaled>,
    unknown2: Option<Scaled>,
    dcVoltage: Option<Scaled>,
    unknown1Bytes: Option<seq<byte>>,
    unknown2Bytes: Option<seq<byte>>)
  {
    /** Field `k` of the data block, in wire order. */
    function FieldAt(k: nat): Option<Scaled>
      requires k < FieldCount
    {
      if k == 0 then temperature
      else if k == 1 then acPower
      else if k == 2 then unknown1
      else if k == 3 then unknown2
      else dcVoltage
    }
  }

  /** One entry per expected panel: skipped when its segment cannot hold the ID and firmware. */
  datatype PanelResult = Skipped(segmentLength: nat) | Read(reading: PanelReading)

  /** The three ways a decode call ends. The opening segment is reported before the
      width check, the closing segment only on success. */
  datatype DecodeOutcome =
    | TooShort(length: nat)
    | BadWidth(opening: seq<byte>, blockLength: nat, panelCount: nat)
    | Decoded(opening: seq<byte>, panels: seq<PanelResult>, closing: seq<byte>)

  /** Offset of field `k` inside a segment whose ID is `idLength` bytes long. */
  function FieldOffset(idLength: nat, k: nat): nat {
    idLength + FirmwareLength + 2 * k
  }

  /** The two unidentified fields are read unscaled, the other three divided by 100. */
  function FieldScale(k: nat): int {
    if k == 2 || k == 3 then 1 else 100
  }

  /** The raw bytes logged for an unidentified field: present only when the field was read. */
  function RawBytes(segment: seq<byte>, offset: nat, value: Option<Scaled>): (b: Option<seq<byte>>)
    requires value.Some? ==> offset + 2 <= |segment|
    ensures b.Some? <==> value.Some?
    ensures b.Some? ==> b.value == segment[offset..offset + 2]
  {
    if value.Some? then Some(segment[offset..offset + 2]) else None
  }

  /** Decodes one panel segment, given the length of the ID expected at that position. */
  function DecodeSegment(segment: seq<byte>, idLength: nat): (r: PanelResult)
    ensures r.Skipped? <==> |segment| < idLength + FirmwareLength
    ensures r.Skipped? ==> r.segmentLength == |segment|
    ensures r.Read? ==>
      && r.reading.segment == segment
      && r.reading.id == segment[..idLength]
      && r.reading.firmwareMajor == segment[idLength]
      && r.reading.firmwareMinor == segment[idLength + 1]
    ensures r.Read? ==> forall k :: 0 <= k < FieldCount ==>
      (r.reading.FieldAt(k).None? <==> FieldOffset(idLength, k) + 2 > |segment|)
    ensures r.Read? ==> forall k :: 0 <= k < FieldCount && r.reading.FieldAt(k).Some? ==>
      && r.reading.FieldAt(k).value.scale == FieldScale(k)
      && U16LE(r.reading.FieldAt(k).value.raw) == segment[FieldOffset(idLength, k)..FieldOffset(idLength, k) + 2]
    ensures r.Read? ==>
      && (r.reading.unknown1Bytes.Some? <==> r.reading.unknown1.Some?)
      && (r.reading.unknown1Bytes.Some? ==> r.reading.unknown1Bytes.value == U16LE(r.reading.unknown1.value.raw))
      && (r.reading.unknown2Bytes.Some? <==> r.reading.unknown2.Some?)
      && (r.reading.unknown2Bytes.Some? ==> r.reading.unknown2Bytes.value == U16LE(r.reading.unknown2.value.raw))
  {
    if |segment| < idLength + FirmwareLength then Skipped(|segment|)
    else
      var p := ReadPanel(segment, idLength);
      forall k | 0 <= k < FieldCount
        ensures p.FieldAt(k).None? <==> FieldOffset(idLength, k) + 2 > |segment|
        ensures p.FieldAt(k).Some? ==>
          && p.FieldAt(k).value.scale == FieldScale(k)
          && U16LE(p.FieldAt(k).value.raw) == segment[FieldOffset(idLength, k)..FieldOffset(idLength, k) + 2]
      {
        assert p.FieldAt(k) == ReadField(segment, idLength, k);
      }
      Read(p)
  }

  /** Field `k` of a segment: a bounds-checked read at its offset with its scale. */
  function ReadField(segment: seq<byte>, idLength: nat, k: nat): Option<Scaled>
    requires k < FieldCount
  {
    DecodeValue(segment, FieldOffset(idLength, k), FieldScale(k))
  }

  /** The reading of a segment long enough for the ID and the firmware bytes. */
  function ReadPanel(segment: seq<byte>, idLength: nat): (p: PanelReading)
    requires |segment| >= idLength + FirmwareLength
    ensures forall k :: 0 <= k < FieldCount ==> p.FieldAt(k) == ReadField(segment, idLength, k)
  {
    var unknown1 := ReadField(segment, idLength, 2);
    var unknown2 := ReadField(segment, idLength, 3);
    PanelReading(
      segment,
      segment[..idLength],
      segment[idLength],
      segment[idLength + 1],
      ReadField(segment, idLength, 0),
      ReadField(segment, idLength, 1),
      unknown1,
      unknown2,
      ReadField(segment, idLength, 4),
      RawBytes(segment, FieldOffset(idLength, 2), unknown1),
      RawBytes(segment, FieldOffset(idLength, 3), unknown2))
  }

  /** The per-panel width `blockLength / panelCount`, when it is a positive integer
      (JavaScript's division by zero gives `NaN` or `Infinity`, neither an integer). */
  function SegmentWidth(blockLength: nat, panelCount: nat): (w: Option<nat>)
    ensures w.Some? <==> panelCount > 0 && blockLength > 0 && blockLength % panelCount == 0
    ensures w.Some? ==> w.value > 0 && w.value * panelCount == blockLength
  {
    if panelCount == 0 || blockLength % panelCount != 0 || blockLength / panelCount == 0 then None
    else Some(blockLength / panelCount)
  }

  /** One more row of `width` bytes. */
  lemma MulSucc(n: nat, width: nat)
    ensures (n + 1) * width == n * width + width
  {
  }

  lemma MulMonotone(a: nat, b: nat, width: nat)
    requires a <= b
    ensures a * width <= b * width
  {
  }

  lemma SliceOfSlice(s: seq<byte>, from: nat, to: nat, lo: nat, hi: nat)
    requires from <= to <= |s| && lo <= hi <= to - from
    ensures s[from..to][lo..hi] == s[from + lo..from + hi]
  {
    var inner := s[from..to];
    assert forall j :: 0 <= j < hi - lo ==> inner[lo..hi][j] == inner[lo + j] == s[from + lo + j];
  }

  /** A block of `count` rows of `width > 0` bytes has segment width `width`. */
  lemma SegmentWidthOfProduct(count: nat, width: nat)
    requires count > 0 && width > 0
    ensures SegmentWidth(count * width, count) == Some(width)
  {
    var x := count * width;
    MulMonotone(1, count, width);
    assert x == count * (x / count) + x % count;
    assert count * (width - x / count) == x % count;
    if width - x / count > 0 {
      MulMonotone(1, width - x / count, count);
    } else if width - x / count < 0 {
      MulMonotone(1, x / count - width, count);
    }
  }

  /** The bytes of a list of segments laid end to end. */
  function Concat(segments: seq<seq<byte>>): seq<byte> {
    if |segments| == 0 then []
    else Concat(segments[..|segments| - 1]) + segments[|segments| - 1]
  }

  /** Cuts a block of `count * width` bytes into `count` consecutive slices of `width`
      bytes; laid end to end again they give back the block. */
  function Segments(block: seq<byte>, width: nat, count: nat): (segments: seq<seq<byte>>)
    requires |block| == count * width
    ensures |segments| == count
    ensures forall i :: 0 <= i < count ==> |segments[i]| == width
    ensures Concat(segments) == block
  {
    if count == 0 then []
    else
      MulSucc(count - 1, width);
      var front := Segments(block[..(count - 1) * width], width, count - 1);
      var segments := front + [block[(count - 1) * width..]];
      assert segments[..count - 1] == front;
      segments
  }

  /** Bytes `[i * width, i * width + width)` of a block of `count` rows: the segment of
      panel `i`. */
  function Slot(block: seq<byte>, width: nat, count: nat, i: nat): (segment: seq<byte>)
    requires |block| == count * width
    requires i < count
    ensures |segment| == width
  {
    MulSucc(i, width);
    MulMonotone(i + 1, count, width);
    block[i * width..i * width + width]
  }

  /** Cutting the block into rows and taking row `i` gives slot `i`. */
  lemma {:induction false} SegmentAt(block: seq<byte>, width: nat, count: nat, i: nat)
    requires |block| == count * width
    requires i < count
    ensures Segments(block, width, count)[i] == Slot(block, width, count, i)
  {
    MulSucc(count - 1, width);
    MulSucc(i, width);
    MulMonotone(i + 1, count, width);
    if i < count - 1 {
      MulMonotone(i + 1, count - 1, width);
      SegmentAt(block[..(count - 1) * width], width, count - 1, i);
    }
  }

  /** Laying equal-width segments end to end and cutting again gives them back in order. */
  lemma {:induction false} SegmentsOfConcat(segments: seq<seq<byte>>, width: nat)
    requires forall i :: 0 <= i < |segments| ==> |segments[i]| == width
    ensures |Concat(segments)| == |segments| * width
    ensures Segments(Concat(segments), width, |segments|) == segments
  {
    if |segments| > 0 {
      var n := |segments| - 1;
      MulSucc(n, width);
      SegmentsOfConcat(segments[..n], width);
      assert Concat(segments)[..n * width] == Concat(segments[..n]);
      assert segments == segments[..n] + [segments[n]];
    }
  }

  /** The whole response decoder. Panel `i` is decoded from segment `i` of the panel
      block using only the LENGTH of `panelIds[i]`; the ID found is not compared with it. */
  function Decode(buffer: seq<byte>, panelIds: seq<string>): (r: DecodeOutcome)
    ensures r.TooShort? <==> |buffer| < OpeningLength + ClosingLength
    ensures r.TooShort? ==> r.length == |buffer|
    ensures !r.TooShort? ==> r.opening == buffer[..OpeningLength]
    ensures r.BadWidth? <==>
      |buffer| >= OpeningLength + ClosingLength &&
      SegmentWidth(|buffer| - OpeningLength - ClosingLength, |panelIds|).None?
    ensures r.BadWidth? ==>
      r.blockLength == |buffer| - OpeningLength - ClosingLength && r.panelCount == |panelIds|
    ensures r.Decoded? ==>
      |r.panels| == |panelIds| && r.closing == buffer[|buffer| - ClosingLength..]
  {
    if |buffer| < OpeningLength + ClosingLength then TooShort(|buffer|)
    else
      var opening := buffer[..OpeningLength];
      var block := buffer[OpeningLength..|buffer| - ClosingLength];
      match SegmentWidth(|block|, |panelIds|)
      case None => BadWidth(opening, |block|, |panelIds|)
      case Some(width) =>
        var panels := seq(|panelIds|, i requires 0 <= i < |panelIds| =>
          DecodeSegment(Slot(block, width, |panelIds|, i), |panelIds[i]|));
        Decoded(opening, panels, buffer[|buffer| - ClosingLength..])
  }

  /** The width every panel segment gets in a frame that decodes. */
  function DecodedWidth(buffer: seq<byte>, panelIds: seq<string>): nat
    requires Decode(buffer, panelIds).Decoded?
  {
    SegmentWidth(|buffer| - OpeningLength - ClosingLength, |panelIds|).value
  }

  /** Panel `i` of a decoded frame is read from bytes `[22 + i * w, 22 + i * w + w)`
      of the frame, with the length of ID `i`; skipping one panel does not stop the next. */
  lemma DecodedPanelIsItsSegment(buffer: seq<byte>, panelIds: seq<string>, i: nat)
    requires Decode(buffer, panelIds).Decoded?
    requires i < |panelIds|
    ensures var w := DecodedWidth(buffer, panelIds);
      && w > 0
      && OpeningLength + i * w + w <= |buffer| - ClosingLength
      && Decode(buffer, panelIds).panels[i] ==
           DecodeSegment(buffer[OpeningLength + i * w..OpeningLength + i * w + w], |panelIds[i]|)
  {
    var w := DecodedWidth(buffer, panelIds);
    var block := buffer[OpeningLength..|buffer| - ClosingLength];
    assert |block| == |panelIds| * w;
    SlotInFrame(buffer, w, |panelIds|, i);
  }

  /** Slot `i` of a frame's panel block, located in the frame itself. */
  lemma SlotInFrame(buffer: seq<byte>, w: nat, count: nat, i: nat)
    requires |buffer| >= OpeningLength + ClosingLength
    requires |buffer| - OpeningLength - ClosingLength == count * w
    requires i < count
    ensures OpeningLength + i * w + w <= |buffer| - ClosingLength
    ensures Slot(buffer[OpeningLength..|buffer| - ClosingLength], w, count, i) ==
      buffer[OpeningLength + i * w..OpeningLength + i * w + w]
  {
    MulSucc(i, w);
    MulMonotone(i + 1, count, w);
    SliceOfSlice(buffer, OpeningLength, |buffer| - ClosingLength, i * w, i * w + w);
  }

  /** The panel block of a decoded frame is tiled by its segments: laid end to end they
      give the block back, and panel `i` is decoded from segment `i`. */
  lemma DecodedPanelsTileBlock(buffer: seq<byte>, panelIds: seq<string>)
    requires Decode(buffer, panelIds).Decoded?
    ensures var w := DecodedWidth(buffer, panelIds);
      var block := buffer[OpeningLength..|buffer| - ClosingLength];
      && |block| == |panelIds| * w
      && var segments := Segments(block, w, |panelIds|);
      && Concat(segments) == block
      && forall i :: 0 <= i < |panelIds| ==>
           Decode(buffer, panelIds).panels[i] == DecodeSegment(segments[i], |panelIds[i]|)
  {
    var w := DecodedWidth(buffer, panelIds);
    var block := buffer[OpeningLength..|buffer| - ClosingLength];
    forall i | 0 <= i < |panelIds|
      ensures Decode(buffer, panelIds).panels[i] == DecodeSegment(Segments(block, w, |panelIds|)[i], |panelIds[i]|)
    {
      SegmentAt(block, w, |panelIds|, i);
    }
  }

  /** In a decoded frame with segment width `w` and `L = |panelIds[i]|`: panel `i` is skipped
      exactly when `w < L + 2`, and otherwise field `k` is unavailable exactly when
      `L + 2 + 2k + 2 > w`, independently of the other fields. */
  lemma DecodedPanelAvailability(buffer: seq<byte>, panelIds: seq<string>, i: nat)
    requires Decode(buffer, panelIds).Decoded?
    requires i < |panelIds|
    ensures var w := DecodedWidth(buffer, panelIds);
      var p := Decode(buffer, panelIds).panels[i];
      && (p.Skipped? <==> w < |panelIds[i]| + FirmwareLength)
      && (p.Read? ==> forall k :: 0 <= k < FieldCount ==>
            (p.reading.FieldAt(k).None? <==> FieldOffset(|panelIds[i]|, k) + 2 > w))
  {
    DecodedPanelIsItsSegment(buffer, panelIds, i);
  }

  /** Only the lengths of the expected IDs matter to the decoder, never their characters. */
  lemma DecodeSeesOnlyIdLengths(buffer: seq<byte>, a: seq<string>, b: seq<string>)
    requires |a| == |b|
    requires forall i :: 0 <= i < |a| ==> |a[i]| == |b[i]|
    ensures Decode(buffer, a) == Decode(buffer, b)
  {
    var ra := Decode(buffer, a);
    var rb := Decode(buffer, b);
    if ra.Decoded? {
      assert ra.panels == rb.panels;
    }
  }

  /** The values one panel reports, as a device would send them. */
  datatype Telemetry = Telemetry(
    id: seq<byte>,
    firmwareMajor: byte,
    firmwareMinor: byte,
    temperature: uint16,
    acPower: uint16,
    unknown1: uint16,
    unknown2: uint16,
    dcVoltage: uint16)

  /** A panel segment laid out as the decoder expects: ID, firmware, five little-endian fields. */
  function EncodePanel(t: Telemetry): (segment: seq<byte>)
    ensures |segment| == |t.id| + FirmwareLength + 2 * FieldCount
  {
    t.id + [t.firmwareMajor, t.firmwareMinor]
      + U16LE(t.temperature) + U16LE(t.acPower) + U16LE(t.unknown1)
      + U16LE(t.unknown2) + U16LE(t.dcVoltage)
  }

  /** A reading that reports exactly the values of `t`, with the source's scales. */
  predicate Carries(p: PanelReading, t: Telemetry) {
    && p.id == t.id
    && p.firmwareMajor == t.firmwareMajor
    && p.firmwareMinor == t.firmwareMinor
    && p.temperature == Some(Scaled(t.temperature, 100))
    && p.acPower == Some(Scaled(t.acPower, 100))
    && p.unknown1 == Some(Scaled(t.unknown1, 1))
    && p.unknown2 == Some(Scaled(t.unknown2, 1))
    && p.dcVoltage == Some(Scaled(t.dcVoltage, 100))
    && p.unknown1Bytes == Some(U16LE(t.unknown1))
    && p.unknown2Bytes == Some(U16LE(t.unknown2))
  }

  /** One encoded segment per panel, in order. */
  function EncodePanels(panels: seq<Telemetry>): seq<seq<byte>> {
    seq(|panels|, i requires 0 <= i < |panels| => EncodePanel(panels[i]))
  }

  /** A response frame: opening segment, panel segments end to end, closing segment. */
  function EncodeFrame(opening: seq<byte>, segments: seq<seq<byte>>, closing: seq<byte>): seq<byte> {
    opening + Concat(segments) + closing
  }

  /** Decoding an encoded panel segment, followed by any padding, reads every value back. */
  lemma DecodeEncodedPanel(t: Telemetry, padding: seq<byte>)
    ensures var r := DecodeSegment(EncodePanel(t) + padding, |t.id|);
      r.Read? && r.reading.segment == EncodePanel(t) + padding && Carries(r.reading, t)
  {
    var segment := EncodePanel(t) + padding;
    var l := |t.id|;
    var r := DecodeSegment(segment, l);
    assert segment[..l] == t.id;
    assert segment[l] == t.firmwareMajor && segment[l + 1] == t.firmwareMinor;
    assert segment[FieldOffset(l, 0)..FieldOffset(l, 0) + 2] == U16LE(t.temperature);
    assert segment[FieldOffset(l, 1)..FieldOffset(l, 1) + 2] == U16LE(t.acPower);
    assert segment[FieldOffset(l, 2)..FieldOffset(l, 2) + 2] == U16LE(t.unknown1);
    assert segment[FieldOffset(l, 3)..FieldOffset(l, 3) + 2] == U16LE(t.unknown2);
    assert segment[FieldOffset(l, 4)..FieldOffset(l, 4) + 2] == U16LE(t.dcVoltage);
    assert r.reading.FieldAt(0).Some? && r.reading.FieldAt(1).Some? && r.reading.FieldAt(2).Some?;
    assert r.reading.FieldAt(3).Some? && r.reading.FieldAt(4).Some?;
    U16LEInjective(r.reading.temperature.value.raw, t.temperature);
    U16LEInjective(r.reading.acPower.value.raw, t.acPower);
    U16LEInjective(r.reading.unknown1.value.raw, t.unknown1);
    U16LEInjective(r.reading.unknown2.value.raw, t.unknown2);
    U16LEInjective(r.reading.dcVoltage.value.raw, t.dcVoltage);
  }

  /** A frame built from a 22-byte opening, one segment of a common positive width per
      expected ID, and a 2-byte closing decodes into those segments, in order. */
  lemma DecodeEncodedFrame(opening: seq<byte>, segments: seq<seq<byte>>, closing: seq<byte>,
                           panelIds: seq<string>, width: nat)
    requires |opening| == OpeningLength && |closing| == ClosingLength
    requires |segments| == |panelIds| > 0 && width > 0
    requires forall i :: 0 <= i < |segments| ==> |segments[i]| == width
    ensures Decode(EncodeFrame(opening, segments, closing), panelIds) ==
      Decoded(opening,
              seq(|segments|, i requires 0 <= i < |segments| => DecodeSegment(segments[i], |panelIds[i]|)),
              closing)
  {
    var buffer := EncodeFrame(opening, segments, closing);
    SegmentsOfConcat(segments, width);
    var block := buffer[OpeningLength..|buffer| - ClosingLength];
    assert block == Concat(segments);
    SegmentWidthOfProduct(|segments|, width);
    forall i | 0 <= i < |segments|
      ensures Slot(block, width, |segments|, i) == segments[i]
    {
      SegmentAt(block, width, |segments|, i);
    }
    assert buffer[..OpeningLength] == opening;
    assert buffer[|buffer| - ClosingLength..] == closing;
  }

  /** End to end: panels whose IDs have the expected lengths, all of one length, sent in a
      frame, come back one reading per panel carrying exactly the values sent. */
  lemma TelemetryRoundTrip(opening: seq<byte>, panels: seq<Telemetry>, closing: seq<byte>,
                           panelIds: seq<string>)
    requires |opening| == OpeningLength && |closing| == ClosingLength
    requires |panels| == |panelIds| > 0
    requires forall i :: 0 <= i < |panels| ==> |panels[i].id| == |panelIds[i]| == |panelIds[0]|
    ensures var r := Decode(EncodeFrame(opening, EncodePanels(panels), closing), panelIds);
      && r.Decoded? && r.opening == opening && r.closing == closing
      && |r.panels| == |panels|
      && forall i :: 0 <= i < |panels| ==> r.panels[i].Read? && Carries(r.panels[i].reading, panels[i])
  {
    var segments := EncodePanels(panels);
    var width := |panelIds[0]| + FirmwareLength + 2 * FieldCount;
    DecodeEncodedFrame(opening, segments, closing, panelIds, width);
    forall i | 0 <= i < |panels|
      ensures DecodeSegment(segments[i], |panelIds[i]|).Read?
      ensures Carries(DecodeSegment(segments[i], |panelIds[i]|).reading, panels[i])
    {
      EncodedPanelReadsBack(panels[i]);
    }
  }

  /** An encoded panel segment on its own decodes into a reading of its values. */
  lemma EncodedPanelReadsBack(t: Telemetry)
    ensures var r := DecodeSegment(EncodePanel(t), |t.id|);
      r.Read? && Carries(r.reading, t)
  {
    DecodeEncodedPanel(t, []);
    assert EncodePanel(t) + [] == EncodePanel(t);
  }
}
