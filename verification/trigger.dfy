/** `createTriggerPayload`: the request text written out as bytes with Node's 'ascii' encoding. */
module Trigger {
  import opened Common

  const Prefix: string := "1077"
  const Padding: string := "000000000000000000000000"
  const Trailer: string := "e316"

  /** Node's 'ascii' encoding of one character when writing: its code, kept to the low eight bits. */
  function AsciiByte(c: char): byte {
    (c as int) % 0x100
  }

  predicate IsAscii(s: string) {
    forall i :: 0 <= i < |s| ==> (s[i] as int) < 0x80
  }

  /** The inverse of the payload's ASCII encoding: reads bytes back as the characters
      with those codes (on bytes below 0x80 this agrees with Node's 'ascii' decoding). */
  function AsciiDecode(b: seq<byte>): (s: string)
    ensures |s| == |b|
    ensures IsAscii(s) <==> forall i :: 0 <= i < |b| ==> b[i] < 0x80
  {
    var s := seq(|b|, i requires 0 <= i < |b| => b[i] as char);
    assert forall i :: 0 <= i < |b| ==> s[i] as int == b[i];
    s
  }

  /** `Buffer.from(s, 'ascii')`: one byte per character; ASCII text survives the round trip. */
  function AsciiEncode(s: string): (b: seq<byte>)
    ensures |b| == |s|
    ensures IsAscii(s) ==> AsciiDecode(b) == s
  {
    seq(|s|, i requires 0 <= i < |s| => AsciiByte(s[i]))
  }

  lemma AsciiEncodeAppend(a: string, b: string)
    ensures AsciiEncode(a + b) == AsciiEncode(a) + AsciiEncode(b)
  {
  }

  /** The fixed parts of the request, as the bytes Node writes for them. */
  lemma FixedTextBytes()
    ensures AsciiEncode(Prefix) == [0x31, 0x30, 0x37, 0x37]
    ensures AsciiEncode(Padding) == seq(24, _ => 0x30)
    ensures AsciiEncode(Trailer) == [0x65, 0x33, 0x31, 0x36]
  {
  }

  /** Encoding the request text piece by piece. */
  lemma PayloadPieces(inverterId: string)
    ensures AsciiEncode(Prefix + inverterId + Padding + Trailer) ==
      AsciiEncode(Prefix) + AsciiEncode(inverterId) + AsciiEncode(Padding) + AsciiEncode(Trailer)
  {
    AsciiEncodeAppend(Prefix + inverterId + Padding, Trailer);
    AsciiEncodeAppend(Prefix + inverterId, Padding);
    AsciiEncodeAppend(Prefix, inverterId);
  }

  /** The trigger frame is the text `"1077" + id + 24 × '0' + "e316"` sent as bytes:
      40 bytes for an 8-digit ID, the ID's characters verbatim at bytes 4 to 4 + |id|. */
  function CreateTriggerPayload(inverterId: string): (p: seq<byte>)
    ensures |p| == |inverterId| + 32
    ensures p[..4] == [0x31, 0x30, 0x37, 0x37]
    ensures p[4..4 + |inverterId|] == AsciiEncode(inverterId)
    ensures forall i :: 4 + |inverterId| <= i < 28 + |inverterId| ==> p[i] == 0x30
    ensures p[28 + |inverterId|..] == [0x65, 0x33, 0x31, 0x36]
  {
    var p := AsciiEncode(Prefix + inverterId + Padding + Trailer);
    PayloadPieces(inverterId);
    FixedTextBytes();
    var n := |inverterId|;
    var head := AsciiEncode(Prefix);
    var id := AsciiEncode(inverterId);
    var pad := AsciiEncode(Padding);
    var tail := AsciiEncode(Trailer);
    assert p == head + id + pad + tail;
    assert p[..4] == head;
    assert p[4..4 + n] == id;
    assert p[4 + n..28 + n] == pad;
    assert p[28 + n..] == tail;
    p
  }

  /** The ID can be read back out of the payload unchanged. */
  lemma TriggerPayloadCarriesId(inverterId: string)
    requires IsAscii(inverterId)
    ensures var p := CreateTriggerPayload(inverterId);
      AsciiDecode(p[4..4 + |inverterId|]) == inverterId
  {
  }

  /** Distinct ASCII IDs give distinct payloads. */
  lemma TriggerPayloadInjective(a: string, b: string)
    requires IsAscii(a) && IsAscii(b)
    requires CreateTriggerPayload(a) == CreateTriggerPayload(b)
    ensures a == b
  {
    var p := CreateTriggerPayload(a);
    assert |a| == |b|;
    assert AsciiDecode(p[4..4 + |a|]) == a;
    assert AsciiDecode(p[4..4 + |b|]) == b;
  }
}
