/** `decodeValue`: a bounds-checked little-endian 16-bit read, divided by a scale. */
module Field {
  import opened Common

  /** A reading as the raw register value and the divisor the source applies to it;
      the source's result is the quotient `raw / scale`. */
  datatype Scaled = Scaled(raw: uint16, scale: int) {
    function Value(): real
      requires scale != 0
    {
      raw as real / scale as real
    }
  }

  /** The two bytes of `v`, least significant first (what `readUInt16LE` undoes). */
  function U16LE(v: uint16): (b: seq<byte>)
    ensures |b| == 2
  {
    [v % 0x100, v / 0x100]
  }

  /** `decodeValue(buffer, offset, scale)`: `None` exactly when fewer than two bytes
      remain at `offset`; otherwise the little-endian value found there with its scale. */
  function DecodeValue(buffer: seq<byte>, offset: nat, scale: int): (r: Option<Scaled>)
    ensures r.None? <==> offset + 2 > |buffer|
    ensures r.Some? ==> r.value.scale == scale && 0 <= r.value.raw <= 0xFFFF
    ensures r.Some? ==> U16LE(r.value.raw) == buffer[offset..offset + 2]
  {
    if offset + 2 > |buffer| then None
    else
      var raw: int := buffer[offset] as int + 0x100 * buffer[offset + 1] as int;
      Some(Scaled(raw, scale))
  }

  /** Writing a value and reading it back at the same offset gives the value,
      whatever surrounds it. */
  lemma DecodeValueReadsWhatWasWritten(prefix: seq<byte>, v: uint16, suffix: seq<byte>, scale: int)
    ensures DecodeValue(prefix + U16LE(v) + suffix, |prefix|, scale) == Some(Scaled(v, scale))
  {
    var buffer := prefix + U16LE(v) + suffix;
    assert buffer[|prefix|] == v % 0x100;
    assert buffer[|prefix| + 1] == v / 0x100;
  }

  /** What the source returns, `readUInt16LE(offset) / scale`: the first byte is the
      low one. */
  lemma DecodeValueIsQuotient(buffer: seq<byte>, offset: nat, scale: int)
    requires offset + 2 <= |buffer| && scale != 0
    ensures DecodeValue(buffer, offset, scale).Some?
    ensures DecodeValue(buffer, offset, scale).value.Value() ==
      (buffer[offset] as real + 256.0 * buffer[offset + 1] as real) / scale as real
  {
    var r := DecodeValue(buffer, offset, scale).value;
    var raw: int := buffer[offset] as int + 0x100 * buffer[offset + 1] as int;
    U16LEInjective(r.raw, raw);
  }

  /** Only the two bytes at the offset matter. */
  lemma DecodeValueIsLocal(buffer: seq<byte>, offset: nat, scale: int)
    requires offset + 2 <= |buffer|
    ensures DecodeValue(buffer, offset, scale) == DecodeValue(buffer[offset..offset + 2], 0, scale)
  {
  }

  /** Different values have different encodings. */
  lemma U16LEInjective(a: uint16, b: uint16)
    requires U16LE(a) == U16LE(b)
    ensures a == b
  {
    assert a == U16LE(a)[0] as int + 0x100 * U16LE(a)[1] as int;
  }
}
