/**
 The client's wire decoder: one opcode byte, then a fixed payload chosen by the
 opcode. Opcode 2 is an absolute command with three unsigned bytes; any other
 opcode is a relative command with three `(hi, lo)` byte pairs, each combined
 with Java's `hi << 8 | lo` on sign-extended bytes. Running out of bytes part
 way through a command is the end-of-stream exception: no command results.

 The encoder writes what the server sends: opcode 2 and three unsigned bytes,
 or opcode 1 and three big-endian 16-bit two's-complement deltas. The
 round-trip lemmas are stated against it.
 */
module Decoder {
  import opened Options
  import opened JavaInt
  import opened Commands

  /** The opcode of an absolute command, compared against the signed byte read. */
  const AbsoluteOpcode: int := 2

  /** A value read from the stream together with the bytes that follow it. */
  datatype Got<+T> = Got(value: T, rest: seq<Byte>)

  /** `readByte`: the next byte, or end of stream. */
  function ReadByte(s: seq<Byte>): (o: Option<Got<Byte>>)
    ensures o.None? <==> |s| == 0
    ensures o.Some? ==> [o.value.value] + o.value.rest == s
  {
    if |s| == 0 then None else Some(Got(s[0], s[1..]))
  }

  /** `readUnsignedByte`: the next byte as a value in [0, 255]. */
  function ReadUnsignedByte(s: seq<Byte>): (o: Option<Got<int>>)
    ensures o.Some? <==> |s| >= 1
    ensures o.Some? ==> 0 <= o.value.value <= 255 && o.value.value == s[0]
    ensures o.Some? ==> o.value.rest == s[1..]
  {
    var b :- ReadByte(s);
    Some(Got(b.value, b.rest))
  }

  /** `readByte() << 8 | readByte()`: two bytes read in order, combined as Java
      combines two `byte` operands. The result is the closed form `ShiftOrValue`. */
  function ReadShiftOr(s: seq<Byte>): (o: Option<Got<int>>)
    ensures o.Some? <==> |s| >= 2
    ensures o.Some? ==> o.value.value == ShiftOrValue(s[0], s[1]) && o.value.rest == s[2..]
  {
    var hi :- ReadByte(s);
    var lo :- ReadByte(hi.rest);
    ShiftOrIsClosedForm(hi.value, lo.value);
    Some(Got(ToInt(ShiftOr(hi.value, lo.value)), lo.rest))
  }

  /** Bytes one command occupies on the wire, opcode included (one byte when the
      stream is empty: the opcode itself is missing). */
  function FrameLength(s: seq<Byte>): nat {
    if |s| == 0 then 1 else if s[0] == 0x02 then 4 else 7
  }

  /** One iteration of the client's read loop. A decoded command is not yet
      selected: selection is set when it is put into the log. */
  function Decode(s: seq<Byte>): (d: Option<Got<Command>>)
    ensures d.None? <==> |s| < FrameLength(s)
    ensures d.Some? ==> d.value.rest == s[FrameLength(s)..]
    ensures d.Some? ==> d.value.value.absolute == (s[0] == 0x02)
    ensures d.Some? ==> !d.value.value.selected && Decodable(d.value.value)
  {
    var op :- ReadByte(s);
    if Signed(op.value) == AbsoluteOpcode then
      var r :- ReadUnsignedByte(op.rest);
      var g :- ReadUnsignedByte(r.rest);
      var b :- ReadUnsignedByte(g.rest);
      Some(Got(Command(true, r.value, g.value, b.value, false), b.rest))
    else
      var r :- ReadShiftOr(op.rest);
      var g :- ReadShiftOr(r.rest);
      var b :- ReadShiftOr(g.rest);
      Some(Got(Command(false, r.value, g.value, b.value, false), b.rest))
  }

  /** The values of a decoded command: an absolute command's channels are the
      three bytes after the opcode read unsigned; a relative command's are the
      three `hi << 8 | lo` pairs after it. */
  lemma DecodeValues(s: seq<Byte>)
    requires Decode(s).Some?
    ensures Decode(s).value.value.absolute ==>
      ValuesOf(Decode(s).value.value) == Color(s[1], s[2], s[3])
    ensures !Decode(s).value.value.absolute ==>
      ValuesOf(Decode(s).value.value) == Color(ShiftOrValue(s[1], s[2]), ShiftOrValue(s[3], s[4]), ShiftOrValue(s[5], s[6]))
  {
  }

  /** Every decoded command consumes at least four bytes, so the read loop
      always makes progress. */
  lemma DecodeConsumes(s: seq<Byte>)
    requires Decode(s).Some?
    ensures |Decode(s).value.rest| <= |s| - 4
  {
  }

  // ---------------------------------------------------------------------------
  // The encoder (the server's side of the wire format)

  /** An absolute command as the server packs it: opcode 2, then r, g, b as
      unsigned bytes. */
  function EncodeAbsolute(c: Color): (s: seq<Byte>)
    requires ColorWithin(c, 0, 255)
    ensures |s| == 4 && s[0] == 0x02
  {
    [0x02, c.r, c.g, c.b]
  }

  /** A big-endian 16-bit two's-complement integer. */
  function Int16Bytes(d: int): (s: seq<Byte>)
    requires -0x8000 <= d <= 0x7FFF
    ensures |s| == 2
  {
    var u := d % 0x1_0000;
    [u / 0x100, u % 0x100]
  }

  /** The value a big-endian 16-bit signed pair denotes. */
  function Int16Value(hi: Byte, lo: Byte): int {
    Signed(hi) * 0x100 + lo
  }

  /** A relative command as the server packs it: opcode 1, then the three
      deltas as big-endian 16-bit two's-complement integers. */
  function EncodeRelative(c: Color): (s: seq<Byte>)
    requires ColorWithin(c, -0x8000, 0x7FFF)
    ensures |s| == 7 && s[0] == 0x01
  {
    [0x01] + Int16Bytes(c.r) + Int16Bytes(c.g) + Int16Bytes(c.b)
  }

  /** `Int16Bytes` and `Int16Value` are inverse on the 16-bit range. */
  lemma Int16RoundTrip(d: int)
    requires -0x8000 <= d <= 0x7FFF
    ensures Int16Value(Int16Bytes(d)[0], Int16Bytes(d)[1]) == d
  {
    var u := d % 0x1_0000;
    assert 0 <= u < 0x1_0000;
    if d >= 0 {
      assert u == d;
    } else {
      assert u == d + 0x1_0000;
    }
  }

  /** Java's `hi << 8 | lo` agrees with the 16-bit signed reading of the pair
      exactly when `lo` is below 0x80 or `hi` is 0xFF. */
  lemma ShiftOrAgreesWithInt16(hi: Byte, lo: Byte)
    ensures ShiftOrValue(hi, lo) == Int16Value(hi, lo) <==> (lo < 0x80 || hi == 0xFF)
  {
    if lo >= 0x80 && ShiftOrValue(hi, lo) == Int16Value(hi, lo) {
      assert Signed(hi) * 0x100 == -0x100;
    }
  }

  /** The deltas the relative decoder reproduces: those whose low byte is below
      0x80, and the negatives down to -256 (high byte 0xFF). */
  predicate DecodesExactly(d: int) {
    -0x100 <= d < 0 || (d % 0x100 < 0x80 && -0x8000 <= d <= 0x7FFF)
  }

  /** A 16-bit delta survives encoding and decoding exactly when `DecodesExactly`
      holds of it. */
  lemma DeltaRoundTrip(d: int)
    requires -0x8000 <= d <= 0x7FFF
    ensures ShiftOrValue(Int16Bytes(d)[0], Int16Bytes(d)[1]) == d <==> DecodesExactly(d)
  {
    var bytes := Int16Bytes(d);
    var u := d % 0x1_0000;
    Int16RoundTrip(d);
    ShiftOrAgreesWithInt16(bytes[0], bytes[1]);
    assert bytes[1] == u % 0x100;
    assert u % 0x100 == d % 0x100 by {
      assert u == d || u == d + 0x1_0000;
    }
    assert bytes[0] == 0xFF <==> -0x100 <= d < 0 by {
      assert bytes[0] == u / 0x100;
      if d >= 0 {
        assert u == d;
      } else {
        assert u == d + 0x1_0000;
      }
    }
  }

  /** A value the relative decoder gets wrong: the server's delta 128 arrives
      as -128. */
  lemma DeltaMisdecoded()
    ensures Int16Bytes(128) == [0x00, 0x80]
    ensures ShiftOrValue(0x00, 0x80) == -128
    ensures !DecodesExactly(128)
  {
  }

  /** An absolute command decodes to its own values and leaves the rest of the
      stream untouched. */
  lemma AbsoluteRoundTrip(c: Color, rest: seq<Byte>)
    requires ColorWithin(c, 0, 255)
    ensures Decode(EncodeAbsolute(c) + rest) == Some(Got(Command(true, c.r, c.g, c.b, false), rest))
  {
    var s := EncodeAbsolute(c) + rest;
    assert s[4..] == rest;
  }

  /** A relative command whose deltas all satisfy `DecodesExactly` decodes to
      its own deltas and leaves the rest of the stream untouched. */
  lemma RelativeRoundTrip(c: Color, rest: seq<Byte>)
    requires DecodesExactly(c.r) && DecodesExactly(c.g) && DecodesExactly(c.b)
    ensures ColorWithin(c, -0x8000, 0x7FFF)
    ensures Decode(EncodeRelative(c) + rest) == Some(Got(Command(false, c.r, c.g, c.b, false), rest))
  {
    var s := EncodeRelative(c) + rest;
    var r, g, b := Int16Bytes(c.r), Int16Bytes(c.g), Int16Bytes(c.b);
    assert s[1] == r[0] && s[2] == r[1];
    assert s[3] == g[0] && s[4] == g[1];
    assert s[5] == b[0] && s[6] == b[1];
    assert s[7..] == rest;
    DeltaRoundTrip(c.r);
    DeltaRoundTrip(c.g);
    DeltaRoundTrip(c.b);
    var d := Decode(s);
    assert d.Some? && d.value.rest == rest;
    assert ValuesOf(d.value.value) == c;
  }

  /** The deltas the server draws, in [-10, 10], all decode exactly. */
  lemma ServerDeltasDecodeExactly(d: int)
    requires -10 <= d <= 10
    ensures DecodesExactly(d)
  {
  }
}
