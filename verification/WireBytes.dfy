/**
 The wire format, byte for byte: the numbers and letters that writer and reader could otherwise agree to
 get wrong together (Open Sound Control 1.0 Specification; osctap/osc/OscTypes.h).
 */
module WireBytes {
  import opened Bytes
  import opened Osc

  /** The most significant byte comes first. */
  lemma BigEndian(a: byte, b: byte, c: byte, d: byte)
    ensures Bytes32((a as int) * 0x100_0000 + (b as int) * 0x1_0000 + (c as int) * 0x100 + d) == [a, b, c, d]
    ensures Load32([a, b, c, d], 0) == (a as int) * 0x100_0000 + (b as int) * 0x1_0000 + (c as int) * 0x100 + d
  {
    Digits(a, b, c, d);
  }

  /** A `char` is written as the signed number it is, in 32 bits. */
  lemma CharIsSigned(c: byte)
    ensures |Payload(Char(c))| == 4
    ensures Load32(Payload(Char(c)), 0) == (if c < 128 then c else c as int - 256) % 0x1_0000_0000
  {
    hide Bytes32, Load32;
    var w := CharWord(c);
    assert Payload(Char(c))[0..4] == Bytes32(w);
    LoadStored32(Payload(Char(c)), 0, w);
  }

  /** What follows a string or a blob up to the next multiple of four is NUL, and at least one NUL ends a string. */
  lemma PaddedWithNul(s: seq<byte>)
    ensures |s| < |Text(s)| <= |s| + 4 && Aligned(|Text(s)|) && s < Text(s)
    ensures forall i :: |s| <= i < |Text(s)| ==> Text(s)[i] == 0
    ensures var b := Payload(Blob(s));
            && |s| + 4 <= |b| < |s| + 8 && Aligned(|b|)
            && b[..4] == Bytes32(|s|) && b[4..4 + |s|] == s
            && forall i :: |s| + 4 <= i < |b| ==> b[i] == 0
  {
    hide Bytes32, Up4;
    Up4Aligned(|s| + 1);
    Up4Aligned(|s|);
    AlignedSum(4, Up4(|s|));
  }

  /** The largest multiple of four in an `int32_t`. */
  lemma LargestSize(n: i32)
    ensures Aligned(MAX_ELEMENT_SIZE) && MAX_ELEMENT_SIZE < 0x8000_0000
    ensures Aligned(n) ==> n <= MAX_ELEMENT_SIZE
  {
  }

  // ----- the type tags and data of every kind of argument

  lemma WordsOnTheWire()
    ensures Tag(Int32(-2)) == 'i' as int && Payload(Int32(-2)) == [255, 255, 255, 254]
    ensures Tag(Float(0x3F80_0000)) == 'f' as int && Payload(Float(0x3F80_0000)) == [0x3F, 0x80, 0, 0]
    ensures Tag(Rgba(0x0102_0304)) == 'r' as int && Payload(Rgba(0x0102_0304)) == [1, 2, 3, 4]
    ensures Tag(Midi(0x9040_7F00)) == 'm' as int && Payload(Midi(0x9040_7F00)) == [0x90, 0x40, 0x7F, 0]
  {
    BigEndian(255, 255, 255, 254);
    BigEndian(0x3F, 0x80, 0, 0);
    BigEndian(1, 2, 3, 4);
    BigEndian(0x90, 0x40, 0x7F, 0);
    hide Bytes32, Load32;
  }

  lemma CharsOnTheWire()
    ensures Tag(Char(0x61)) == 'c' as int && Payload(Char(0x61)) == [0, 0, 0, 0x61]
    ensures Tag(Char(0xE9)) == 'c' as int && Payload(Char(0xE9)) == [255, 255, 255, 0xE9]
  {
    BigEndian(0, 0, 0, 0x61);
    BigEndian(255, 255, 255, 0xE9);
    hide Bytes32, Load32;
  }

  /** Only the low 32 bits count. */
  lemma LowWord(x: nat)
    ensures Bytes32(x) == Bytes32(x % 0x1_0000_0000)
  {
    hide Bytes32, Load32;
    var s := Bytes32(x);
    assert s[0..4] == s;
    LoadStored32(s, 0, x);
    StoreLoaded32(s, 0);
  }

  lemma WideOnTheWire(a: byte, b: byte, c: byte, d: byte, e: byte, f: byte, g: byte, h: byte)
    ensures var high := (a as int) * 0x100_0000 + (b as int) * 0x1_0000 + (c as int) * 0x100 + d;
            var low := (e as int) * 0x100_0000 + (f as int) * 0x1_0000 + (g as int) * 0x100 + h;
            Bytes64(high * 0x1_0000_0000 + low) == [a, b, c, d, e, f, g, h]
  {
    var high: nat := (a as int) * 0x100_0000 + (b as int) * 0x1_0000 + (c as int) * 0x100 + d;
    var low: nat := (e as int) * 0x100_0000 + (f as int) * 0x1_0000 + (g as int) * 0x100 + h;
    var x := high * 0x1_0000_0000 + low;
    assert x / 0x1_0000_0000 == high && x % 0x1_0000_0000 == low;
    BigEndian(a, b, c, d);
    BigEndian(e, f, g, h);
    LowWord(x);
    hide Bytes32, Load32;
  }

  lemma WidesOnTheWire()
    ensures Tag(Int64(-2)) == 'h' as int && Payload(Int64(-2)) == [255, 255, 255, 255, 255, 255, 255, 254]
    ensures Tag(TimeTag(0x0102_0304_0506_0708)) == 't' as int
    ensures Payload(TimeTag(0x0102_0304_0506_0708)) == [1, 2, 3, 4, 5, 6, 7, 8]
    ensures Tag(Double(0x3FF0_0000_0000_0001)) == 'd' as int
    ensures Payload(Double(0x3FF0_0000_0000_0001)) == [0x3F, 0xF0, 0, 0, 0, 0, 0, 1]
  {
    hide Bytes64;
    WideOnTheWire(255, 255, 255, 255, 255, 255, 255, 254);
    WideOnTheWire(1, 2, 3, 4, 5, 6, 7, 8);
    WideOnTheWire(0x3F, 0xF0, 0, 0, 0, 0, 0, 1);
  }

  lemma StringsOnTheWire()
    ensures Tag(Str([0x68, 0x69])) == 's' as int && Payload(Str([0x68, 0x69])) == [0x68, 0x69, 0, 0]
    ensures Tag(Symbol([1, 2, 3, 4])) == 'S' as int && Payload(Symbol([1, 2, 3, 4])) == [1, 2, 3, 4, 0, 0, 0, 0]
  {
    assert Up4(3) == 4 && Up4(5) == 8;
    hide Up4;
  }

  lemma BlobOnTheWire()
    ensures Tag(Blob([9])) == 'b' as int && Payload(Blob([9])) == [0, 0, 0, 1, 9, 0, 0, 0]
  {
    assert Up4(1) == 4;
    BigEndian(0, 0, 0, 1);
    hide Up4, Bytes32, Load32;
  }

  lemma MarksOnTheWire()
    ensures Tag(Bool(true)) == 'T' as int && Tag(Bool(false)) == 'F' as int
    ensures Tag(Nil) == 'N' as int && Tag(Infinitum) == 'I' as int
    ensures Tag(ArrayBegin) == '[' as int && Tag(ArrayEnd) == ']' as int
    ensures forall a :: a in {Bool(true), Bool(false), Nil, Infinitum, ArrayBegin, ArrayEnd} ==> Payload(a) == []
  {
  }

  // ----- a bundle with a message, byte for byte

  const MESSAGE_BYTES: seq<byte> :=
    [0x2F, 0x61, 0, 0] + [0x2C, 0x63, 0x73, 0x62, 0x54, 0, 0, 0]
    + ([0, 0, 0, 0x61] + ([0x68, 0x69, 0, 0] + [0, 0, 0, 1, 9, 0, 0, 0]))

  /** The message "/a" with 'a', "hi", a blob of one byte, and true. */
  lemma MessageOnTheWire()
    ensures Encode(Message([0x2F, 0x61], [Char(0x61), Str([0x68, 0x69]), Blob([9]), Bool(true)])) == MESSAGE_BYTES
  {
    CharsOnTheWire();
    StringsOnTheWire();
    BlobOnTheWire();
    MarksOnTheWire();
    var args := [Char(0x61), Str([0x68, 0x69]), Blob([9]), Bool(true)];
    assert Text([0x2F, 0x61]) == [0x2F, 0x61, 0, 0];
    assert Tags(args) == [0x63, 0x73, 0x62, 0x54];
    assert TagBlock([0x63, 0x73, 0x62, 0x54]) == [0x2C, 0x63, 0x73, 0x62, 0x54, 0, 0, 0];
    hide Text, Tags, TagBlock, Payload, Tag, Up4;
    FourPayloads(args);
  }

  lemma FourPayloads(args: seq<Arg>)
    requires |args| == 4
    ensures Payloads(args) == Payload(args[0]) + (Payload(args[1]) + (Payload(args[2]) + Payload(args[3])))
  {
    hide Payload;
    assert args[1..][1..] == args[2..] && args[2..][1..] == args[3..] && args[3..][1..] == [];
    assert Payloads(args[3..]) == Payload(args[3]) + Payloads([]) == Payload(args[3]);
    assert Payloads(args[2..]) == Payload(args[2]) + Payloads(args[3..]);
    assert Payloads(args[1..]) == Payload(args[1]) + Payloads(args[2..]);
  }

  lemma BundleOnTheWire(message: Packet)
    requires Encode(message) == MESSAGE_BYTES
    ensures Encode(Bundle(0x0102_0304_0506_0708, [message])) ==
            ['#' as int, 'b' as int, 'u' as int, 'n' as int, 'd' as int, 'l' as int, 'e' as int, 0]
            + [1, 2, 3, 4, 5, 6, 7, 8] + ([0, 0, 0, 28] + MESSAGE_BYTES)
  {
    WidesOnTheWire();
    BigEndian(0, 0, 0, 28);
    OneElement(message);
    assert |MESSAGE_BYTES| == 28;
    hide Bytes32, Bytes64, Load32, Encode, EncodeElements, MESSAGE_BYTES;
    assert Encode(Bundle(0x0102_0304_0506_0708, [message])) ==
           BUNDLE_NAME + [1, 2, 3, 4, 5, 6, 7, 8] + ([0, 0, 0, 28] + MESSAGE_BYTES);
  }

  lemma OneElement(p: Packet)
    ensures EncodeElements([p]) == Bytes32(|Encode(p)|) + Encode(p)
  {
    hide Bytes32, Encode;
    assert [p][1..] == [];
    assert EncodeElements([p]) == Bytes32(|Encode(p)|) + Encode(p) + [];
  }
}
