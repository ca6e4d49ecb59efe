/**
 OSC packets as trees, and their canonical encoding (Open Sound Control 1.0 Specification,
 sections "OSC Packets", "OSC Messages", "OSC Type Tag String", "OSC Arguments", "OSC Bundles").
 */
module Osc {
  import opened Bytes

  /** One argument of a message. Floats are their bit patterns; arrays are bracketed by two marker arguments. */
  datatype Arg =
    | Bool(flag: bool)
    | Nil
    | Infinitum
    | Int32(i: i32)
    | Float(bits: u32)
    | Char(c: byte)
    | Rgba(color: u32)
    | Midi(midi: u32)
    | Int64(h: i64)
    | TimeTag(time: u64)
    | Double(wide: u64)
    | Str(text: seq<byte>)
    | Symbol(name: seq<byte>)
    | Blob(data: seq<byte>)
    | ArrayBegin
    | ArrayEnd

  datatype Packet =
    | Message(address: seq<byte>, args: seq<Arg>)
    | Bundle(timeTag: u64, elements: seq<Packet>)

  // ----- type tags (OscTypes.h, TypeTagValues)

  const COMMA: byte := ',' as int
  const HASH: byte := '#' as int
  const TRUE_TAG: byte := 'T' as int
  const FALSE_TAG: byte := 'F' as int
  const NIL_TAG: byte := 'N' as int
  const INFINITUM_TAG: byte := 'I' as int
  const INT32_TAG: byte := 'i' as int
  const FLOAT_TAG: byte := 'f' as int
  const CHAR_TAG: byte := 'c' as int
  const RGBA_TAG: byte := 'r' as int
  const MIDI_TAG: byte := 'm' as int
  const INT64_TAG: byte := 'h' as int
  const TIME_TAG: byte := 't' as int
  const DOUBLE_TAG: byte := 'd' as int
  const STRING_TAG: byte := 's' as int
  const SYMBOL_TAG: byte := 'S' as int
  const BLOB_TAG: byte := 'b' as int
  const ARRAY_BEGIN_TAG: byte := '[' as int
  const ARRAY_END_TAG: byte := ']' as int

  function Tag(a: Arg): (t: byte)
    ensures t != 0
  {
    match a
    case Bool(flag) => if flag then TRUE_TAG else FALSE_TAG
    case Nil => NIL_TAG
    case Infinitum => INFINITUM_TAG
    case Int32(_) => INT32_TAG
    case Float(_) => FLOAT_TAG
    case Char(_) => CHAR_TAG
    case Rgba(_) => RGBA_TAG
    case Midi(_) => MIDI_TAG
    case Int64(_) => INT64_TAG
    case TimeTag(_) => TIME_TAG
    case Double(_) => DOUBLE_TAG
    case Str(_) => STRING_TAG
    case Symbol(_) => SYMBOL_TAG
    case Blob(_) => BLOB_TAG
    case ArrayBegin => ARRAY_BEGIN_TAG
    case ArrayEnd => ARRAY_END_TAG
  }

  function Tags(args: seq<Arg>): (tags: seq<byte>)
    ensures |tags| == |args| && forall i :: 0 <= i < |tags| ==> tags[i] == Tag(args[i])
  {
    seq(|args|, i requires 0 <= i < |args| => Tag(args[i]))
  }

  // ----- argument payloads

  /** A string with its terminator and zero padding to a multiple of four. */
  function Text(s: seq<byte>): (t: seq<byte>)
    ensures |t| == Up4(|s| + 1) && s < t
  {
    s + Zeros(Up4(|s| + 1) - |s|)
  }

  /** A signed `char` is widened to 32 bits with its sign. */
  function CharWord(c: byte): (w: u32)
    ensures w % 256 == c
  {
    if c < 0x80 then c else 0xFFFF_FF00 + c
  }

  function Payload(a: Arg): (bytes: seq<byte>)
  {
    match a
    case Int32(i) => Bytes32(Word32(i))
    case Float(bits) => Bytes32(bits)
    case Char(c) => Bytes32(CharWord(c))
    case Rgba(color) => Bytes32(color)
    case Midi(midi) => Bytes32(midi)
    case Int64(h) => Bytes64(Word64(h))
    case TimeTag(time) => Bytes64(time)
    case Double(wide) => Bytes64(wide)
    case Str(text) => Text(text)
    case Symbol(name) => Text(name)
    case Blob(data) => Bytes32(|data|) + data + Zeros(Up4(|data|) - |data|)
    case _ => []
  }

  function Payloads(args: seq<Arg>): (bytes: seq<byte>)
  {
    if args == [] then [] else Payload(args[0]) + Payloads(args[1..])
  }

  // ----- messages and bundles

  /** The type tag string: comma, tags in insertion order, at least one NUL, padded to a multiple of four. */
  function TagBlock(tags: seq<byte>): (block: seq<byte>)
    ensures |block| == Up4(|tags| + 2)
  {
    [COMMA] + tags + Zeros(Up4(|tags| + 2) - |tags| - 1)
  }

  const BUNDLE_NAME: seq<byte> :=
    [HASH, 'b' as int, 'u' as int, 'n' as int, 'd' as int, 'l' as int, 'e' as int, 0]

  function BundleHeader(timeTag: u64): (header: seq<byte>)
    ensures |header| == 16
  {
    BUNDLE_NAME + Bytes64(timeTag)
  }

  function Encode(p: Packet): (bytes: seq<byte>)
    decreases p, 1
  {
    match p
    case Message(address, args) => Text(address) + TagBlock(Tags(args)) + Payloads(args)
    case Bundle(timeTag, elements) => BundleHeader(timeTag) + EncodeElements(elements)
  }

  /** Each element of a bundle is preceded by its size. */
  function EncodeElements(es: seq<Packet>): (bytes: seq<byte>)
    decreases es, 0
  {
    if es == [] then [] else Bytes32(|Encode(es[0])|) + Encode(es[0]) + EncodeElements(es[1..])
  }

  // ----- what a packet must satisfy to survive a round trip

  predicate NulFree(s: seq<byte>) {
    forall i :: 0 <= i < |s| ==> s[i] != 0
  }

  /** Brackets match, starting `level` arrays deep. */
  predicate Balanced(tags: seq<byte>, level: nat) {
    if tags == [] then level == 0
    else if tags[0] == ARRAY_BEGIN_TAG then Balanced(tags[1..], level + 1)
    else if tags[0] == ARRAY_END_TAG then level > 0 && Balanced(tags[1..], level - 1)
    else Balanced(tags[1..], level)
  }

  predicate LegalArg(a: Arg) {
    match a
    case Str(text) => NulFree(text)
    case Symbol(name) => NulFree(name)
    case Blob(data) => |data| <= MAX_ELEMENT_SIZE
    case _ => true
  }

  predicate LegalArgs(args: seq<Arg>) {
    forall i :: 0 <= i < |args| ==> LegalArg(args[i])
  }

  predicate LegalMessage(address: seq<byte>, args: seq<Arg>) {
    && NulFree(address)
    && LegalArgs(args)
    && Balanced(Tags(args), 0)
  }

  predicate Legal(p: Packet)
    decreases p
  {
    match p
    case Message(address, args) => LegalMessage(address, args) && (address != [] ==> address[0] != HASH)
    case Bundle(_, elements) => forall e :: e in elements ==> Legal(e)
  }

  /** Levels of bundle nesting: a message has none. */
  function Depth(p: Packet): nat
    decreases p, 1
  {
    match p
    case Message(_, _) => 0
    case Bundle(_, elements) => 1 + MaxDepth(elements)
  }

  function MaxDepth(es: seq<Packet>): nat
    decreases es, 0
  {
    if es == [] then 0
    else if Depth(es[0]) > MaxDepth(es[1..]) then Depth(es[0]) else MaxDepth(es[1..])
  }

  /** The messages of a packet in depth-first order. */
  function Messages(p: Packet): seq<Packet>
    decreases p, 1
  {
    match p
    case Message(_, _) => [p]
    case Bundle(_, elements) => MessagesOf(elements)
  }

  function MessagesOf(es: seq<Packet>): seq<Packet>
    decreases es, 0
  {
    if es == [] then [] else Messages(es[0]) + MessagesOf(es[1..])
  }

  // ----- lengths and appending

  lemma {:induction false} PayloadsAppend(args: seq<Arg>, a: Arg)
    ensures Payloads(args + [a]) == Payloads(args) + Payload(a)
  {
    hide Payload;
    if args == [] {
      assert Payloads([a]) == Payload(a) + Payloads([a][1..]);
    } else {
      assert (args + [a])[1..] == args[1..] + [a];
      PayloadsAppend(args[1..], a);
    }
  }

  lemma TextAligned(s: seq<byte>)
    ensures Aligned(|Text(s)|)
  {
    Up4Aligned(|s| + 1);
  }

  lemma PayloadAligned(a: Arg)
    ensures Aligned(|Payload(a)|)
  {
    hide Bytes32, Bytes64, Up4, Text;
    match a
    case Str(text) => TextAligned(text);
    case Symbol(name) => TextAligned(name);
    case Blob(data) =>
      Up4Aligned(|data|);
      AlignedSum(4, Up4(|data|));
      assert |Payload(a)| == 4 + Up4(|data|);
    case _ =>
  }

  lemma {:induction false} PayloadsAligned(args: seq<Arg>)
    ensures Aligned(|Payloads(args)|)
  {
    hide Payload;
    if args != [] {
      PayloadAligned(args[0]);
      PayloadsAligned(args[1..]);
      AlignedSum(|Payload(args[0])|, |Payloads(args[1..])|);
    }
  }

  lemma {:induction false} EncodeAligned(p: Packet)
    ensures Aligned(|Encode(p)|) && |Encode(p)| >= 8
    decreases p, 1
  {
    hide Payloads, Up4, Text, TagBlock, BundleHeader, Tags;
    match p
    case Message(address, args) =>
      TextAligned(address);
      Up4Aligned(|Tags(args)| + 2);
      PayloadsAligned(args);
      AlignedSum(|Text(address)|, |TagBlock(Tags(args))|);
      AlignedSum(|Text(address)| + |TagBlock(Tags(args))|, |Payloads(args)|);
    case Bundle(timeTag, elements) =>
      EncodeElementsAligned(elements);
  }

  lemma {:induction false} EncodeElementsAligned(es: seq<Packet>)
    ensures Aligned(|EncodeElements(es)|)
    decreases es, 0
  {
    hide Bytes32, Encode;
    if es != [] {
      EncodeAligned(es[0]);
      EncodeElementsAligned(es[1..]);
    }
  }
}
