/**
 Writing and reading are inverse: what the serializer leaves in its buffer for a packet tree parses
 back to that tree exactly if the tree is legal, and what parses is legal. Re-encoding an accepted message
 loses nothing the readers can see but one thing: the value of a non-zero integer address pattern.
 */
module RoundTrip {
  import opened Bytes
  import opened Osc
  import OutboundSpec
  import OutboundTheorems
  import opened MessageFormat
  import opened MessageReading
  import opened PacketFormat

  /** `t` stands in `m` at `p`. */
  predicate StandsAt(m: seq<byte>, p: nat, t: seq<byte>) {
    p + |t| <= |m| && m[p..p + |t|] == t
  }

  lemma StandsInside(m: seq<byte>, p: nat, a: seq<byte>, b: seq<byte>)
    requires StandsAt(m, p, a + b)
    ensures StandsAt(m, p, a) && StandsAt(m, p + |a|, b)
  {
    assert m[p..p + |a|] == m[p..p + |a + b|][..|a|];
    assert m[p + |a|..p + |a| + |b|] == m[p..p + |a + b|][|a|..];
  }

  // ----- strings

  lemma {:induction false} TextIsBlocks(s: seq<byte>)
    requires NulFree(s)
    ensures IsBlocks(Text(s))
    decreases |s|
  {
    var t := Text(s);
    if |s| < 4 {
      assert Up4(|s| + 1) == 4;
    } else {
      Up4Aligned(|s| - 4 + 1);
      assert t[3] == s[3];
      assert t[4..] == Text(s[4..]);
      TextIsBlocks(s[4..]);
    }
  }

  lemma TextIsStr4(s: seq<byte>)
    requires NulFree(s)
    ensures IsStr4(Text(s))
  {
    hide IsBlocks;
    TextIsBlocks(s);
    BlocksLong(Text(s));
  }

  lemma BlocksLong(s: seq<byte>)
    requires IsBlocks(s)
    ensures |s| >= 4
  {
  }

  /** A stored string is found whole, wherever it stands. */
  lemma TextReads(m: seq<byte>, p: nat, s: seq<byte>)
    requires StandsAt(m, p, Text(s)) && NulFree(s)
    ensures Str4End(m, p) == Some(p + |Text(s)|)
    ensures CString(m, p) == s
  {
    hide IsStr4, Str4End, CString, Up4;
    var t := Text(s);
    TextIsStr4(s);
    Str4EndIsStr4(m, p, p + |t|);
    assert m[p..p + |s|] == m[p..p + |t|][..|s|] == s;
    assert m[p + |s|] == m[p..p + |t|][|s|] == t[|s|] == 0;
    CStringIs(m, p, s);
  }

  // ----- arguments

  lemma WordReads(m: seq<byte>, p: nat, w: u32)
    requires StandsAt(m, p, Bytes32(w))
    ensures Load32(m, p) == w
  {
    hide Bytes32, Load32;
    LoadStored32(m, p, w);
  }

  lemma WideReads(m: seq<byte>, p: nat, w: u64)
    requires StandsAt(m, p, Bytes64(w))
    ensures Load64(m, p) == w
  {
    hide Bytes64, Load64;
    LoadStored64(m, p, w);
  }

  lemma SignsRestored(i: i32, h: i64)
    ensures Signed32(Word32(i)) == i && Signed64(Word64(h)) == h
  {
  }

  lemma BlobReads(m: seq<byte>, p: nat, data: seq<byte>)
    requires StandsAt(m, p, Payload(Blob(data))) && |data| <= MAX_ELEMENT_SIZE
    ensures p + 4 <= |m| && Load32(m, p) == |data|
    ensures ArgumentEnd(m, BLOB_TAG, p) == Ok(p + |Payload(Blob(data))|)
    ensures m[p + 4..p + 4 + |data|] == data
  {
    hide Bytes32, Load32, Up4, Zeros, StandsAt;
    var padding := Zeros(Up4(|data|) - |data|);
    BlobParts(data);
    StandsInside(m, p, Bytes32(|data|), data + padding);
    StandsInside(m, p + 4, data, padding);
    WordReads(m, p, |data|);
    StandsThere(m, p, Payload(Blob(data)));
    StandsThere(m, p + 4, data);
  }

  lemma BlobParts(data: seq<byte>)
    ensures Payload(Blob(data)) == Bytes32(|data|) + (data + Zeros(Up4(|data|) - |data|))
    ensures |Payload(Blob(data))| == 4 + Up4(|data|)
  {
    hide Bytes32, Up4;
  }

  lemma StandsThere(m: seq<byte>, p: nat, t: seq<byte>)
    requires StandsAt(m, p, t)
    ensures p + |t| <= |m| && m[p..p + |t|] == t
  {
  }

  /** A stored argument reads back as itself. */
  lemma PayloadReads(m: seq<byte>, p: nat, a: Arg)
    requires StandsAt(m, p, Payload(a)) && LegalArg(a)
    ensures ArgumentEnd(m, Tag(a), p) == Ok(p + |Payload(a)|)
    ensures ArgumentAt(m, Tag(a), p) == a
  {
    hide Bytes32, Bytes64, Load32, Load64, Up4, Text, Zeros, Str4End, CString, Signed32, Signed64, Word32, Word64;
    match a
    case Int32(i) =>
      WordReads(m, p, Word32(i));
      SignsRestored(i, 0);
    case Float(bits) => WordReads(m, p, bits);
    case Char(c) => WordReads(m, p, CharWord(c));
    case Rgba(color) => WordReads(m, p, color);
    case Midi(midi) => WordReads(m, p, midi);
    case Int64(h) =>
      WideReads(m, p, Word64(h));
      SignsRestored(0, h);
    case TimeTag(time) => WideReads(m, p, time);
    case Double(wide) => WideReads(m, p, wide);
    case Str(text) => TextReads(m, p, text);
    case Symbol(name) => TextReads(m, p, name);
    case Blob(data) => BlobReads(m, p, data);
    case _ =>
  }

  lemma {:induction false} PayloadsRead(m: seq<byte>, p: nat, args: seq<Arg>)
    requires StandsAt(m, p, Payloads(args)) && LegalArgs(args)
    ensures AllFit(m, Tags(args), p) && ArgumentsAt(m, Tags(args), p) == args
    decreases |args|
  {
    hide Payload, Tag, ArgumentEnd, ArgumentAt, LegalArg;
    if args != [] {
      StandsInside(m, p, Payload(args[0]), Payloads(args[1..]));
      PayloadReads(m, p, args[0]);
      assert Tags(args)[1..] == Tags(args[1..]);
      PayloadsRead(m, p + |Payload(args[0])|, args[1..]);
      assert args == [args[0]] + args[1..];
    }
  }

  // ----- messages

  /** A type tag string is the string ",tags". */
  lemma TagBlockIsText(tags: seq<byte>)
    ensures TagBlock(tags) == Text([COMMA] + tags)
  {
    hide Up4;
    assert |[COMMA] + tags| + 1 == |tags| + 2;
  }

  /** The data for `tags` at `a` are `args`. */
  predicate ArgumentsStand(m: seq<byte>, tags: seq<byte>, a: nat, args: seq<Arg>) {
    a <= |m| && AllFit(m, tags, a) && ArgumentsAt(m, tags, a) == args
  }

  lemma BodyReads(m: seq<byte>, t: nat, args: seq<Arg>)
    requires StandsAt(m, t, TagBlock(Tags(args)) + Payloads(args))
    requires LegalArgs(args) && Balanced(Tags(args), 0)
    ensures CheckBody(m, t).Ok?
    ensures args == [] ==> CheckBody(m, t) == Ok(Bare)
    ensures args != [] ==>
              && CheckBody(m, t) == Ok(Tagged(t + 1, Tags(args), t + |TagBlock(Tags(args))|))
              && ArgumentsStand(m, Tags(args), t + |TagBlock(Tags(args))|, args)
  {
    hide Up4, TagBlock, Payloads, Text, Str4End, CString, CheckTags, AllFit, Balanced, LegalArg;
    var tags := Tags(args);
    var a := t + |TagBlock(tags)|;
    StandsInside(m, t, TagBlock(tags), Payloads(args));
    TagBlockIsText(tags);
    TextReads(m, t, [COMMA] + tags);
    CStringRest(m, t, tags);
    PayloadsRead(m, a, args);
    CheckTagsSplits(m, tags, a, 0);
  }

  lemma CStringRest(m: seq<byte>, t: nat, tags: seq<byte>)
    requires t < |m| && CString(m, t) == [COMMA] + tags
    ensures m[t] == COMMA && CString(m, t + 1) == tags
    ensures tags == [] ==> t + 1 >= |m| || m[t + 1] == 0
    ensures tags != [] ==> t + 1 < |m| && m[t + 1] != 0
  {
    assert CString(m, t)[0] == COMMA;
    assert CString(m, t)[1..] == tags;
  }

  /** A legal message within the size limit parses back to itself. */
  lemma MessageReads(address: seq<byte>, args: seq<Arg>)
    requires LegalMessage(address, args)
    requires |Encode(Message(address, args))| <= MAX_ELEMENT_SIZE
    ensures ParseMessage(Encode(Message(address, args))) == Ok(Message(address, args))
  {
    hide Up4, TagBlock, Payloads, Text, Str4End, CString, CheckBody, LegalArg, Balanced, Tags, AllFit, ArgumentsAt;
    var m := Encode(Message(address, args));
    var body := TagBlock(Tags(args)) + Payloads(args);
    assert m == Text(address) + body;
    assert m[0..0 + |m|] == m;
    EncodeAligned(Message(address, args));
    StandsInside(m, 0, Text(address), body);
    TextReads(m, 0, address);
    BodyReads(m, |Text(address)|, args);
  }

  // ----- packets

  lemma FirstByte(address: seq<byte>, args: seq<Arg>)
    requires address != [] ==> address[0] != HASH
    ensures !IsBundleData(Encode(Message(address, args)))
  {
    hide Up4, TagBlock, Payloads, Tags;
    var m := Encode(Message(address, args));
    if address == [] {
      assert m[0] == Text(address)[0] == 0;
    } else {
      assert m[0] == Text(address)[0] == address[0];
    }
  }

  function EncodeAll(es: seq<Packet>): (all: seq<seq<byte>>)
    ensures |all| == |es| && forall i :: 0 <= i < |es| ==> all[i] == Encode(es[i])
  {
    seq(|es|, i requires 0 <= i < |es| => Encode(es[i]))
  }

  lemma {:induction false} ElementsAreFramed(es: seq<Packet>)
    ensures EncodeElements(es) == Framed(EncodeAll(es))
    ensures AllAligned(EncodeAll(es))
    decreases |es|
  {
    hide Encode, Bytes32, Aligned;
    forall e | e in EncodeAll(es) ensures Aligned(|e|) {
      var i :| 0 <= i < |es| && EncodeAll(es)[i] == e;
      EncodeAligned(es[i]);
    }
    if es != [] {
      ElementsAreFramed(es[1..]);
      assert EncodeAll(es)[1..] == EncodeAll(es[1..]);
    }
  }

  lemma BundleReads(timeTag: u64, es: seq<Packet>)
    requires |Encode(Bundle(timeTag, es))| <= MAX_ELEMENT_SIZE
    ensures var b := Encode(Bundle(timeTag, es));
            IsBundleData(b) && CheckBundle(b) == Ok(EncodeAll(es)) && |b| >= 16 && Load64(b, 8) == timeTag
  {
    hide Bytes64, Load64, EncodeElements, Framed, Aligned, ElementsFrom, AllAligned, CheckBundle;
    var b := Encode(Bundle(timeTag, es));
    EncodeAligned(Bundle(timeTag, es));
    ElementsAreFramed(es);
    assert b[..8] == BUNDLE_NAME && b[0] == BUNDLE_NAME[0];
    assert b[8..8 + 8] == Bytes64(timeTag);
    assert b[16..] == EncodeElements(es);
    BundleIffFramed(b, EncodeAll(es));
    WideReads(b, 8, timeTag);
  }

  /** What is written for a legal packet, read in full, is that packet: same tree, values and order. */
  lemma {:induction false} ContentsRead(p: Packet)
    requires Legal(p) && |Encode(p)| <= MAX_ELEMENT_SIZE
    ensures ReadContents(Encode(p)) == Ok(p)
    decreases p, 1
  {
    hide Encode, ParseMessage, ReadElements, CheckBundle, LegalMessage;
    match p
    case Message(address, args) =>
      FirstByte(address, args);
      MessageReads(address, args);
    case Bundle(timeTag, es) =>
      BundleReads(timeTag, es);
      BundleElementsSmaller(Encode(p));
      ElementsRead(es, |Encode(p)|);
  }

  lemma {:induction false} ElementsRead(es: seq<Packet>, limit: nat)
    requires forall e :: e in es ==> Legal(e)
    requires limit <= MAX_ELEMENT_SIZE && forall e :: e in EncodeAll(es) ==> |e| < limit
    ensures ReadElements(EncodeAll(es), limit) == Ok(es)
    decreases es, 0
  {
    hide Encode, ReadContents, Legal;
    if es != [] {
      assert EncodeAll(es)[0] == Encode(es[0]);
      assert EncodeAll(es)[1..] == EncodeAll(es[1..]);
      ContentsRead(es[0]);
      ElementsRead(es[1..], limit);
      assert es == [es[0]] + es[1..];
    }
  }

  // ----- normalisation

  lemma CStringFits(m: seq<byte>, p: nat)
    requires Str4End(m, p).Some? && Aligned(|m| - p)
    ensures |Text(CString(m, p))| <= Str4End(m, p).value - p
  {
    hide CString, Scan4;
    var q := Str4End(m, p).value;
    Str4Aligned(m, p);
    AlignedDifference(|m| - p, |m| - q);
    if m[p] == 0 {
      CStringStops(m, p, p);
    } else {
      ScanEndsInNul(m, p);
      CStringStops(m, p, q - 1);
    }
    Up4Least(|CString(m, p)| + 1, q - p);
  }

  lemma Up4Least(x: nat, y: nat)
    requires x <= y && Aligned(y)
    ensures Up4(x) <= y
  {
    OutboundSpec.Up4Monotone(x, y);
    Up4Aligned(y);
  }

  /** The canonical form of an argument takes no more room than the argument did. */
  lemma PayloadFits(m: seq<byte>, tag: byte, p: nat)
    requires p <= |m| <= MAX_ELEMENT_SIZE && ArgumentEnd(m, tag, p).Ok? && Aligned(|m| - p)
    ensures |Payload(ArgumentAt(m, tag, p))| <= ArgumentEnd(m, tag, p).value - p
    ensures LegalArg(ArgumentAt(m, tag, p))
  {
    hide Load32, Load64, Up4, Str4End, CString, Bytes32, Bytes64, Text;
    if IsText(tag) {
      CStringFits(m, p);
    }
  }

  lemma {:induction false} PayloadsFit(m: seq<byte>, tags: seq<byte>, p: nat)
    requires p <= |m| <= MAX_ELEMENT_SIZE && AllFit(m, tags, p) && Aligned(|m| - p)
    ensures |Payloads(ArgumentsAt(m, tags, p))| <= ArgumentsEnd(m, tags, p) - p
    ensures LegalArgs(ArgumentsAt(m, tags, p))
    ensures Tags(ArgumentsAt(m, tags, p)) == tags
    decreases |tags|
  {
    hide ArgumentEnd, ArgumentAt, Payload, LegalArg, Tag, Aligned;
    if tags != [] {
      var q := ArgumentEnd(m, tags[0], p).value;
      var rest := ArgumentsAt(m, tags[1..], q);
      PayloadFits(m, tags[0], p);
      ArgumentAligned(m, tags[0], p);
      PayloadsFit(m, tags[1..], q);
      assert ([ArgumentAt(m, tags[0], p)] + rest)[1..] == rest;
      assert Tags([ArgumentAt(m, tags[0], p)] + rest) == [tags[0]] + Tags(rest);
    }
  }

  /** The parsed form of an accepted message is legal, and re-encodes in at most the same room after the address. */
  lemma ParsedIsLegal(m: seq<byte>)
    requires ParseMessage(m).Ok?
    ensures var p := ParseMessage(m).value;
            LegalMessage(p.address, p.args) && |Encode(p)| <= |m| + 4
    ensures var p := ParseMessage(m).value;
            Check(m).value.Tagged? ==> |Encode(p)| <= |m|
  {
    hide Up4, Payloads, Text, Str4End, CString, CheckBody, Balanced, AllFit, ArgumentsAt, Tags, Aligned, LegalArgs, NulFree, TagBlock;
    var parts := Check(m).value;
    CStringFits(m, 0);
    NulFreeCString(m, 0);
    Str4Aligned(m, 0);
    match parts
    case Bare =>
      BareArguments();
    case Tagged(t, tags, a) =>
      CheckedParts(m);
      TaggedFits(m);
      PayloadsFit(m, tags, a);
  }

  lemma NulFreeCString(m: seq<byte>, p: nat)
    ensures NulFree(CString(m, p))
  {
  }

  lemma BareArguments()
    ensures Tags([]) == [] && Payloads([]) == [] && |TagBlock([])| == 4
    ensures Balanced([], 0) && LegalArgs([])
  {
    OutboundSpec.Up4Two();
  }

  lemma TaggedFits(m: seq<byte>)
    requires Check(m).Ok? && Check(m).value.Tagged?
    ensures var parts := Check(m).value;
            && Str4End(m, 0).Some?
            && |TagBlock(parts.tags)| <= parts.arguments - Str4End(m, 0).value
  {
    hide Up4, Str4End, Aligned, CString, AllFit, Balanced, CheckTags;
    var u := Str4End(m, 0).value;
    CheckedParts(m);
    Str4Aligned(m, 0);
    AlignedDifference(|m| - u, |m| - Check(m).value.arguments);
    Up4Least(|Check(m).value.tags| + 2, Check(m).value.arguments - u);
  }

  /** The address as its two readers see it: an integer if the first byte is NUL, a string otherwise. */
  datatype Address = Integer(word: u32) | Pattern(text: seq<byte>)

  function AddressSeen(m: seq<byte>): Address
    requires |m| >= 4
  {
    if m[0] == 0 then Integer(Load32(m, 0)) else Pattern(CString(m, 0))
  }

  lemma AcceptedIsLong(m: seq<byte>)
    requires ParseMessage(m).Ok?
    ensures |m| >= 4 && ParseMessage(m).value.Message?
  {
    hide CheckBody, Str4End, PartsArguments;
    AlignedRoom(|m|);
  }

  lemma EncodedAddress(address: seq<byte>, args: seq<Arg>)
    requires NulFree(address)
    ensures var m := Encode(Message(address, args));
            |m| >= 4 && AddressSeen(m) == if address == [] then Integer(0) else Pattern(address)
  {
    hide Up4, TagBlock, Payloads, Tags, Text, CString;
    var m := Encode(Message(address, args));
    EncodeAligned(Message(address, args));
    assert m[0..0 + |Text(address)|] == Text(address);
    TextReads(m, 0, address);
    if address == [] {
      TextOfNothing();
      assert m[0..4] == Text([]);
      WordReads(m, 0, 0);
    } else {
      assert m[0] == Text(address)[0] == address[0];
    }
  }

  lemma TextOfNothing()
    ensures Text([]) == [0, 0, 0, 0] == Bytes32(0)
  {
    Up4Aligned(1);
  }

  /**
   Re-encoding an accepted message and parsing it again gives the same message, exactly when the
   re-encoding is within the size limit; that is so unless the input is within four bytes of the limit
   and carries no type tags. The address stays what both its readers see exactly unless it is a non-zero integer.
   */
  lemma Normalisation(m: seq<byte>)
    requires ParseMessage(m).Ok?
    ensures var p := ParseMessage(m).value;
            ParseMessage(Encode(p)) == Ok(p) <==> |Encode(p)| <= MAX_ELEMENT_SIZE
    ensures |m| <= MAX_ELEMENT_SIZE - 4 || Check(m).value.Tagged? ==>
              |Encode(ParseMessage(m).value)| <= MAX_ELEMENT_SIZE
    ensures var e := Encode(ParseMessage(m).value);
            |m| >= 4 && |e| >= 4 && (AddressSeen(e) == AddressSeen(m) <==> m[0] != 0 || Load32(m, 0) == 0)
  {
    hide Encode, LegalMessage, CheckBody, Str4End, Aligned, PartsArguments, Load32;
    ParsedIsLegal(m);
    AcceptedIsLong(m);
    var p := ParseMessage(m).value;
    if |Encode(p)| <= MAX_ELEMENT_SIZE {
      MessageReads(p.address, p.args);
    }
    NulFreeCString(m, 0);
    EncodedAddress(p.address, p.args);
  }

  /** An accepted message whose integer address pattern, 7, is 0 after re-encoding. */
  lemma IntegerAddressLost()
    ensures ParseMessage([0, 0, 0, 7]) == Ok(Message([], []))
    ensures AddressSeen([0, 0, 0, 7]) == Integer(7)
    ensures |Encode(Message([], []))| >= 4 && AddressSeen(Encode(Message([], []))) == Integer(0)
  {
    EncodedAddress([], []);
    hide Encode;
    var m: seq<byte> := [0, 0, 0, 7];
    assert Str4End(m, 0) == Some(4);
    assert CString(m, 0) == [];
  }

  // ----- the central law

  /** Whatever reads in full is legal to write. */
  lemma {:induction false} ReadIsLegal(data: seq<byte>)
    requires ReadContents(data).Ok?
    ensures Legal(ReadContents(data).value)
    decreases |data|, 1, 0
  {
    hide CheckBundle, ReadElements, ParseMessage, LegalMessage;
    if IsBundleData(data) {
      BundleElementsSmaller(data);
      ElementsReadAreLegal(CheckBundle(data).value, |data|);
    } else {
      ParsedIsLegal(data);
      ParsedFirstByte(data);
    }
  }

  lemma {:induction false} ElementsReadAreLegal(es: seq<seq<byte>>, limit: nat)
    requires forall e :: e in es ==> |e| < limit
    requires ReadElements(es, limit).Ok?
    ensures forall p :: p in ReadElements(es, limit).value ==> Legal(p)
    decreases limit, 0, |es|
  {
    hide ReadContents, Legal;
    if es != [] {
      ReadIsLegal(es[0]);
      ElementsReadAreLegal(es[1..], limit);
    }
  }

  lemma ParsedFirstByte(m: seq<byte>)
    requires ParseMessage(m).Ok?
    ensures |m| > 0 && ParseMessage(m).value.Message?
    ensures ParseMessage(m).value.address != [] ==> ParseMessage(m).value.address[0] == m[0]
  {
    hide CheckBody, Str4End, PartsArguments;
  }

  /** Exactly the legal packets within the size limit survive writing and reading. */
  lemma RoundTripIffLegal(p: Packet)
    ensures ReadPacket(Encode(p)) == Ok(p) <==> Legal(p) && |Encode(p)| <= MAX_ELEMENT_SIZE
  {
    hide Encode, Legal, ReadContents, Aligned;
    EncodeAligned(p);
    if Legal(p) && |Encode(p)| <= MAX_ELEMENT_SIZE {
      ContentsRead(p);
    }
    if ReadContents(Encode(p)) == Ok(p) {
      ReadIsLegal(Encode(p));
    }
  }

  /**
   The central law: a legal packet that fits the buffer is streamed without error, and reading the
   bytes left there gives the packet back; a gate of depth `d` lets it through iff it nests at most `d` deep.
   */
  lemma WriteThenRead(capacity: nat, p: Packet, d: nat)
    requires |Encode(p)| <= capacity <= MAX_ELEMENT_SIZE
    ensures OutboundTheorems.Drive(capacity, OutboundSpec.EMPTY, OutboundTheorems.Ops(p))
            == Ok(OutboundSpec.State(OutboundSpec.Closed(Encode(p)), false, [], []))
    ensures ReadPacket(Encode(p)) == Ok(p) <==> Legal(p)
    ensures Legal(p) ==> (Gate(Encode(p), d) == None <==> Depth(p) <= d)
  {
    hide Encode, OutboundTheorems.Drive, OutboundTheorems.Ops, Gate, Depth, Legal, ReadContents, Aligned;
    OutboundTheorems.SerializesIffFits(capacity, p);
    RoundTripIffLegal(p);
    GateIffReadable(Encode(p), d);
  }
}
