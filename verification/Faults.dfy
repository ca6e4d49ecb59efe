/**
 Which fault is reported for which malformed input (osctap/osc/OscReceivedElements.h), and which error for
 which misuse of the serializer (osctap/osc/OscOutboundPacketStream.h). Each law says what is wrong with the
 bytes in terms of the grammar, and that this is what is reported: the first thing that is wrong.
 */
module Faults {
  import opened Bytes
  import opened Osc
  import opened MessageFormat
  import opened PacketFormat
  import OutboundSpec

  // ----- sizes

  lemma SizeFaults(size: i32)
    ensures SizeFault(size) == Some(InvalidPacketSize) <==> size < 0 || size > 0x7FFF_FFFC
    ensures SizeFault(size) == Some(ZeroLengthElement) <==> size == 0
    ensures SizeFault(size) == Some(PacketSizeNotMultipleOfFour) <==> 0 < size <= 0x7FFF_FFFC && size % 4 != 0
    ensures SizeFault(size) == None <==> size > 0 && size % 4 == 0
  {
  }

  // ----- arguments

  predicate KnownTag(tag: byte) {
    HasNoData(tag) || IsWord(tag) || IsWide(tag) || IsText(tag) || tag == BLOB_TAG
  }

  /** No string of blocks starts at `p`. */
  predicate NoString(m: seq<byte>, p: nat)
    requires p <= |m|
  {
    forall q :: p <= q <= |m| ==> !IsStr4(m[p..q])
  }

  lemma NoStringIffNoEnd(m: seq<byte>, p: nat)
    requires p <= |m|
    ensures NoString(m, p) <==> Str4End(m, p) == None
  {
    hide IsStr4, Str4End;
    forall q | p <= q <= |m| ensures Str4End(m, p) == Some(q) <==> IsStr4(m[p..q]) {
      Str4EndIsStr4(m, p, q);
    }
    if Str4End(m, p).Some? {
      StringEnds(m, p);
    }
  }

  lemma StringEnds(m: seq<byte>, p: nat)
    requires Str4End(m, p).Some?
    ensures p <= Str4End(m, p).value <= |m|
  {
  }

  /** Whether the message is too short for an argument at `p`, as far as the tag and a blob's size tell. */
  predicate TooShortFor(m: seq<byte>, tag: byte, p: nat)
    requires p <= |m|
  {
    || (IsWord(tag) && |m| - p < 4)
    || (IsWide(tag) && |m| - p < 8)
    || (IsText(tag) && p == |m|)
    || (tag == BLOB_TAG && |m| - p < 4)
    || (tag == BLOB_TAG && |m| - p >= 4 && Load32(m, p) <= MAX_ELEMENT_SIZE && |m| - p < 4 + Up4(Load32(m, p)))
  }

  lemma ArgumentFaults(m: seq<byte>, tag: byte, p: nat)
    requires p <= |m|
    ensures ArgumentEnd(m, tag, p) == Err(UnknownTypeTag) <==> !KnownTag(tag)
    ensures ArgumentEnd(m, tag, p) == Err(ArgumentsExceedMessage) <==> TooShortFor(m, tag, p)
    ensures ArgumentEnd(m, tag, p) == Err(UnterminatedString) <==> IsText(tag) && p < |m| && NoString(m, p)
    ensures ArgumentEnd(m, tag, p) == Err(InvalidBlobSize) <==>
            tag == BLOB_TAG && |m| - p >= 4 && Load32(m, p) > MAX_ELEMENT_SIZE
  {
    hide Load32, Up4, Str4End, NoString;
    NoStringIffNoEnd(m, p);
  }

  // ----- type tags

  /** How deep in arrays one is after these tags, if no bracket closes what is not open. */
  function Nesting(tags: seq<byte>, level: nat): Option<nat> {
    if tags == [] then Some(level)
    else if tags[0] == ARRAY_BEGIN_TAG then Nesting(tags[1..], level + 1)
    else if tags[0] == ARRAY_END_TAG then if level == 0 then None else Nesting(tags[1..], level - 1)
    else Nesting(tags[1..], level)
  }

  /** The check passes over tags that are all right and goes on after them. */
  lemma {:induction false} CheckTagsGoesOn(m: seq<byte>, good: seq<byte>, rest: seq<byte>, p: nat, level: nat)
    requires AllFit(m, good, p) && Nesting(good, level).Some?
    ensures CheckTags(m, good + rest, p, level)
            == CheckTags(m, rest, ArgumentsEnd(m, good, p), Nesting(good, level).value)
    decreases |good|
  {
    hide ArgumentEnd;
    if good == [] {
      assert good + rest == rest;
    } else {
      assert (good + rest)[1..] == good[1..] + rest;
      CheckTagsGoesOn(m, good[1..], rest, ArgumentEnd(m, good[0], p).value, Level(good[0], level));
    }
  }

  /** The first tag that is not all right decides: a bracket that closes nothing, or an argument with a fault. */
  lemma FirstBadTag(m: seq<byte>, good: seq<byte>, tag: byte, rest: seq<byte>, p: nat)
    requires AllFit(m, good, p) && Nesting(good, 0).Some?
    ensures tag == ARRAY_END_TAG && Nesting(good, 0) == Some(0) ==>
              CheckTags(m, good + ([tag] + rest), p, 0) == Err(UnmatchedArrayClose)
    ensures ArgumentEnd(m, tag, ArgumentsEnd(m, good, p)).Err? ==>
              CheckTags(m, good + ([tag] + rest), p, 0) == ArgumentEnd(m, tag, ArgumentsEnd(m, good, p))
  {
    hide AllFit, ArgumentsEnd, Nesting;
    CheckTagsGoesOn(m, good, [tag] + rest, p, 0);
  }

  /** An array that is still open after the last tag. */
  lemma UnclosedArray(m: seq<byte>, tags: seq<byte>, p: nat)
    requires AllFit(m, tags, p) && Nesting(tags, 0).Some?
    ensures CheckTags(m, tags, p, 0) == Err(UnterminatedArray) <==> Nesting(tags, 0) != Some(0)
  {
    hide AllFit, ArgumentsEnd, Nesting;
    CheckTagsGoesOn(m, tags, [], p, 0);
    assert tags + [] == tags;
  }

  // ----- messages

  predicate GoodSize(m: seq<byte>) {
    0 < |m| <= 0x7FFF_FFFC && |m| % 4 == 0
  }

  lemma MessageSizeFaults(m: seq<byte>)
    ensures |m| > 0x7FFF_FFFC ==> Check(m) == Err(InvalidMessageSize)
    ensures m == [] ==> Check(m) == Err(ZeroLengthMessage)
    ensures 0 < |m| <= 0x7FFF_FFFC && |m| % 4 != 0 ==> Check(m) == Err(MessageSizeNotMultipleOfFour)
    ensures GoodSize(m) && NoString(m, 0) ==> Check(m) == Err(UnterminatedAddress)
  {
    hide Str4End, CheckBody, NoString;
    NoStringIffNoEnd(m, 0);
  }

  /** After an address that ends at `t`. */
  lemma TypeTagFaults(m: seq<byte>, t: nat)
    requires GoodSize(m) && t <= |m| && IsStr4(m[..t])
    ensures t == |m| ==> Check(m) == Ok(Bare)
    ensures t < |m| && m[t] != COMMA ==> Check(m) == Err(TypeTagsNotPresent)
    ensures t + 1 < |m| && m[t] == COMMA && m[t + 1] == 0 ==> Check(m) == Ok(Bare)
    ensures t + 1 < |m| && m[t] == COMMA && m[t + 1] != 0 && NoString(m, t) ==>
              Check(m) == Err(UnterminatedTypeTags)
  {
    hide Str4End, IsStr4, NoString, CheckTags;
    assert m[..t] == m[0..t];
    Str4EndIsStr4(m, 0, t);
    NoStringIffNoEnd(m, t);
  }

  /** With type tags from `t` to `a`, the tags and arguments decide. */
  lemma TagsDecide(m: seq<byte>, t: nat, a: nat)
    requires GoodSize(m) && t <= a <= |m| && IsStr4(m[..t])
    requires t + 1 < |m| && m[t] == COMMA && m[t + 1] != 0 && IsStr4(m[t..a])
    ensures var end := CheckTags(m, CString(m, t + 1), a, 0);
            Check(m) == if end.Err? then Err(end.error) else Ok(Tagged(t + 1, CString(m, t + 1), a))
  {
    hide Str4End, IsStr4, CheckTags, CString;
    assert m[..t] == m[0..t];
    Str4EndIsStr4(m, 0, t);
    Str4EndIsStr4(m, t, a);
  }

  // ----- bundles

  lemma BundleFaults(b: seq<byte>)
    ensures |b| > 0x7FFF_FFFC ==> CheckBundle(b) == Err(InvalidBundleSize)
    ensures |b| < 16 ==> CheckBundle(b) == Err(TooShortForBundle)
    ensures 16 <= |b| <= 0x7FFF_FFFC && |b| % 4 != 0 ==> CheckBundle(b) == Err(BundleSizeNotMultipleOfFour)
    ensures 16 <= |b| <= 0x7FFF_FFFC && |b| % 4 == 0 && b[..8] != BUNDLE_NAME ==>
              CheckBundle(b) == Err(BadBundleAddress)
  {
    hide ElementsFrom;
  }

  /** After the elements `good`, which reach up to `p`, the element there has a bad size. */
  lemma FirstBadElement(b: seq<byte>, good: seq<seq<byte>>, p: nat)
    requires 16 <= p < |b| <= 0x7FFF_FFFC && |b| % 4 == 0 && b[..8] == BUNDLE_NAME
    requires b[16..p] == Framed(good) && AllAligned(good)
    ensures |b| - p >= 4
    ensures Load32(b, p) % 4 != 0 ==> CheckBundle(b) == Err(ElementSizeNotMultipleOfFour)
    ensures Load32(b, p) % 4 == 0 && Load32(b, p) > |b| - p - 4 ==> CheckBundle(b) == Err(TooShortForElement)
  {
    hide Framed, ElementsFrom, Load32, AllAligned;
    FramedAligned(good);
    assert p == 16 + |Framed(good)|;
    AlignedSum(-16, |b|);
    AlignedDifference(|b| - 16, |Framed(good)|);
    AlignedRoom(|b| - p);
    BadElement(b, p);
    if ElementsFrom(b, p).Err? {
      ElementsGoOn(b, 16, good, p);
    }
  }

  lemma BadElement(b: seq<byte>, p: nat)
    requires p + 4 <= |b|
    ensures !Aligned(Load32(b, p)) ==> ElementsFrom(b, p) == Err(ElementSizeNotMultipleOfFour)
    ensures Aligned(Load32(b, p)) && Load32(b, p) > |b| - p - 4 ==> ElementsFrom(b, p) == Err(TooShortForElement)
  {
    hide Load32;
  }

  lemma {:induction false} FramedAligned(es: seq<seq<byte>>)
    requires AllAligned(es)
    ensures Aligned(|Framed(es)|)
    decreases |es|
  {
    hide Bytes32, Aligned;
    if es == [] {
      assert Aligned(0) by { Up4Aligned(0); }
    } else {
      assert es[0] in es;
      FramedAligned(es[1..]);
      FourAligned();
      AlignedSum(4, |es[0]|);
      AlignedSum(4 + |es[0]|, |Framed(es[1..])|);
    }
  }

  lemma FourAligned()
    ensures Aligned(4) && Aligned(0)
  {
  }

  lemma {:induction false} ElementsGoOn(b: seq<byte>, p: nat, good: seq<seq<byte>>, q: nat)
    requires p <= q <= |b| <= MAX_ELEMENT_SIZE && b[p..q] == Framed(good) && AllAligned(good)
    requires ElementsFrom(b, q).Err?
    ensures ElementsFrom(b, p) == ElementsFrom(b, q)
    decreases |good|
  {
    hide Bytes32, Load32, Aligned;
    if good != [] {
      var n, end := |good[0]|, p + 4 + |good[0]|;
      assert good[0] in good;
      var s := b[p..q];
      assert s[..4] == Bytes32(n) && b[p..p + 4] == s[..4];
      LoadStored32(b, p, n);
      assert b[end..q] == s[4 + n..] == Framed(good[1..]);
      ElementsGoOn(b, end, good[1..], q);
    }
  }

  // ----- the gate

  /** The first fault of a packet, read depth first with at most `depth` levels of bundles. */
  ghost predicate FirstFault(data: seq<byte>, depth: nat, f: Fault)
    decreases depth, 0
  {
    if SizeFault(|data|).Some? then SizeFault(|data|) == Some(f)
    else if !IsBundleData(data) then Check(data) == Err(f)
    else if CheckBundle(data).Err? then CheckBundle(data) == Err(f)
    else if depth == 0 then f == NestedTooDeeply
    else FirstFaultIn(CheckBundle(data).value, depth - 1, f)
  }

  ghost predicate FirstFaultIn(es: seq<seq<byte>>, depth: nat, f: Fault)
    decreases depth, 2
  {
    exists k :: FirstFaultAt(es, depth, f, k)
  }

  /** Element `k` has the fault; those before it read in full and are shallow enough. */
  ghost predicate FirstFaultAt(es: seq<seq<byte>>, depth: nat, f: Fault, k: int)
    decreases depth, 1
  {
    && 0 <= k < |es|
    && (forall i :: 0 <= i < k ==> ReadPacket(es[i]).Ok? && Depth(ReadPacket(es[i]).value) <= depth)
    && FirstFault(es[k], depth, f)
  }

  lemma {:induction false} GateFaultIsFirst(data: seq<byte>, depth: nat, f: Fault)
    ensures Gate(data, depth) == Some(f) <==> FirstFault(data, depth, f)
    decreases depth, 0
  {
    hide Check, CheckBundle, SizeFault, GateAll, FirstFaultIn;
    if IsBundleData(data) && CheckBundle(data).Ok? && depth > 0 {
      GateAllFaultIsFirst(CheckBundle(data).value, depth - 1, f);
    }
  }

  lemma {:induction false} GateAllFaultIsFirst(es: seq<seq<byte>>, depth: nat, f: Fault)
    ensures GateAll(es, depth) == Some(f) <==> FirstFaultIn(es, depth, f)
    decreases depth, 1, |es|
  {
    hide Gate, FirstFault, ReadPacket, Depth;
    if es != [] {
      GateIffReadable(es[0], depth);
      GateFaultIsFirst(es[0], depth, f);
      GateAllFaultIsFirst(es[1..], depth, f);
      if Gate(es[0], depth).Some? {
        assert FirstFault(es[0], depth, f) ==> FirstFaultAt(es, depth, f, 0);
      } else {
        forall k ensures FirstFaultAt(es[1..], depth, f, k) ==> FirstFaultAt(es, depth, f, k + 1) {
          ShiftFault(es, depth, f, k);
        }
        forall k | FirstFaultAt(es, depth, f, k) ensures FirstFaultAt(es[1..], depth, f, k - 1) {
          ShiftFault(es, depth, f, k - 1);
        }
      }
    }
  }

  lemma ShiftFault(es: seq<seq<byte>>, depth: nat, f: Fault, k: int)
    requires es != [] && ReadPacket(es[0]).Ok? && Depth(ReadPacket(es[0]).value) <= depth
    requires Gate(es[0], depth) == None && (FirstFault(es[0], depth, f) <==> Gate(es[0], depth) == Some(f))
    ensures FirstFaultAt(es[1..], depth, f, k) <==> FirstFaultAt(es, depth, f, k + 1)
  {
    hide FirstFault, ReadPacket, Depth, Gate;
    var rest := es[1..];
    forall i | 0 <= i < |rest| ensures rest[i] == es[i + 1] {
    }
    if FirstFaultAt(rest, depth, f, k) {
      forall i | 0 <= i < k + 1 ensures ReadPacket(es[i]).Ok? && Depth(ReadPacket(es[i]).value) <= depth {
        if i > 0 {
          assert es[i] == rest[i - 1];
        }
      }
    }
  }

  // ----- misuse of the serializer

  lemma MisuseErrors(capacity: nat, st: OutboundSpec.State, op: OutboundSpec.Op)
    ensures OutboundSpec.Step(capacity, st, op) == Err(OutboundSpec.MessageInProgress) <==>
            st.inMessage && (op.BeginBundle? || op.BeginMessage? || (op.EndBundle? && st.stack.Open?))
    ensures OutboundSpec.Step(capacity, st, op) == Err(OutboundSpec.BundleNotInProgress) <==>
            op.EndBundle? && st.stack.Closed?
    ensures OutboundSpec.Step(capacity, st, op) == Err(OutboundSpec.MessageNotInProgress) <==>
            op.EndMessage? && !st.inMessage
    ensures OutboundSpec.Step(capacity, st, op) == Err(OutboundSpec.OutOfBufferMemory) ==>
              op.BeginBundle? || op.BeginMessage? || op.Append?
  {
    hide OutboundSpec.After;
  }
}
