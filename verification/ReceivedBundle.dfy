/**
 Checking and walking bundles, the gate for untrusted packets, and the default listener
 (osctap/osc/OscReceivedElements.h, osctap/osc/OscPacketListener.h).
 */
module ReceivedBundles {
  import opened Bytes
  import opened Osc
  import opened MessageFormat
  import opened MessageReading
  import opened PacketFormat
  import opened ReceivedMessages

  class ReceivedBundle {
    var bundle: seq<byte>
    var timeTag: int
    var end: int
    var elementCount: nat

    constructor ()
      ensures elementCount == 0
    {
      bundle, timeTag, end, elementCount := [], -1, -1, 0;
    }

    method TryInit(bundle: seq<byte>, size: i32) returns (err: Option<Fault>)
      requires size >= 0 ==> |bundle| == size
      modifies this
      ensures size < 0 ==> err == Some(InvalidBundleSize)
      ensures size >= 0 ==>
                match CheckBundle(bundle)
                case Err(f) => err == Some(f)
                case Ok(es) => err == None && this.bundle == bundle && timeTag == 8 && end == size
                               && elementCount == |es|
    {
      hide Load32, Aligned;
      elementCount := 0;
      if !(0 <= size <= MAX_ELEMENT_SIZE) {
        return Some(InvalidBundleSize);
      }
      if size < 16 {
        return Some(TooShortForBundle);
      }
      if !Aligned(size) {
        return Some(BundleSizeNotMultipleOfFour);
      }
      NameBytes(bundle);
      if bundle[0] != HASH || bundle[1] != 'b' as int || bundle[2] != 'u' as int || bundle[3] != 'n' as int
         || bundle[4] != 'd' as int || bundle[5] != 'l' as int || bundle[6] != 'e' as int || bundle[7] != 0 {
        return Some(BadBundleAddress);
      }
      this.bundle, end, timeTag := bundle, size, 8;
      err, elementCount := CountElements(bundle);
    }
  }

  lemma NameBytes(b: seq<byte>)
    requires |b| >= 8
    ensures b[..8] == BUNDLE_NAME <==>
            b[0] == HASH && b[1] == 'b' as int && b[2] == 'u' as int && b[3] == 'n' as int
            && b[4] == 'd' as int && b[5] == 'l' as int && b[6] == 'e' as int && b[7] == 0
  {
    assert b[..8] == [b[0], b[1], b[2], b[3], b[4], b[5], b[6], b[7]];
  }

  /** The loop over the element sizes in `ReceivedBundle::TryInit`. */
  method CountElements(b: seq<byte>) returns (err: Option<Fault>, count: nat)
    requires 16 <= |b| <= MAX_ELEMENT_SIZE
    ensures match ElementsFrom(b, 16)
            case Err(f) => err == Some(f)
            case Ok(es) => err == None && count == |es|
  {
    hide Load32, Aligned;
    var p: nat := 16;
    count := 0;
    while p < |b|
      invariant 16 <= p <= |b|
      invariant ElementsFrom(b, 16).Ok? <==> ElementsFrom(b, p).Ok?
      invariant ElementsFrom(b, p).Ok? ==> |ElementsFrom(b, 16).value| == count + |ElementsFrom(b, p).value|
      invariant ElementsFrom(b, p).Err? ==> ElementsFrom(b, 16) == ElementsFrom(b, p)
      decreases |b| - p
    {
      if p + 4 > |b| {
        return Some(TooShortForElementSize), count;
      }
      var elementSize := Load32(b, p);
      if !Aligned(elementSize) {
        return Some(ElementSizeNotMultipleOfFour), count;
      }
      var elementData := p + 4;
      if elementSize > |b| - elementData {
        return Some(TooShortForElement), count;
      }
      p := elementData + elementSize;
      count := count + 1;
    }
    err := None;
  }

  /**
   The unchecked loop `for (i = ElementsBegin(); i != ElementsEnd(); ++i)` over an accepted bundle:
   it visits exactly the elements and stops exactly at the end.
   */
  method VisitElements(b: seq<byte>) returns (visited: seq<seq<byte>>, p: nat)
    requires CheckBundle(b).Ok?
    ensures visited == CheckBundle(b).value && p == |b|
  {
    hide Load32, Aligned;
    visited, p := [], 16;
    while p != |b|
      invariant 16 <= p <= |b| && ElementsFrom(b, p).Ok?
      invariant visited + ElementsFrom(b, p).value == CheckBundle(b).value
      decreases |b| - p
    {
      var size := ElementSize(b, p);
      visited := visited + [b[p + 4..p + 4 + size]];
      p := p + 4 + size;
    }
  }

  /** The size slot of an element, read as a signed word: in an accepted bundle it is not negative. */
  method ElementSize(b: seq<byte>, p: nat) returns (size: nat)
    requires p < |b| <= MAX_ELEMENT_SIZE && ElementsFrom(b, p).Ok?
    ensures p + 4 <= |b| && size == Load32(b, p) && p + 4 + size <= |b|
    ensures ElementsFrom(b, p + 4 + size).Ok?
    ensures ElementsFrom(b, p).value == [b[p + 4..p + 4 + size]] + ElementsFrom(b, p + 4 + size).value
  {
    hide Load32, Aligned;
    size := Signed32(Load32(b, p));
  }

  /** `TryValidatePacket`. */
  method TryValidatePacket(data: seq<byte>, size: i32, maxBundleNestingDepth: nat) returns (err: Option<Fault>)
    requires size >= 0 ==> |data| == size
    ensures err == if size < 0 then Some(InvalidPacketSize) else Gate(data, maxBundleNestingDepth)
    decreases maxBundleNestingDepth
  {
    hide Load32, Aligned, Check, ElementsFrom;
    err := SizeFault(size);
    if err != None {
      return;
    }
    hide SizeFault;
    if size > 0 && data[0] == HASH {
      var b := new ReceivedBundle();
      err := b.TryInit(data, size);
      if err != None {
        return;
      }
      if maxBundleNestingDepth == 0 {
        return Some(NestedTooDeeply);
      }
      BundleElementsSmaller(data);
      ghost var all := CheckBundle(data).value;
      var p: nat := 16;
      while p < |data|
        invariant 16 <= p <= |data| && ElementsFrom(data, p).Ok?
        invariant GateAll(all, maxBundleNestingDepth - 1)
                  == GateAll(ElementsFrom(data, p).value, maxBundleNestingDepth - 1)
        decreases |data| - p
      {
        var elementSize := ElementSize(data, p);
        var element := data[p + 4..p + 4 + elementSize];
        GateNext(element, ElementsFrom(data, p + 4 + elementSize).value, maxBundleNestingDepth - 1);
        err := TryValidatePacket(element, elementSize, maxBundleNestingDepth - 1);
        if err != None {
          return;
        }
        p := p + 4 + elementSize;
      }
      NoMoreElements(data);
      return None;
    }
    var m := new ReceivedMessage();
    err := m.TryInit(data, size);
  }

  lemma NoMoreElements(b: seq<byte>)
    ensures ElementsFrom(b, |b|) == Ok([])
  {
  }

  lemma GateNext(element: seq<byte>, rest: seq<seq<byte>>, depth: nat)
    ensures GateAll([element] + rest, depth)
            == if Gate(element, depth).Some? then Gate(element, depth) else GateAll(rest, depth)
  {
    hide Gate;
    assert ([element] + rest)[1..] == rest;
  }

  // ----- the listener

  class OscPacketListener {
    var bundleNestingDepth: nat
    var maxBundleNestingDepth: nat

    /** The messages `ProcessMessage` has been called with. */
    var delivered: seq<Packet>

    /** Which calls of `ProcessMessage`, counted from 0, the application lets throw. */
    const fails: nat -> bool

    constructor (fails: nat -> bool)
      ensures bundleNestingDepth == 0 && maxBundleNestingDepth == 64 && delivered == [] && this.fails == fails
    {
      bundleNestingDepth, maxBundleNestingDepth, delivered := 0, 64, [];
      this.fails := fails;
    }

    ghost function Levels(): nat
      reads this
    {
      if bundleNestingDepth >= maxBundleNestingDepth then 0 else maxBundleNestingDepth - bundleNestingDepth
    }

    /**
     Exactly `d` happened, or as much of it as came before `ProcessMessage` threw; the nesting depth is
     restored, also on the way out of a throw.
     */
    twostate predicate Did(d: Delivery, new thrown: Option<Thrown>)
      reads this
    {
      && Prepend(old(delivered), Cut(d, |old(delivered)|, fails)) == Delivery(delivered, thrown)
      && bundleNestingDepth == old(bundleNestingDepth)
      && maxBundleNestingDepth == old(maxBundleNestingDepth)
    }

    /** The application's virtual function. */
    method ProcessMessage(message: Packet) returns (thrown: Option<Thrown>)
      modifies this
      ensures Did(Delivery([message], None), thrown)
    {
      thrown := if fails(|delivered|) then Some(ByListener) else None;
      delivered := delivered + [message];
    }

    method ProcessPacket(data: seq<byte>, size: i32) returns (thrown: Option<Thrown>)
      requires size >= 0 ==> |data| == size
      modifies this
      ensures Did(if size < 0 then Delivery([], Some(Malformed(InvalidPacketSize)))
                  else Dispatch(data, old(Levels())), thrown)
      ensures size >= 0 && old(bundleNestingDepth) == 0 ==> Did(Dispatch(data, maxBundleNestingDepth), thrown)
    {
      hide DispatchContents;
      var fault := SizeFault(size);
      if fault.Some? {
        return Some(Malformed(fault.value));
      }
      hide SizeFault;
      thrown := ProcessContents(data);
    }

    /** Construct a `ReceivedBundle` or a `ReceivedMessage`, and process it. */
    method ProcessContents(data: seq<byte>) returns (thrown: Option<Thrown>)
      requires |data| <= 0x7FFF_FFFF
      modifies this
      ensures Did(DispatchContents(data, old(Levels())), thrown)
      decreases |data|, 1
    {
      hide Check, CheckBundle, DispatchElements, CString;
      if |data| > 0 && data[0] == HASH {
        var b := new ReceivedBundle();
        var fault := b.TryInit(data, |data|);
        if fault.Some? {
          return Some(Malformed(fault.value));
        }
        thrown := ProcessBundle(data);
      } else {
        var m := new ReceivedMessage();
        var fault := m.TryInit(data, |data|);
        if fault.Some? {
          return Some(Malformed(fault.value));
        }
        thrown := ProcessMessage(ParseMessage(data).value);
      }
    }

    method ProcessBundle(data: seq<byte>) returns (thrown: Option<Thrown>)
      requires CheckBundle(data).Ok? && |data| <= 0x7FFF_FFFF
      modifies this
      ensures Did(if old(Levels()) == 0 then Delivery([], None)
                  else DispatchElements(CheckBundle(data).value, old(Levels()) - 1), thrown)
      decreases |data|, 0
    {
      hide Load32, Aligned, DispatchContents, ElementsFrom, DispatchElements, Cut;
      if bundleNestingDepth >= maxBundleNestingDepth {
        CutNothing(|delivered|, fails);
        return None;
      }
      ghost var levels, n := Levels() - 1, |delivered|;
      ghost var total := Prepend(delivered, Cut(DispatchElements(CheckBundle(data).value, levels), n, fails));
      bundleNestingDepth := bundleNestingDepth + 1;
      var p: nat := 16;
      while p != |data|
        invariant 16 <= p <= |data| && ElementsFrom(data, p).Ok?
        invariant bundleNestingDepth == old(bundleNestingDepth) + 1
        invariant maxBundleNestingDepth == old(maxBundleNestingDepth)
        invariant var rest := DispatchElements(ElementsFrom(data, p).value, levels);
                  total == Prepend(delivered, Cut(rest, |delivered|, fails))
        decreases |data| - p
      {
        var size := ElementSize(data, p);
        var element := data[p + 4..p + 4 + size];
        ghost var before := delivered;
        CutNext(before, element, ElementsFrom(data, p + 4 + size).value, levels, fails);
        thrown := ProcessContents(element);
        if thrown != None {
          bundleNestingDepth := bundleNestingDepth - 1;
          return;
        }
        p := p + 4 + size;
      }
      NoMoreElements(data);
      DispatchNothing(levels);
      CutNothing(|delivered|, fails);
      bundleNestingDepth := bundleNestingDepth - 1;
      return None;
    }
  }

  lemma DispatchNothing(levels: nat)
    ensures DispatchElements([], levels) == Delivery([], None)
  {
  }

  lemma CutNothing(n: nat, fails: nat -> bool)
    ensures Cut(Delivery([], None), n, fails) == Delivery([], None)
  {
  }

  lemma DispatchNext(element: seq<byte>, rest: seq<seq<byte>>, levels: nat)
    ensures var first := DispatchContents(element, levels);
            DispatchElements([element] + rest, levels)
            == if first.thrown.Some? then first else Prepend(first.messages, DispatchElements(rest, levels))
  {
    hide DispatchContents;
    assert ([element] + rest)[1..] == rest;
  }

  /** After `before`, the first element is dispatched, and unless something throws, the rest. */
  lemma CutNext(before: seq<Packet>, element: seq<byte>, rest: seq<seq<byte>>, levels: nat, fails: nat -> bool)
    ensures var first := Prepend(before, Cut(DispatchContents(element, levels), |before|, fails));
            Prepend(before, Cut(DispatchElements([element] + rest, levels), |before|, fails))
            == if first.thrown.Some? then first
               else Prepend(first.messages, Cut(DispatchElements(rest, levels), |first.messages|, fails))
  {
    hide DispatchContents, DispatchElements, Cut;
    DispatchNext(element, rest, levels);
    CutThen(before, DispatchContents(element, levels), DispatchElements(rest, levels), fails);
  }
}
