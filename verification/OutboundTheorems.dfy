/**
 What follows for whole runs of an `OutboundPacketStream`: safety for every sequence of operations,
 the pointer chain kept inside the open size slots, the tight space bound, and the serialization of
 packet trees.
 */
module OutboundTheorems {
  import opened Bytes
  import opened Osc
  import opened OutboundSpec

  // ----- every sequence of operations, refused ones included

  /** The state after all of `ops`, when the caller carries on after a refused operation. */
  function Follow(capacity: nat, st: State, ops: seq<Op>): State
    decreases |ops|
  {
    if ops == [] then st
    else
      var step := Step(capacity, st, ops[0]);
      Follow(capacity, if step.Ok? then step.value else st, ops[1..])
  }

  lemma {:induction false} FollowKeepsValid(capacity: nat, st: State, ops: seq<Op>)
    requires Valid(capacity, st)
    ensures Valid(capacity, Follow(capacity, st, ops))
    decreases |ops|
  {
    hide Valid, After, Required, Misuse;
    if ops != [] {
      var step := Step(capacity, st, ops[0]);
      if step.Ok? {
        StepKeepsValid(capacity, st, ops[0]);
        FollowKeepsValid(capacity, step.value, ops[1..]);
      } else {
        FollowKeepsValid(capacity, st, ops[1..]);
      }
    }
  }

  /** Whatever is streamed in, `Size()` is within the capacity; in a message, arguments end below the tags. */
  lemma SafeOnEveryRun(capacity: nat, ops: seq<Op>)
    ensures var st := Follow(capacity, EMPTY, ops);
            && Size(st) <= capacity
            && (st.inMessage ==> |Layout(st.stack)| + |st.args| + |st.tags| + 2 <= capacity)
  {
    hide Layout, After, Required, Misuse, Nested;
    EmptyIsValid(capacity);
    FollowKeepsValid(capacity, EMPTY, ops);
  }

  lemma EmptyIsValid(capacity: nat)
    ensures Valid(capacity, EMPTY) && Layout(EMPTY.stack) == []
  {
  }

  // ----- cursor order outside messages

  /** `argumentCurrent_ <= typeTagsCurrent_`. */
  predicate CursorsOrdered(capacity: nat, st: State) {
    |Layout(st.stack)| + |st.args| + |st.tags| <= capacity
  }

  /**
   Stray arguments leave type tags behind that `BeginBundle` does not reset, so beginning a bundle is
   the one operation that can move the argument cursor past the tag cursor. It does so exactly when
   the header does not fit below the stray tags.
   */
  lemma CursorsOrderedIff(capacity: nat, st: State, op: Op)
    requires Valid(capacity, st) && CursorsOrdered(capacity, st)
    requires Step(capacity, st, op).Ok?
    ensures CursorsOrdered(capacity, After(st, op)) <==>
            (op.BeginBundle? ==> |Layout(st.stack)| + SlotSize(st.stack) + 16 + |st.tags| <= capacity)
  {
    hide Bytes32, Layout, Payload, Text, BundleHeader, TagBlock, Tag;
    var s := st.stack;
    match op
    case Clear => EmptyIsValid(capacity);
    case BeginBundle(timeTag) => LayoutOpen(Open(s, BundleHeader(timeTag)));
    case EndBundle => LayoutClose(s);
    case BeginMessage(address) => LayoutOpen(Open(s, Text(address)));
    case EndMessage =>
      LayoutGrow(s, TagBlock(st.tags) + st.args);
      LayoutClose(Grow(s, TagBlock(st.tags) + st.args));
    case Append(arg) =>
  }

  /** The cursors do cross: thirteen stray booleans, then a bundle, in sixteen bytes. */
  lemma CursorsCanCross()
    ensures exists ops: seq<Op> :: !CursorsOrdered(16, Follow(16, EMPTY, ops))
  {
    hide Follow;
    var stray := seq(13, _ => Append(Bool(true)));
    var st := EMPTY.(tags := seq(13, _ => TRUE_TAG));
    StrayBooleans(13);
    var op := BeginBundle(1);
    EmptyIsValid(16);
    assert Required(st, op) == 16;
    assert Step(16, st, op) == Ok(After(st, op));
    LayoutOpen(Open(EMPTY.stack, BundleHeader(1)));
    FollowAppend(16, EMPTY, stray, op);
    assert !CursorsOrdered(16, Follow(16, EMPTY, stray + [op]));
  }

  lemma {:induction false} StrayBooleans(n: nat)
    requires n <= 13
    ensures Follow(16, EMPTY, seq(n, _ => Append(Bool(true)))) == EMPTY.(tags := seq(n, _ => TRUE_TAG))
  {
    hide Follow;
    if n == 0 {
      assert seq(0, _ => Append(Bool(true))) == [];
      FollowNothing(16, EMPTY);
      assert seq(0, _ => TRUE_TAG) == [];
    } else {
      StrayBooleans(n - 1);
      var st := EMPTY.(tags := seq(n - 1, _ => TRUE_TAG));
      EmptyIsValid(16);
      assert Required(st, Append(Bool(true))) == Up4(n + 2) <= 16;
      assert Step(16, st, Append(Bool(true))).value.args == [];
      FollowAppend(16, EMPTY, seq(n - 1, _ => Append(Bool(true))), Append(Bool(true)));
      assert seq(n, _ => Append(Bool(true))) == seq(n - 1, _ => Append(Bool(true))) + [Append(Bool(true))];
      assert seq(n, _ => TRUE_TAG) == st.tags + [TRUE_TAG];
    }
  }

  lemma FollowNothing(capacity: nat, st: State)
    ensures Follow(capacity, st, []) == st
  {
  }

  lemma {:induction false} FollowAppend(capacity: nat, st: State, ops: seq<Op>, op: Op)
    ensures var mid := Follow(capacity, st, ops);
            var step := Step(capacity, mid, op);
            Follow(capacity, st, ops + [op]) == if step.Ok? then step.value else mid
    decreases |ops|
  {
    hide Step;
    if ops == [] {
      assert (ops + [op])[1..] == [];
    } else {
      assert (ops + [op])[1..] == ops[1..] + [op];
      var step := Step(capacity, st, ops[0]);
      FollowAppend(capacity, if step.Ok? then step.value else st, ops[1..], op);
    }
  }

  // ----- the stack threaded through the buffer

  /** The slot pointers of the open elements, innermost first; the outermost one is the sentinel 0. */
  function Pointers(s: Stack): seq<int> {
    if s.Closed? then [] else [Pointer(s)] + Pointers(s.below)
  }

  /** Follow the offsets stored in the slots from `p` downwards, as repeated `EndElement`s would. */
  function Chase(buffer: seq<byte>, p: nat): seq<int>
    decreases p
  {
    if p == 0 || p + 4 > |buffer| then [p]
    else if Load32(buffer, p) >= p then [p]
    else [p] + Chase(buffer, Load32(buffer, p))
  }

  /** The slot of the top element holds its parent's offset, and below it is the parent's part of the buffer. */
  lemma ParentSlot(buffer: seq<byte>, s: Stack)
    requires s.Open? && s.below.Open?
    requires |Layout(s)| <= |buffer| <= MAX_ELEMENT_SIZE && buffer[..|Layout(s)|] == Layout(s)
    ensures var p := |Layout(s.below)|;
            p + 4 <= |buffer| && Load32(buffer, p) == Pointer(s.below) && buffer[..p] == Layout(s.below)
  {
    hide Bytes32, Load32, Layout;
    var p, slot := |Layout(s.below)|, Bytes32(Pointer(s.below));
    PointerInLayout(s.below);
    LayoutParts(s);
    Parts(buffer, Layout(s.below), slot, s.content);
    LoadStored32(buffer, p, Pointer(s.below));
  }

  lemma LayoutParts(s: Stack)
    requires s.Open? && s.below.Open?
    ensures Layout(s) == Layout(s.below) + Bytes32(Pointer(s.below)) + s.content
  {
    hide Bytes32;
  }

  lemma Parts(b: seq<byte>, first: seq<byte>, second: seq<byte>, third: seq<byte>)
    requires first + second + third <= b
    ensures |first| + |second| <= |b|
    ensures b[..|first|] == first && b[|first|..|first| + |second|] == second
  {
  }

  /**
   Starting from `elementSizePtr_`, the offsets in the slots lead through exactly the open elements,
   strictly downwards, to the sentinel; no real slot coincides with the sentinel.
   */
  lemma {:induction false} ChainIsStack(buffer: seq<byte>, s: Stack)
    requires Nested(s) && s.Open?
    requires |Layout(s)| <= |buffer| <= MAX_ELEMENT_SIZE
    requires buffer[..|Layout(s)|] == Layout(s)
    ensures Chase(buffer, Pointer(s)) == Pointers(s)
    ensures forall i :: 0 <= i < |Pointers(s)| - 1 ==> Pointers(s)[i] >= 16 && Pointers(s)[i + 1] < Pointers(s)[i]
    ensures Pointers(s)[|Pointers(s)| - 1] == 0
    decreases s
  {
    hide Bytes32, Load32, Layout;
    OpenPointer(s);
    if s.below.Closed? {
      assert Pointers(s.below) == [];
    } else {
      LayoutOpen(s.below);
      ParentSlot(buffer, s);
      ParentIsLower(s.below);
      ChainIsStack(buffer, s.below);
    }
  }

  lemma ParentIsLower(s: Stack)
    requires s.Open? && |s.content| >= 16
    ensures 0 <= Pointer(s) < |Layout(s)|
  {
    hide Bytes32;
  }

  /** `t` is `s` or one of the stacks below it. */
  predicate Under(t: Stack, s: Stack) {
    t == s || (s.Open? && Under(t, s.below))
  }

  lemma {:induction false} UnderIsPrefix(t: Stack, s: Stack)
    requires Under(t, s)
    ensures |Layout(t)| <= |Layout(s)| && Layout(s)[..|Layout(t)|] == Layout(t)
  {
    hide Bytes32;
    if t != s {
      UnderIsPrefix(t, s.below);
      assert Layout(s)[..|Layout(s.below)|] == Layout(s.below);
      assert Layout(s)[..|Layout(t)|] == Layout(s)[..|Layout(s.below)|][..|Layout(t)|];
    }
  }

  /** An operation touches no byte of an element that stays open: not its contents, not its slot. */
  lemma OpenElementsUntouched(st: State, op: Op, t: Stack)
    requires Misuse(st, op).None? && (st.inMessage ==> st.stack.Open?)
    requires op != Clear
    requires Under(t, if op.EndBundle? || op.EndMessage? then st.stack.below else st.stack)
    ensures |Layout(t)| <= |Layout(After(st, op).stack)|
    ensures Layout(After(st, op).stack)[..|Layout(t)|] == Layout(t)
  {
    hide Bytes32, Layout, Payload, Text, BundleHeader, TagBlock, Tag;
    var s := st.stack;
    match op
    case BeginBundle(timeTag) => UnderIsPrefix(t, Open(s, BundleHeader(timeTag)));
    case BeginMessage(address) => UnderIsPrefix(t, Open(s, Text(address)));
    case EndBundle =>
      UnderIsPrefix(t, s.below);
      LayoutClose(s);
    case EndMessage =>
      UnderIsPrefix(t, s.below);
      LayoutClose(Grow(s, TagBlock(st.tags) + st.args));
    case _ => UnderIsPrefix(t, s);
  }

  /** Ending an element pops one entry and leaves the element's exact length in its slot. */
  lemma EndPopsOne(st: State, op: Op)
    requires op.EndBundle? || op.EndMessage?
    requires Misuse(st, op).None? && st.stack.Open? && Nested(st.stack)
    requires Size(st) <= MAX_ELEMENT_SIZE
    ensures Pointers(After(st, op).stack) == Pointers(st.stack)[1..]
    ensures Size(After(st, op)) == Size(st)
    ensures var p := Pointer(st.stack);
            var end := |Layout(After(st, op).stack)|;
            p != 0 ==> p + 4 <= end && Load32(Layout(After(st, op).stack), p) == end - p - 4
  {
    hide Bytes32, Layout, Load32, TagBlock, Up4;
    var s := if op.EndBundle? then st.stack else Grow(st.stack, TagBlock(st.tags) + st.args);
    if op.EndMessage? {
      LayoutGrow(st.stack, TagBlock(st.tags) + st.args);
    }
    LayoutClose(s);
    PointersGrow(s.below, Element(s.below, s.content));
    if s.below.Open? {
      var p, after := |Layout(s.below)|, Layout(Close(s));
      OpenPointer(s);
      assert after[p..p + 4] == Bytes32(|s.content|);
      LoadStored32(after, p, |s.content|);
    } else {
      OpenPointer(s);
    }
  }

  lemma OpenPointer(s: Stack)
    requires s.Open?
    ensures Pointer(s) == if s.below.Open? then |Layout(s.below)| else 0
  {
  }

  lemma PointersGrow(s: Stack, bytes: seq<byte>)
    ensures Pointers(Grow(s, bytes)) == Pointers(s)
  {
    hide Layout;
    LayoutGrow(s, bytes);
  }

  // ----- the tight space bound

  /** Legal use: arguments inside a message, and nothing begun on top of stray arguments. */
  predicate Proper(st: State, op: Op) {
    match op
    case Append(_) => st.inMessage
    case BeginBundle(_) => st.args == []
    case BeginMessage(_) => st.args == []
    case _ => true
  }

  lemma RequiredIsSizeAfter(st: State, op: Op)
    requires Misuse(st, op).None?
    requires op.Append? || op.BeginBundle? || op.BeginMessage?
    ensures Required(st, op) >= Size(After(st, op))
    ensures Required(st, op) == Size(After(st, op)) <==> Proper(st, op)
  {
    hide Bytes32, Layout, Payload, Text, BundleHeader, Tag, Up4;
    match op
    case BeginBundle(timeTag) => LayoutOpen(Open(st.stack, BundleHeader(timeTag)));
    case BeginMessage(address) =>
      LayoutOpen(Open(st.stack, Text(address)));
      Up4Two();
    case Append(arg) =>
  }

  /** An append is refused for lack of space exactly when the size it would produce exceeds the capacity. */
  lemma TightExactlyWhenProper(st: State, op: Op)
    requires Misuse(st, op).None?
    requires op.Append? || op.BeginBundle? || op.BeginMessage?
    ensures (forall capacity: nat ::
              Step(capacity, st, op) == Err(OutOfBufferMemory) <==> Size(After(st, op)) > capacity)
            <==> Proper(st, op)
  {
    RequiredIsSizeAfter(st, op);
    hide After, Size, Required, Misuse;
    var size := Size(After(st, op));
    if !Proper(st, op) {
      assert Step(size, st, op) == Err(OutOfBufferMemory);
    }
  }

  /** A stray argument that is refused although nothing would be in the buffer after it. */
  lemma RefusedThoughItFits()
    ensures Step(3, EMPTY, Append(Bool(true))) == Err(OutOfBufferMemory)
    ensures Size(After(EMPTY, Append(Bool(true)))) == 0
  {
    assert Up4(3) == 4;
  }

  // ----- serializing packet trees

  function Appends(args: seq<Arg>): (ops: seq<Op>) {
    if args == [] then [] else [Append(args[0])] + Appends(args[1..])
  }

  /** The operations that stream a packet. */
  function Ops(p: Packet): seq<Op>
    decreases p, 1
  {
    match p
    case Message(address, args) => [BeginMessage(address)] + Appends(args) + [EndMessage]
    case Bundle(timeTag, elements) => [BeginBundle(timeTag)] + OpsOf(elements) + [EndBundle]
  }

  function OpsOf(es: seq<Packet>): seq<Op>
    decreases es, 0
  {
    if es == [] then [] else Ops(es[0]) + OpsOf(es[1..])
  }

  /** Run `ops` up to the first refusal. */
  function Drive(capacity: nat, st: State, ops: seq<Op>): Result<State, Error>
    decreases |ops|
  {
    if ops == [] then Ok(st)
    else
      var step := Step(capacity, st, ops[0]);
      if step.Err? then step else Drive(capacity, step.value, ops[1..])
  }

  lemma {:induction false} DriveConcat(capacity: nat, st: State, a: seq<Op>, b: seq<Op>)
    ensures var first := Drive(capacity, st, a);
            Drive(capacity, st, a + b) == if first.Err? then first else Drive(capacity, first.value, b)
    decreases |a|
  {
    hide Step;
    if a == [] {
      assert a + b == b;
    } else {
      assert (a + b)[1..] == a[1..] + b;
      var step := Step(capacity, st, a[0]);
      if step.Ok? {
        DriveConcat(capacity, step.value, a[1..], b);
      }
    }
  }

  lemma DriveOne(capacity: nat, st: State, op: Op)
    ensures Drive(capacity, st, [op]) == Step(capacity, st, op)
  {
    hide Step;
    var step := Step(capacity, st, op);
    assert [op][1..] == [];
    if step.Ok? {
      assert Drive(capacity, step.value, []) == Ok(step.value);
    }
  }

  /** `x`, if its size fits, else out of memory. */
  function IfFits(capacity: nat, x: State): Result<State, Error> {
    if Size(x) <= capacity then Ok(x) else Err(OutOfBufferMemory)
  }

  function WithArgs(st: State, args: seq<Arg>): State {
    st.(tags := st.tags + Tags(args), args := st.args + Payloads(args))
  }

  lemma {:induction false} DriveAppends(capacity: nat, st: State, args: seq<Arg>)
    requires st.inMessage && Size(st) <= capacity
    ensures Drive(capacity, st, Appends(args)) == IfFits(capacity, WithArgs(st, args))
    decreases |args|
  {
    hide Layout, Payload, Tag, Up4, Step, After;
    if args == [] {
      assert WithArgs(st, args) == st;
    } else {
      var op := Append(args[0]);
      var next := After(st, op);
      RequiredIsSizeAfter(st, op);
      AppendStep(capacity, st, args[0]);
      assert Appends(args)[1..] == Appends(args[1..]);
      WithArgsStep(st, args);
      WithArgsGrows(next, args[1..]);
      if Size(next) <= capacity {
        DriveAppends(capacity, next, args[1..]);
      }
    }
  }

  lemma AppendStep(capacity: nat, st: State, arg: Arg)
    requires st.inMessage
    ensures Step(capacity, st, Append(arg)) == IfFits(capacity, After(st, Append(arg)))
    ensures After(st, Append(arg)).inMessage
  {
    RequiredIsSizeAfter(st, Append(arg));
    hide Size, Required;
  }

  lemma WithArgsStep(st: State, args: seq<Arg>)
    requires args != []
    ensures WithArgs(After(st, Append(args[0])), args[1..]) == WithArgs(st, args)
  {
    hide Payload, Tag;
    assert Tags(args) == [Tag(args[0])] + Tags(args[1..]);
    assert st.tags + Tags(args) == st.tags + [Tag(args[0])] + Tags(args[1..]);
    assert st.args + Payloads(args) == st.args + Payload(args[0]) + Payloads(args[1..]);
    hide Payloads, Tags;
  }

  lemma WithArgsGrows(st: State, args: seq<Arg>)
    ensures Size(st) <= Size(WithArgs(st, args))
  {
    hide Layout, Payloads, Up4;
    Up4Monotone(|st.tags| + 2, |st.tags + Tags(args)| + 2);
  }

  /** No message in progress, and no stray arguments. */
  predicate Resting(st: State) {
    !st.inMessage && st.tags == [] && st.args == []
  }

  /** `bytes` added as a finished element (as they are, when nothing is open). */
  function WithElement(st: State, bytes: seq<byte>): State {
    st.(stack := Grow(st.stack, Element(st.stack, bytes)))
  }

  lemma SizeWithElement(st: State, bytes: seq<byte>)
    requires Resting(st)
    ensures Size(WithElement(st, bytes)) == |Layout(st.stack)| + SlotSize(st.stack) + |bytes|
  {
    hide Bytes32;
    LayoutGrow(st.stack, Element(st.stack, bytes));
  }

  lemma SizeGrown(st: State, bytes: seq<byte>)
    requires Resting(st)
    ensures Size(st.(stack := Grow(st.stack, bytes))) == |Layout(st.stack)| + |bytes|
  {
    LayoutGrow(st.stack, bytes);
  }

  lemma DriveMessage(capacity: nat, st: State, address: seq<byte>, args: seq<Arg>)
    requires Resting(st)
    ensures Drive(capacity, st, Ops(Message(address, args)))
            == IfFits(capacity, WithElement(st, Encode(Message(address, args))))
  {
    hide Layout, Text, Payloads, TagBlock, Up4, Drive, IfFits, Appends, Tags, Step, Size;
    var begun := State(Open(st.stack, Text(address)), true, [], []);
    var full := State(Open(st.stack, Text(address)), true, Tags(args), Payloads(args));
    assert begun == After(st, BeginMessage(address));
    assert full == WithArgs(begun, args);
    BeginStep(capacity, st, BeginMessage(address));
    DriveOne(capacity, st, BeginMessage(address));
    DriveConcat(capacity, st, [BeginMessage(address)], Appends(args));
    DriveConcat(capacity, st, [BeginMessage(address)] + Appends(args), [EndMessage]);
    EndsAsElement(capacity, st, address, args);
    WithArgsGrows(begun, args);
    Fits(capacity, begun);
    Fits(capacity, full);
    Fits(capacity, WithElement(st, Encode(Message(address, args))));
    if Size(begun) <= capacity {
      DriveAppends(capacity, begun, args);
      DriveOne(capacity, full, EndMessage);
    }
  }

  lemma Fits(capacity: nat, x: State)
    ensures IfFits(capacity, x) == if Size(x) <= capacity then Ok(x) else Err(OutOfBufferMemory)
  {
  }

  lemma BeginStep(capacity: nat, st: State, op: Op)
    requires Resting(st) && (op.BeginMessage? || op.BeginBundle?)
    ensures Step(capacity, st, op) == IfFits(capacity, After(st, op))
  {
    RequiredIsSizeAfter(st, op);
    hide Size, Required;
  }

  lemma EndsAsElement(capacity: nat, st: State, address: seq<byte>, args: seq<Arg>)
    requires Resting(st)
    ensures var full := State(Open(st.stack, Text(address)), true, Tags(args), Payloads(args));
            var done := WithElement(st, Encode(Message(address, args)));
            Step(capacity, full, EndMessage) == Ok(done) && Size(done) == Size(full)
  {
    hide Layout, Text, Payloads, TagBlock, Up4, Tags;
    var full := State(Open(st.stack, Text(address)), true, Tags(args), Payloads(args));
    assert Text(address) + (TagBlock(Tags(args)) + Payloads(args)) == Encode(Message(address, args));
    SizeWithElement(st, Encode(Message(address, args)));
    LayoutOpen(Open(st.stack, Text(address)));
  }

  /**
   Streaming a packet succeeds exactly when its encoding, with its size slot, fits; and then adds
   precisely that encoding to the element in progress.
   */
  lemma {:induction false} DrivePacket(capacity: nat, st: State, p: Packet)
    requires Resting(st)
    ensures Drive(capacity, st, Ops(p)) == IfFits(capacity, WithElement(st, Encode(p)))
    decreases p, 1
  {
    match p
    case Message(address, args) => DriveMessage(capacity, st, address, args);
    case Bundle(timeTag, elements) =>
      hide Layout, BundleHeader, Drive, OpsOf, Step, Size, EncodeElements, IfFits;
      var begun := st.(stack := Open(st.stack, BundleHeader(timeTag)));
      var full := begun.(stack := Grow(begun.stack, EncodeElements(elements)));
      assert begun == After(st, BeginBundle(timeTag));
      BeginStep(capacity, st, BeginBundle(timeTag));
      DriveOne(capacity, st, BeginBundle(timeTag));
      DriveConcat(capacity, st, [BeginBundle(timeTag)], OpsOf(elements));
      DriveConcat(capacity, st, [BeginBundle(timeTag)] + OpsOf(elements), [EndBundle]);
      BundleEnds(capacity, st, timeTag, elements);
      Fits(capacity, begun);
      Fits(capacity, full);
      Fits(capacity, WithElement(st, Encode(p)));
      DriveElements(capacity, begun, elements);
      DriveOne(capacity, full, EndBundle);
  }

  lemma BundleEnds(capacity: nat, st: State, timeTag: u64, elements: seq<Packet>)
    requires Resting(st)
    ensures var begun := st.(stack := Open(st.stack, BundleHeader(timeTag)));
            var full := begun.(stack := Grow(begun.stack, EncodeElements(elements)));
            var done := WithElement(st, Encode(Bundle(timeTag, elements)));
            && Step(capacity, full, EndBundle) == Ok(done)
            && Size(done) == Size(full) >= Size(begun)
  {
    hide Layout, BundleHeader, EncodeElements;
    var begun := st.(stack := Open(st.stack, BundleHeader(timeTag)));
    SizeWithElement(st, Encode(Bundle(timeTag, elements)));
    SizeGrown(begun, EncodeElements(elements));
    LayoutOpen(begun.stack);
  }

  lemma {:induction false} DriveElements(capacity: nat, st: State, es: seq<Packet>)
    requires Resting(st) && st.stack.Open?
    ensures Size(st) <= capacity ==>
              Drive(capacity, st, OpsOf(es))
              == IfFits(capacity, st.(stack := Grow(st.stack, EncodeElements(es))))
    decreases es, 0
  {
    hide Layout, Drive, Step, Size, Encode, IfFits, Ops;
    var all := st.(stack := Grow(st.stack, EncodeElements(es)));
    Fits(capacity, all);
    if es == [] {
      assert all == st;
      DriveNothing(capacity, st);
    } else {
      var next := WithElement(st, Encode(es[0]));
      GrowTwice(st, es);
      SizeGrown(next, EncodeElements(es[1..]));
      SizeGrown(next, []);
      assert next.(stack := Grow(next.stack, [])) == next;
      Fits(capacity, next);
      DrivePacket(capacity, st, es[0]);
      DriveConcat(capacity, st, Ops(es[0]), OpsOf(es[1..]));
      DriveElements(capacity, next, es[1..]);
    }
  }

  lemma DriveNothing(capacity: nat, st: State)
    ensures Drive(capacity, st, []) == Ok(st)
  {
  }

  lemma GrowTwice(st: State, es: seq<Packet>)
    requires es != [] && st.stack.Open?
    ensures var next := WithElement(st, Encode(es[0]));
            next.(stack := Grow(next.stack, EncodeElements(es[1..])))
            == st.(stack := Grow(st.stack, EncodeElements(es)))
  {
    hide Bytes32, Encode;
    var c, e, t := st.stack.content, Bytes32(|Encode(es[0])|) + Encode(es[0]), EncodeElements(es[1..]);
    assert c + e + t == c + (e + t);
  }

  /** A whole tree serializes without error iff its canonical encoding fits, and leaves exactly that encoding. */
  lemma SerializesIffFits(capacity: nat, p: Packet)
    ensures Drive(capacity, EMPTY, Ops(p))
            == if |Encode(p)| <= capacity then Ok(State(Closed(Encode(p)), false, [], []))
               else Err(OutOfBufferMemory)
  {
    hide Encode, Drive, Ops;
    DrivePacket(capacity, EMPTY, p);
    SizeWithElement(EMPTY, Encode(p));
    EmptyIsValid(capacity);
    assert [] + Encode(p) == Encode(p);
  }
}
