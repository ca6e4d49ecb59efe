/**
 What an `OutboundPacketStream` is meant to do, without pointers (osctap/osc/OscOutboundPacketStream.h).

 The open elements are a stack of byte strings. The C++ class keeps the same stack inside its
 buffer: the size slot of each open element holds the offset of its parent's slot until the element
 is closed. `Layout` says which bytes that is.
 */
module OutboundSpec {
  import opened Bytes
  import opened Osc

  datatype Error = OutOfBufferMemory | BundleNotInProgress | MessageInProgress | MessageNotInProgress

  datatype Op =
    | Clear
    | BeginBundle(timeTag: u64)
    | EndBundle
    | BeginMessage(address: seq<byte>)
    | EndMessage
    | Append(arg: Arg)

  /** Everything written outside open elements, and above it the contents of each open element. */
  datatype Stack = Closed(bytes: seq<byte>) | Open(below: Stack, content: seq<byte>)

  /** `tags` and `args` are those appended since the last reset, also when no message is in progress. */
  datatype State = State(stack: Stack, inMessage: bool, tags: seq<byte>, args: seq<byte>)

  const EMPTY: State := State(Closed([]), false, [], [])

  // ----- the stack and its place in the buffer

  /** `elementSizePtr_`: -1 for null, 0 for `data_` (the outermost element has no slot), else the slot's offset. */
  function Pointer(s: Stack): (p: int)
    ensures p >= -1 && (p == -1 <==> s.Closed?)
    decreases s, 0
  {
    match s
    case Closed(_) => -1
    case Open(Closed(_), _) => 0
    case Open(below, _) => |Layout(below)|
  }

  /** The size slot an element opened on top of `s` gets, while it is open. */
  function Slot(s: Stack): (bytes: seq<byte>)
    ensures |bytes| == SlotSize(s)
    decreases s, 1
  {
    if s.Open? then Bytes32(Pointer(s)) else []
  }

  function SlotSize(s: Stack): nat {
    if s.Open? then 4 else 0
  }

  function Layout(s: Stack): seq<byte>
    decreases s, 2
  {
    match s
    case Closed(bytes) => bytes
    case Open(below, content) => Layout(below) + Slot(below) + content
  }

  /** Append to the element on top. */
  function Grow(s: Stack, bytes: seq<byte>): Stack {
    match s
    case Closed(b) => Closed(b + bytes)
    case Open(below, content) => Open(below, content + bytes)
  }

  /** A finished element as it stands inside the element on top of `s`. */
  function Element(s: Stack, content: seq<byte>): seq<byte> {
    if s.Open? then Bytes32(|content|) + content else content
  }

  /** The element on top becomes part of its parent. (With nothing open, nothing happens.) */
  function Close(s: Stack): Stack {
    match s
    case Closed(_) => s
    case Open(below, content) => Grow(below, Element(below, content))
  }

  // ----- the operations

  /** `Size()`, valid even while building a message. */
  function Size(st: State): nat {
    |Layout(st.stack)| + |st.args| + if st.inMessage then Up4(|st.tags| + 2) else 0
  }

  function Misuse(st: State, op: Op): Option<Error> {
    match op
    case BeginBundle(_) => if st.inMessage then Some(MessageInProgress) else None
    case BeginMessage(_) => if st.inMessage then Some(MessageInProgress) else None
    case EndBundle =>
      if st.stack.Closed? then Some(BundleNotInProgress)
      else if st.inMessage then Some(MessageInProgress) else None
    case EndMessage => if !st.inMessage then Some(MessageNotInProgress) else None
    case _ => None
  }

  /** What the three `CheckForAvailable...Space` functions compare with the capacity. */
  function Required(st: State, op: Op): nat {
    match op
    case BeginBundle(_) => Size(st) + SlotSize(st.stack) + 16
    case BeginMessage(address) => Size(st) + SlotSize(st.stack) + Up4(|address| + 1) + 4
    case Append(arg) => |Layout(st.stack)| + |st.args| + |Payload(arg)| + Up4(|st.tags| + 3)
    case _ => 0
  }

  /** The effect of an operation that is not refused. */
  function After(st: State, op: Op): State {
    match op
    case Clear => EMPTY
    case BeginBundle(timeTag) => st.(stack := Open(st.stack, BundleHeader(timeTag)), args := [])
    case EndBundle => st.(stack := Close(st.stack))
    case BeginMessage(address) => State(Open(st.stack, Text(address)), true, [], [])
    case EndMessage => State(Close(Grow(st.stack, TagBlock(st.tags) + st.args)), false, [], [])
    case Append(arg) => st.(tags := st.tags + [Tag(arg)], args := st.args + Payload(arg))
  }

  function Step(capacity: nat, st: State, op: Op): Result<State, Error> {
    if Misuse(st, op).Some? then Err(Misuse(st, op).value)
    else if Required(st, op) > capacity then Err(OutOfBufferMemory)
    else Ok(After(st, op))
  }

  // ----- the invariant

  /** Every element that contains another open element starts with a bundle header. */
  predicate Nested(s: Stack) {
    s.Open? ==> (s.below.Open? ==> |s.below.content| >= 16) && Nested(s.below)
  }

  predicate Valid(capacity: nat, st: State) {
    && Nested(st.stack)
    && (st.inMessage ==> st.stack.Open?)
    && (st.inMessage && st.tags == [] ==> st.args == [])
    && (!st.inMessage && st.stack.Open? ==> |st.stack.content| >= 16)
    && Size(st) <= capacity
  }

  lemma LayoutGrow(s: Stack, bytes: seq<byte>)
    ensures Layout(Grow(s, bytes)) == Layout(s) + bytes
    ensures Pointer(Grow(s, bytes)) == Pointer(s)
    ensures Grow(s, bytes).Open? == s.Open?
  {
    hide Bytes32;
  }

  lemma LayoutClose(s: Stack)
    requires s.Open?
    ensures Layout(Close(s)) == Layout(s.below) + (if s.below.Open? then Bytes32(|s.content|) else []) + s.content
    ensures Pointer(Close(s)) == Pointer(s.below)
    ensures |Layout(Close(s))| == |Layout(s)|
  {
    hide Bytes32;
    LayoutGrow(s.below, Element(s.below, s.content));
  }

  lemma NestedGrow(s: Stack, bytes: seq<byte>)
    requires Nested(s)
    ensures Nested(Grow(s, bytes))
  {
  }

  /** No operation makes `Size()` exceed the capacity or breaks the shape of the stack. */
  lemma StepKeepsValid(capacity: nat, st: State, op: Op)
    requires Valid(capacity, st)
    requires Step(capacity, st, op).Ok?
    ensures Valid(capacity, After(st, op))
  {
    hide Bytes32, Layout, Payload, Text, BundleHeader, TagBlock, Up4, Tag;
    var s := st.stack;
    match op
    case Clear =>
      assert Layout(Closed([])) == [] by { LayoutOpen(Open(Closed([]), [])); }
    case BeginBundle(timeTag) =>
      LayoutOpen(Open(s, BundleHeader(timeTag)));
    case EndBundle =>
      LayoutClose(s);
      NestedGrow(s.below, Element(s.below, s.content));
    case BeginMessage(address) =>
      LayoutOpen(Open(s, Text(address)));
      assert Up4(2) == 4 by { Up4Two(); }
    case EndMessage =>
      var block := TagBlock(st.tags) + st.args;
      LayoutGrow(s, block);
      LayoutClose(Grow(s, block));
      NestedGrow(s, block);
      NestedGrow(s.below, Element(s.below, s.content + block));
    case Append(arg) =>
  }

  lemma LayoutOpen(s: Stack)
    requires s.Open?
    ensures |Layout(s)| == |Layout(s.below)| + SlotSize(s.below) + |s.content|
    ensures s.below == Closed([]) ==> Layout(s.below) == []
  {
    hide Bytes32;
  }

  lemma PointerInLayout(s: Stack)
    ensures Pointer(s) <= |Layout(s)|
  {
    hide Bytes32;
  }

  lemma Up4Monotone(x: nat, y: nat)
    requires x <= y
    ensures Up4(x) <= Up4(y)
  {
  }

  lemma Up4Two()
    ensures Up4(2) == 4
  {
  }
}
