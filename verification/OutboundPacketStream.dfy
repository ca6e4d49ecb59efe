/**
 The in-place serializer (osctap/osc/OscOutboundPacketStream.h).

 One buffer, owned by the caller, holds everything: finished bytes and the arguments of the message
 in progress grow up from the front, its type tags grow down from the end. Every operation is proved
 against `OutboundSpec.Step`; that it stays inside the buffer is part of that proof.
 */
module OutboundPacketStreams {
  import opened Bytes
  import opened Osc
  import opened OutboundSpec

  /** `std::memcpy` of the caller's bytes into the buffer. */
  method CopyIn(a: array<byte>, p: nat, bytes: seq<byte>)
    requires p + |bytes| <= a.Length
    modifies a
    ensures a[..p + |bytes|] == old(a[..p]) + bytes && a[p + |bytes|..] == old(a[p + |bytes|..])
  {
    forall i | 0 <= i < |bytes| {
      a[p + i] := bytes[i];
    }
  }

  /** The padding loop `while (i & 0x3)`: zeros from `p` on, until `i` is a multiple of four. */
  method Pad(a: array<byte>, p: nat, i: nat) returns (q: nat)
    requires p + Up4(i) - i <= a.Length
    modifies a
    ensures q == p + Up4(i) - i
    ensures a[..q] == old(a[..p]) + Zeros(Up4(i) - i) && a[q..] == old(a[q..])
  {
    q := p;
    var j := i;
    while !Aligned(j)
      invariant i <= j <= Up4(i) && Up4(j) == Up4(i)
      invariant q == p + j - i
      invariant a[..q] == old(a[..p]) + Zeros(j - i) && a[q..] == old(a[q..])
      decreases Up4(i) - j
    {
      Up4Next(j);
      a[q] := 0;
      q := q + 1;
      j := j + 1;
    }
    Up4Aligned(j);
  }

  lemma Up4Next(j: nat)
    requires !Aligned(j)
    ensures j < Up4(j) == Up4(j + 1)
  {
  }

  // ----- the 32-bit arithmetic of the space checks

  /** `RoundUp4(static_cast<uint32_t>(n))`. */
  function RoundUp4Cast(n: nat): (r: u32)
    ensures n <= 0xFFFF_FFFC ==> r == Up4(n)
  {
    hide Up4;
    RoundUp4(n % 0x1_0000_0000)
  }

  /** Lengths for which nothing wraps. (A blob's size is a C++ `int32_t`.) */
  predicate Streamable(op: Op) {
    match op
    case BeginMessage(address) => |address| <= 0xFFFF_FFFB
    case Append(Str(text)) => |text| <= 0xFFFF_FFFB
    case Append(Symbol(name)) => |name| <= 0xFFFF_FFFB
    case Append(Blob(data)) => |data| <= 0x7FFF_FFFF
    case _ => true
  }

  /** The length each `operator<<` passes to `CheckForAvailableArgumentSpace`. */
  function ArgumentLength(arg: Arg): (n: nat)
    ensures Streamable(Append(arg)) ==> n == |Payload(arg)|
  {
    hide Bytes32, Bytes64, Zeros, Up4, RoundUp4Cast;
    match arg
    case Int32(_) => 4
    case Float(_) => 4
    case Char(_) => 4
    case Rgba(_) => 4
    case Midi(_) => 4
    case Int64(_) => 8
    case TimeTag(_) => 8
    case Double(_) => 8
    case Str(text) => RoundUp4Cast(|text| + 1)
    case Symbol(name) => RoundUp4Cast(|name| + 1)
    case Blob(data) => 4 + RoundUp4Cast(|data|)
    case _ => 0
  }

  /** What the space checks compute for `Required`. */
  function Checked(st: State, op: Op): nat {
    match op
    case BeginMessage(address) => Size(st) + SlotSize(st.stack) + RoundUp4Cast(|address| + 1) + 4
    case Append(arg) => |Layout(st.stack)| + |st.args| + ArgumentLength(arg) + Up4(|st.tags| + 3)
    case _ => Required(st, op)
  }

  /** No length wraps, or the operation is refused all the same. */
  predicate Measured(capacity: nat, st: State, op: Op) {
    Streamable(op) || Misuse(st, op).Some? || Checked(st, op) > capacity
  }

  /** The check decides as it should exactly under this condition. */
  lemma MeasuredIff(capacity: nat, st: State, op: Op)
    requires capacity <= MAX_ELEMENT_SIZE && Misuse(st, op).None?
    ensures (Checked(st, op) > capacity <==> Required(st, op) > capacity) <==> Measured(capacity, st, op)
    ensures Streamable(op) ==> Checked(st, op) == Required(st, op)
  {
    hide Layout, Up4, RoundUp4, Size, Bytes32, Zeros;
  }

  /** Where it does not: the longest strings are taken for strings that need no room. */
  lemma LengthWraps(st: State, address: seq<byte>)
    requires 0xFFFF_FFFB < |address| <= 0xFFFF_FFFF
    ensures Checked(st, BeginMessage(address)) == Size(st) + SlotSize(st.stack) + 4
    ensures Required(st, BeginMessage(address)) > MAX_ELEMENT_SIZE
  {
    CastWraps(|address| + 1);
    hide Up4, RoundUp4Cast, Size, Layout;
  }

  lemma CastWraps(n: nat)
    requires 0xFFFF_FFFC < n <= 0x1_0000_0000
    ensures RoundUp4Cast(n) == 0
  {
  }

  /** The fields of the class, with the buffer as a value. */
  datatype Fields = Fields(
    buffer: seq<byte>, typeTagsCurrent: int, messageCursor: int, argumentCurrent: int,
    elementSizePtr: int, messageIsInProgress: bool)

  /** The fields represent the state `st`. */
  ghost predicate Represents(f: Fields, st: State) {
    && |f.buffer| <= MAX_ELEMENT_SIZE
    && OutboundSpec.Valid(|f.buffer|, st)
    && f.messageIsInProgress == st.inMessage
    && 0 <= f.messageCursor
    && f.messageCursor + |st.args| == f.argumentCurrent <= |f.buffer|
    && 0 <= f.typeTagsCurrent
    && f.typeTagsCurrent + |st.tags| == |f.buffer|
    && f.buffer[..f.messageCursor] == Layout(st.stack)
    && f.buffer[f.messageCursor..f.argumentCurrent] == st.args
    && f.elementSizePtr == Pointer(st.stack)
    && (st.inMessage ==> forall i :: 0 <= i < |st.tags| ==> f.buffer[|f.buffer| - 1 - i] == st.tags[i])
  }

  class OutboundPacketStream {
    const data: array<byte>
    var typeTagsCurrent: int
    var messageCursor: int
    var argumentCurrent: int
    var elementSizePtr: int
    var messageIsInProgress: bool

    /** What the stream has been told so far. */
    ghost var st: State

    ghost function Now(): Fields
      reads this, data
    {
      Fields(data[..], typeTagsCurrent, messageCursor, argumentCurrent, elementSizePtr, messageIsInProgress)
    }

    ghost predicate Valid()
      reads this, data
    {
      Represents(Now(), st)
    }

    /** The operation did what `Step` says: a refused one changes no field and no byte. */
    twostate predicate Performed(op: Op, new r: Option<Error>)
      reads this, data
    {
      match Step(data.Length, old(st), op)
      case Err(e) => r == Some(e) && unchanged(this) && unchanged(data)
      case Ok(next) => r == None && st == next
    }

    constructor (buffer: array<byte>)
      requires buffer.Length <= MAX_ELEMENT_SIZE
      ensures Valid() && data == buffer && st == EMPTY
    {
      data := buffer;
      typeTagsCurrent := buffer.Length;
      messageCursor, argumentCurrent, elementSizePtr := 0, 0, -1;
      messageIsInProgress := false;
      st := EMPTY;
    }

    method Clear()
      requires Valid()
      modifies this
      ensures Valid() && Performed(Op.Clear, None)
    {
      typeTagsCurrent := data.Length;
      messageCursor, argumentCurrent, elementSizePtr := 0, 0, -1;
      messageIsInProgress := false;
      st := EMPTY;
    }

    method CurrentSize() returns (size: nat)
      requires Valid()
      ensures size == Size(st) <= data.Length
    {
      size := argumentCurrent;
      if messageIsInProgress {
        size := size + RoundUp4(data.Length - typeTagsCurrent + 2);
      }
    }

    // ----- element slots

    /** Open an element at `beginPtr`: its slot, if it needs one, keeps the parent's offset. */
    method BeginElement(beginPtr: nat) returns (p: nat)
      requires -1 <= elementSizePtr <= data.Length <= MAX_ELEMENT_SIZE
      requires beginPtr + (if elementSizePtr == -1 then 0 else 4) <= data.Length
      modifies this`elementSizePtr, data
      ensures old(elementSizePtr) == -1 ==> elementSizePtr == 0 && p == beginPtr && data[..] == old(data[..])
      ensures old(elementSizePtr) != -1 ==>
                && elementSizePtr == beginPtr
                && p == beginPtr + 4
                && data[..p] == old(data[..beginPtr]) + Bytes32(old(elementSizePtr))
                && data[p..] == old(data[p..])
    {
      hide Bytes32;
      if elementSizePtr == -1 {
        elementSizePtr := 0;
        p := beginPtr;
      } else {
        Store32(data, beginPtr, elementSizePtr);
        elementSizePtr := beginPtr;
        p := beginPtr + 4;
      }
    }

    // ----- bundles

    method WriteBundleHeader(p: nat, timeTag: u64)
      requires p + 16 <= data.Length
      modifies data
      ensures data[..p + 16] == old(data[..p]) + BundleHeader(timeTag)
    {
      hide Bytes64;
      CopyIn(data, p, BUNDLE_NAME);
      Store64(data, p + 8, timeTag);
    }

    method BeginBundle(timeTag: u64) returns (r: Option<Error>)
      requires Valid()
      modifies this, data
      ensures Valid() && Performed(Op.BeginBundle(timeTag), r)
    {
      hide Bytes32, Bytes64, Up4, Layout, Zeros, Represents;
      ghost var op, was := Op.BeginBundle(timeTag), Now();
      Scalars(was, st);
      if messageIsInProgress {
        return Some(MessageInProgress);
      }
      var size := CurrentSize();
      if size + (if elementSizePtr != -1 then 4 else 0) + 16 > data.Length {
        return Some(OutOfBufferMemory);
      }
      messageCursor := BeginElement(messageCursor);
      WriteBundleHeader(messageCursor, timeTag);
      messageCursor := messageCursor + 16;
      argumentCurrent := messageCursor;
      RepresentsBegin(was, Now(), st, op, BundleHeader(timeTag));
      st := After(st, op);
      r := None;
    }

    method EndBundle() returns (r: Option<Error>)
      requires Valid()
      modifies this, data
      ensures Valid() && Performed(Op.EndBundle, r)
    {
      hide Bytes32, Up4, Layout, Represents;
      ghost var was := Now();
      Scalars(was, st);
      if elementSizePtr == -1 {
        return Some(BundleNotInProgress);
      }
      if messageIsInProgress {
        return Some(MessageInProgress);
      }
      OpenSlot(st.stack);
      EndElement(messageCursor);
      RepresentsEndBundle(was, Now(), st);
      st := After(st, Op.EndBundle);
      r := None;
    }

    /** Close the element in progress: its slot gets its size, and its parent is in progress again. */
    method EndElement(endPtr: nat)
      requires 0 <= elementSizePtr
      requires elementSizePtr != 0 ==> elementSizePtr + 4 <= endPtr
      requires endPtr <= data.Length <= MAX_ELEMENT_SIZE
      modifies this`elementSizePtr, data
      ensures Patched(old(data[..]), old(elementSizePtr), endPtr, data[..], elementSizePtr)
    {
      hide Bytes32, Load32;
      if elementSizePtr == 0 {
        elementSizePtr := -1;
      } else {
        var previousElementSizePtr := Load32(data[..], elementSizePtr);
        var elementSize := (endPtr - elementSizePtr - 4) % 0x1_0000_0000;
        Store32(data, elementSizePtr, elementSize);
        elementSizePtr := previousElementSizePtr;
      }
    }

    // ----- messages

    method BeginMessage(address: seq<byte>) returns (r: Option<Error>)
      requires Valid()
      requires Measured(data.Length, st, Op.BeginMessage(address))
      modifies this, data
      ensures Valid() && Performed(Op.BeginMessage(address), r)
    {
      hide Bytes32, Up4, Layout, Zeros, RoundUp4Cast, Represents;
      ghost var op, was := Op.BeginMessage(address), Now();
      Scalars(was, st);
      if messageIsInProgress {
        return Some(MessageInProgress);
      }
      MeasuredIff(data.Length, st, op);
      var size := CurrentSize();
      if size + (if elementSizePtr != -1 then 4 else 0) + RoundUp4Cast(|address| + 1) + 4 > data.Length {
        return Some(OutOfBufferMemory);
      }
      messageCursor := BeginElement(messageCursor);
      messageCursor := WriteText(messageCursor, address);
      argumentCurrent := messageCursor;
      typeTagsCurrent := data.Length;
      messageIsInProgress := true;
      RepresentsBegin(was, Now(), st, op, Text(address));
      st := After(st, op);
      r := None;
    }

    /** A string, its terminator, and the padding loop. */
    method WriteText(p: nat, s: seq<byte>) returns (q: nat)
      requires p + Up4(|s| + 1) <= data.Length
      modifies data
      ensures q == p + |Text(s)|
      ensures data[..q] == old(data[..p]) + Text(s) && data[q..] == old(data[q..])
    {
      hide Up4, Zeros;
      ghost var was, end := data[..], p + Up4(|s| + 1);
      CopyIn(data, p, s);
      SameTail(was, data[..], p + |s|, end);
      ghost var copied, z := data[..], p + |s|;
      data[p + |s|] := 0;
      assert data[..z + 1] == copied[..z] + [0];
      assert data[z + 1..] == copied[z + 1..];
      SameTail(copied, data[..], z + 1, end);
      q := Pad(data, p + |s| + 1, |s| + 1);
      TextParts(s);
    }

    method EndMessage() returns (r: Option<Error>)
      requires Valid()
      modifies this, data
      ensures Valid() && Performed(Op.EndMessage, r)
    {
      hide Bytes32, Up4, Layout, TagBlock, Represents;
      ghost var was := Now();
      Scalars(was, st);
      if !messageIsInProgress {
        return Some(MessageNotInProgress);
      }
      TagsInOrder(was, st);
      FoldTypeTags();
      argumentCurrent := messageCursor;
      ghost var folded := Now();
      RepresentsFolded(was, folded, st);
      OpenSlot(st.stack);
      EndElement(messageCursor);
      messageIsInProgress := false;
      RepresentsEndMessage(was, folded, Now(), st);
      st := After(st, Op.EndMessage);
      r := None;
    }

    /** Move the arguments up and put the type tags, in insertion order, in front of them. */
    method FoldTypeTags()
      requires Foldable(Now())
      modifies this`messageCursor, this`typeTagsCurrent, data
      ensures Folded(old(Now()), Now())
    {
      hide Up4, RoundUp4, TagBlock;
      ghost var was := Now();
      var typeTagsCount := data.Length - typeTagsCurrent;
      if typeTagsCount != 0 {
        var tempTypeTags := data[typeTagsCurrent..];
        var typeTagSlotSize := RoundUp4(typeTagsCount + 2);
        var argumentsSize := argumentCurrent - messageCursor;
        ShiftArguments(messageCursor, argumentsSize, tempTypeTags, typeTagSlotSize);
        typeTagsCurrent := data.Length;
        messageCursor := messageCursor + typeTagSlotSize + argumentsSize;
      } else {
        EmptyTagBlock();
        assert Reversed(data[typeTagsCurrent..]) == [];
        CopyIn(data, messageCursor, [COMMA, 0, 0, 0]);
        messageCursor := messageCursor + 4;
        assert was.buffer[was.messageCursor..was.argumentCurrent] == [];
      }
    }

    /** The `memmove` of `n` argument bytes at `p`, and the tag block that takes their place. */
    method ShiftArguments(p: nat, n: nat, temp: seq<byte>, slotSize: nat)
      requires slotSize == Up4(|temp| + 2) && p + slotSize + n <= data.Length
      modifies data
      ensures data[..p + slotSize + n] == old(data[..p]) + TagBlock(Reversed(temp)) + old(data[p..p + n])
    {
      hide Up4, TagBlock;
      ghost var top, args := p + slotSize, data[p..p + n];
      MoveUp(data, p, p + slotSize, n);
      ghost var moved := data[..];
      WriteTagBlock(data, p, temp, slotSize);
      SameTail(moved, data[..], top, top);
      assert data[top..top + n] == data[top..][..n] == moved[top..][..n] == args;
      assert data[..top + n] == data[..top] + data[top..top + n];
    }

    // ----- arguments

    /**
     Every `operator<<` for an argument: check for space, push the type tag downwards, write the
     payload upwards.
     */
    method Append(arg: Arg) returns (r: Option<Error>)
      requires Valid()
      requires Measured(data.Length, st, Op.Append(arg))
      modifies this, data
      ensures Valid() && Performed(Op.Append(arg), r)
    {
      hide Bytes32, Up4, Layout, Payload, Tag, RoundUp4, Represents, ArgumentLength;
      ghost var was := Now();
      Scalars(was, st);
      MeasuredIff(data.Length, st, Op.Append(arg));
      if argumentCurrent + ArgumentLength(arg) + RoundUp4(data.Length - typeTagsCurrent + 3) > data.Length {
        return Some(OutOfBufferMemory);
      }
      AppendFits(data.Length, st, arg);
      WriteArgument(arg);
      RepresentsAppend(was, Now(), st, arg);
      st := After(st, Op.Append(arg));
      r := None;
    }

    method WriteArgument(arg: Arg)
      requires arg.Blob? ==> |arg.data| <= 0x7FFF_FFFF
      requires 0 <= argumentCurrent && argumentCurrent + |Payload(arg)| < typeTagsCurrent <= data.Length
      modifies this`typeTagsCurrent, this`argumentCurrent, data
      ensures ArgumentWritten(old(Now()), Now(), arg)
    {
      hide Payload, Tag;
      ghost var was, t := Now(), typeTagsCurrent - 1;
      typeTagsCurrent := typeTagsCurrent - 1;
      data[typeTagsCurrent] := Tag(arg);
      ghost var tagged := data[..];
      assert tagged[t..] == [Tag(arg)] + was.buffer[t + 1..];
      WritePayload(arg);
      SameTail(tagged, data[..], argumentCurrent, t);
    }

    method PutWord(w: u32)
      requires 0 <= argumentCurrent && argumentCurrent + 4 <= data.Length
      modifies this`argumentCurrent, data
      ensures Appended(Bytes32(w))
    {
      hide Bytes32;
      Store32(data, argumentCurrent, w);
      argumentCurrent := argumentCurrent + 4;
    }

    method PutWide(w: u64)
      requires 0 <= argumentCurrent && argumentCurrent + 8 <= data.Length
      modifies this`argumentCurrent, data
      ensures Appended(Bytes64(w))
    {
      hide Bytes64;
      Store64(data, argumentCurrent, w);
      argumentCurrent := argumentCurrent + 8;
    }

    method PutText(s: seq<byte>)
      requires 0 <= argumentCurrent && argumentCurrent + |Text(s)| <= data.Length
      modifies this`argumentCurrent, data
      ensures Appended(Text(s))
    {
      hide Up4, Text;
      argumentCurrent := WriteText(argumentCurrent, s);
    }

    method PutBlob(bytes: seq<byte>)
      requires |bytes| <= 0x7FFF_FFFF
      requires 0 <= argumentCurrent && argumentCurrent + |Payload(Blob(bytes))| <= data.Length
      modifies this`argumentCurrent, data
      ensures Appended(Payload(Blob(bytes)))
    {
      hide Up4, Bytes32, Zeros;
      ghost var was, p := data[..], argumentCurrent;
      ghost var end := p + 4 + Up4(|bytes|);
      Store32(data, argumentCurrent, |bytes|);
      SameTail(was, data[..], p + 4, end);
      ghost var stored := data[..];
      CopyIn(data, argumentCurrent + 4, bytes);
      SameTail(stored, data[..], p + 4 + |bytes|, end);
      argumentCurrent := Pad(data, argumentCurrent + 4 + |bytes|, |bytes|);
      assert data[..end] == was[..p] + Bytes32(|bytes|) + bytes + Zeros(Up4(|bytes|) - |bytes|);
    }

    /** `bytes` were written at `argumentCurrent`, which moved past them; nothing else changed. */
    twostate predicate Appended(bytes: seq<byte>)
      reads this, data
    {
      && 0 <= old(argumentCurrent) <= argumentCurrent == old(argumentCurrent) + |bytes| <= data.Length
      && data[..argumentCurrent] == old(data[..argumentCurrent]) + bytes
      && data[argumentCurrent..] == old(data[..])[argumentCurrent..]
    }

    method WritePayload(arg: Arg)
      requires 0 <= argumentCurrent && argumentCurrent + |Payload(arg)| <= data.Length
      requires arg.Blob? ==> |arg.data| <= 0x7FFF_FFFF
      modifies this`argumentCurrent, data
      ensures Appended(Payload(arg))
    {
      hide Bytes32, Bytes64, Up4, Text, Zeros;
      match arg
      case Int32(i) => PutWord(Word32(i));
      case Float(bits) => PutWord(bits);
      case Char(c) => PutWord(CharWord(c));
      case Rgba(color) => PutWord(color);
      case Midi(midi) => PutWord(midi);
      case Int64(h) => PutWide(Word64(h));
      case TimeTag(time) => PutWide(time);
      case Double(wide) => PutWide(wide);
      case Str(text) => PutText(text);
      case Symbol(name) => PutText(name);
      case Blob(bytes) => PutBlob(bytes);
      case _ =>
    }
  }

  function Reversed(s: seq<byte>): (r: seq<byte>)
    ensures |r| == |s| && forall i :: 0 <= i < |s| ==> r[i] == s[|s| - 1 - i]
  {
    seq(|s|, i requires 0 <= i < |s| => s[|s| - 1 - i])
  }

  /** `std::memmove` to a higher address: all sources are read before any target is written. */
  method MoveUp(a: array<byte>, src: nat, dst: nat, n: nat)
    requires src <= dst && dst + n <= a.Length
    modifies a
    ensures a[..dst] == old(a[..dst]) && a[dst..dst + n] == old(a[src..src + n])
  {
    forall i | 0 <= i < n {
      a[dst + i] := a[src + i];
    }
  }

  /** Comma, tags, padding. The tags were stored downwards, so reading `temp` backwards gives them as inserted. */
  method WriteTagBlock(a: array<byte>, p: nat, temp: seq<byte>, slotSize: nat)
    requires slotSize == Up4(|temp| + 2) && p + slotSize <= a.Length
    modifies a
    ensures a[..p + slotSize] == old(a[..p]) + TagBlock(Reversed(temp))
    ensures a[p + slotSize..] == old(a[p + slotSize..])
  {
    hide Up4;
    var count := |temp|;
    ghost var tags := Reversed(temp);
    a[p] := COMMA;
    for i := 0 to count
      invariant a[..p + 1 + i] == old(a[..p]) + [COMMA] + tags[..i]
      invariant a[p + slotSize..] == old(a[p + slotSize..])
    {
      a[p + i + 1] := temp[count - 1 - i];
    }
    WriteZeros(a, p + 1 + count, slotSize - (count + 1));
  }

  method WriteZeros(a: array<byte>, p: nat, n: nat)
    requires p + n <= a.Length
    modifies a
    ensures a[..p + n] == old(a[..p]) + Zeros(n) && a[p + n..] == old(a[p + n..])
  {
    var q := p;
    for i := 0 to n
      invariant q == p + i
      invariant a[..q] == old(a[..p]) + Zeros(i) && a[q..] == old(a[q..])
    {
      a[q] := 0;
      q := q + 1;
    }
  }

  lemma TextParts(s: seq<byte>)
    ensures Text(s) == s + [0] + Zeros(Up4(|s| + 1) - |s| - 1)
  {
    hide Up4;
  }

  lemma SameTail(s: seq<byte>, t: seq<byte>, i: nat, j: nat)
    requires i <= j <= |s| == |t| && s[i..] == t[i..]
    ensures s[j..] == t[j..]
  {
    assert s[j..] == s[i..][j - i..];
    assert t[j..] == t[i..][j - i..];
  }

  lemma EmptyTagBlock()
    ensures TagBlock([]) == [COMMA, 0, 0, 0] && Up4(2) == 4
  {
    Up4Two();
  }

  // ----- how the buffer represents the state

  /** Opening an element with contents `header` in the buffer gives the fields of the new state. */
  lemma RepresentsBegin(f: Fields, g: Fields, st: State, op: Op, header: seq<byte>)
    requires Represents(f, st)
    requires Step(|f.buffer|, st, op).Ok?
    requires After(st, op).stack == Open(st.stack, header) && After(st, op).args == []
    requires |g.buffer| == |f.buffer|
    requires g.messageCursor == g.argumentCurrent == f.messageCursor + SlotSize(st.stack) + |header| <= |f.buffer|
    requires g.elementSizePtr == if f.elementSizePtr == -1 then 0 else f.messageCursor
    requires g.buffer[..g.messageCursor] == f.buffer[..f.messageCursor] + Slot(st.stack) + header
    requires g.messageIsInProgress == After(st, op).inMessage
    requires g.typeTagsCurrent + |After(st, op).tags| == |g.buffer|
    requires After(st, op).inMessage ==> After(st, op).tags == []
    ensures Represents(g, After(st, op))
  {
    hide Bytes32, Up4, Payload;
    StepKeepsValid(|f.buffer|, st, op);
  }

  /** What `EndElement` does to the buffer and to the slot pointer. */
  ghost predicate Patched(b: seq<byte>, p: int, end: int, b': seq<byte>, p': int)
    requires 0 <= p <= |b| && 0 <= end <= |b| && (p != 0 ==> p + 4 <= end)
  {
    && |b'| == |b|
    && (p == 0 ==> p' == -1 && b' == b)
    && (p != 0 ==>
          && p' == Load32(b, p)
          && b'[..p + 4] == b[..p] + Bytes32(end - p - 4)
          && b'[p + 4..] == b[p + 4..])
  }

  /** The slot of the top element lies between its parent's bytes and its own. */
  lemma OpenSlot(s: Stack)
    requires s.Open?
    ensures 0 <= Pointer(s) <= |Layout(s)|
    ensures Pointer(s) != 0 ==> Pointer(s) == |Layout(s.below)| && Pointer(s) + 4 + |s.content| == |Layout(s)|
  {
    hide Bytes32;
    PointerInLayout(s);
  }

  /** What the buffer of an open element with a slot consists of. */
  lemma SlotBytes(b: seq<byte>, s: Stack)
    requires s.Open? && s.below.Open? && |Layout(s)| <= |b| && b[..|Layout(s)|] == Layout(s)
    requires |b| <= MAX_ELEMENT_SIZE
    ensures var p := |Layout(s.below)|;
            && p + 4 <= |Layout(s)|
            && b[..p] == Layout(s.below)
            && Load32(b, p) == Pointer(s.below)
            && b[p + 4..][..|Layout(s)| - p - 4] == s.content
  {
    hide Bytes32, Load32;
    var end, p := |Layout(s)|, |Layout(s.below)|;
    PointerInLayout(s.below);
    assert Layout(s) == Layout(s.below) + Bytes32(Pointer(s.below)) + s.content;
    assert Layout(s)[p..p + 4] == Bytes32(Pointer(s.below));
    assert b[p..p + 4] == b[..end][p..p + 4];
    LoadStored32(b, p, Pointer(s.below));
    assert b[p + 4..][..end - p - 4] == b[..end][p + 4..] == s.content;
    assert b[..p] == b[..end][..p] == Layout(s.below);
  }

  /** Closing the top element in the buffer gives the layout of the closed stack. */
  lemma LayoutPatched(b: seq<byte>, s: Stack, b': seq<byte>, p': int)
    requires s.Open? && Nested(s) && |Layout(s)| <= |b| <= MAX_ELEMENT_SIZE
    requires b[..|Layout(s)|] == Layout(s)
    requires Pointer(s) != 0 ==> Pointer(s) + 4 <= |Layout(s)|
    requires Pointer(s) <= |b| && Patched(b, Pointer(s), |Layout(s)|, b', p')
    ensures b'[..|Layout(s)|] == Layout(Close(s))
    ensures p' == Pointer(s.below)
  {
    hide Bytes32, Load32, Layout, Close;
    var end := |Layout(s)|;
    LayoutClose(s);
    OpenSlot(s);
    if s.below.Open? {
      var p := |Layout(s.below)|;
      LayoutOpen(s.below);
      SlotBytes(b, s);
      assert b'[..end] == b'[..p + 4] + b'[p + 4..][..end - p - 4];
    } else {
      ClosedBelow(s);
    }
  }

  lemma ClosedBelow(s: Stack)
    requires s.Open? && s.below.Closed?
    ensures Layout(s) == Layout(s.below) + s.content
  {
  }

  lemma RepresentsEndBundle(f: Fields, g: Fields, st: State)
    requires Represents(f, st)
    requires Misuse(st, EndBundle).None?
    requires f.elementSizePtr != 0 ==> f.elementSizePtr + 4 <= f.messageCursor
    requires f.elementSizePtr <= |f.buffer|
    requires Patched(f.buffer, f.elementSizePtr, f.messageCursor, g.buffer, g.elementSizePtr)
    requires g == f.(buffer := g.buffer, elementSizePtr := g.elementSizePtr)
    ensures Represents(g, After(st, EndBundle))
  {
    hide Bytes32, Up4, Layout, Load32;
    StepKeepsValid(|f.buffer|, st, EndBundle);
    LayoutClose(st.stack);
    LayoutPatched(f.buffer, st.stack, g.buffer, g.elementSizePtr);
    var c, a := f.messageCursor, f.argumentCurrent;
    OpenSlot(st.stack);
    if f.elementSizePtr != 0 {
      var p := f.elementSizePtr;
      assert f.buffer[c..a] == f.buffer[p + 4..][c - p - 4..a - p - 4];
      assert g.buffer[c..a] == g.buffer[p + 4..][c - p - 4..a - p - 4] == f.buffer[p + 4..][c - p - 4..a - p - 4];
    }
  }

  ghost predicate Foldable(f: Fields) {
    && |f.buffer| <= MAX_ELEMENT_SIZE
    && 0 <= f.messageCursor <= f.argumentCurrent
    && 0 <= f.typeTagsCurrent <= |f.buffer|
    && f.argumentCurrent + Up4(|f.buffer| - f.typeTagsCurrent + 2) <= |f.buffer|
    && (f.typeTagsCurrent == |f.buffer| ==> f.messageCursor == f.argumentCurrent)
  }

  /** The tag area, reversed, stands as a tag block between the address and the arguments. */
  ghost predicate Folded(f: Fields, g: Fields)
    requires Foldable(f)
  {
    && |g.buffer| == |f.buffer|
    && g == f.(buffer := g.buffer, messageCursor := g.messageCursor, typeTagsCurrent := |f.buffer|)
    && g.messageCursor == f.argumentCurrent + Up4(|f.buffer| - f.typeTagsCurrent + 2)
    && g.buffer[..g.messageCursor] ==
       f.buffer[..f.messageCursor] + TagBlock(Reversed(f.buffer[f.typeTagsCurrent..]))
       + f.buffer[f.messageCursor..f.argumentCurrent]
  }

  lemma RepresentsFolded(f: Fields, m: Fields, st: State)
    requires Represents(f, st) && st.inMessage
    requires Foldable(f) && Reversed(f.buffer[f.typeTagsCurrent..]) == st.tags
    requires Folded(f, m.(argumentCurrent := f.argumentCurrent)) && m.argumentCurrent == m.messageCursor
    ensures m.messageCursor == f.messageCursor + |TagBlock(st.tags) + st.args| <= |m.buffer|
    ensures m.buffer[..m.messageCursor] == f.buffer[..f.messageCursor] + (TagBlock(st.tags) + st.args)
  {
    hide Up4, Layout, TagBlock;
  }

  lemma RepresentsEndMessage(f: Fields, m: Fields, g: Fields, st: State)
    requires Represents(f, st) && st.inMessage
    requires |m.buffer| == |f.buffer|
    requires m.messageCursor == m.argumentCurrent == f.messageCursor + |TagBlock(st.tags) + st.args| <= |m.buffer|
    requires m.buffer[..m.messageCursor] == f.buffer[..f.messageCursor] + (TagBlock(st.tags) + st.args)
    requires m.typeTagsCurrent == |m.buffer| && m.elementSizePtr == f.elementSizePtr
    requires 0 <= m.elementSizePtr <= |m.buffer|
    requires m.elementSizePtr != 0 ==> m.elementSizePtr + 4 <= m.messageCursor
    requires Patched(m.buffer, m.elementSizePtr, m.messageCursor, g.buffer, g.elementSizePtr)
    requires g == m.(buffer := g.buffer, elementSizePtr := g.elementSizePtr, messageIsInProgress := false)
    ensures Represents(g, After(st, EndMessage))
  {
    hide Bytes32, Up4, Layout, Load32, TagBlock;
    var block := TagBlock(st.tags) + st.args;
    var s := Grow(st.stack, block);
    StepKeepsValid(|f.buffer|, st, EndMessage);
    LayoutGrow(st.stack, block);
    NestedGrow(st.stack, block);
    LayoutClose(s);
    LayoutPatched(m.buffer, s, g.buffer, g.elementSizePtr);
  }

  /** The parts of `Represents` that are about numbers. */
  lemma Scalars(f: Fields, st: State)
    requires Represents(f, st)
    ensures |f.buffer| <= MAX_ELEMENT_SIZE && OutboundSpec.Valid(|f.buffer|, st)
    ensures f.messageIsInProgress == st.inMessage
    ensures 0 <= f.messageCursor == |Layout(st.stack)|
    ensures f.messageCursor + |st.args| == f.argumentCurrent <= |f.buffer|
    ensures 0 <= f.typeTagsCurrent == |f.buffer| - |st.tags|
    ensures -1 <= f.elementSizePtr == Pointer(st.stack) <= f.messageCursor
    ensures f.elementSizePtr == -1 <==> st.stack.Closed?
  {
    hide Bytes32, Up4, Layout;
    PointerInLayout(st.stack);
    assert |f.buffer[..f.messageCursor]| == f.messageCursor;
  }

  /** The tags stored downwards from the end, read backwards, are the tags in insertion order. */
  lemma TagsInOrder(f: Fields, st: State)
    requires Represents(f, st) && st.inMessage
    ensures Reversed(f.buffer[f.typeTagsCurrent..]) == st.tags
    ensures Foldable(f)
  {
    hide Up4, Layout;
    var n := |f.buffer|;
    var r := Reversed(f.buffer[f.typeTagsCurrent..]);
    forall i | 0 <= i < |r| ensures r[i] == st.tags[i] {
      assert r[i] == f.buffer[f.typeTagsCurrent..][|r| - 1 - i] == f.buffer[n - 1 - i];
    }
    assert f.messageCursor == |Layout(st.stack)|;
  }

  /** A granted argument leaves the payload below the tag area. */
  lemma AppendFits(capacity: nat, st: State, arg: Arg)
    requires |Layout(st.stack)| + |st.args| + |Payload(arg)| + Up4(|st.tags| + 3) <= capacity
    ensures |Layout(st.stack)| + |st.args| + |Payload(arg)| + |st.tags| + 3 <= capacity
  {
  }

  /** The tag went just below the other tags, the payload just above the other payloads. */
  ghost predicate ArgumentWritten(f: Fields, g: Fields, arg: Arg) {
    && |g.buffer| == |f.buffer|
    && g == f.(buffer := g.buffer, typeTagsCurrent := f.typeTagsCurrent - 1,
               argumentCurrent := f.argumentCurrent + |Payload(arg)|)
    && 0 <= f.argumentCurrent <= g.argumentCurrent <= g.typeTagsCurrent
    && f.typeTagsCurrent <= |f.buffer|
    && g.buffer[..g.argumentCurrent] == f.buffer[..f.argumentCurrent] + Payload(arg)
    && g.buffer[g.typeTagsCurrent..] == [Tag(arg)] + f.buffer[f.typeTagsCurrent..]
  }

  lemma RepresentsAppend(f: Fields, g: Fields, st: State, arg: Arg)
    requires Represents(f, st)
    requires Step(|f.buffer|, st, Append(arg)).Ok?
    requires ArgumentWritten(f, g, arg)
    ensures Represents(g, After(st, Append(arg)))
  {
    hide Bytes32, Up4, Layout, Payload, Tag;
    StepKeepsValid(|f.buffer|, st, Append(arg));
    var c, a, b := f.messageCursor, f.argumentCurrent, g.argumentCurrent;
    assert g.buffer[..c] == g.buffer[..b][..c] == f.buffer[..a][..c] == f.buffer[..c];
    assert g.buffer[c..b] == g.buffer[..b][c..] == f.buffer[..a][c..] + Payload(arg) == f.buffer[c..a] + Payload(arg);
    var n, t := |f.buffer|, f.typeTagsCurrent;
    if st.inMessage {
      forall i | 0 <= i < |st.tags| + 1 ensures g.buffer[n - 1 - i] == (st.tags + [Tag(arg)])[i] {
        assert g.buffer[n - 1 - i] == g.buffer[t - 1..][n - 1 - i - (t - 1)];
        if i < |st.tags| {
          assert f.buffer[n - 1 - i] == f.buffer[t..][n - 1 - i - t];
        }
      }
    }
  }
}
