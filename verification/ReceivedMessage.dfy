/**
 Checking a message once, and reading it afterwards without checks
 (osctap/osc/OscReceivedElements.h, osctap/osc/OscUtilities.h).

 `message` is exactly the bytes [message, message + size): an index outside it would be a read
 outside the message. Null pointers are -1.
 */
module ReceivedMessages {
  import opened Bytes
  import opened Osc
  import opened MessageFormat
  import opened MessageReading

  /** `FindStr4End(p, end)`: it looks at every fourth byte only, so it relies on alignment. */
  method FindStr4End(m: seq<byte>, p: nat) returns (q: int)
    requires p <= |m| && Aligned(|m| - p)
    ensures q == if Str4End(m, p).Some? then Str4End(m, p).value else -1
  {
    if p >= |m| {
      return -1;
    }
    AlignedRoom(|m| - p);
    if m[p] == 0 {
      return p + 4;
    }
    var c, end := p + 3, |m| - 1;
    while c < end && m[c] != 0
      invariant p + 3 <= c <= end && Aligned(end - c)
      invariant Str4End(m, p) == Scan4(m, c - 3)
    {
      AlignedRoom(end - c);
      c := c + 4;
    }
    return if m[c] != 0 then -1 else c + 1;
  }

  /** `FindStr4End(p)`: the same search with no bound, for strings known to end inside the message. */
  method FindStr4EndUnchecked(m: seq<byte>, p: nat) returns (q: nat)
    requires Str4End(m, p).Some?
    ensures Str4End(m, p) == Some(q)
  {
    if m[p] == 0 {
      return p + 4;
    }
    var c := p + 3;
    while m[c] != 0
      invariant p + 3 <= c < |m| && Str4End(m, p) == Scan4(m, c - 3)
      decreases |m| - c
    {
      c := c + 4;
    }
    return c + 1;
  }

  /** One argument's case of the switch in `TryInit`. */
  method CheckArgument(m: seq<byte>, tag: byte, argument: nat) returns (r: Result<nat, Fault>)
    requires argument <= |m| <= MAX_ELEMENT_SIZE && Aligned(|m| - argument)
    ensures r == ArgumentEnd(m, tag, argument)
  {
    hide Load32, Up4, Str4End, RoundUp4;
    var end := |m|;
    if HasNoData(tag) {
      return Ok(argument);
    } else if IsWord(tag) {
      if argument == end {
        return Err(ArgumentsExceedMessage);
      }
      var next := argument + 4;
      return if next > end then Err(ArgumentsExceedMessage) else Ok(next);
    } else if IsWide(tag) {
      if argument == end {
        return Err(ArgumentsExceedMessage);
      }
      var next := argument + 8;
      return if next > end then Err(ArgumentsExceedMessage) else Ok(next);
    } else if IsText(tag) {
      if argument == end {
        return Err(ArgumentsExceedMessage);
      }
      var next := FindStr4End(m, argument);
      return if next == -1 then Err(UnterminatedString) else Ok(next);
    } else if tag == BLOB_TAG {
      if argument + 4 > end {
        return Err(ArgumentsExceedMessage);
      }
      var blobSize := Load32(m, argument);
      if !(0 <= Signed32(blobSize) <= MAX_ELEMENT_SIZE) {
        return Err(InvalidBlobSize);
      }
      var blobData := argument + 4;
      if RoundUp4(blobSize) > end - blobData {
        return Err(ArgumentsExceedMessage);
      }
      return Ok(blobData + RoundUp4(blobSize));
    } else {
      return Err(UnknownTypeTag);
    }
  }

  class ReceivedMessage {
    var message: seq<byte>
    var size: int
    var typeTagsBegin: int
    var typeTagsEnd: int
    var arguments: int

    /** The members hold the places that `Check` found. */
    ghost predicate Holds(parts: Parts)
      reads this
    {
      match parts
      case Bare => typeTagsBegin == typeTagsEnd == arguments == -1
      case Tagged(t, tags, a) => typeTagsBegin == t && typeTagsEnd == t + |tags| && arguments == a
    }

    /** An empty message; nothing may be read from it before a successful `TryInit`. */
    constructor () {
      message, size := [], 0;
      typeTagsBegin, typeTagsEnd, arguments := -1, -1, -1;
    }

    method TryInit(message: seq<byte>, size: i32) returns (err: Option<Fault>)
      requires size >= 0 ==> |message| == size
      modifies this
      ensures size < 0 ==> err == Some(InvalidMessageSize)
      ensures size >= 0 ==>
                match Check(message)
                case Err(f) => err == Some(f)
                case Ok(parts) => err == None && this.message == message && Holds(parts)
    {
      hide Scan4, CString, CheckTags;
      this.message, this.size := message, size;
      if !(0 <= size <= MAX_ELEMENT_SIZE) {
        return Some(InvalidMessageSize);
      }
      if size == 0 {
        return Some(ZeroLengthMessage);
      }
      if !Aligned(size) {
        return Some(MessageSizeNotMultipleOfFour);
      }
      typeTagsBegin := FindStr4End(message, 0);
      if typeTagsBegin == -1 {
        return Some(UnterminatedAddress);
      }
      Str4Aligned(message, 0);
      if typeTagsBegin == size {
        typeTagsBegin, typeTagsEnd, arguments := -1, -1, -1;
        return None;
      }
      if message[typeTagsBegin] != COMMA {
        return Some(TypeTagsNotPresent);
      }
      AlignedRoom(size - typeTagsBegin);
      if message[typeTagsBegin + 1] == 0 {
        typeTagsBegin, typeTagsEnd, arguments := -1, -1, -1;
        return None;
      }
      arguments := FindStr4End(message, typeTagsBegin);
      if arguments == -1 {
        return Some(UnterminatedTypeTags);
      }
      Str4Aligned(message, typeTagsBegin);
      TagsEnd(message, typeTagsBegin);
      typeTagsBegin := typeTagsBegin + 1;
      err, typeTagsEnd := CheckArguments(message, typeTagsBegin, arguments);
    }
  }

  /** The loop over the type tags: array levels and one well-formed argument for each tag. */
  method CheckArguments(m: seq<byte>, begin: nat, arguments: nat) returns (err: Option<Fault>, end: nat)
    requires begin < begin + |CString(m, begin)| < arguments <= |m| <= MAX_ELEMENT_SIZE
    requires Aligned(|m| - arguments)
    requires m[begin + |CString(m, begin)|] == 0
    ensures var r := CheckTags(m, CString(m, begin), arguments, 0);
            err == if r.Err? then Some(r.error) else None
    ensures err == None ==> end == begin + |CString(m, begin)|
  {
    hide ArgumentEnd, CString, Aligned;
    ghost var tags := CString(m, begin);
    var typeTag: nat, argument: nat, arrayLevel: nat := begin, arguments, 0;
    end := begin;
    var more := true;
    while more
      invariant begin <= typeTag <= begin + |tags| && argument <= |m| && Aligned(|m| - argument)
      invariant more <==> typeTag < begin + |tags|
      invariant CheckTags(m, tags[typeTag - begin..], argument, arrayLevel) == CheckTags(m, tags, arguments, 0)
      decreases begin + |tags| - typeTag
    {
      ghost var rest := tags[typeTag - begin..];
      assert m[typeTag] == m[begin..begin + |tags|][typeTag - begin] == rest[0];
      assert rest[1..] == tags[typeTag + 1 - begin..];
      if m[typeTag] == ARRAY_END_TAG && arrayLevel == 0 {
        return Some(UnmatchedArrayClose), end;
      }
      var r := CheckArgument(m, m[typeTag], argument);
      if r.Err? {
        return Some(r.error), end;
      }
      ArgumentAligned(m, m[typeTag], argument);
      arrayLevel := if m[typeTag] == ARRAY_BEGIN_TAG then arrayLevel + 1
                    else if m[typeTag] == ARRAY_END_TAG then arrayLevel - 1 else arrayLevel;
      argument := r.value;
      typeTag := typeTag + 1;
      if typeTag < begin + |tags| {
        assert m[typeTag] == m[begin..begin + |tags|][typeTag - begin] == tags[typeTag - begin] != 0;
      }
      more := m[typeTag] != 0;
    }
    end := typeTag;
    assert tags[typeTag - begin..] == [];
    err := if arrayLevel != 0 then Some(UnterminatedArray) else None;
  }
}
