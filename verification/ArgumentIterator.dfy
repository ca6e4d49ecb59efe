/**
 The unchecked reader of a checked message (osctap/osc/OscReceivedElements.h,
 `ReceivedMessageArgument` and `ReceivedMessageArgumentIterator`).

 None of these methods checks a bound. That every read stays inside the message is proved here from
 what the one successful `TryInit` established.
 */
module ArgumentIterators {
  import opened Bytes
  import opened Osc
  import opened MessageFormat
  import opened MessageReading
  import opened ReceivedMessages

  class ReceivedMessageArgumentIterator {
    const message: seq<byte>
    var typeTag: int
    var argument: int

    constructor (message: seq<byte>, typeTags: int, arguments: int)
      ensures this.message == message && typeTag == typeTags && argument == arguments
    {
      this.message := message;
      typeTag, argument := typeTags, arguments;
    }

    /** At tag `k`, with the argument pointer where the validator found argument `k`. */
    ghost predicate At(parts: Parts, k: nat)
      reads this
    {
      && Check(message) == Ok(parts)
      && match parts
         case Bare => typeTag == -1
         case Tagged(t, tags, a) => k <= |tags| && typeTag == t + k && OnArgument(message, tags, a, k, argument)
    }

    /** `Advance`: one step, or none at the end of the tags. */
    method Advance(ghost parts: Parts, ghost k: nat)
      requires At(parts, k)
      modifies this
      ensures At(parts, if parts.Tagged? && k < |parts.tags| then k + 1 else k)
    {
      hide ArgumentEnd, CString, CheckBody, Str4End, SoundParts, OnArgument, AllFit;
      if typeTag == -1 {
        return;
      }
      ghost var tags, a := parts.tags, parts.arguments;
      CheckedParts(message);
      TagInPlace(message, parts.typeTags, tags, a, k);
      var tag := message[typeTag];
      if tag == 0 {
        return;
      }
      ArgumentInPlace(message, parts.typeTags, tags, a, k, argument);
      argument := Skip(message, tag, argument);
      typeTag := typeTag + 1;
    }
  }

  ghost predicate OnArgument(m: seq<byte>, tags: seq<byte>, a: nat, k: nat, argument: int) {
    a <= |m| && AllFit(m, tags, a) && k <= |tags| && argument == OffsetAt(m, tags, a, k)
  }

  lemma TagInPlace(m: seq<byte>, t: nat, tags: seq<byte>, a: nat, k: nat)
    requires SoundParts(m, t, tags, a) && k <= |tags|
    ensures t + k < |m|
    ensures m[t + k] == if k < |tags| then tags[k] else 0
    ensures k < |tags| ==> tags[k] != 0
  {
    hide AllFit, Balanced, Aligned;
    if k < |tags| {
      assert m[t..t + |tags|][k] == m[t + k];
    }
  }

  lemma ArgumentInPlace(m: seq<byte>, t: nat, tags: seq<byte>, a: nat, k: nat, argument: int)
    requires SoundParts(m, t, tags, a) && k < |tags| && OnArgument(m, tags, a, k, argument)
    ensures 0 <= argument <= |m| && ArgumentEnd(m, tags[k], argument).Ok?
    ensures OnArgument(m, tags, a, k + 1, ArgumentEnd(m, tags[k], argument).value)
  {
    hide ArgumentEnd, AllFit, Balanced, Aligned, OffsetAt;
    OffsetNext(m, tags, a, k);
  }

  /** The switch of `Advance`: where the argument after one with this tag starts. */
  method Skip(m: seq<byte>, tag: byte, argument: nat) returns (next: nat)
    requires argument <= |m| && ArgumentEnd(m, tag, argument).Ok?
    ensures ArgumentEnd(m, tag, argument) == Ok(next)
  {
    hide Load32, Up4, Str4End, RoundUp4;
    if HasNoData(tag) {
      next := argument;
    } else if IsWord(tag) {
      next := argument + 4;
    } else if IsWide(tag) {
      next := argument + 8;
    } else if IsText(tag) {
      next := FindStr4EndUnchecked(m, argument);
    } else {
      var blobSize := Load32(m, argument);
      next := argument + 4 + RoundUp4(blobSize);
    }
  }

  /**
   The loop `for (it = ArgumentsBegin(); it != ArgumentsEnd(); ++it)`: it takes exactly
   `ArgumentCount()` steps and reads exactly the arguments of the message.
   */
  method ReadArguments(message: seq<byte>) returns (args: seq<Arg>, steps: nat)
    requires Check(message).Ok?
    ensures args == PartsArguments(message, Check(message).value)
    ensures steps == if Check(message).value.Tagged? then |Check(message).value.tags| else 0
  {
    hide ArgumentEnd, ArgumentAt, CString, CheckBody, Str4End, SoundParts, AllFit, OnArgument, OffsetAt;
    var received := new ReceivedMessage();
    var err := received.TryInit(message, |message|);
    ghost var parts := Check(message).value;
    var it := new ReceivedMessageArgumentIterator(message, received.typeTagsBegin, received.arguments);
    var end := received.typeTagsEnd;
    args, steps := [], 0;
    if it.typeTag == end {
      EmptyTags(message);
      return;
    }
    CheckedParts(message);
    ghost var tags, a := parts.tags, parts.arguments;
    StartsOnArgument(message, parts.typeTags, tags, a);
    ghost var all := ArgumentsAt(message, tags, a);
    while it.typeTag != end
      invariant it.At(parts, steps) && it.message == message && steps <= |tags|
      invariant args == all[..steps]
      decreases |tags| - steps
    {
      TagInPlace(message, parts.typeTags, tags, a, steps);
      ArgumentInPlace(message, parts.typeTags, tags, a, steps, it.argument);
      ValueInPlace(message, parts.typeTags, tags, a, steps, it.argument);
      args := args + [ArgumentAt(message, message[it.typeTag], it.argument)];
      it.Advance(parts, steps);
      steps := steps + 1;
    }
  }

  lemma EmptyTags(m: seq<byte>)
    requires Check(m).Ok?
    ensures Check(m).value.Tagged? ==> Check(m).value.tags != []
  {
    hide AllFit, Balanced, Aligned, NulFree;
    if Check(m).value.Tagged? {
      CheckedParts(m);
    }
  }

  lemma StartsOnArgument(m: seq<byte>, t: nat, tags: seq<byte>, a: nat)
    requires SoundParts(m, t, tags, a)
    ensures OnArgument(m, tags, a, 0, a)
  {
  }

  lemma ValueInPlace(m: seq<byte>, t: nat, tags: seq<byte>, a: nat, k: nat, argument: int)
    requires SoundParts(m, t, tags, a) && k < |tags| && OnArgument(m, tags, a, k, argument)
    ensures 0 <= argument <= |m| && ArgumentEnd(m, tags[k], argument).Ok?
    ensures ArgumentsAt(m, tags, a)[k] == ArgumentAt(m, tags[k], argument)
  {
    hide ArgumentEnd, ArgumentAt, AllFit, Balanced, Aligned, OffsetAt;
    OffsetNext(m, tags, a, k);
  }

  /**
   `ComputeArrayItemCount` on tag `k` of a checked message: it returns at the matching `]`, `close`,
   never at the terminating NUL, with the number of plain tags directly inside the array.
   */
  method ComputeArrayItemCount(message: seq<byte>, typeTags: nat, ghost tags: seq<byte>, ghost a: nat, k: nat)
      returns (count: Option<nat>, close: nat)
    requires SoundParts(message, typeTags, tags, a) && k < |tags|
    ensures tags[k] != ARRAY_BEGIN_TAG ==> count == None
    ensures tags[k] == ARRAY_BEGIN_TAG ==>
              && k < close < |tags|
              && CloseIndex(tags[k + 1..], 0) == Some(close - k - 1)
              && count == Some(DirectItems(tags[k + 1..close], 0))
  {
    hide AllFit, Balanced, Aligned, SoundParts, CloseIndex, DirectItems;
    TagInPlace(message, typeTags, tags, a, k);
    close := k;
    if message[typeTags + k] != ARRAY_BEGIN_TAG {
      return None, close;
    }
    ghost var rest := tags[k + 1..];
    ArrayHasClose(message, typeTags, tags, a, k);
    ghost var j := CloseIndex(rest, 0).value;
    var result, level: nat, typeTag := 0, 0, k + 1;
    TagInPlace(message, typeTags, tags, a, typeTag);
    while message[typeTags + typeTag] != 0
      invariant k + 1 <= typeTag <= k + 1 + j
      invariant typeTags + typeTag < |message|
      invariant CloseIndex(rest[typeTag - k - 1..], level) == Some(j - (typeTag - k - 1))
      invariant result + DirectItems(rest[typeTag - k - 1..j], level) == DirectItems(rest[..j], 0)
      decreases |tags| - typeTag
    {
      ghost var here := rest[typeTag - k - 1..];
      TagInPlace(message, typeTags, tags, a, typeTag);
      TagInPlace(message, typeTags, tags, a, typeTag + 1);
      CountStep(here, j - (typeTag - k - 1), level);
      assert here[1..] == rest[typeTag + 1 - k - 1..];
      assert here[..j - (typeTag - k - 1)] == rest[typeTag - k - 1..j];
      var tag := message[typeTags + typeTag];
      typeTag := typeTag + 1;
      if tag == ARRAY_BEGIN_TAG {
        level := level + 1;
      } else if tag == ARRAY_END_TAG {
        if level == 0 {
          close := typeTag - 1;
          assert rest[..j] == tags[k + 1..close];
          return Some(result), close;
        }
        level := level - 1;
      } else if level == 0 {
        result := result + 1;
      }
      assert here[1..][..j - (typeTag - k - 1)] == rest[typeTag - k - 1..j];
    }
    TagInPlace(message, typeTags, tags, a, typeTag);
    assert false;
  }

  lemma ArrayHasClose(m: seq<byte>, t: nat, tags: seq<byte>, a: nat, k: nat)
    requires SoundParts(m, t, tags, a) && k < |tags| && tags[k] == ARRAY_BEGIN_TAG
    ensures CloseIndex(tags[k + 1..], 0).Some?
  {
    hide AllFit, Balanced, Aligned, CloseIndex;
    ArrayCloses(tags, k);
  }

  /** One tag of an array: either it closes the array, or the close and the count move on by one tag. */
  lemma CountStep(tags: seq<byte>, j: nat, level: nat)
    requires CloseIndex(tags, level) == Some(j)
    ensures j < |tags|
    ensures j == 0 <==> tags[0] == ARRAY_END_TAG && level == 0
    ensures j == 0 ==> DirectItems(tags[..j], level) == 0
    ensures j > 0 ==>
              && CloseIndex(tags[1..], Level(tags[0], level)) == Some(j - 1)
              && DirectItems(tags[..j], level)
                 == (if level == 0 && !IsBracket(tags[0]) then 1 else 0)
                    + DirectItems(tags[1..][..j - 1], Level(tags[0], level))
  {
    if j > 0 {
      assert tags[..j][1..] == tags[1..][..j - 1];
    }
  }
}
