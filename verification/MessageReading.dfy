/** What a checked message says: the value, place and number of its arguments, and its arrays. */
module MessageReading {
  import opened Bytes
  import opened Osc
  import opened MessageFormat

  /** The value of the argument at `p`, as the `As...Unchecked` accessors read it. */
  function ArgumentAt(m: seq<byte>, tag: byte, p: nat): (a: Arg)
    requires p <= |m| && ArgumentEnd(m, tag, p).Ok?
    ensures Tag(a) == tag
  {
    if tag == TRUE_TAG then Bool(true)
    else if tag == FALSE_TAG then Bool(false)
    else if tag == NIL_TAG then Nil
    else if tag == INFINITUM_TAG then Infinitum
    else if tag == ARRAY_BEGIN_TAG then ArrayBegin
    else if tag == ARRAY_END_TAG then ArrayEnd
    else if tag == INT32_TAG then Int32(Signed32(Load32(m, p)))
    else if tag == FLOAT_TAG then Float(Load32(m, p))
    else if tag == CHAR_TAG then Char(Load32(m, p) % 256)
    else if tag == RGBA_TAG then Rgba(Load32(m, p))
    else if tag == MIDI_TAG then Midi(Load32(m, p))
    else if tag == INT64_TAG then Int64(Signed64(Load64(m, p)))
    else if tag == TIME_TAG then TimeTag(Load64(m, p))
    else if tag == DOUBLE_TAG then Double(Load64(m, p))
    else if tag == STRING_TAG then Str(CString(m, p))
    else if tag == SYMBOL_TAG then Symbol(CString(m, p))
    else Blob(m[p + 4..p + 4 + Load32(m, p)])
  }

  function ArgumentsAt(m: seq<byte>, tags: seq<byte>, p: nat): (args: seq<Arg>)
    requires p <= |m| && AllFit(m, tags, p)
    ensures |args| == |tags|
  {
    if tags == [] then []
    else [ArgumentAt(m, tags[0], p)] + ArgumentsAt(m, tags[1..], ArgumentEnd(m, tags[0], p).value)
  }

  /** The offset at which the validator found argument `k`. */
  function OffsetAt(m: seq<byte>, tags: seq<byte>, p: nat, k: nat): (q: nat)
    requires p <= |m| && AllFit(m, tags, p) && k <= |tags|
    ensures p <= q <= |m|
    decreases k
  {
    if k == 0 then p else OffsetAt(m, tags[1..], ArgumentEnd(m, tags[0], p).value, k - 1)
  }

  /** The argument after argument `k` starts where argument `k` ends. */
  lemma {:induction false} OffsetNext(m: seq<byte>, tags: seq<byte>, p: nat, k: nat)
    requires p <= |m| && AllFit(m, tags, p) && k < |tags|
    ensures ArgumentEnd(m, tags[k], OffsetAt(m, tags, p, k)) == Ok(OffsetAt(m, tags, p, k + 1))
    ensures ArgumentsAt(m, tags, p)[k] == ArgumentAt(m, tags[k], OffsetAt(m, tags, p, k))
    ensures Aligned(|m| - p) ==> Aligned(|m| - OffsetAt(m, tags, p, k))
    decreases k
  {
    hide ArgumentEnd, ArgumentAt, Aligned;
    var q := ArgumentEnd(m, tags[0], p).value;
    if k == 0 {
      assert OffsetAt(m, tags, p, 1) == OffsetAt(m, tags[1..], q, 0);
    } else {
      if Aligned(|m| - p) {
        ArgumentAligned(m, tags[0], p);
      }
      OffsetNext(m, tags[1..], q, k - 1);
      assert ArgumentsAt(m, tags, p)[k] == ArgumentsAt(m, tags[1..], q)[k - 1];
    }
  }

  /** The message a byte string encodes. */
  function ParseMessage(m: seq<byte>): Result<Packet, Fault> {
    match Check(m)
    case Err(f) => Err(f)
    case Ok(parts) => Ok(Message(CString(m, 0), PartsArguments(m, parts)))
  }

  function PartsArguments(m: seq<byte>, parts: Parts): (args: seq<Arg>)
    requires Check(m) == Ok(parts)
    ensures |args| == if parts.Tagged? then |parts.tags| else 0
  {
    match parts
    case Bare => []
    case Tagged(_, tags, a) =>
      CheckedParts(m);
      ArgumentsAt(m, tags, a)
  }

  /** What a successful check establishes about the parts of a message with type tags. */
  predicate SoundParts(m: seq<byte>, t: nat, tags: seq<byte>, a: nat) {
    && 5 <= t < t + |tags| < a <= |m|
    && m[t..t + |tags|] == tags && NulFree(tags)
    && m[t + |tags|] == 0
    && AllFit(m, tags, a) && Balanced(tags, 0)
    && Aligned(|m| - a)
  }

  lemma CheckedParts(m: seq<byte>)
    requires Check(m).Ok? && Check(m).value.Tagged?
    ensures var parts := Check(m).value;
            SoundParts(m, parts.typeTags, parts.tags, parts.arguments) && |m| <= MAX_ELEMENT_SIZE
  {
    hide Aligned, Str4End, CheckBody, SoundParts;
    Str4Aligned(m, 0);
    BodyParts(m, Str4End(m, 0).value);
  }

  lemma BodyParts(m: seq<byte>, u: nat)
    requires 4 <= u <= |m| && Aligned(|m| - u)
    requires CheckBody(m, u).Ok? && CheckBody(m, u).value.Tagged?
    ensures var parts := CheckBody(m, u).value;
            SoundParts(m, parts.typeTags, parts.tags, parts.arguments)
  {
    hide CheckTags, Aligned, CString, Str4End, SoundParts;
    SoundTags(m, u);
  }

  lemma SoundTags(m: seq<byte>, u: nat)
    requires 4 <= u && u + 1 < |m| && Aligned(|m| - u)
    requires m[u] == COMMA && m[u + 1] != 0 && Str4End(m, u).Some?
    requires CheckTags(m, CString(m, u + 1), Str4End(m, u).value, 0).Ok?
    ensures SoundParts(m, u + 1, CString(m, u + 1), Str4End(m, u).value)
  {
    hide CheckTags, AllFit, Balanced, Aligned, CString, Str4End;
    CheckTagsSplits(m, CString(m, u + 1), Str4End(m, u).value, 0);
    Str4Aligned(m, u);
    TagsEnd(m, u);
  }

  /** The type tags are terminated before the arguments start. */
  lemma TagsEnd(m: seq<byte>, t: nat)
    requires t + 1 < |m| && m[t] == COMMA && m[t + 1] != 0 && Str4End(m, t).Some?
    ensures var tags := CString(m, t + 1);
            tags != [] && t + 1 + |tags| < Str4End(m, t).value && m[t + 1 + |tags|] == 0
  {
    hide Scan4;
    ScanEndsInNul(m, t);
    CStringStops(m, t + 1, Str4End(m, t).value - 1);
  }

  lemma {:induction false} CStringStops(m: seq<byte>, p: nat, z: nat)
    requires p <= z < |m| && m[z] == 0
    ensures p + |CString(m, p)| <= z
    decreases z - p
  {
    if p < z && m[p] != 0 {
      CStringStops(m, p + 1, z);
    }
  }

  lemma {:induction false} ScanEndsInNul(m: seq<byte>, p: nat)
    requires Scan4(m, p).Some?
    ensures m[Scan4(m, p).value - 1] == 0
    decreases |m| - p
  {
    if m[p + 3] != 0 {
      ScanEndsInNul(m, p + 4);
    }
  }

  // ----- arrays

  predicate IsBracket(tag: byte) {
    tag == ARRAY_BEGIN_TAG || tag == ARRAY_END_TAG
  }

  /** The index of the `]` that closes the array `tags` is the inside (and the rest) of. */
  function CloseIndex(tags: seq<byte>, level: nat): (j: Option<nat>)
    ensures j.Some? ==> j.value < |tags| && tags[j.value] == ARRAY_END_TAG
    decreases |tags|
  {
    if tags == [] then None
    else if tags[0] == ARRAY_END_TAG && level == 0 then Some(0)
    else
      match CloseIndex(tags[1..], Level(tags[0], level))
      case None => None
      case Some(j) => Some(j + 1)
  }

  /** How many of `tags` are not brackets and stand inside no further array. */
  function DirectItems(tags: seq<byte>, level: nat): nat
    decreases |tags|
  {
    if tags == [] then 0
    else if tags[0] == ARRAY_END_TAG then DirectItems(tags[1..], if level > 0 then level - 1 else 0)
    else if tags[0] == ARRAY_BEGIN_TAG then DirectItems(tags[1..], level + 1)
    else (if level == 0 then 1 else 0) + DirectItems(tags[1..], level)
  }

  /** The count the documentation promises: each nested array is one item. */
  function DocumentedItems(tags: seq<byte>, level: nat): nat
    decreases |tags|
  {
    if tags == [] then 0
    else if tags[0] == ARRAY_END_TAG then DocumentedItems(tags[1..], if level > 0 then level - 1 else 0)
    else (if level == 0 then 1 else 0)
         + DocumentedItems(tags[1..], if tags[0] == ARRAY_BEGIN_TAG then level + 1 else level)
  }

  /** Balanced tags after an opening bracket contain its matching close, with balanced tags between. */
  lemma {:induction false} CloseExists(tags: seq<byte>, outer: nat, level: nat)
    requires Balanced(tags, outer + 1 + level)
    ensures CloseIndex(tags, level).Some?
    ensures Balanced(tags[..CloseIndex(tags, level).value], level)
    decreases |tags|
  {
    if !(tags[0] == ARRAY_END_TAG && level == 0) {
      CloseExists(tags[1..], outer, Level(tags[0], level));
      var j := CloseIndex(tags[1..], Level(tags[0], level)).value;
      assert tags[..j + 1][1..] == tags[1..][..j];
    } else {
      assert tags[..0] == [];
    }
  }

  lemma {:induction false} BalancedRest(tags: seq<byte>, level: nat, k: nat) returns (deeper: nat)
    requires Balanced(tags, level) && k <= |tags|
    ensures Balanced(tags[k..], deeper)
    decreases k
  {
    if k == 0 {
      deeper := level;
    } else {
      deeper := BalancedRest(tags[1..], Level(tags[0], level), k - 1);
      assert tags[k..] == tags[1..][k - 1..];
    }
  }

  /** From any `[` of balanced tags there is a matching `]` before the end. */
  lemma ArrayCloses(tags: seq<byte>, i: nat)
    requires Balanced(tags, 0) && i < |tags| && tags[i] == ARRAY_BEGIN_TAG
    ensures CloseIndex(tags[i + 1..], 0).Some?
    ensures Balanced(tags[i + 1..][..CloseIndex(tags[i + 1..], 0).value], 0)
  {
    hide CloseIndex;
    var level := BalancedRest(tags, 0, i);
    assert tags[i..][0] == ARRAY_BEGIN_TAG && tags[i..][1..] == tags[i + 1..];
    assert Balanced(tags[i + 1..], level + 1);
    CloseExists(tags[i + 1..], level, 0);
  }

  predicate Contains(tags: seq<byte>, tag: byte) {
    exists i :: 0 <= i < |tags| && tags[i] == tag
  }

  lemma {:induction false} DocumentedAtLeast(tags: seq<byte>, level: nat)
    ensures DirectItems(tags, level) <= DocumentedItems(tags, level)
    ensures !Contains(tags, ARRAY_BEGIN_TAG) ==> DirectItems(tags, level) == DocumentedItems(tags, level)
    decreases |tags|
  {
    if tags != [] {
      var t := tags[1..];
      if Contains(t, ARRAY_BEGIN_TAG) {
        var i :| 0 <= i < |t| && t[i] == ARRAY_BEGIN_TAG;
        assert tags[i + 1] == ARRAY_BEGIN_TAG;
      }
      DocumentedAtLeast(t, if tags[0] == ARRAY_END_TAG then (if level > 0 then level - 1 else 0)
                           else if tags[0] == ARRAY_BEGIN_TAG then level + 1 else level);
    }
  }

  lemma {:induction false} NestedCountsMore(tags: seq<byte>)
    requires Balanced(tags, 0) && Contains(tags, ARRAY_BEGIN_TAG)
    ensures DirectItems(tags, 0) < DocumentedItems(tags, 0)
    decreases |tags|
  {
    var i :| 0 <= i < |tags| && tags[i] == ARRAY_BEGIN_TAG;
    if tags[0] == ARRAY_BEGIN_TAG {
      DocumentedAtLeast(tags[1..], 1);
    } else {
      assert tags[1..][i - 1] == ARRAY_BEGIN_TAG;
      NestedCountsMore(tags[1..]);
    }
  }

  /**
   The comment on `ComputeArrayItemCount` promises one item for each nested array, the loop adds none:
   the two agree exactly when no array is nested.
   */
  lemma CountIsDocumentedIff(inside: seq<byte>)
    requires Balanced(inside, 0)
    ensures DirectItems(inside, 0) == DocumentedItems(inside, 0) <==> !Contains(inside, ARRAY_BEGIN_TAG)
  {
    hide DirectItems, DocumentedItems;
    DocumentedAtLeast(inside, 0);
    if Contains(inside, ARRAY_BEGIN_TAG) {
      NestedCountsMore(inside);
    }
  }

  /** A concrete disagreement: "[[i]i]" has two items by the comment, one by the code. */
  lemma NestedArrayMiscounted()
    ensures var inside := [ARRAY_BEGIN_TAG, INT32_TAG, ARRAY_END_TAG, INT32_TAG];
            && Balanced(inside, 0)
            && DirectItems(inside, 0) == 1
            && DocumentedItems(inside, 0) == 2
  {
    var t3: seq<byte> := [INT32_TAG];
    var t2: seq<byte> := [ARRAY_END_TAG] + t3;
    var t1: seq<byte> := [INT32_TAG] + t2;
    var t0: seq<byte> := [ARRAY_BEGIN_TAG] + t1;
    assert t3[1..] == [] && t2[1..] == t3 && t1[1..] == t2 && t0[1..] == t1;
    assert Balanced(t3, 0) && DirectItems(t3, 0) == 1 && DocumentedItems(t3, 0) == 1;
    assert Balanced(t2, 1) && DirectItems(t2, 1) == 1 && DocumentedItems(t2, 1) == 1;
    assert Balanced(t1, 1) && DirectItems(t1, 1) == 1 && DocumentedItems(t1, 1) == 1;
    assert t0 == [ARRAY_BEGIN_TAG, INT32_TAG, ARRAY_END_TAG, INT32_TAG];
  }
}
