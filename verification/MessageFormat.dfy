/**
 Which byte strings are OSC messages, and what they say (osctap/osc/OscReceivedElements.h,
 osctap/osc/OscUtilities.h).

 `Check` says what `ReceivedMessage::TryInit` decides and where it finds the parts; `IsMessage` is
 the grammar of messages; the lemmas show that the two agree.
 */
module MessageFormat {
  import opened Bytes
  import opened Osc

  datatype Fault =
    | InvalidMessageSize | ZeroLengthMessage | MessageSizeNotMultipleOfFour
    | UnterminatedAddress | TypeTagsNotPresent | UnterminatedTypeTags
    | UnmatchedArrayClose | UnterminatedArray | UnknownTypeTag
    | ArgumentsExceedMessage | UnterminatedString | InvalidBlobSize
    | InvalidBundleSize | TooShortForBundle | BundleSizeNotMultipleOfFour | BadBundleAddress
    | TooShortForElementSize | ElementSizeNotMultipleOfFour | TooShortForElement | ContentsDidNotMatchSize
    | InvalidPacketSize | ZeroLengthElement | PacketSizeNotMultipleOfFour | NestedTooDeeply

  // ----- strings in four-byte blocks

  /** The first block from `p` on whose last byte is NUL, and where it ends. */
  function Scan4(m: seq<byte>, p: nat): (q: Option<nat>)
    ensures q.Some? ==> p + 4 <= q.value <= |m|
    decreases |m| - p
  {
    if p + 4 > |m| then None
    else if m[p + 3] == 0 then Some(p + 4)
    else Scan4(m, p + 4)
  }

  /** The end of the string at `p`; a string that starts with NUL is one block. */
  function Str4End(m: seq<byte>, p: nat): (q: Option<nat>)
    ensures q.Some? ==> p + 4 <= q.value <= |m|
  {
    if p + 4 > |m| then None
    else if m[p] == 0 then Some(p + 4)
    else Scan4(m, p)
  }

  /** Blocks of four bytes of which exactly the last one ends in NUL. */
  predicate IsBlocks(s: seq<byte>) {
    |s| >= 4 && if s[3] == 0 then |s| == 4 else IsBlocks(s[4..])
  }

  predicate IsStr4(s: seq<byte>) {
    |s| >= 4 && if s[0] == 0 then |s| == 4 else IsBlocks(s)
  }

  /** The C string at `p`: the bytes before the next NUL. */
  function CString(m: seq<byte>, p: nat): (s: seq<byte>)
    ensures NulFree(s)
    ensures p <= |m| ==> p + |s| <= |m| && m[p..p + |s|] == s
    ensures p <= |m| && p + |s| < |m| ==> m[p + |s|] == 0
    decreases |m| - p
  {
    if p >= |m| || m[p] == 0 then [] else [m[p]] + CString(m, p + 1)
  }

  // ----- arguments

  predicate HasNoData(tag: byte) {
    tag in {TRUE_TAG, FALSE_TAG, NIL_TAG, INFINITUM_TAG, ARRAY_BEGIN_TAG, ARRAY_END_TAG}
  }

  predicate IsWord(tag: byte) {
    tag in {INT32_TAG, FLOAT_TAG, CHAR_TAG, RGBA_TAG, MIDI_TAG}
  }

  predicate IsWide(tag: byte) {
    tag in {INT64_TAG, TIME_TAG, DOUBLE_TAG}
  }

  predicate IsText(tag: byte) {
    tag in {STRING_TAG, SYMBOL_TAG}
  }

  /** Where the argument at `p` ends. */
  function ArgumentEnd(m: seq<byte>, tag: byte, p: nat): (r: Result<nat, Fault>)
    ensures r.Ok? && p <= |m| ==> p <= r.value <= |m|
  {
    if HasNoData(tag) then Ok(p)
    else if IsWord(tag) then
      if p + 4 > |m| then Err(ArgumentsExceedMessage) else Ok(p + 4)
    else if IsWide(tag) then
      if p + 8 > |m| then Err(ArgumentsExceedMessage) else Ok(p + 8)
    else if IsText(tag) then
      if p >= |m| then Err(ArgumentsExceedMessage)
      else match Str4End(m, p) case None => Err(UnterminatedString) case Some(q) => Ok(q)
    else if tag == BLOB_TAG then
      if p + 4 > |m| then Err(ArgumentsExceedMessage)
      else if Load32(m, p) > MAX_ELEMENT_SIZE then Err(InvalidBlobSize)
      else if Up4(Load32(m, p)) > |m| - (p + 4) then Err(ArgumentsExceedMessage)
      else Ok(p + 4 + Up4(Load32(m, p)))
    else Err(UnknownTypeTag)
  }

  /** Well-formed argument data for a type tag. */
  predicate IsArgument(tag: byte, s: seq<byte>) {
    if HasNoData(tag) then s == []
    else if IsWord(tag) then |s| == 4
    else if IsWide(tag) then |s| == 8
    else if IsText(tag) then IsStr4(s)
    else tag == BLOB_TAG && |s| >= 4 && Load32(s, 0) <= MAX_ELEMENT_SIZE && |s| == 4 + Up4(Load32(s, 0))
  }

  /** The tag-by-tag check: the end of the last argument, or the first thing that is wrong. */
  function CheckTags(m: seq<byte>, tags: seq<byte>, p: nat, level: nat): (r: Result<nat, Fault>)
    ensures r.Ok? && p <= |m| ==> p <= r.value <= |m|
    decreases |tags|
  {
    if tags == [] then
      if level != 0 then Err(UnterminatedArray) else Ok(p)
    else if tags[0] == ARRAY_END_TAG && level == 0 then Err(UnmatchedArrayClose)
    else
      var end := ArgumentEnd(m, tags[0], p);
      if end.Err? then end else CheckTags(m, tags[1..], end.value, Level(tags[0], level))
  }

  function Level(tag: byte, level: nat): nat
    requires tag == ARRAY_END_TAG ==> level > 0
  {
    if tag == ARRAY_BEGIN_TAG then level + 1 else if tag == ARRAY_END_TAG then level - 1 else level
  }

  // ----- messages

  /** `Bare`: no type tags, and so no arguments; the parser then keeps null pointers. */
  datatype Parts = Bare | Tagged(typeTags: nat, tags: seq<byte>, arguments: nat)

  function Check(m: seq<byte>): Result<Parts, Fault> {
    if |m| > MAX_ELEMENT_SIZE then Err(InvalidMessageSize)
    else if |m| == 0 then Err(ZeroLengthMessage)
    else if !Aligned(|m|) then Err(MessageSizeNotMultipleOfFour)
    else match Str4End(m, 0)
    case None => Err(UnterminatedAddress)
    case Some(t) => CheckBody(m, t)
  }

  function CheckBody(m: seq<byte>, t: nat): Result<Parts, Fault>
    requires t <= |m|
  {
    if t == |m| then Ok(Bare)
    else if m[t] != COMMA then Err(TypeTagsNotPresent)
    else if t + 1 >= |m| || m[t + 1] == 0 then Ok(Bare)
    else match Str4End(m, t)
    case None => Err(UnterminatedTypeTags)
    case Some(a) =>
      var tags := CString(m, t + 1);
      var end := CheckTags(m, tags, a, 0);
      if end.Err? then Err(end.error) else Ok(Tagged(t + 1, tags, a))
  }

  // ----- the grammar

  function Flatten(chunks: seq<seq<byte>>): seq<byte> {
    if chunks == [] then [] else chunks[0] + Flatten(chunks[1..])
  }

  /** One well-formed argument for each tag. */
  predicate AreArguments(tags: seq<byte>, chunks: seq<seq<byte>>) {
    |chunks| == |tags| && forall i :: 0 <= i < |tags| ==> IsArgument(tags[i], chunks[i])
  }

  /** `data` starts with well-formed arguments for `tags`. */
  ghost predicate StartsWithArguments(tags: seq<byte>, data: seq<byte>) {
    exists chunks :: AreArguments(tags, chunks) && Flatten(chunks) <= data
  }

  /** After the address: nothing, or a type tag string, its arguments, and any further bytes. */
  ghost predicate IsBody(b: seq<byte>) {
    || b == []
    || (|b| >= 2 && b[0] == COMMA
        && (b[1] == 0
            || exists t: nat :: t <= |b| && IsStr4(b[..t])
                                && Balanced(CString(b, 1), 0) && StartsWithArguments(CString(b, 1), b[t..])))
  }

  ghost predicate IsMessage(m: seq<byte>) {
    && 0 < |m| <= MAX_ELEMENT_SIZE
    && Aligned(|m|)
    && exists t: nat :: t <= |m| && IsStr4(m[..t]) && IsBody(m[t..])
  }

  // ----- the check agrees with the grammar

  lemma {:induction false} ScanIsBlocks(m: seq<byte>, p: nat, q: nat)
    requires p <= q <= |m|
    ensures Scan4(m, p) == Some(q) <==> IsBlocks(m[p..q])
    decreases |m| - p
  {
    var s := m[p..q];
    if p + 4 <= q && m[p + 3] != 0 {
      assert s[4..] == m[p + 4..q];
      ScanIsBlocks(m, p + 4, q);
    }
  }

  lemma Str4EndIsStr4(m: seq<byte>, p: nat, q: nat)
    requires p <= q <= |m|
    ensures Str4End(m, p) == Some(q) <==> IsStr4(m[p..q])
  {
    ScanIsBlocks(m, p, q);
  }

  lemma ArgumentEndIsArgument(m: seq<byte>, tag: byte, p: nat, q: nat)
    requires p <= q <= |m|
    ensures ArgumentEnd(m, tag, p) == Ok(q) <==> IsArgument(tag, m[p..q])
  {
    hide Up4, Load32, IsBlocks, Scan4, Str4End, IsStr4;
    var s := m[p..q];
    if IsText(tag) {
      Str4EndIsStr4(m, p, q);
    } else if tag == BLOB_TAG && p + 4 <= q {
      assert s[0..4] == m[p..p + 4];
      LoadSlice32(m, p, s, 0);
    }
  }

  /** The arguments fit, whatever the brackets do. */
  predicate AllFit(m: seq<byte>, tags: seq<byte>, p: nat) {
    tags != [] ==> ArgumentEnd(m, tags[0], p).Ok? && AllFit(m, tags[1..], ArgumentEnd(m, tags[0], p).value)
  }

  function ArgumentsEnd(m: seq<byte>, tags: seq<byte>, p: nat): (q: nat)
    requires AllFit(m, tags, p)
    ensures p <= |m| ==> p <= q <= |m|
  {
    if tags == [] then p else ArgumentsEnd(m, tags[1..], ArgumentEnd(m, tags[0], p).value)
  }

  lemma {:induction false} CheckTagsSplits(m: seq<byte>, tags: seq<byte>, p: nat, level: nat)
    ensures CheckTags(m, tags, p, level).Ok? <==> AllFit(m, tags, p) && Balanced(tags, level)
    ensures CheckTags(m, tags, p, level).Ok? ==> CheckTags(m, tags, p, level).value == ArgumentsEnd(m, tags, p)
    decreases |tags|
  {
    hide ArgumentEnd;
    if tags != [] {
      var end := ArgumentEnd(m, tags[0], p);
      if end.Ok? && (tags[0] == ARRAY_END_TAG ==> level > 0) {
        CheckTagsSplits(m, tags[1..], end.value, Level(tags[0], level));
      }
    }
  }

  /** The chunks of data the tags stand for. */
  function Chunks(m: seq<byte>, tags: seq<byte>, p: nat): (chunks: seq<seq<byte>>)
    requires AllFit(m, tags, p) && p <= |m|
  {
    if tags == [] then []
    else
      var q := ArgumentEnd(m, tags[0], p).value;
      [m[p..q]] + Chunks(m, tags[1..], q)
  }

  lemma {:induction false} ChunksAreArguments(m: seq<byte>, tags: seq<byte>, p: nat)
    requires AllFit(m, tags, p) && p <= |m|
    ensures AreArguments(tags, Chunks(m, tags, p))
    ensures Flatten(Chunks(m, tags, p)) == m[p..ArgumentsEnd(m, tags, p)]
    decreases |tags|
  {
    hide ArgumentEnd, IsArgument;
    if tags != [] {
      var q := ArgumentEnd(m, tags[0], p).value;
      var rest := Chunks(m, tags[1..], q);
      ArgumentEndIsArgument(m, tags[0], p, q);
      ChunksAreArguments(m, tags[1..], q);
      assert Chunks(m, tags, p)[1..] == rest;
      assert m[p..q] + m[q..ArgumentsEnd(m, tags, p)] == m[p..ArgumentsEnd(m, tags, p)];
    }
  }

  lemma {:induction false} ArgumentsFit(m: seq<byte>, tags: seq<byte>, p: nat, chunks: seq<seq<byte>>)
    requires p <= |m| && AreArguments(tags, chunks) && Flatten(chunks) <= m[p..]
    ensures AllFit(m, tags, p)
    decreases |tags|
  {
    hide ArgumentEnd, IsArgument;
    if tags != [] {
      var q := p + |chunks[0]|;
      assert m[p..q] == m[p..][..|chunks[0]|] == chunks[0];
      ArgumentEndIsArgument(m, tags[0], p, q);
      assert m[q..] == m[p..][|chunks[0]|..];
      ArgumentsFit(m, tags[1..], q, chunks[1..]);
    }
  }

  lemma FitsIffStartsWithArguments(m: seq<byte>, tags: seq<byte>, p: nat)
    requires p <= |m|
    ensures AllFit(m, tags, p) <==> StartsWithArguments(tags, m[p..])
  {
    hide AreArguments, Flatten;
    if AllFit(m, tags, p) {
      ChunksAreArguments(m, tags, p);
      assert Flatten(Chunks(m, tags, p)) <= m[p..];
    }
    if StartsWithArguments(tags, m[p..]) {
      var chunks :| AreArguments(tags, chunks) && Flatten(chunks) <= m[p..];
      ArgumentsFit(m, tags, p, chunks);
    }
  }

  /** A NUL-free run that ends at a NUL or at the end of the buffer is the C string there. */
  lemma {:induction false} CStringIs(m: seq<byte>, p: nat, c: seq<byte>)
    requires p + |c| <= |m| && m[p..p + |c|] == c && NulFree(c)
    requires p + |c| == |m| || m[p + |c|] == 0
    ensures CString(m, p) == c
    decreases |c|
  {
    if c != [] {
      assert m[p] == m[p..p + |c|][0] == c[0];
      assert m[p + 1..p + |c|] == m[p..p + |c|][1..] == c[1..];
      CStringIs(m, p + 1, c[1..]);
      assert c == [c[0]] + c[1..];
    }
  }

  lemma CStringShift(m: seq<byte>, t: nat, p: nat)
    requires t <= p <= |m|
    ensures CString(m[t..], p - t) == CString(m, p)
  {
    hide CString;
    var c := CString(m, p);
    assert m[t..][p - t..p - t + |c|] == m[p..p + |c|];
    CStringIs(m[t..], p - t, c);
  }

  lemma CheckBodyIsBody(m: seq<byte>, t: nat)
    requires t <= |m| && Aligned(|m| - t)
    ensures CheckBody(m, t).Ok? <==> IsBody(m[t..])
  {
    hide CString, Str4End, IsStr4, CheckTags, Balanced, StartsWithArguments;
    var b := m[t..];
    if t < |m| && m[t] == COMMA && t + 1 < |m| && m[t + 1] != 0 {
      var tags := CString(m, t + 1);
      CStringShift(m, t, t + 1);
      forall u: nat | u <= |b|
        ensures IsStr4(b[..u]) <==> Str4End(m, t) == Some(t + u)
        ensures b[u..] == m[t + u..]
      {
        assert b[..u] == m[t..t + u];
        Str4EndIsStr4(m, t, t + u);
      }
      if Str4End(m, t).Some? {
        var a := Str4End(m, t).value;
        CheckTagsSplits(m, tags, a, 0);
        FitsIffStartsWithArguments(m, tags, a);
        assert IsStr4(b[..a - t]) && b[a - t..] == m[a..];
      }
    } else if t + 1 == |m| {
      assert false by { NotAligned1(); }
    }
  }

  lemma NotAligned1()
    ensures !Aligned(1)
  {
  }

  /** The parser accepts exactly the messages of the grammar. */
  lemma CheckIffIsMessage(m: seq<byte>)
    ensures Check(m).Ok? <==> IsMessage(m)
  {
    hide Str4End, IsStr4, CheckBody, IsBody;
    if 0 < |m| <= MAX_ELEMENT_SIZE && Aligned(|m|) {
      forall t: nat | t <= |m|
        ensures IsStr4(m[..t]) <==> Str4End(m, 0) == Some(t)
      {
        assert m[..t] == m[0..t];
        Str4EndIsStr4(m, 0, t);
      }
      if Str4End(m, 0).Some? {
        var t := Str4End(m, 0).value;
        Str4Aligned(m, 0);
        CheckBodyIsBody(m, t);
      }
    }
  }

  // ----- alignment, on which every unchecked read rests

  lemma {:induction false} ScanAligned(m: seq<byte>, p: nat)
    requires Scan4(m, p).Some? && Aligned(|m| - p)
    ensures Aligned(|m| - Scan4(m, p).value)
    decreases |m| - p
  {
    AlignedSum(-4, |m| - p);
    if m[p + 3] != 0 {
      ScanAligned(m, p + 4);
    }
  }

  lemma Str4Aligned(m: seq<byte>, p: nat)
    requires Str4End(m, p).Some? && Aligned(|m| - p)
    ensures Aligned(|m| - Str4End(m, p).value)
  {
    AlignedSum(-4, |m| - p);
    if m[p] != 0 {
      ScanAligned(m, p);
    }
  }

  lemma ArgumentAligned(m: seq<byte>, tag: byte, p: nat)
    requires ArgumentEnd(m, tag, p).Ok? && Aligned(|m| - p)
    ensures Aligned(|m| - ArgumentEnd(m, tag, p).value)
  {
    hide Up4, Load32, Str4End;
    if IsText(tag) {
      Str4Aligned(m, p);
    } else if tag == BLOB_TAG {
      Up4Aligned(Load32(m, p));
      AlignedSum(-4, |m| - p);
      AlignedDifference(|m| - p - 4, Up4(Load32(m, p)));
    } else {
      AlignedSum(-4, |m| - p);
      AlignedSum(-4, |m| - p - 4);
    }
  }
}
