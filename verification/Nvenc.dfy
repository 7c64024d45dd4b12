/** The length-prefixed container the NVENC path reads (host/src/encode/nvenc.cpp). */
module Nvenc {
  import opened Bytes
  import opened Nal
  import opened VideoPayload

  /** Unsigned 32-bit addition. */
  function Add32(a: int, b: int): int {
    (a + b) % TWO32
  }

  /** One round of the loop at byte `pos`: a unit is read, or the loop ends. `Overrun` is a length
      whose 32-bit sum with the position wraps and so passes the guard although the unit would
      reach past the data; nothing is claimed about what the source does then. */
  datatype Round = Unit(len: nat) | End | Overrun

  function RoundAt(data: seq<byte>, pos: nat): Round {
    if |data| < pos + 4 then End
    else
      var len := ReadU32(data, pos);
      if len == 0 || Add32(pos + 4, len) > |data| then End
      else if pos + 4 + len > |data| then Overrun
      else Unit(len)
  }

  /** The units read from `pos` on, or None on an overrun. */
  function ParseFrom(data: seq<byte>, pos: nat): Option<seq<NalUnit>>
    requires pos <= |data|
    decreases |data| - pos
  {
    match RoundAt(data, pos)
    case End => Some([])
    case Overrun => None
    case Unit(len) =>
      var rest := ParseFrom(data, pos + 4 + len);
      if rest.None? then None else Some([data[pos + 4..pos + 4 + len]] + rest.value)
  }

  function PutBefore(nals: seq<NalUnit>, r: Option<seq<NalUnit>>): Option<seq<NalUnit>> {
    if r.None? then None else Some(nals + r.value)
  }

  /** The container loop. The position never passes the end of the data. */
  method ParseContainer(data: seq<byte>) returns (r: Option<seq<NalUnit>>)
    requires |data| < TWO32
    ensures r == ParseFrom(data, 0)
  {
    hide ReadU32;
    var pos: nat, nals: seq<NalUnit> := 0, [];
    Prefixed([], ParseFrom(data, 0));
    while |data| - pos >= 4
      invariant pos <= |data|
      invariant ParseFrom(data, 0) == PutBefore(nals, ParseFrom(data, pos))
      decreases |data| - pos
    {
      var len := ReadU32(data, pos);
      if len == 0 || Add32(pos + 4, len) > |data| {
        break;
      }
      if pos + 4 + len > |data| {
        return None;
      }
      ParseStep(nals, data, pos);
      nals := nals + [data[pos + 4..pos + 4 + len]];
      pos := pos + 4 + len;
    }
    assert nals + [] == nals;
    return Some(nals);
  }

  lemma Prefixed(nals: seq<NalUnit>, r: Option<seq<NalUnit>>)
    requires nals == []
    ensures PutBefore(nals, r) == r
  {
    if r.Some? { assert [] + r.value == r.value; }
  }

  lemma ParseStep(nals: seq<NalUnit>, data: seq<byte>, pos: nat)
    requires pos <= |data| && RoundAt(data, pos).Unit?
    ensures var next := pos + 4 + RoundAt(data, pos).len;
            next <= |data| && PutBefore(nals, ParseFrom(data, pos)) == PutBefore(nals + [data[pos + 4..next]], ParseFrom(data, next))
  {
    var len := RoundAt(data, pos).len;
    var rest := ParseFrom(data, pos + 4 + len);
    if rest.Some? {
      assert nals + ([data[pos + 4..pos + 4 + len]] + rest.value) == nals + [data[pos + 4..pos + 4 + len]] + rest.value;
    }
  }

  // ------------------------------------------------------------- inverse of serialising

  /** Units as the encoder serialises them: none empty, each behind its length (the layout of
      VideoPayload.Counted). */
  ghost predicate NonEmpty(nals: seq<NalUnit>) {
    forall n :: n in nals ==> n != []
  }

  lemma RoundOfUnit(data: seq<byte>, before: seq<byte>, n: NalUnit, after: seq<byte>)
    requires data == before + (U32(|n|) + n + after) && |data| < TWO32 && n != []
    ensures RoundAt(data, |before|) == Unit(|n|)
    ensures data[|before| + 4..|before| + 4 + |n|] == n
  {
    hide U32, ReadU32;
    var pos := |before|;
    assert data[pos..pos + 4] == U32(|n|);
    ReadU32OfU32(data, pos, |n|);
  }

  lemma PutBeforeTwice(n: NalUnit, rest: seq<NalUnit>, r: Option<seq<NalUnit>>)
    ensures PutBefore([n], PutBefore(rest, r)) == PutBefore([n] + rest, r)
  {
    if r.Some? { assert [n] + (rest + r.value) == [n] + rest + r.value; }
  }

  /** Reading a serialised list that begins at `before`, whatever follows it: exactly the list,
      and then whatever the round after it does. */
  lemma {:induction false} ParseOfCounted(data: seq<byte>, before: seq<byte>, nals: seq<NalUnit>, tail: seq<byte>)
    requires data == before + Counted(nals) + tail && |data| < TWO32 && NonEmpty(nals)
    ensures ParseFrom(data, |before|) == PutBefore(nals, ParseFrom(data, |before + Counted(nals)|))
    decreases |nals|
  {
    hide U32, ReadU32, RoundAt;
    if nals == [] {
      assert before + Counted(nals) == before;
      Prefixed([], ParseFrom(data, |before|));
    } else {
      var n, rest := nals[0], nals[1..];
      assert n in nals && forall m :: m in rest ==> m in nals;
      assert data == before + (U32(|n|) + n + (Counted(rest) + tail));
      RoundOfUnit(data, before, n, Counted(rest) + tail);
      var next := before + U32(|n|) + n;
      assert data == next + Counted(rest) + tail;
      ParseOfCounted(data, next, rest, tail);
      var last := ParseFrom(data, |before + Counted(nals)|);
      assert |next + Counted(rest)| == |before + Counted(nals)|;
      PutBeforeTwice(n, rest, last);
      assert [n] + rest == nals;
    }
  }

  /** The loop returns exactly the serialised list if and only if its round after the list ends
      it: the bytes that follow are fewer than four, or a zero word, or a length the guard
      refuses. */
  lemma ParseInvertsIff(nals: seq<NalUnit>, tail: seq<byte>)
    requires NonEmpty(nals) && |Counted(nals) + tail| < TWO32
    ensures ParseFrom(Counted(nals) + tail, 0) == Some(nals)
       <==> RoundAt(Counted(nals) + tail, |Counted(nals)|) == End
  {
    hide RoundAt, Counted;
    var data := Counted(nals) + tail;
    assert data == [] + Counted(nals) + tail && [] + Counted(nals) == Counted(nals);
    ParseOfCounted(data, [], nals, tail);
    var last := ParseFrom(data, |Counted(nals)|);
    if last.Some? {
      assert |nals + last.value| == |nals| + |last.value|;
      assert nals + [] == nals;
    }
  }

  /** A trailing word, such as a unit count, is skipped exactly when it is zero or small enough
      not to wrap when added to the size of the data. */
  lemma TrailingWordIff(nals: seq<NalUnit>, word: nat)
    requires NonEmpty(nals) && |Counted(nals)| + 4 < TWO32 && word < TWO32
    ensures ParseFrom(Counted(nals) + U32(word), 0) == Some(nals)
       <==> word == 0 || |Counted(nals)| + 4 + word < TWO32
  {
    hide U32, ReadU32, ParseFrom, Counted;
    var data := Counted(nals) + U32(word);
    assert data[|Counted(nals)|..|Counted(nals)| + 4] == U32(word);
    ReadU32OfU32(data, |Counted(nals)|, word);
    ParseInvertsIff(nals, U32(word));
  }
}
