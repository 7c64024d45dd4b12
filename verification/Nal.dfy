/** Annex B splitting (host/src/encode/nal.cpp) and the tablet's start-code prepending. */
module Nal {
  import opened Bytes

  type NalUnit = seq<byte>

  /** A three-byte start code 00 00 01 begins at position i. */
  predicate StartCodeAt(x: seq<byte>, i: int) {
    0 <= i && i + 3 <= |x| && x[i] == 0 && x[i + 1] == 0 && x[i + 2] == 1
  }

  ghost predicate HasNoStartCode(x: seq<byte>) {
    forall i :: !StartCodeAt(x, i)
  }

  /** The first start code at or after `i`, or |x| when there is none. */
  function FindStart(x: seq<byte>, i: nat): (s: nat)
    requires i <= |x|
    ensures i <= s <= |x|
    ensures forall j :: i <= j < s ==> !StartCodeAt(x, j)
    ensures s < |x| ==> StartCodeAt(x, s)
    decreases |x| - i
  {
    if i == |x| || StartCodeAt(x, i) then i else FindStart(x, i + 1)
  }

  lemma FindStartIs(x: seq<byte>, i: nat, s: nat)
    requires i <= s <= |x|
    requires forall j :: i <= j < s ==> !StartCodeAt(x, j)
    requires s == |x| || StartCodeAt(x, s)
    ensures FindStart(x, i) == s
  {
  }

  /** Where the bytes before the start code at `s` end: one earlier for a 4-byte code. */
  function TrimEnd(x: seq<byte>, s: nat): (e: nat)
    requires s <= |x|
    ensures e <= s
  {
    if s > 0 && x[s - 1] == 0 then s - 1 else s
  }

  /** The NAL units of `y`, whose first byte follows a start code. */
  function Units(y: seq<byte>): seq<NalUnit>
    decreases |y|
  {
    var s := FindStart(y, 0);
    if s == |y| then [y] else [y[..TrimEnd(y, s)]] + Units(y[s + 3..])
  }

  /** What splitting means: bytes before the first start code belong to no unit. */
  function Split(x: seq<byte>): seq<NalUnit> {
    var s := FindStart(x, 0);
    if s == |x| then [] else Units(x[s + 3..])
  }

  /** Shifting a window moves start codes along. */
  lemma StartCodeInSuffix(x: seq<byte>, b: nat, i: nat)
    requires b <= |x|
    ensures StartCodeAt(x[b..], i) == StartCodeAt(x, b + i)
  {
  }

  /** One round of the splitter: the unit open since `b` is closed by the start code at `i`. */
  lemma CloseUnit(x: seq<byte>, b: nat, i: nat)
    requires 0 < b <= i < |x| && x[b - 1] == 1
    requires forall j :: b <= j < i ==> !StartCodeAt(x, j)
    requires StartCodeAt(x, i)
    ensures b <= TrimEnd(x, i)
    ensures Units(x[b..]) == [x[b..TrimEnd(x, i)]] + Units(x[i + 3..])
  {
    var y, s := x[b..], i - b;
    forall j | 0 <= j <= s ensures StartCodeAt(y, j) == StartCodeAt(x, b + j) {
      StartCodeInSuffix(x, b, j);
    }
    FindStartIs(y, 0, s);
    assert TrimEnd(y, s) == TrimEnd(x, i) - b by {
      if s > 0 { assert y[s - 1] == x[i - 1]; }
    }
    assert y[..TrimEnd(y, s)] == x[b..TrimEnd(x, i)];
    assert y[s + 3..] == x[i + 3..];
  }

  lemma LastUnit(x: seq<byte>, b: nat)
    requires b <= |x|
    requires forall j :: b <= j < |x| ==> !StartCodeAt(x, j)
    ensures Units(x[b..]) == [x[b..]]
  {
    var y := x[b..];
    forall j | 0 <= j < |y| ensures !StartCodeAt(y, j) {
      StartCodeInSuffix(x, b, j);
    }
    FindStartIs(y, 0, |y|);
  }

  lemma FirstUnit(x: seq<byte>, i: nat)
    requires forall j :: 0 <= j < i ==> !StartCodeAt(x, j)
    requires StartCodeAt(x, i)
    ensures Split(x) == Units(x[i + 3..])
  {
    FindStartIs(x, 0, i);
  }

  lemma NoUnit(x: seq<byte>)
    requires forall j :: 0 <= j < |x| ==> !StartCodeAt(x, j)
    ensures Split(x) == []
  {
    FindStartIs(x, 0, |x|);
  }

  /** The splitter between two rounds: it stands at `i`, the unit being read (if any) began
      at `b`, and `nals` are the units closed so far. */
  ghost predicate Scanning(x: seq<byte>, nals: seq<NalUnit>, b: int, i: int, haveNal: bool) {
    && 0 <= b <= i <= |x|
    && (forall j :: b <= j < i ==> !StartCodeAt(x, j))
    && (if haveNal then b > 0 && x[b - 1] == 1 && Split(x) == nals + Units(x[b..]) else b == 0 && nals == [])
  }

  lemma ScanStart(x: seq<byte>, nals: seq<NalUnit>, b: nat, i: nat, haveNal: bool)
    requires Scanning(x, nals, b, i, haveNal)
    requires StartCodeAt(x, i)
    ensures haveNal ==> b <= TrimEnd(x, i)
    ensures Scanning(x, if haveNal then nals + [x[b..TrimEnd(x, i)]] else [], i + 3, i + 3, true)
  {
    if haveNal {
      CloseUnit(x, b, i);
      var u, rest := x[b..TrimEnd(x, i)], Units(x[i + 3..]);
      assert nals + ([u] + rest) == (nals + [u]) + rest;
    } else {
      FirstUnit(x, i);
      assert [] + Units(x[i + 3..]) == Units(x[i + 3..]);
    }
  }

  method SplitAnnexB(data: seq<byte>) returns (nals: seq<NalUnit>)
    ensures nals == Split(data)
  {
    nals := [];
    var i, payloadBegin, haveNal := 0, 0, false;
    while i + 3 <= |data|
      invariant Scanning(data, nals, payloadBegin, i, haveNal)
    {
      if data[i] == 0 && data[i + 1] == 0 && data[i + 2] == 1 {
        ScanStart(data, nals, payloadBegin, i, haveNal);
        var prevEnd := if i > 0 && data[i - 1] == 0 then i - 1 else i;
        if haveNal {
          nals := nals + [data[payloadBegin..prevEnd]];
        }
        payloadBegin := i + 3;
        haveNal := true;
        i := i + 3;
      } else {
        i := i + 1;
      }
    }
    if haveNal {
      LastUnit(data, payloadBegin);
      nals := nals + [data[payloadBegin..]];
    } else {
      NoUnit(data);
    }
  }

  /** An H.264 IDR slice: nal_unit_type 5 in the low five bits of the first byte. */
  predicate IsIdrSlice(nal: NalUnit) {
    nal != [] && nal[0] % 32 == 5
  }

  predicate AnyIdrSlice(nals: seq<NalUnit>) {
    exists n :: n in nals && IsIdrSlice(n)
  }

  method HasIdrSlice(nals: seq<NalUnit>) returns (found: bool)
    ensures found == AnyIdrSlice(nals)
  {
    for k := 0 to |nals|
      invariant forall j :: 0 <= j < k ==> !IsIdrSlice(nals[j])
    {
      if nals[k] != [] && nals[k][0] % 32 == 5 {
        assert nals[k] in nals && IsIdrSlice(nals[k]);
        return true;
      }
    }
    return false;
  }

  /** The unit begins with forbidden_zero_bit f, nal_ref_idc ref and nal_unit_type t, section 7.3.1
      of ITU-T H.264. */
  ghost predicate BeginsWith(n: NalUnit, f: nat, ref: nat, t: nat) {
    f < 2 && ref < 4 && t < 32 && n != [] && n[0] == 128 * f + 32 * ref + t
  }

  /** Of one unit the answer is its type alone. */
  lemma IdrIsTypeFive(n: NalUnit, f: nat, ref: nat, t: nat)
    requires BeginsWith(n, f, ref, t)
    ensures AnyIdrSlice([n]) <==> t == 5
  {
    assert (128 * f + 32 * ref + t) % 32 == t;
    assert [n][0] in [n];
  }

  /** A list is answered true exactly when one of its units begins with a byte 128 f + 32 ref + 5. */
  lemma AnyIdrSliceIff(nals: seq<NalUnit>)
    ensures AnyIdrSlice(nals) <==> exists n, f, ref :: n in nals && BeginsWith(n, f, ref, 5)
  {
    if AnyIdrSlice(nals) {
      var n :| n in nals && IsIdrSlice(n);
      var b := n[0] as int;
      assert b == 128 * (b / 128) + 32 * (b / 32 % 4) + b % 32;
      assert BeginsWith(n, b / 128, b / 32 % 4, 5);
    }
    if n, f, ref :| n in nals && BeginsWith(n, f, ref, 5) {
      assert (128 * f + 32 * ref + 5) % 32 == 5;
      assert IsIdrSlice(n);
    }
  }

  // ---------------------------------------------------------------- joining

  /** A start code: 00 00 01, or the four-byte 00 00 00 01. */
  function Code(long: bool): seq<byte> {
    if long then [0, 0, 0, 1] else [0, 0, 1]
  }

  /** NAL units joined into an Annex B stream, each under its own choice of code. */
  function Join(nals: seq<NalUnit>, long: seq<bool>): seq<byte>
    requires |nals| == |long|
  {
    if nals == [] then [] else Code(long[0]) + nals[0] + Join(nals[1..], long[1..])
  }

  /** The bytes of a join: each unit behind 00 00 01 or 00 00 00 01. */
  lemma JoinBytes(n: NalUnit, nals: seq<NalUnit>, l: bool, long: seq<bool>)
    requires |nals| == |long|
    ensures Join([n] + nals, [l] + long) == (if l then [0, 0, 0, 1] else [0, 0, 1]) + n + Join(nals, long)
    ensures Join([], []) == []
  {
    assert ([n] + nals)[1..] == nals && ([l] + long)[1..] == long;
  }

  /** The units can be told apart again: none contains a start code, and none that a
      3-byte code follows ends in a zero byte. */
  ghost predicate Separable(nals: seq<NalUnit>, long: seq<bool>)
    requires |nals| == |long|
  {
    && (forall k :: 0 <= k < |nals| ==> HasNoStartCode(nals[k]))
    && (forall k :: 0 <= k < |nals| - 1 && !long[k + 1] ==> !EndsInZero(nals[k]))
  }

  predicate EndsInZero(n: seq<byte>) {
    n != [] && n[|n| - 1] == 0
  }

  lemma CleanBytesAreOneUnit(n: seq<byte>)
    requires HasNoStartCode(n)
    ensures FindStart(n, 0) == |n|
    ensures Units(n) == [n]
  {
    FindStartIs(n, 0, |n|);
  }

  /** What one unit comes back as: a 3-byte code after it costs it a trailing zero. */
  function Clipped(n: NalUnit, nextIsShort: bool): NalUnit {
    if nextIsShort && EndsInZero(n) then n[..|n| - 1] else n
  }

  /** The exact effect of joining clean units and splitting again. */
  function ClippedAll(nals: seq<NalUnit>, long: seq<bool>): (r: seq<NalUnit>)
    requires |nals| == |long|
    ensures |r| == |nals|
  {
    if nals == [] then [] else
    [Clipped(nals[0], |nals| > 1 && !long[1])] + ClippedAll(nals[1..], long[1..])
  }

  /** A clean byte string followed by a start code: its first start code is that code's
      last three bytes, whatever zero bytes precede it. */
  lemma FirstStartAfterCleanBytes(n: seq<byte>, long: bool, rest: seq<byte>)
    requires HasNoStartCode(n)
    ensures FindStart(n + Code(long) + rest, 0) == |n + Code(long)| - 3
  {
    var x := n + Code(long) + rest;
    var s := |n + Code(long)| - 3;
    forall j | 0 <= j < s ensures !StartCodeAt(x, j) {
      if j + 3 <= |n| {
        assert !StartCodeAt(n, j);
      } else {
        assert x[j + 2] == 0;
      }
    }
    assert x[s] == 0 && x[s + 1] == 0 && x[s + 2] == 1;
    FindStartIs(x, 0, s);
  }

  lemma TrimAfterCleanBytes(n: seq<byte>, long: bool, rest: seq<byte>)
    ensures var x := n + Code(long) + rest; var s := |n + Code(long)| - 3;
            && x[..TrimEnd(x, s)] == Clipped(n, !long)
            && x[s + 3..] == rest
  {
    var x := n + Code(long) + rest;
    var s := |n + Code(long)| - 3;
    if long {
      assert x[s - 1] == 0 && x[..s - 1] == n;
    } else {
      assert s == |n| && (s > 0 ==> x[s - 1] == n[s - 1]);
      assert x[..s] == n;
      if s > 0 { assert x[..s - 1] == n[..s - 1]; }
    }
  }

  /** One clean unit, a start code, and the rest: the unit comes back clipped. */
  lemma UnitsStep(n: seq<byte>, long: bool, rest: seq<byte>)
    requires HasNoStartCode(n)
    ensures Units(n + Code(long) + rest) == [Clipped(n, !long)] + Units(rest)
    ensures Split(n + Code(long) + rest) == Units(rest)
  {
    FirstStartAfterCleanBytes(n, long, rest);
    TrimAfterCleanBytes(n, long, rest);
  }

  lemma JoinStep(front: seq<byte>, nals: seq<NalUnit>, long: seq<bool>)
    requires |nals| == |long| > 0
    ensures front + Join(nals, long) == front + Code(long[0]) + (nals[0] + Join(nals[1..], long[1..]))
  {
  }

  lemma {:induction false} UnitsOfJoin(nals: seq<NalUnit>, long: seq<bool>)
    requires |nals| == |long| > 0
    requires forall n :: n in nals ==> HasNoStartCode(n)
    ensures Units(nals[0] + Join(nals[1..], long[1..])) == ClippedAll(nals, long)
    decreases |nals|
  {
    if |nals| == 1 {
      assert nals[0] + Join(nals[1..], long[1..]) == nals[0];
      CleanBytesAreOneUnit(nals[0]);
    } else {
      JoinStep(nals[0], nals[1..], long[1..]);
      UnitsStep(nals[0], long[1], nals[1] + Join(nals[1..][1..], long[1..][1..]));
      UnitsOfJoin(nals[1..], long[1..]);
    }
  }

  /** Splitting a join, with any bytes free of start codes in front, clips exactly the units
      that end in zero before a 3-byte code. */
  lemma SplitOfJoin(prefix: seq<byte>, nals: seq<NalUnit>, long: seq<bool>)
    requires |nals| == |long|
    requires HasNoStartCode(prefix)
    requires forall n :: n in nals ==> HasNoStartCode(n)
    ensures Split(prefix + Join(nals, long)) == ClippedAll(nals, long)
  {
    if nals == [] {
      assert prefix + Join(nals, long) == prefix;
      CleanBytesAreOneUnit(prefix);
    } else {
      JoinStep(prefix, nals, long);
      UnitsStep(prefix, long[0], nals[0] + Join(nals[1..], long[1..]));
      UnitsOfJoin(nals, long);
    }
  }

  lemma {:induction false} ClippedAllIsIdentityIff(nals: seq<NalUnit>, long: seq<bool>)
    requires |nals| == |long|
    ensures ClippedAll(nals, long) == nals
       <==> forall k :: 0 <= k < |nals| - 1 && !long[k + 1] ==> !EndsInZero(nals[k])
  {
    if nals != [] {
      var t, l := nals[1..], long[1..];
      ClippedAllIsIdentityIff(t, l);
      assert nals == [nals[0]] + t;
      assert Clipped(nals[0], |nals| > 1 && !long[1]) == nals[0]
        <==> !(|nals| > 1 && !long[1] && EndsInZero(nals[0]));
      assert (forall k :: 0 <= k < |t| - 1 && !l[k + 1] ==> !EndsInZero(t[k]))
        <==> (forall k :: 1 <= k < |nals| - 1 && !long[k + 1] ==> !EndsInZero(nals[k])) by {
        if forall k :: 0 <= k < |t| - 1 && !l[k + 1] ==> !EndsInZero(t[k]) {
          forall k | 1 <= k < |nals| - 1 && !long[k + 1] ensures !EndsInZero(nals[k]) {
            assert !l[(k - 1) + 1] && t[k - 1] == nals[k];
          }
        } 
      }
    }
  }

  // ---------------------------------------------------- properties of every split

  /** No unit that a split returns contains a start code, for any input. */
  lemma {:induction false} UnitsHaveNoStartCode(y: seq<byte>)
    ensures Units(y) != []
    ensures forall k :: 0 <= k < |Units(y)| ==> HasNoStartCode(Units(y)[k])
    decreases |y|
  {
    var s := FindStart(y, 0);
    if s == |y| {
      PiecesHaveNoStartCode(y, s);
      assert y[..s] == y;
    } else {
      PiecesHaveNoStartCode(y, TrimEnd(y, s));
      UnitsHaveNoStartCode(y[s + 3..]);
    }
  }

  lemma SplitHasNoStartCode(x: seq<byte>)
    ensures forall k :: 0 <= k < |Split(x)| ==> HasNoStartCode(Split(x)[k])
  {
    var s := FindStart(x, 0);
    if s < |x| {
      UnitsHaveNoStartCode(x[s + 3..]);
    }
  }

  /** That is: nowhere in a unit do the bytes 00 00 01 stand. */
  lemma UnitHasNo000001(x: seq<byte>, k: nat, i: nat)
    requires k < |Split(x)| && i + 3 <= |Split(x)[k]|
    ensures Split(x)[k][i..i + 3] != [0, 0, 1]
  {
    hide Split;
    SplitHasNoStartCode(x);
    var n := Split(x)[k];
    assert !StartCodeAt(n, i);
    var w := n[i..i + 3];
    assert w[0] == n[i] && w[1] == n[i + 1] && w[2] == n[i + 2];
  }

  /** The codes that stood before the units of `y` after the first. */
  function UnitCodes(y: seq<byte>): seq<bool>
    decreases |y|
  {
    var s := FindStart(y, 0);
    if s == |y| then [] else [s > 0 && y[s - 1] == 0] + UnitCodes(y[s + 3..])
  }

  function SplitPrefix(x: seq<byte>): seq<byte> {
    var s := FindStart(x, 0);
    if s == |x| then x else x[..TrimEnd(x, s)]
  }

  function SplitCodes(x: seq<byte>): seq<bool> {
    var s := FindStart(x, 0);
    if s == |x| then [] else [s > 0 && x[s - 1] == 0] + UnitCodes(x[s + 3..])
  }

  lemma CutAtStart(x: seq<byte>, s: nat)
    requires StartCodeAt(x, s)
    ensures var long := s > 0 && x[s - 1] == 0;
            && x == x[..TrimEnd(x, s)] + Code(long) + x[s + 3..]
            && (!long ==> !EndsInZero(x[..TrimEnd(x, s)]))
  {
    var e := TrimEnd(x, s);
    assert x[e..s + 3] == Code(e < s);
    assert x == x[..e] + x[e..s + 3] + x[s + 3..];
  }

  lemma PiecesHaveNoStartCode(x: seq<byte>, e: nat)
    requires e <= FindStart(x, 0)
    ensures HasNoStartCode(x[..e])
  {
    var n := x[..e];
    forall i ensures !StartCodeAt(n, i) {
      if StartCodeAt(n, i) { assert StartCodeAt(x, i); }
    }
  }

  lemma {:induction false} UnitsTile(y: seq<byte>)
    ensures |UnitCodes(y)| + 1 == |Units(y)|
    ensures y == Units(y)[0] + Join(Units(y)[1..], UnitCodes(y))
    decreases |y|
  {
    var s := FindStart(y, 0);
    if s < |y| {
      CutAtStart(y, s);
      var rest := y[s + 3..];
      UnitsTile(rest);
      assert Units(y)[1..] == Units(rest);
      assert UnitCodes(y)[1..] == UnitCodes(rest);
      JoinStep(Units(y)[0], Units(rest), UnitCodes(y));
    }
  }

  lemma {:induction false} UnitsBeforeShortCodes(y: seq<byte>)
    requires |UnitCodes(y)| + 1 == |Units(y)|
    ensures forall k :: 0 <= k < |UnitCodes(y)| && !UnitCodes(y)[k] ==> !EndsInZero(Units(y)[k])
    decreases |y|
  {
    var s := FindStart(y, 0);
    if s < |y| {
      CutAtStart(y, s);
      var rest := y[s + 3..];
      UnitsTile(rest);
      UnitsBeforeShortCodes(rest);
      forall k | 0 <= k < |UnitCodes(y)| && !UnitCodes(y)[k] ensures !EndsInZero(Units(y)[k]) {
        if k > 0 {
          assert UnitCodes(y)[k] == UnitCodes(rest)[k - 1] && Units(y)[k] == Units(rest)[k - 1];
        }
      }
    }
  }

  /** A split tiles its input: a prefix, then start codes and units in turn, every byte of the
      input in exactly one piece; the tiling is the one a join can be undone from. */
  lemma SplitTilesInput(x: seq<byte>)
    ensures |SplitCodes(x)| == |Split(x)|
    ensures x == SplitPrefix(x) + Join(Split(x), SplitCodes(x))
    ensures HasNoStartCode(SplitPrefix(x))
    ensures Separable(Split(x), SplitCodes(x))
  {
    var s := FindStart(x, 0);
    SplitHasNoStartCode(x);
    if s == |x| {
      PiecesHaveNoStartCode(x, s);
      assert x[..s] == x;
    } else {
      PiecesHaveNoStartCode(x, TrimEnd(x, s));
      CutAtStart(x, s);
      UnitsTile(x[s + 3..]);
      UnitsBeforeShortCodes(x[s + 3..]);
      assert SplitCodes(x)[1..] == UnitCodes(x[s + 3..]);
      JoinStep(SplitPrefix(x), Split(x), SplitCodes(x));
    }
  }

  /** Splitting undoes a join exactly when the units are separable: necessary and sufficient,
      empty units and any mixture of codes included. */
  lemma SplitInvertsJoinIff(prefix: seq<byte>, nals: seq<NalUnit>, long: seq<bool>)
    requires |nals| == |long|
    requires HasNoStartCode(prefix)
    ensures Split(prefix + Join(nals, long)) == nals <==> Separable(nals, long)
  {
    if forall k :: 0 <= k < |nals| ==> HasNoStartCode(nals[k]) {
      SplitOfJoin(prefix, nals, long);
      ClippedAllIsIdentityIff(nals, long);
    } else {
      SplitHasNoStartCode(prefix + Join(nals, long));
    }
  }

  /** A split is determined by its input's tilings: every tiling a join can be undone from
      has the units of the split. */
  lemma SplitIsTheOnlyTiling(x: seq<byte>, prefix: seq<byte>, nals: seq<NalUnit>, long: seq<bool>)
    requires |nals| == |long|
    requires HasNoStartCode(prefix)
    requires Separable(nals, long)
    requires x == prefix + Join(nals, long)
    ensures nals == Split(x)
  {
    SplitInvertsJoinIff(prefix, nals, long);
  }

  // ----------------------------------------------------- the tablet's decoder feed

  function AllLong(n: nat): seq<bool> { seq(n, _ => true) }

  /** The tablet's decoder input: every unit behind a 4-byte start code. */
  function AnnexB(nals: seq<NalUnit>): seq<byte> {
    Join(nals, AllLong(|nals|))
  }

  lemma {:induction false} AnnexBSnoc(nals: seq<NalUnit>, n: NalUnit)
    ensures AnnexB(nals + [n]) == AnnexB(nals) + Code(true) + n
  {
    if nals == [] {
      assert [n][1..] == [] && AnnexB([n]) == Code(true) + n + Join([], []);
    } else {
      AnnexBSnoc(nals[1..], n);
      assert (nals + [n])[1..] == nals[1..] + [n];
      assert AllLong(|nals| + 1)[1..] == AllLong(|nals|) && AllLong(|nals|)[1..] == AllLong(|nals| - 1);
    }
  }

  /** The loop of the player's feed thread that fills the codec buffer. */
  method FeedBuffer(nals: seq<NalUnit>) returns (buf: seq<byte>, bytes: nat)
    ensures buf == AnnexB(nals)
    ensures bytes == |buf|
  {
    buf, bytes := [], 0;
    for k := 0 to |nals|
      invariant buf == AnnexB(nals[..k])
      invariant bytes == |buf|
    {
      AnnexBSnoc(nals[..k], nals[k]);
      assert nals[..k + 1] == nals[..k] + [nals[k]];
      buf := buf + [0, 0, 0, 1];
      bytes := bytes + 4;
      buf := buf + nals[k];
      bytes := bytes + |nals[k]|;
    }
    assert nals[..|nals|] == nals;
  }

  /** Whatever the encoder produced, the decoder's stream splits into the same units. */
  lemma AnnexBKeepsSplit(x: seq<byte>)
    ensures Split(AnnexB(Split(x))) == Split(x)
  {
    SplitHasNoStartCode(x);
    var nals := Split(x);
    SplitInvertsJoinIff([], nals, AllLong(|nals|));
    assert [] + AnnexB(nals) == AnnexB(nals);
  }
}
