/** Splitting an Annex-B byte stream into NAL units (internal/voip/media/h264.go, lines 20-70). */
module AnnexB {
  import opened Words

  type Bytes = seq<byte>

  /** Length of the start code at i, 0 if there is none. */
  function CodeAt(data: Bytes, i: nat): (c: nat)
    ensures c == 0 || c == 3 || c == 4
    ensures i + c <= |data| || c == 0
  {
    if i + 3 <= |data| && data[i] == 0 && data[i + 1] == 0 && data[i + 2] == 1 then 3
    else if i + 4 <= |data| && data[i] == 0 && data[i + 1] == 0 && data[i + 2] == 0 && data[i + 3] == 1 then 4
    else 0
  }

  /** End of the first start code at or after i, or -1. */
  function FirstCode(data: Bytes, i: nat): (s: int)
    ensures s == -1 || i < s <= |data|
    decreases |data| - i
  {
    if i + 3 > |data| then -1
    else if CodeAt(data, i) > 0 then i + CodeAt(data, i)
    else FirstCode(data, i + 1)
  }

  function NonEmpty(nal: Bytes): seq<Bytes> {
    if nal == [] then [] else [nal]
  }

  /** The units from `start` on, when no code begins in start .. i - 1. */
  function Split(data: Bytes, i: nat, start: nat): seq<Bytes>
    requires start <= i <= |data|
    decreases |data| - i
  {
    if i + 3 > |data| then NonEmpty(data[start..])
    else if CodeAt(data, i) > 0 then
      NonEmpty(data[start..i]) + Split(data, i + CodeAt(data, i), i + CodeAt(data, i))
    else Split(data, i + 1, start)
  }

  function Nals(data: Bytes): seq<Bytes> {
    if data == [] then []
    else if FirstCode(data, 0) < 0 then [data]
    else Split(data, FirstCode(data, 0), FirstCode(data, 0))
  }

  /** AnnexBNALUs. */
  method AnnexBNALUs(data: Bytes) returns (nals: seq<Bytes>)
    ensures nals == Nals(data)
  {
    hide CodeAt, Split, FirstCode, NonEmpty;
    var n := |data|;
    if n == 0 {
      return [];
    }
    var i, start := 0, -1;
    while i + 3 <= n
      invariant 0 <= i <= n && start == -1 && FirstCode(data, i) == FirstCode(data, 0)
      decreases n - i
    {
      FirstStep(data, i);
      var c := CodeAt(data, i);
      if c > 0 {
        start := i + c;
        i := i + c;
        break;
      }
      i := i + 1;
    }
    if start < 0 {
      FirstStep(data, i);
      return [data];
    }
    nals := [];
    while i + 3 <= n
      invariant 0 <= start <= i <= n && nals + Split(data, i, start) == Nals(data)
      decreases n - i
    {
      SplitStep(data, i, start);
      var c := CodeAt(data, i);
      if c > 0 {
        nals := nals + NonEmpty(data[start..i]);
        start := i + c;
        i := i + c;
      } else {
        i := i + 1;
      }
    }
    SplitStep(data, i, start);
    assert data[start..n] == data[start..];
    nals := nals + NonEmpty(data[start..n]);
  }

  lemma {:induction false} FirstStep(data: Bytes, i: nat)
    ensures FirstCode(data, i) == if i + 3 > |data| then -1
                                  else if CodeAt(data, i) > 0 then i + CodeAt(data, i)
                                  else FirstCode(data, i + 1)
  {
  }

  lemma {:induction false} SplitStep(data: Bytes, i: nat, start: nat)
    requires start <= i <= |data|
    ensures Split(data, i, start) == if i + 3 > |data| then NonEmpty(data[start..])
                                     else if CodeAt(data, i) > 0 then
                                       var next := i + CodeAt(data, i);
                                       NonEmpty(data[start..i]) + Split(data, next, next)
                                     else Split(data, i + 1, start)
  {
  }

  // -------------------------------------------------------------- clean units

  ghost predicate HasCode(nal: Bytes) {
    exists j :: 0 <= j && j + 3 <= |nal| && nal[j] == 0 && nal[j + 1] == 0 && nal[j + 2] == 1
  }

  ghost predicate Clean(nal: Bytes) {
    nal != [] && !HasCode(nal)
  }

  ghost predicate AllClean(nals: seq<Bytes>) {
    forall k :: 0 <= k < |nals| ==> Clean(nals[k])
  }

  lemma {:induction false} NoCodeBetween(data: Bytes, start: nat, i: nat)
    requires start <= i <= |data| && forall j :: start <= j < i ==> CodeAt(data, j) == 0
    ensures !HasCode(data[start..i])
  {
    var nal := data[start..i];
    forall j | 0 <= j && j + 3 <= |nal| ensures !(nal[j] == 0 && nal[j + 1] == 0 && nal[j + 2] == 1) {
      assert CodeAt(data, start + j) == 0;
    }
  }

  lemma {:induction false} SplitClean(data: Bytes, i: nat, start: nat)
    requires start <= i <= |data| && forall j :: start <= j < i ==> CodeAt(data, j) == 0
    ensures AllClean(Split(data, i, start))
    decreases |data| - i
  {
    hide HasCode;
    if i + 3 > |data| {
      assert data[start..] == data[start..|data|];
      NoCodeBetween(data, start, |data|);
    } else if CodeAt(data, i) > 0 {
      NoCodeBetween(data, start, i);
      SplitClean(data, i + CodeAt(data, i), i + CodeAt(data, i));
    } else {
      SplitClean(data, i + 1, start);
    }
  }

  lemma {:induction false} NoFirstCode(data: Bytes, i: nat)
    requires FirstCode(data, i) < 0
    ensures forall j :: i <= j < |data| ==> CodeAt(data, j) == 0
    decreases |data| - i
  {
    if i + 3 <= |data| {
      NoFirstCode(data, i + 1);
    }
  }

  /** Whatever the input, the units are non-empty and hold no start code. */
  lemma {:induction false} NalsClean(data: Bytes)
    ensures AllClean(Nals(data))
  {
    hide HasCode;
    if data != [] {
      var s := FirstCode(data, 0);
      if s < 0 {
        NoFirstCode(data, 0);
        NoCodeBetween(data, 0, |data|);
        assert data[0..|data|] == data;
      } else {
        SplitClean(data, s, s);
      }
    }
  }

  // ------------------------------------------------------------------ framing

  /** A unit behind a 3-byte or a 4-byte start code. */
  datatype Framed = Framed(nal: Bytes, short: bool)

  function StartCode(short: bool): Bytes { if short then [0, 0, 1] else [0, 0, 0, 1] }

  function Stream(fs: seq<Framed>, k: nat): Bytes
    requires k <= |fs|
    decreases |fs| - k
  {
    if k == |fs| then [] else StartCode(fs[k].short) + fs[k].nal + Stream(fs, k + 1)
  }

  ghost predicate AllUnitsClean(fs: seq<Framed>) {
    forall k :: 0 <= k < |fs| ==> Clean(fs[k].nal)
  }

  /** A 3-byte code behind a unit that ends in a zero reads as a 4-byte one. */
  ghost predicate Eaten(fs: seq<Framed>, k: nat)
    requires k < |fs| && fs[k].nal != []
  {
    k + 1 < |fs| && fs[k + 1].short && fs[k].nal[|fs[k].nal| - 1] == 0
  }

  ghost predicate Framable(fs: seq<Framed>)
    requires AllUnitsClean(fs)
  {
    forall k :: 0 <= k < |fs| ==> !Eaten(fs, k)
  }

  ghost function Kept(fs: seq<Framed>, k: nat): Bytes
    requires k < |fs| && fs[k].nal != []
  {
    if Eaten(fs, k) then fs[k].nal[..|fs[k].nal| - 1] else fs[k].nal
  }

  /** What a splitter sees of the units from k on. */
  ghost function Read(fs: seq<Framed>, k: nat): seq<Bytes>
    requires AllUnitsClean(fs) && k <= |fs|
    decreases |fs| - k
  {
    if k == |fs| then [] else NonEmpty(Kept(fs, k)) + Read(fs, k + 1)
  }

  function Units(fs: seq<Framed>, k: nat): seq<Bytes>
    requires k <= |fs|
    decreases |fs| - k
  {
    if k == |fs| then [] else [fs[k].nal] + Units(fs, k + 1)
  }

  /** No code begins inside a clean unit that a start code or the end of the data follows. */
  lemma {:induction false} NoCodeInUnit(data: Bytes, at: nat, nal: Bytes, short: bool, j: nat)
    requires Clean(nal) && at + |nal| <= |data| && data[at..at + |nal|] == nal && at <= j < at + |nal|
    requires at + |nal| == |data| || (short ==> nal[|nal| - 1] != 0)
    requires at + |nal| < |data| ==> at + |nal| + |StartCode(short)| <= |data|
                                     && data[at + |nal|..at + |nal| + |StartCode(short)|] == StartCode(short)
    ensures CodeAt(data, j) == 0
  {
    var e, c := at + |nal|, StartCode(short);
    assert forall x :: at <= x < e ==> data[x] == nal[x - at];
    if e < |data| {
      assert data[e] == c[0] && data[e + 1] == c[1] && data[e + 2] == c[2];
      assert !short ==> data[e + 3] == c[3];
    }
    var x := j - at;
    if x + 3 <= |nal| {
      assert !(nal[x] == 0 && nal[x + 1] == 0 && nal[x + 2] == 1);
    }
    if x + 4 <= |nal| {
      assert !(nal[x + 1] == 0 && nal[(x + 1) + 1] == 0 && nal[(x + 1) + 2] == 1);
    }
  }

  lemma {:induction false} SkipUnit(data: Bytes, i: nat, start: nat, e: nat)
    requires start <= i <= e <= |data| && forall j :: i <= j < e ==> CodeAt(data, j) == 0
    ensures Split(data, i, start) == Split(data, e, start)
    decreases e - i
  {
    if i < e && i + 3 <= |data| {
      SkipUnit(data, i + 1, start, e);
    }
  }

  lemma {:induction false} SplitStream(data: Bytes, fs: seq<Framed>, k: nat, at: nat)
    requires AllUnitsClean(fs) && k < |fs| && at <= |data| && data[at..] == fs[k].nal + Stream(fs, k + 1)
    ensures Split(data, at, at) == Read(fs, k)
    decreases |fs| - k
  {
    hide HasCode, CodeAt, Split, Clean, AllUnitsClean, Kept, Stream, NonEmpty, StartCode;
    UnitClean(fs, k);
    var e := at + |fs[k].nal|;
    Cut(data, at, fs[k].nal, Stream(fs, k + 1));
    if k + 1 < |fs| {
      NextCode(data, fs, k + 1, e);
      SplitUnit(data, fs, k, at);
      SplitStream(data, fs, k + 1, e + |StartCode(fs[k + 1].short)|);
    } else {
      StreamEnd(fs);
      assert data[e..] == [];
      SplitLast(data, fs, k, at);
    }
  }

  lemma {:induction false} StreamEnd(fs: seq<Framed>)
    ensures Stream(fs, |fs|) == []
  {
  }

  lemma {:induction false} UnitClean(fs: seq<Framed>, k: nat)
    requires AllUnitsClean(fs) && k < |fs|
    ensures Clean(fs[k].nal) && fs[k].nal != []
  {
    hide HasCode;
  }

  /** A unit with another behind it: all of it, or all but the zero that is eaten. */
  lemma {:induction false} SplitUnit(data: Bytes, fs: seq<Framed>, k: nat, at: nat)
    requires AllUnitsClean(fs) && k + 1 < |fs|
    requires var e, c := at + |fs[k].nal|, StartCode(fs[k + 1].short);
             && e + |c| <= |data| && data[at..e] == fs[k].nal && data[e..e + |c|] == c && CodeAt(data, e) == |c|
    ensures var next := at + |fs[k].nal| + |StartCode(fs[k + 1].short)|;
            fs[k].nal != [] && Split(data, at, at) == NonEmpty(Kept(fs, k)) + Split(data, next, next)
  {
    hide HasCode, CodeAt, Split, AllUnitsClean;
    UnitClean(fs, k);
    if Eaten(fs, k) {
      EatenUnit(data, at, fs[k].nal);
    } else {
      UnitBeforeCode(data, at, fs[k].nal, fs[k + 1].short);
      SplitAtCode(data, at + |fs[k].nal|, at);
    }
  }

  lemma {:induction false} SplitLast(data: Bytes, fs: seq<Framed>, k: nat, at: nat)
    requires AllUnitsClean(fs) && k + 1 == |fs| && at + |fs[k].nal| == |data| && data[at..at + |fs[k].nal|] == fs[k].nal
    ensures Split(data, at, at) == Read(fs, k)
  {
    hide HasCode, CodeAt, Split, AllUnitsClean;
    UnitClean(fs, k);
    LastUnit(data, at, fs[k].nal);
    assert Read(fs, k + 1) == [];
  }

  /** The start code of unit k where the unit before it ends. */
  lemma {:induction false} NextCode(data: Bytes, fs: seq<Framed>, k: nat, e: nat)
    requires k < |fs| && e <= |data| && data[e..] == Stream(fs, k)
    ensures var c := StartCode(fs[k].short);
            && e + |c| <= |data| && data[e..e + |c|] == c && CodeAt(data, e) == |c|
            && data[e + |c|..] == fs[k].nal + Stream(fs, k + 1)
  {
    hide CodeAt;
    StreamStep(fs, k);
    Cut(data, e, StartCode(fs[k].short), fs[k].nal + Stream(fs, k + 1));
    CodeHere(data, e, fs[k].short);
  }

  /** The zero that ends a unit is taken for the first of a 4-byte code. */
  lemma {:induction false} EatenUnit(data: Bytes, at: nat, nal: Bytes)
    requires Clean(nal) && nal[|nal| - 1] == 0
    requires at + |nal| + 3 <= |data| && data[at..at + |nal|] == nal && data[at + |nal|..at + |nal| + 3] == [0, 0, 1]
    ensures Split(data, at, at)
            == NonEmpty(nal[..|nal| - 1]) + Split(data, at + |nal| + 3, at + |nal| + 3)
  {
    hide HasCode, Split;
    var e := at + |nal| - 1;
    forall j | at <= j < e ensures CodeAt(data, j) == 0 {
      NoCodeBeforeZero(data, at, nal, j);
    }
    ThreeAt(data, e + 1);
    LastOf(data, at, nal);
    SkipUnit(data, at, at, e);
    SplitAtCode(data, e, at);
    assert data[at..e] == nal[..|nal| - 1];
  }

  lemma {:induction false} ThreeAt(data: Bytes, o: nat)
    requires o + 3 <= |data| && data[o..o + 3] == [0, 0, 1]
    ensures data[o] == 0 && data[o + 1] == 0 && data[o + 2] == 1
  {
    var code := data[o..o + 3];
    assert code[0] == data[o] && code[1] == data[o + 1] && code[2] == data[o + 2];
  }

  lemma {:induction false} LastOf(data: Bytes, at: nat, nal: Bytes)
    requires nal != [] && at + |nal| <= |data| && data[at..at + |nal|] == nal
    ensures data[at + |nal| - 1] == nal[|nal| - 1]
  {
  }

  lemma {:induction false} NoCodeBeforeZero(data: Bytes, at: nat, nal: Bytes, j: nat)
    requires Clean(nal) && nal[|nal| - 1] == 0
    requires at + |nal| + 3 <= |data| && data[at..at + |nal|] == nal && data[at + |nal|..at + |nal| + 3] == [0, 0, 1]
    requires at <= j < at + |nal| - 1
    ensures CodeAt(data, j) == 0
  {
    var e := at + |nal|;
    assert forall x :: at <= x < e ==> data[x] == nal[x - at];
    var code := data[e..e + 3];
    assert code[0] == data[e] && code[1] == data[e + 1] && code[2] == data[e + 2];
    var x := j - at;
    if x + 3 <= |nal| {
      assert !(nal[x] == 0 && nal[x + 1] == 0 && nal[x + 2] == 1);
    }
    if x + 4 <= |nal| {
      assert !(nal[x + 1] == 0 && nal[(x + 1) + 1] == 0 && nal[(x + 1) + 2] == 1);
    }
  }

  lemma {:induction false} StreamStep(fs: seq<Framed>, k: nat)
    requires k < |fs|
    ensures Stream(fs, k) == StartCode(fs[k].short) + (fs[k].nal + Stream(fs, k + 1))
  {
  }

  lemma {:induction false} UnitBeforeCode(data: Bytes, at: nat, nal: Bytes, short: bool)
    requires Clean(nal) && (short ==> nal[|nal| - 1] != 0)
    requires at + |nal| + |StartCode(short)| <= |data| && data[at..at + |nal|] == nal
    requires data[at + |nal|..at + |nal| + |StartCode(short)|] == StartCode(short)
    ensures Split(data, at, at) == Split(data, at + |nal|, at)
  {
    hide HasCode, CodeAt, Split;
    forall j | at <= j < at + |nal| ensures CodeAt(data, j) == 0 {
      NoCodeInUnit(data, at, nal, short, j);
    }
    SkipUnit(data, at, at, at + |nal|);
  }

  lemma {:induction false} LastUnit(data: Bytes, at: nat, nal: Bytes)
    requires Clean(nal) && at + |nal| == |data| && data[at..at + |nal|] == nal
    ensures Split(data, at, at) == [nal]
  {
    hide HasCode, CodeAt, Split;
    forall j | at <= j < at + |nal| ensures CodeAt(data, j) == 0 {
      NoCodeInUnit(data, at, nal, false, j);
    }
    SkipUnit(data, at, at, at + |nal|);
    SplitAtEnd(data, at);
  }

  lemma {:induction false} Cut(data: Bytes, at: nat, front: Bytes, rest: Bytes)
    requires at <= |data| && data[at..] == front + rest
    ensures at + |front| <= |data| && data[at..at + |front|] == front && data[at + |front|..] == rest
  {
    var tail := data[at..];
    assert tail[..|front|] == front && tail[|front|..] == rest;
    assert data[at..at + |front|] == tail[..|front|] && data[at + |front|..] == tail[|front|..];
  }

  lemma {:induction false} SplitAtCode(data: Bytes, e: nat, start: nat)
    requires start <= e <= |data| && CodeAt(data, e) > 0
    ensures e + CodeAt(data, e) <= |data|
    ensures Split(data, e, start) == NonEmpty(data[start..e]) + Split(data, e + CodeAt(data, e), e + CodeAt(data, e))
  {
  }

  lemma {:induction false} SplitAtEnd(data: Bytes, start: nat)
    requires start <= |data|
    ensures Split(data, |data|, start) == NonEmpty(data[start..|data|])
  {
    assert data[start..] == data[start..|data|];
  }

  lemma {:induction false} CodeHere(data: Bytes, e: nat, short: bool)
    requires e + |StartCode(short)| <= |data| && data[e..e + |StartCode(short)|] == StartCode(short)
    ensures CodeAt(data, e) == |StartCode(short)|
  {
    var c := StartCode(short);
    assert forall x :: e <= x < e + |c| ==> data[x] == c[x - e];
  }

  /** What comes back of clean units framed with either start code. */
  lemma {:induction false} FramingRead(fs: seq<Framed>)
    requires AllUnitsClean(fs)
    ensures Nals(Stream(fs, 0)) == Read(fs, 0)
  {
    hide HasCode, CodeAt, Split;
    if fs != [] {
      var data := Stream(fs, 0);
      assert data[0..] == data;
      NextCode(data, fs, 0, 0);
      SplitStream(data, fs, 0, |StartCode(fs[0].short)|);
    }
  }

  ghost function Total(nals: seq<Bytes>): nat {
    if nals == [] then 0 else |nals[0]| + Total(nals[1..])
  }

  lemma {:induction false} TotalAdds(a: seq<Bytes>, b: seq<Bytes>)
    requires |a| <= 1
    ensures Total(a + b) == Total(a) + Total(b)
  {
    if a == [] {
      assert a + b == b;
    } else {
      assert (a + b)[1..] == b && a[1..] == [];
    }
  }

  ghost predicate AnyEaten(fs: seq<Framed>, k: nat)
    requires AllUnitsClean(fs) && k <= |fs|
    decreases |fs| - k
  {
    k < |fs| && (Eaten(fs, k) || AnyEaten(fs, k + 1))
  }

  lemma {:induction false} FramableMeans(fs: seq<Framed>, k: nat)
    requires AllUnitsClean(fs) && k <= |fs|
    ensures AnyEaten(fs, k) <==> exists i :: k <= i < |fs| && Eaten(fs, i)
    decreases |fs| - k
  {
    hide HasCode, Eaten;
    if k < |fs| {
      FramableMeans(fs, k + 1);
    }
  }

  /** Every eaten zero is a byte less than was framed. */
  lemma {:induction false} ReadTotal(fs: seq<Framed>, k: nat)
    requires AllUnitsClean(fs) && k <= |fs|
    ensures Total(Read(fs, k)) <= Total(Units(fs, k))
    ensures if AnyEaten(fs, k) then Total(Read(fs, k)) < Total(Units(fs, k)) else Read(fs, k) == Units(fs, k)
    decreases |fs| - k
  {
    hide HasCode, Eaten, Total, Clean, AllUnitsClean;
    if k < |fs| {
      UnitClean(fs, k);
      ReadTotal(fs, k + 1);
      TotalAdds([fs[k].nal], Units(fs, k + 1));
      TotalAdds(NonEmpty(Kept(fs, k)), Read(fs, k + 1));
      OneTotal(fs[k].nal);
      OneTotal(Kept(fs, k));
    }
  }

  lemma {:induction false} OneTotal(nal: Bytes)
    ensures Total([nal]) == |nal| && Total(NonEmpty(nal)) == |nal|
  {
    var one := [nal];
    assert one[1..] == [];
  }

  /** Clean units come back as they were exactly when no 3-byte code follows a final zero. */
  lemma {:induction false} FramingRoundTrip(fs: seq<Framed>)
    requires AllUnitsClean(fs)
    ensures Nals(Stream(fs, 0)) == Units(fs, 0) <==> Framable(fs)
  {
    hide Nals, Stream, Total, Clean, Eaten;
    FramingRead(fs);
    ReadTotal(fs, 0);
    FramableMeans(fs, 0);
  }

  // ---------------------------------------------------- canonical 4-byte form

  /** Units behind 4-byte start codes, as the depacketizer writes them. */
  function Frame(nals: seq<Bytes>): Bytes {
    if nals == [] then [] else Frame(nals[..|nals| - 1]) + [0, 0, 0, 1] + nals[|nals| - 1]
  }

  function Long(nals: seq<Bytes>): (fs: seq<Framed>)
    ensures |fs| == |nals| && forall k :: 0 <= k < |nals| ==> fs[k] == Framed(nals[k], false)
  {
    seq(|nals|, k requires 0 <= k < |nals| => Framed(nals[k], false))
  }

  lemma {:induction false} Regroup(a: Bytes, b: Bytes, c: Bytes, d: Bytes)
    ensures a + (b + c + d) == a + b + c + d
  {
  }

  lemma {:induction false} LongStream(nals: seq<Bytes>, k: nat)
    requires k <= |nals|
    ensures Frame(nals[..k]) + Stream(Long(nals), k) == Frame(nals)
    decreases |nals| - k
  {
    hide Long;
    if k < |nals| {
      LongStream(nals, k + 1);
      assert nals[..k + 1][..k] == nals[..k];
      Regroup(Frame(nals[..k]), [0, 0, 0, 1], nals[k], Stream(Long(nals), k + 1));
    } else {
      assert nals[..k] == nals;
    }
  }

  lemma {:induction false} LongUnits(nals: seq<Bytes>, k: nat)
    requires k <= |nals|
    ensures Units(Long(nals), k) == nals[k..]
    decreases |nals| - k
  {
    if k < |nals| {
      LongUnits(nals, k + 1);
    }
  }

  /** Re-framing with 4-byte codes and splitting again returns the same list. */
  lemma {:induction false} FrameRoundTrip(nals: seq<Bytes>)
    requires AllClean(nals)
    ensures Nals(Frame(nals)) == nals
  {
    hide HasCode;
    LongStream(nals, 0);
    assert nals[..0] == [];
    LongUnits(nals, 0);
    assert AllUnitsClean(Long(nals)) && Framable(Long(nals));
    assert nals[0..] == nals && Stream(Long(nals), 0) == Frame(nals);
    FramingRoundTrip(Long(nals));
  }

  /** Splitting is idempotent through the canonical form, for every byte string. */
  lemma {:induction false} Canonical(data: Bytes)
    ensures Nals(Frame(Nals(data))) == Nals(data)
  {
    NalsClean(data);
    FrameRoundTrip(Nals(data));
  }
}
