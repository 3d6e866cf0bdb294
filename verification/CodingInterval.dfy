/** The Opus/CELT range coder of the MLow codec (internal/voip/codec/mlow/rangecoder.go).

The reference is arithmetic coding on exact integers: an `Interval` of unbounded
integers that every symbol narrows and every renormalisation scales by 256. It has
no carries, no 32-bit registers and no bytes. The encoder class, which keeps a
31-bit window, one held-back byte and a count of pending 0xFF bytes, is proved to
track that interval; the decoder class is proved to hold the distance from the
interval's upper end to the number its input spells. */
module CodingInterval {
  import opened Words
  import opened Helpers

  const CODE_TOP := 0x8000_0000
  const CODE_BOT := 0x80_0000

  /** One coded symbol: the cumulative range [fl, fh) out of ft. */
  datatype Freq = Freq(fl: nat, fh: nat, ft: nat) {
    predicate Valid() {
      fl < fh <= ft <= CODE_BOT
    }
  }

  type Symbol = s: Freq | s.Valid() witness Freq(0, 1, 1)

  /** low and rng are exact integers. A decoder that follows the interval has read `read`
      bytes, four more than the base-256 digits an encoder has emitted. */
  datatype Interval = Interval(low: nat, rng: nat, read: nat)

  const START := Interval(0, CODE_TOP, 4)

  ghost predicate Normal(i: Interval) {
    CODE_BOT < i.rng <= CODE_TOP
  }

  // ---------------------------------------------------------------- reference

  ghost function Narrow(i: Interval, s: Symbol): (j: Interval)
    requires Normal(i)
    ensures i.low <= j.low && j.low + j.rng <= i.low + i.rng
    ensures 0 < j.rng && j.read == i.read
  {
    var r := i.rng / s.ft;
    NarrowBounds(i.rng, s);
    if s.fl > 0 then
      Interval(i.low + i.rng - r * (s.ft - s.fl), r * (s.fh - s.fl), i.read)
    else
      Interval(i.low, i.rng - r * (s.ft - s.fh), i.read)
  }

  lemma {:induction false} NarrowBounds(rng: nat, s: Symbol)
    requires CODE_BOT < rng
    ensures var r := rng / s.ft;
            && 0 < r
            && 0 <= r * (s.ft - s.fh) < r * (s.ft - s.fl) <= r * s.ft <= rng
            && r * (s.fh - s.fl) == r * (s.ft - s.fl) - r * (s.ft - s.fh)
  {
    var r := rng / s.ft;
    assert r * s.ft + rng % s.ft == rng;
    assert r > 0 by { if r <= 0 { MulMono(r, 0, s.ft); assert false; } }
    MulMono(0, s.ft - s.fh, r);
    MulMono(s.ft - s.fh + 1, s.ft - s.fl, r);
    MulMono(s.ft - s.fl, s.ft, r);
  }

  ghost function Rescale(i: Interval): (j: Interval)
    requires 0 < i.rng <= CODE_TOP
    ensures Normal(j) && j.read >= i.read
    decreases CODE_TOP - i.rng
  {
    if i.rng <= CODE_BOT then Rescale(Interval(i.low * 256, i.rng * 256, i.read + 1)) else i
  }

  ghost function Push(i: Interval, s: Symbol): (j: Interval)
    requires Normal(i)
    ensures Normal(j) && j.read >= i.read
  {
    Rescale(Narrow(i, s))
  }

  /** The symbols of a block, in coding order. */
  datatype Tape = End | Then(head: Symbol, rest: Tape)

  ghost function Cat(a: Tape, b: Tape): Tape {
    match a
    case End => b
    case Then(s, rest) => Then(s, Cat(rest, b))
  }

  ghost function Run(i: Interval, tape: Tape): (j: Interval)
    requires Normal(i)
    ensures Normal(j) && j.read >= i.read
    decreases tape
  {
    match tape
    case End => i
    case Then(s, rest) => Run(Push(i, s), rest)
  }

  // ------------------------------------------------- the number a stream spells

  function At(out: seq<byte>, k: nat): byte {
    if k < |out| then out[k] else 0
  }

  /** Value of the first n base-256 digits of out, reading zeros past its end. */
  ghost function Prefix(out: seq<byte>, n: nat): nat {
    if n == 0 then 0 else 256 * Prefix(out, n - 1) + At(out, n - 1)
  }

  /** The first 8n - 1 bits: the last bit read stays in the decoder's held-back byte. */
  ghost function Code(out: seq<byte>, n: nat): nat {
    Prefix(out, n) / 2
  }

  ghost predicate Inside(out: seq<byte>, i: Interval) {
    i.low <= Code(out, i.read) < i.low + i.rng
  }

  lemma {:induction false} CodeStep(out: seq<byte>, n: nat)
    requires n > 0
    ensures Code(out, n + 1) == 256 * Code(out, n) + 128 * (At(out, n - 1) % 2) + At(out, n) / 2
  {
    HalfStep(Prefix(out, n - 1), At(out, n - 1), At(out, n));
  }

  lemma {:induction false} HalfStep(q: nat, a: nat, b: nat)
    ensures (256 * (256 * q + a) + b) / 2 == 256 * ((256 * q + a) / 2) + 128 * (a % 2) + b / 2
  {
    var h, k := a / 2, b / 2;
    assert (256 * q + a) / 2 == 128 * q + h;
  }

  lemma {:induction false} InsideBeforeRescale(out: seq<byte>, i: Interval)
    requires 0 < i.rng <= CODE_TOP
    requires i.read > 0 && Inside(out, Rescale(i))
    ensures Inside(out, i)
    decreases CODE_TOP - i.rng
  {
    if i.rng <= CODE_BOT {
      InsideBeforeRescale(out, Interval(i.low * 256, i.rng * 256, i.read + 1));
      CodeStep(out, i.read);
    }
  }

  /** A stream that ends inside the final interval was inside every earlier one. */
  lemma {:induction false} InsideBeforeRun(out: seq<byte>, i: Interval, tape: Tape)
    requires Normal(i) && i.read > 0 && Inside(out, Run(i, tape))
    ensures Inside(out, i)
    ensures tape.Then? ==> Inside(out, Narrow(i, tape.head))
    decreases tape
  {
    if tape.Then? {
      InsideBeforeRun(out, Push(i, tape.head), tape.rest);
      InsideBeforeRescale(out, Narrow(i, tape.head));
    }
  }

  lemma {:induction false} RunNone(i: Interval)
    requires Normal(i)
    ensures Run(i, End) == i
  {
  }

  lemma {:induction false} RunStep(i: Interval, s: Symbol, rest: Tape)
    requires Normal(i)
    ensures Run(i, Then(s, rest)) == Run(Push(i, s), rest)
  {
  }

  lemma {:induction false} RunCat(i: Interval, a: Tape, b: Tape)
    requires Normal(i)
    ensures Run(i, Cat(a, b)) == Run(Run(i, a), b)
    decreases a
  {
    if a.Then? {
      RunCat(Push(i, a.head), a.rest, b);
    }
  }

  /** The stream spells a number that the whole tape, coded from i, leads to. */
  ghost predicate Follows(out: seq<byte>, i: Interval, tape: Tape)
    requires Normal(i)
  {
    i.read > 0 && Inside(out, Run(i, tape))
  }

  /** A stream that follows a tape is inside its first symbol's part and follows the rest. */
  lemma {:induction false} FollowsThen(out: seq<byte>, i: Interval, s: Symbol, rest: Tape)
    requires Normal(i) && Follows(out, i, Then(s, rest))
    ensures Inside(out, Narrow(i, s)) && Follows(out, Push(i, s), rest)
    ensures Run(i, Then(s, rest)) == Run(Push(i, s), rest)
  {
    hide Inside, Narrow;
    InsideBeforeRun(out, i, Then(s, rest));
  }

  /** A stream that follows a then b follows a, and then b from where a ends. */
  lemma {:induction false} FollowsCat(out: seq<byte>, i: Interval, a: Tape, b: Tape)
    requires Normal(i) && Follows(out, i, Cat(a, b))
    ensures Follows(out, i, a) && Follows(out, Run(i, a), b)
    ensures Run(i, Cat(a, b)) == Run(Run(i, a), b)
  {
    RunCat(i, a, b);
    InsideBeforeRun(out, Run(i, a), b);
  }

  // --------------------------------------------------------- cumulative tables

  type Cdf = seq<u16>

  /** Every entry is above the one before it. */
  ghost predicate Climbs(cdf: Cdf) {
    |cdf| <= 1 || (cdf[|cdf| - 2] < cdf[|cdf| - 1] && Climbs(cdf[..|cdf| - 1]))
  }

  ghost predicate Increasing(cdf: Cdf) {
    |cdf| >= 2 && Climbs(cdf)
  }

  lemma {:induction false} ClimbsPairwise(cdf: Cdf)
    ensures Climbs(cdf) <==> forall i, j :: 0 <= i < j < |cdf| ==> cdf[i] < cdf[j]
  {
    if |cdf| > 1 {
      var c := cdf[..|cdf| - 1];
      ClimbsPairwise(c);
      assert forall i :: 0 <= i < |c| ==> c[i] == cdf[i];
    }
  }

  /** The table carries this symbol. */
  ghost predicate Codes(cdf: Cdf, sym: int) {
    Increasing(cdf) && 0 <= sym < |cdf| - 1
  }

  /** Symbol k of an n-entry table, 0 <= k <= n - 2. */
  ghost function CdfSymbol(cdf: Cdf, k: nat): (s: Symbol)
    requires Increasing(cdf) && k + 1 < |cdf|
  {
    ClimbsPairwise(cdf);
    Freq(cdf[k] - cdf[0], cdf[k + 1] - cdf[0], cdf[|cdf| - 1] - cdf[0])
  }

  /** The widest raw symbol whose total every normalised range covers. */
  const RAW_BITS := 23

  lemma {:induction false} RawTotals()
    ensures Pow2(RAW_BITS) == CODE_BOT
  {
    assert Pow2(8) == 256;
    assert Pow2(16) == 65536;
  }

  ghost function RawSymbol(sym: nat, nbits: nat): (s: Symbol)
    requires nbits <= RAW_BITS && sym < Pow2(nbits)
  {
    RawTotals();
    Pow2Monotone(nbits, RAW_BITS);
    Freq(sym, sym + 1, Pow2(nbits))
  }

  /** Symbols with the same total occupy disjoint parts of the interval. */
  lemma {:induction false} InsideDecides(out: seq<byte>, i: Interval, a: Symbol, b: Symbol)
    requires Normal(i) && a.ft == b.ft
    requires Inside(out, Narrow(i, a)) && Inside(out, Narrow(i, b))
    ensures a.fl < b.fh && b.fl < a.fh
  {
    if a.fh <= b.fl {
      InOrder(i, a, b);
    }
    if b.fh <= a.fl {
      InOrder(i, b, a);
    }
  }

  lemma {:induction false} InOrder(i: Interval, a: Symbol, b: Symbol)
    requires Normal(i) && a.ft == b.ft && a.fh <= b.fl
    ensures Narrow(i, a).low + Narrow(i, a).rng <= Narrow(i, b).low
  {
    NarrowBounds(i.rng, a);
    NarrowBounds(i.rng, b);
    MulMono(b.ft - b.fl, a.ft - a.fh, i.rng / a.ft);
  }
}
