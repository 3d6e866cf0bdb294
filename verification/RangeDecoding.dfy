/** RangeDecoder (internal/voip/codec/mlow/rangecoder.go, lines 31-221). */
module RangeDecoding {
  import opened Words
  import opened Helpers
  import opened CodingInterval

  /** The eight bits that straddle two bytes: the last of a and the first seven of b. */
  function Joined(a: byte, b: byte): byte {
    ((a * 256 + b) / 2) % 256
  }

  class RangeDecoder {
    const buf: seq<byte>
    var offs: nat
    var rng: u32
    var val: u32
    var ext: u32
    var rem: byte
    var err: int
    ghost var iv: Interval

    /** val is the distance from the number read so far to the top of the interval. */
    ghost predicate Tracks(i: Interval)
      reads this
    {
      && i.read > 0
      && rng == i.rng
      && Inside(buf, i)
      && val == i.low + i.rng - 1 - Code(buf, i.read)
      && rem == At(buf, i.read - 1)
      && offs == (if i.read < |buf| then i.read else |buf|)
    }

    ghost predicate Valid()
      reads this
    {
      Normal(iv) && Tracks(iv)
    }

    constructor (data: seq<byte>)
      ensures Valid() && buf == data && iv == START && err == 0
    {
      buf := data;
      rng, err, ext := 128, 0, 0;
      offs := if |data| > 0 then 1 else 0;
      var first := At(data, 0);
      rem := first;
      val := 128 - 1 - first / 2;
      iv := Interval(0, 128, 1);
      new;
      assert Prefix(buf, 1) == first;
      assert Rescale(iv) == START by {
        assert Rescale(iv) == Rescale(Interval(0, 0x8000, 2));
        assert Rescale(Interval(0, 0x8000, 2)) == Rescale(Interval(0, CODE_BOT, 3));
      }
      Normalize();
    }

    method ReadByte() returns (b: byte)
      modifies this`offs
      ensures b == At(buf, old(offs))
      ensures offs == if old(offs) < |buf| then old(offs) + 1 else old(offs)
    {
      if offs < |buf| {
        b := buf[offs];
        offs := offs + 1;
      } else {
        b := 0;
      }
    }

    method Normalize()
      requires 0 < iv.rng <= CODE_TOP && Tracks(iv) && rng == iv.rng
      modifies this
      ensures Valid() && iv == Rescale(old(iv)) && err == old(err)
    {
      hide Tracks;
      while rng <= CODE_BOT
        invariant 0 < iv.rng <= CODE_TOP && Tracks(iv) && rng == iv.rng
        invariant Rescale(iv) == Rescale(old(iv)) && err == old(err)
        decreases CODE_TOP - rng
      {
        ShiftIn();
      }
    }

    /** One byte enters the window. */
    method ShiftIn()
      requires 0 < iv.rng <= CODE_BOT && Tracks(iv)
      modifies this
      ensures iv == Interval(old(iv.low) * 256, old(iv.rng) * 256, old(iv.read) + 1)
      ensures Tracks(iv) && rng == iv.rng && err == old(err)
    {
      hide Code, Inside, Joined;
      ghost var i := iv;
      rng := rng * 256;
      var held := rem;
      rem := ReadByte();
      AbsorbByte(buf, i, val);
      var sym := Joined(held, rem);
      val := (val * 256 + (255 - sym)) % CODE_TOP;
      iv := Interval(i.low * 256, i.rng * 256, i.read + 1);
    }

    /** The cumulative frequency of the next symbol: inside the range of any symbol
        with this total whose interval holds the stream. */
    method Decode(ft: nat) returns (fs: nat)
      requires Valid() && ft <= CODE_BOT
      modifies this`ext, this`err
      ensures Valid()
      ensures ft == 0 ==> err == 1 && fs == 0
      ensures ft > 0 ==> err == old(err) && ext == rng / ft && fs < ft
      ensures ft > 0 ==> forall s: Symbol :: s.ft == ft ==>
                (Inside(buf, Narrow(iv, s)) <==> s.fl <= fs < s.fh)
    {
      hide Narrow, Code;
      if ft == 0 {
        err, ext := 1, 1;
        return 0;
      }
      ext := rng / ft;
      NarrowBounds(rng, Freq(0, ft, ft));
      DivideCompare(val, ext, 0);
      var s: nat := val / ext;
      fs := ft - (if s + 1 < ft then s + 1 else ft);
      forall sym: Symbol | sym.ft == ft
        ensures Inside(buf, Narrow(iv, sym)) <==> sym.fl <= fs < sym.fh
      {
        Locate(iv, sym, Code(buf, iv.read));
      }
    }

    method Update(fl: nat, fh: nat, ft: nat)
      requires Valid() && Freq(fl, fh, ft).Valid() && ext == rng / ft
      requires Inside(buf, Narrow(iv, Freq(fl, fh, ft)))
      modifies this
      ensures Valid() && iv == Push(old(iv), Freq(fl, fh, ft)) && err == old(err)
    {
      NarrowBounds(rng, Freq(fl, fh, ft));
      iv := Narrow(iv, Freq(fl, fh, ft));
      var s := ext * (ft - fh);
      val := val - s;
      if fl > 0 {
        rng := ext * (fh - fl);
      } else {
        rng := rng - s;
      }
      Normalize();
    }

    method DecodeCDF(cdf: Cdf) returns (k: nat)
      requires Valid() && (Increasing(cdf) || |cdf| < 2 || cdf[|cdf| - 1] <= cdf[0])
      modifies this
      ensures Valid()
      ensures !Increasing(cdf) ==> err == 1 && iv == old(iv) && k == 0
      ensures Increasing(cdf) ==> k + 1 < |cdf| && err == old(err) && iv == Push(old(iv), CdfSymbol(cdf, k))
      ensures Increasing(cdf) ==> forall m: nat :: m + 1 < |cdf| ==>
                (Inside(buf, Narrow(old(iv), CdfSymbol(cdf, m))) <==> m == k)
    {
      hide Narrow, Push, Inside, Code;
      var n := |cdf|;
      ClimbsPairwise(cdf);
      if n < 2 || cdf[n - 1] <= cdf[0] {
        err := 1;
        return 0;
      }
      var ft := cdf[n - 1] - cdf[0];
      var fs := Decode(ft);
      var target := cdf[0] + fs;
      k := 0;
      while k < n - 1 && cdf[k + 1] <= target
        invariant k < n - 1 && cdf[k] <= target
      {
        k := k + 1;
      }
      ghost var before := iv;
      assert forall m: nat :: m + 1 < |cdf| ==>
          (CdfSymbol(cdf, m).fl <= fs < CdfSymbol(cdf, m).fh <==> m == k);
      Update(cdf[k] - cdf[0], cdf[k + 1] - cdf[0], ft);
    }

    method DecodeRawSymbol(nbits: nat) returns (sym: nat)
      requires Valid() && nbits <= RAW_BITS
      modifies this
      ensures Valid() && err == old(err)
      ensures sym < Pow2(nbits) && iv == Push(old(iv), RawSymbol(sym, nbits))
      ensures forall m: nat :: m < Pow2(nbits) ==>
                (Inside(buf, Narrow(old(iv), RawSymbol(m, nbits))) <==> m == sym)
    {
      ghost var zero := RawSymbol(0, nbits);
      sym := Decode(Pow2(nbits));
      assert forall m: nat :: m < Pow2(nbits) ==> RawSymbol(m, nbits).ft == Pow2(nbits);
      Update(sym, sym + 1, Pow2(nbits));
    }
  }

  lemma {:induction false} SymbolBits(a: byte, b: byte)
    ensures Joined(a, b) == 128 * (a % 2) + b / 2
  {
    var h: int, l: int := a / 2, a % 2;
    assert a == 2 * h + l;
    assert (a * 256 + b) / 2 == 256 * h + 128 * l + b / 2;
  }

  lemma {:induction false} Absorbed(low: nat, rng: nat, code: nat, val: nat, sym: nat)
    requires 0 < rng <= CODE_BOT && low <= code < low + rng && val == low + rng - 1 - code && sym < 256
    ensures (val * 256 + (255 - sym)) % CODE_TOP == low * 256 + rng * 256 - 1 - (256 * code + sym)
    ensures low * 256 <= 256 * code + sym < low * 256 + rng * 256
  {
    var x := val * 256 + (255 - sym);
    assert 0 <= x < CODE_TOP;
  }

  /** Reading one more byte scales the distance to the top of the interval by 256. */
  lemma {:induction false} AbsorbByte(buf: seq<byte>, i: Interval, val: nat)
    requires 0 < i.rng <= CODE_BOT && i.read > 0 && Inside(buf, i)
    requires val == i.low + i.rng - 1 - Code(buf, i.read)
    ensures var sym := Joined(At(buf, i.read - 1), At(buf, i.read));
            var j := Interval(i.low * 256, i.rng * 256, i.read + 1);
            Inside(buf, j) && (val * 256 + (255 - sym)) % CODE_TOP == j.low + j.rng - 1 - Code(buf, j.read)
  {
    hide At, Code;
    CodeStep(buf, i.read);
    var a, b := At(buf, i.read - 1), At(buf, i.read);
    SymbolBits(a, b);
    Absorbed(i.low, i.rng, Code(buf, i.read), val, 128 * (a % 2) + b / 2);
  }

  /** A symbol's interval, measured from the top of the current one. */
  lemma {:induction false} NarrowFromTop(i: Interval, s: Symbol, code: nat)
    requires Normal(i) && i.low <= code < i.low + i.rng
    ensures var v, r := i.low + i.rng - 1 - code, i.rng / s.ft;
            (Narrow(i, s).low <= code < Narrow(i, s).low + Narrow(i, s).rng) <==>
              (r * (s.ft - s.fh) <= v && (s.fl == 0 || v < r * (s.ft - s.fl)))
  {
    NarrowBounds(i.rng, s);
  }

  lemma {:induction false} ShareNotZero(rng: nat, ft: nat)
    requires CODE_BOT < rng && 0 < ft <= CODE_BOT
    ensures rng / ft > 0
  {
    var q := rng / ft;
    assert rng == q * ft + rng % ft;
    if q == 0 {
      MulMono(q, 0, ft);
    }
  }

  /** Where a distance from the top lies among the parts of size r, and what division finds. */
  lemma {:induction false} PartOf(v: nat, r: nat, fl: nat, fh: nat, ft: nat)
    requires r > 0 && fl < fh <= ft
    ensures var q := v / r;
            var fs := ft - (if q + 1 < ft then q + 1 else ft);
            (r * (ft - fh) <= v && (fl == 0 || v < r * (ft - fl))) <==> fl <= fs < fh
  {
    DivideCompare(v, r, ft - fh);
    DivideCompare(v, r, ft - fl);
    PlaceOf(v / r, fl, fh, ft);
  }

  /** Where a number sits in the interval decides the symbol, and the division finds it. */
  lemma {:induction false} Locate(i: Interval, s: Symbol, code: nat)
    requires Normal(i) && i.low <= code < i.low + i.rng
    ensures var v := i.low + i.rng - 1 - code;
            var r := i.rng / s.ft;
            var q := v / r;
            var fs := s.ft - (if q + 1 < s.ft then q + 1 else s.ft);
            Narrow(i, s).low <= code < Narrow(i, s).low + Narrow(i, s).rng <==> s.fl <= fs < s.fh
  {
    hide Narrow;
    ShareNotZero(i.rng, s.ft);
    NarrowFromTop(i, s, code);
    PartOf(i.low + i.rng - 1 - code, i.rng / s.ft, s.fl, s.fh, s.ft);
  }

  lemma {:induction false} PlaceOf(q: nat, fl: nat, fh: nat, ft: nat)
    requires fl < fh <= ft
    ensures var fs := ft - (if q + 1 < ft then q + 1 else ft);
            (ft - fh <= q && (fl == 0 || q < ft - fl)) <==> fl <= fs < fh
  {
  }

  lemma {:induction false} DivideCompare(v: nat, r: nat, m: nat)
    requires r > 0
    ensures v < r * m <==> v / r < m
  {
    var q := v / r;
    assert q * r + v % r == v;
    if q < m {
      MulMono(q + 1, m, r);
    } else {
      MulMono(m, q, r);
    }
  }
}
