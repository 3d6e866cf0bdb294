/** RangeEncoder: the byte-oriented encoder with delayed carries
(internal/voip/codec/mlow/rangecoder.go, lines 306-559). */
module RangeEncoding {
  import opened Words
  import opened Helpers
  import opened CodingInterval

  ghost function Repeat(b: byte, n: nat): (r: seq<byte>)
    ensures |r| == n && forall k :: 0 <= k < n ==> r[k] == b
  {
    seq(n, _ => b)
  }

  /** Adding one to a digit string that ends in 0xFF digits ripples through them. */
  lemma {:induction false} CarryRipples(ds: seq<byte>, r: byte, n: nat)
    requires r < 255
    ensures Number(ds + [r] + Repeat(255, n)) + 1 == Number(ds + [r + 1] + Repeat(0, n))
  {
    if n == 0 {
      assert ds + [r] + Repeat(255, 0) == ds + [r];
      assert ds + [r + 1] + Repeat(0, 0) == ds + [r + 1];
      NumberSnoc(ds, r);
      NumberSnoc(ds, r + 1);
    } else {
      CarryRipples(ds, r, n - 1);
      assert ds + [r] + Repeat(255, n) == ds + [r] + Repeat(255, n - 1) + [255];
      assert ds + [r + 1] + Repeat(0, n) == ds + [r + 1] + Repeat(0, n - 1) + [0];
      NumberSnoc(ds + [r] + Repeat(255, n - 1), 255);
      NumberSnoc(ds + [r + 1] + Repeat(0, n - 1), 0);
    }
  }

  ghost function Held(rem: int): seq<byte>
    requires -1 <= rem <= 255
  {
    if rem >= 0 then [rem] else []
  }

  /** What the written bytes and the new held-back byte spell after a digit c != 255. */
  lemma {:induction false} EmittedValue(ds: seq<byte>, rem: int, n: nat, c: nat, written: seq<byte>)
    requires -1 <= rem <= 255 && c < 512 && c != 255 && (c >= 256 ==> 0 <= rem < 255)
    requires written == ds + (if rem >= 0 then [rem + c / 256] else []) + Repeat((255 + c / 256) % 256, n)
    ensures Number(written + [c % 256]) == 256 * Number(ds + Held(rem) + Repeat(255, n)) + c
    ensures c < 255 ==> written == ds + Held(rem) + Repeat(255, n)
  {
    NumberSnoc(written, c % 256);
    if c >= 256 {
      CarryRipples(ds, rem, n);
    }
  }

  /** Bit length, as bits.Len32. */
  function Ilog(x: nat): nat {
    if x == 0 then 0 else 1 + Ilog(x / 2)
  }

  lemma {:induction false} IlogBounds(x: nat)
    requires x > 0
    ensures Ilog(x) > 0 && Pow2(Ilog(x) - 1) <= x < Pow2(Ilog(x))
  {
    if x > 1 {
      IlogBounds(x / 2);
    }
  }

  lemma {:induction false} Pow2Table()
    ensures Pow2(22) == 0x40_0000 && Pow2(23) == CODE_BOT && Pow2(24) == 2 * CODE_BOT
    ensures Pow2(30) == 0x4000_0000 && Pow2(31) == CODE_TOP && Pow2(32) == 2 * CODE_TOP
  {
    assert Pow2(8) == 256;
    assert Pow2(16) == 65536;
  }

  /** A normalised range has between 24 and 32 bits. */
  lemma {:induction false} RangeBits(rng: nat)
    requires CODE_BOT < rng <= CODE_TOP
    ensures 24 <= Ilog(rng) <= 32
    ensures Pow2(Ilog(rng) - 1) <= rng < Pow2(Ilog(rng))
  {
    IlogBounds(rng);
    Pow2Table();
    if Ilog(rng) < 24 {
      Pow2Monotone(Ilog(rng), 23);
    }
    if Ilog(rng) > 32 {
      Pow2Monotone(32, Ilog(rng) - 1);
    }
  }

  /** x rounded up to a multiple of m. */
  function RoundTo(x: nat, m: nat): (y: nat)
    requires m > 0
    ensures x <= y < x + m && y % m == 0
  {
    RoundUp(x, m);
    (x + m - 1) / m * m
  }

  lemma {:induction false} RoundUp(x: nat, m: nat)
    requires m > 0
    ensures var y := (x + m - 1) / m * m; x <= y < x + m && y % m == 0
  {
    var q := (x + m - 1) / m;
    assert q * m + (x + m - 1) % m == x + m - 1;
    MultipleOf(q, m);
  }

  /** Done's choice: l significant bits and a value `end` whose remaining bits are free. */
  function FlushPoint(val: nat, rng: nat): (r: (nat, nat))
    requires CODE_BOT < rng <= CODE_TOP
    ensures r.0 <= 9 && r.1 % Pow2(31 - r.0) == 0
    ensures val <= r.1 && r.1 + Pow2(31 - r.0) <= val + rng
  {
    hide RoundTo;
    RangeBits(rng);
    var l := 32 - Ilog(rng);
    var unit := Pow2(31 - l);
    var end := RoundTo(val, unit);
    if end + unit - 1 >= val + rng then
      assert Pow2(31 - l) == 2 * Pow2(30 - l);
      (l + 1, RoundTo(val, Pow2(31 - (l + 1))))
    else
      (l, end)
  }

  /** No value with fewer significant bits has all that can follow it inside the interval. */
  lemma {:induction false} FlushShortest(val: nat, rng: nat, l: nat, q: nat)
    requires CODE_BOT < rng <= CODE_TOP && l < FlushPoint(val, rng).0
    ensures !(val <= q * Pow2(31 - l) && q * Pow2(31 - l) + Pow2(31 - l) <= val + rng)
  {
    hide Pow2, RoundTo, FlushPoint;
    RangeBits(rng);
    var l0 := 32 - Ilog(rng);
    var unit, end := Pow2(31 - l), q * Pow2(31 - l);
    FlushBits(val, rng);
    if l < l0 {
      Pow2Monotone(Ilog(rng), 31 - l);
    } else if val <= end {
      LeastMultiple(val, unit, q);
    }
  }

  lemma {:induction false} FlushBits(val: nat, rng: nat)
    requires CODE_BOT < rng <= CODE_TOP && 24 <= Ilog(rng) <= 32
    ensures var l, r := 32 - Ilog(rng), FlushPoint(val, rng);
            l <= r.0 <= l + 1 && (r.0 == l + 1 ==> RoundTo(val, Pow2(31 - l)) + Pow2(31 - l) > val + rng)
  {
    hide Pow2, RoundTo, Ilog;
  }

  lemma {:induction false} LeastMultiple(x: nat, m: nat, q: nat)
    requires m > 0 && x <= q * m
    ensures RoundTo(x, m) <= q * m
  {
    var p := (x + m - 1) / m;
    assert p * m + (x + m - 1) % m == x + m - 1;
    if p > q {
      Gap(q, p, m);
    }
  }

  lemma {:induction false} MultipleOf(q: nat, m: nat)
    requires m > 0
    ensures (q * m) % m == 0
  {
    Quotient(q * m, m, q, 0);
  }

  // ----------------------------------------------------- digits seen as a stream

  lemma {:induction false} PrefixIsVal(ds: seq<byte>, suffix: seq<byte>, n: nat)
    requires n <= |ds|
    ensures Prefix(ds + suffix, n) == Number(ds[..n])
  {
    if n > 0 {
      PrefixIsVal(ds, suffix, n - 1);
      assert ds[..n][..n - 1] == ds[..n - 1];
    }
  }

  lemma {:induction false} PrefixGrows(out: seq<byte>, n: nat)
    ensures Prefix(out, n) * 0x1_00 <= Prefix(out, n + 1) < (Prefix(out, n) + 1) * 0x1_00
    ensures Prefix(out, n) * 0x1_0000 <= Prefix(out, n + 2) < (Prefix(out, n) + 1) * 0x1_0000
    ensures Prefix(out, n) * 0x1_000000 <= Prefix(out, n + 3) < (Prefix(out, n) + 1) * 0x1_000000
    ensures Prefix(out, n) * 0x1_00000000 <= Prefix(out, n + 4) < (Prefix(out, n) + 1) * 0x1_00000000
  {
    assert Prefix(out, n + 1) == 256 * Prefix(out, n) + At(out, n);
    assert Prefix(out, n + 2) == 256 * Prefix(out, n + 1) + At(out, n + 1);
    assert Prefix(out, n + 3) == 256 * Prefix(out, n + 2) + At(out, n + 2);
    assert Prefix(out, n + 4) == 256 * Prefix(out, n + 3) + At(out, n + 3);
  }

  /** Free bits left in the 31-bit window after j digits of it were flushed. */
  function Left(j: nat): nat
    requires j <= 2
  {
    if j == 0 then CODE_TOP else if j == 1 then CODE_BOT else 0x8000
  }

  lemma {:induction false} CodeWithin(out: seq<byte>, n: nat, j: nat)
    requires j <= 2
    ensures Prefix(out, n + j) * Left(j) <= Code(out, n + 4) < (Prefix(out, n + j) + 1) * Left(j)
  {
    PrefixGrows(out, n + j);
  }

  /** Flushing j digits of `end` pins the decoder's number to [end, end + unit). */
  lemma {:induction false} FlushedInside(ds: seq<byte>, suffix: seq<byte>, i: Interval, point: nat, unit: nat, j: nat)
    requires j <= 2 && i.read >= 4 && |ds| + 4 == i.read + j
    requires Number(ds) * Left(j) == point && Left(j) <= unit
    requires i.low <= point && point + unit <= i.low + i.rng
    ensures Inside(ds + suffix, i)
  {
    PrefixIsVal(ds, suffix, |ds|);
    assert ds[..|ds|] == ds;
    CodeWithin(ds + suffix, i.read - 4, j);
  }

  lemma {:induction false} DividesDown(x: nat, a: nat, b: nat)
    requires b <= a && x % Pow2(a) == 0
    ensures x % Pow2(b) == 0
  {
    if b < a {
      var m := Pow2(a - 1);
      var q := x / (2 * m);
      assert x == (2 * m) * q == m * (2 * q);
      MultipleOf(2 * q, m);
      DividesDown(x, a - 1, b);
    }
  }

  /** When the flush loop stops, j digits cover the l significant bits. */
  lemma {:induction false} FlushedUnit(l: nat, j: nat)
    requires l <= 9 && j <= 2 && l <= 8 * j
    ensures Left(j) <= Pow2(31 - l)
  {
    Pow2Table();
    Pow2Monotone(if j == 0 then 31 else if j == 1 then 23 else 22, 31 - l);
  }

  lemma {:induction false} FlushKeeps(v: nat, end: nat, j: nat)
    requires j < 2 && end < 2 * CODE_TOP
    ensures ((256 * v + end / CODE_BOT) * CODE_TOP + (end * 256) % CODE_TOP) * Left(j + 1)
         == (v * CODE_TOP + end) * Left(j)
  {
    assert (end / CODE_BOT) * CODE_TOP + (end * 256) % CODE_TOP == end * 256;
  }

  /** With no significant bit to flush there is nothing to emit. */
  lemma {:induction false} FlushUnused(val: nat, rng: nat)
    requires CODE_BOT < rng <= CODE_TOP && val + rng < 2 * CODE_TOP
    ensures var (l, end) := FlushPoint(val, rng);
            && end < val + rng && (l == 0 ==> end == 0)
  {
    hide FlushPoint, Pow2;
    Pow2Table();
  }

  /** The top digit of the window and what is left of it. */
  lemma {:induction false} TopDigit(end: nat)
    requires end < 2 * CODE_TOP
    ensures var c, e := end / CODE_BOT, (end * 256) % CODE_TOP;
            c < 512 && c * CODE_TOP + e == end * 256 && (end < CODE_TOP ==> c < 256)
  {
  }

  lemma {:induction false} NothingLeft(end: nat)
    requires end % CODE_BOT == 0
    ensures (end * 256) % CODE_TOP == 0
  {
    var q := end / CODE_BOT;
    assert end == CODE_BOT * q;
    assert end * 256 == CODE_TOP * q;
  }

  lemma {:induction false} OneBitLeft(end: nat)
    requires end % 0x40_0000 == 0
    ensures (end * 256) % CODE_TOP % 0x4000_0000 == 0
  {
    var q := end / 0x40_0000;
    assert end == 0x40_0000 * q;
    assert end * 256 == 0x4000_0000 * q;
  }

  lemma {:induction false} FlushShift(end: nat, l: nat)
    requires 0 < l <= 9 && end % Pow2(31 - l) == 0 && end < 2 * CODE_TOP
    ensures var c, e := end / CODE_BOT, (end * 256) % CODE_TOP;
            && c < 512 && c * CODE_TOP + e == end * 256
            && (end < CODE_TOP ==> c < 256)
            && (if l > 8 then e % Pow2(31 - (l - 8)) == 0 else e == 0)
  {
    hide Pow2;
    Pow2Table();
    TopDigit(end);
    if l <= 8 {
      DividesDown(end, 31 - l, 23);
      NothingLeft(end);
    } else {
      OneBitLeft(end);
    }
  }

  /** One renormalisation of the 32-bit window: the digit leaves, the rest moves up. */
  lemma {:induction false} ShiftWindow(val: nat, rng: nat)
    requires 0 < rng <= CODE_BOT && val + rng < 2 * CODE_TOP
    ensures var c, v := val / CODE_BOT, (val * 256) % CODE_TOP;
            && c < 512 && c * CODE_TOP + v == val * 256
            && v + rng * 256 < 2 * CODE_TOP
            && (val + rng <= CODE_TOP ==> c < 256)
            && (val + rng <= CODE_TOP && c == 255 ==> v + rng * 256 <= CODE_TOP)
            && (c % 256 == 255 && c != 255 ==> v + rng * 256 <= CODE_TOP)
  {
  }

  lemma {:induction false} DivShift(a: nat, q: nat, m: nat)
    requires m > 0
    ensures (a + q * m) / m == a / m + q
  {
    var d := a / m;
    assert a == d * m + a % m;
    assert (d + q) * m == d * m + q * m;
    Quotient(a + q * m, m, d + q, a % m);
  }

  lemma {:induction false} RoundShift(x: nat, q: nat, m: nat)
    requires m > 0
    ensures RoundTo(x + q * m, m) == RoundTo(x, m) + q * m
  {
    DivShift(x + m - 1, q, m);
    var d := (x + m - 1) / m;
    assert (d + q) * m == d * m + q * m;
  }

  /** Whole windows do not change how many bits the flush needs. */
  lemma {:induction false} FlushShifted(val: nat, rng: nat)
    requires CODE_BOT < rng <= CODE_TOP
    ensures FlushPoint(val + CODE_TOP, rng).0 == FlushPoint(val, rng).0
  {
    hide Ilog, RoundTo, Pow2;
    RangeBits(rng);
    Pow2Table();
    var l := 32 - Ilog(rng);
    Pow2Product(l, 31 - l);
    RoundShift(val, Pow2(l), Pow2(31 - l));
  }

  /** Bytes that the flush adds to those already emitted. */
  ghost function FlushDigits(i: Interval): (j: nat)
    requires Normal(i)
    ensures j <= 2
  {
    (FlushPoint(i.low % CODE_TOP, i.rng).0 + 7) / 8
  }

  /** Bytes of the packet that ends in this interval. */
  ghost function Size(i: Interval): nat
    requires Normal(i) && i.read >= 4
  {
    i.read - 4 + FlushDigits(i)
  }

  lemma {:induction false} FlushDigitsOfWindow(i: Interval, v: nat, val: nat)
    requires Normal(i) && i.low == v * CODE_TOP + val && val < 2 * CODE_TOP
    ensures FlushDigits(i) == (FlushPoint(val, i.rng).0 + 7) / 8
  {
    hide FlushPoint;
    if val < CODE_TOP {
      assert i.low % CODE_TOP == val;
    } else {
      assert i.low % CODE_TOP == val - CODE_TOP;
      FlushShifted(val - CODE_TOP, i.rng);
    }
  }

  class RangeEncoder {
    const buf: array<byte>
    var offs: nat
    var rng: u32
    var val: u32
    var rem: int      // held-back byte, -1 before the first one
    var ext: nat      // pending 0xFF bytes behind rem
    var err: int
    ghost var iv: Interval   // the reference interval
    ghost var refused: bool  // a table did not carry the symbol asked for

    /** Every digit emitted so far, written or still held back. */
    ghost function Pending(): seq<byte>
      reads this, buf
      requires offs <= buf.Length && -1 <= rem <= 255
    {
      buf[..offs] + Held(rem) + Repeat(255, ext)
    }

    /** Register bounds. A carry can reach rem only while it is below 255. */
    ghost predicate InRange()
      reads this, buf
    {
      && offs <= buf.Length
      && -1 <= rem <= 255
      && (err == 0 || err == -1)
      && 0 < rng <= CODE_TOP
      && val + rng < 2 * CODE_TOP
      && ((rem == -1 || rem == 255) ==> val + rng <= CODE_TOP)
    }

    ghost predicate Tracks(i: Interval)
      reads this, buf
      requires offs <= buf.Length && -1 <= rem <= 255
    {
      i == Interval(Number(Pending()) * CODE_TOP + val, rng, |Pending()| + 4)
    }

    /** The error is a refused symbol, or more digits than the buffer holds. */
    ghost predicate Blamed(n: int)
      reads this
    {
      && (refused ==> err == -1)
      && (err == -1 ==> refused || n > buf.Length)
    }

    ghost predicate Valid()
      reads this, buf
    {
      && InRange() && Normal(iv) && rng == iv.rng && iv.read >= 4
      && (err == 0 ==> Tracks(iv)) && Blamed(iv.read - 4)
    }

    constructor (size: nat)
      ensures Valid() && fresh(buf) && buf.Length == size
      ensures err == 0 && iv == START && !refused
    {
      buf := new byte[size](_ => 0);
      offs, rng, val, rem, ext, err := 0, CODE_TOP, 0, -1, 0, 0;
      iv, refused := START, false;
      new;
      assert Pending() == [];
    }

    method WriteByte(b: byte)
      requires offs <= buf.Length && (err == 0 || err == -1)
      modifies this`offs, this`err, buf
      ensures offs <= buf.Length && (err == 0 || err == -1)
      ensures err == if old(err) == -1 || old(offs) == buf.Length then -1 else 0
      ensures err == 0 ==> buf[..offs] == old(buf[..offs]) + [b]
    {
      if offs < buf.Length {
        buf[offs] := b;
        offs := offs + 1;
      } else {
        err := -1;
      }
    }

    /** Writes the pending run as `ext` copies of sym. */
    method WriteRun(sym: byte)
      requires offs <= buf.Length && (err == 0 || err == -1)
      modifies this`offs, this`err, this`ext, buf
      ensures offs <= buf.Length && (err == 0 || err == -1) && ext == 0
      ensures err == if old(err) == -1 || old(offs + ext) > buf.Length then -1 else 0
      ensures err == 0 ==> buf[..offs] == old(buf[..offs]) + Repeat(sym, old(ext))
    {
      ghost var ds := buf[..offs];
      ghost var n, o := ext, offs;
      while ext > 0
        invariant offs <= buf.Length && (err == 0 || err == -1)
        invariant ext <= n
        invariant if err == 0 then old(err) == 0 && offs == o + (n - ext) else old(err) == -1 || o + n > buf.Length
        invariant err == 0 ==> buf[..offs] == ds + Repeat(sym, n - ext)
      {
        assert Repeat(sym, n - ext) + [sym] == Repeat(sym, n - ext + 1);
        WriteByte(sym);
        ext := ext - 1;
      }
    }

    /** Emits the digit c, whose bit 8 is a carry into everything already emitted. */
    method CarryOut(c: nat)
      requires offs <= buf.Length && -1 <= rem <= 255 && (err == 0 || err == -1)
      requires c < 512 && (c >= 256 ==> 0 <= rem < 255)
      modifies this`offs, this`err, this`rem, this`ext, buf
      ensures offs <= buf.Length && -1 <= rem <= 255 && (err == 0 || err == -1)
      ensures err == -1 ==> old(err) == -1 || old(|Pending()|) > buf.Length
      ensures err == 0 ==> old(err) == 0 && Number(Pending()) == 256 * old(Number(Pending())) + c
      ensures err == 0 ==> |Pending()| == old(|Pending()|) + 1
      ensures if c == 255 then rem == old(rem) else rem == c % 256
      ensures err == 0 && c < 255 ==> buf[..offs] == old(Pending())
    {
      hide Number;
      ghost var before := Pending();
      if c != 255 {
        ghost var ds, held, n := buf[..offs], rem, ext;
        if rem >= 0 {
          WriteByte(rem + c / 256);
        }
        WriteRun((255 + c / 256) % 256);
        rem := c % 256;
        if err == 0 {
          assert Pending() == buf[..offs] + [c % 256];
          EmittedValue(ds, held, n, c, buf[..offs]);
        }
      } else {
        ext := ext + 1;
        assert Pending() == before + [255];
        NumberSnoc(before, 255);
      }
    }

    method Normalize()
      requires InRange() && rng == iv.rng && iv.read >= 4 && (err == 0 ==> Tracks(iv)) && Blamed(iv.read - 4)
      modifies this, buf
      ensures Valid() && iv == Rescale(old(iv)) && refused == old(refused)
    {
      hide Number;
      while rng <= CODE_BOT
        invariant InRange() && rng == iv.rng && iv.read >= 4 && (err == 0 ==> Tracks(iv)) && Blamed(iv.read - 4)
        invariant Rescale(iv) == Rescale(old(iv)) && refused == old(refused)
        decreases CODE_TOP - rng
      {
        ShiftOut();
      }
    }

    /** One digit leaves the window. */
    method ShiftOut()
      requires InRange() && rng == iv.rng && rng <= CODE_BOT && iv.read >= 4 && (err == 0 ==> Tracks(iv))
      requires Blamed(iv.read - 4)
      modifies this, buf
      ensures InRange() && rng == iv.rng == 256 * old(rng) && iv.read >= 4 && (err == 0 ==> Tracks(iv))
      ensures Blamed(iv.read - 4)
      ensures iv == Interval(old(iv.low) * 256, old(iv.rng) * 256, old(iv.read) + 1) && refused == old(refused)
    {
      hide Number, Repeat, Held;
      ShiftWindow(val, rng);
      CarryOut(val / CODE_BOT);
      val := (val * 256) % CODE_TOP;
      rng := rng * 256;
      iv := Interval(iv.low * 256, iv.rng * 256, iv.read + 1);
    }

    method Encode(fl: nat, fh: nat, ft: nat)
      requires Valid() && (ft == 0 || Freq(fl, fh, ft).Valid())
      modifies this, buf
      ensures Valid() && refused == (old(refused) || ft == 0)
      ensures if ft == 0 then iv == old(iv) else iv == Push(old(iv), Freq(fl, fh, ft))
    {
      hide Number, Repeat, Held;
      if ft == 0 {
        err, refused := -1, true;
        return;
      }
      NarrowBounds(rng, Freq(fl, fh, ft));
      iv := Narrow(iv, Freq(fl, fh, ft));
      var r := rng / ft;
      if fl > 0 {
        val := val + rng - r * (ft - fl);
        rng := r * (fh - fl);
      } else {
        rng := rng - r * (ft - fh);
      }
      Normalize();
    }

    method EncodeCDF(s: int, cdf: Cdf)
      requires Valid() && (Increasing(cdf) || |cdf| < 2 || cdf[|cdf| - 1] <= cdf[0])
      modifies this, buf
      ensures Valid() && refused == (old(refused) || !Codes(cdf, s))
      ensures if Codes(cdf, s) then iv == Push(old(iv), CdfSymbol(cdf, s)) else iv == old(iv)
    {
      hide Number, Repeat, Held, Push;
      var n := |cdf|;
      if n < 2 || s < 0 || s + 1 >= n {
        err, refused := -1, true;
        return;
      }
      ClimbsPairwise(cdf);
      if cdf[n - 1] <= cdf[0] {
        err, refused := -1, true;
        return;
      }
      ghost var sym := CdfSymbol(cdf, s);
      Encode(cdf[s] - cdf[0], cdf[s + 1] - cdf[0], cdf[n - 1] - cdf[0]);
    }

    method EncodeRawSymbol(sym: nat, nbits: nat)
      requires Valid() && nbits <= RAW_BITS && sym < Pow2(nbits)
      modifies this, buf
      ensures Valid() && refused == old(refused)
      ensures iv == Push(old(iv), RawSymbol(sym, nbits))
    {
      hide Number, Repeat, Held, Push;
      ghost var s := RawSymbol(sym, nbits);
      Encode(sym, sym + 1, Pow2(nbits));
    }

    /** Emits the l significant bits of `end`, eight at a time. */
    method EmitBits(l0: nat, end0: nat) returns (ghost j: nat)
      requires offs <= buf.Length && -1 <= rem <= 255 && (err == 0 || err == -1)
      requires l0 <= 9 && end0 < 2 * CODE_TOP && (rem == -1 || rem == 255 ==> end0 < CODE_TOP)
      requires if l0 > 0 then end0 % Pow2(31 - l0) == 0 else end0 == 0
      modifies this`offs, this`err, this`rem, this`ext, buf
      ensures offs <= buf.Length && -1 <= rem <= 255 && (err == 0 || err == -1)
      ensures j == (l0 + 7) / 8 && j <= 2 && Left(j) <= Pow2(31 - l0)
      ensures err == -1 ==> old(err) == -1 || old(|Pending()|) + j > buf.Length
      ensures err == 0 ==> old(err) == 0 && |Pending()| == old(|Pending()|) + j
      ensures err == 0 ==> Number(Pending()) * Left(j) == old(Number(Pending())) * CODE_TOP + end0
    {
      hide Number, Repeat, Held, Pow2;
      ghost var base, n := Number(Pending()), |Pending()|;
      j := 0;
      var l: int, end: nat := l0, end0;
      while l > 0
        invariant offs <= buf.Length && -1 <= rem <= 255 && (err == 0 || err == -1)
        invariant j <= 2 && l == l0 - 8 * j && l > -8
        invariant end < 2 * CODE_TOP && (j > 0 || rem == -1 || rem == 255 ==> end < CODE_TOP)
        invariant if l > 0 then end % Pow2(31 - l) == 0 else end == 0
        invariant if err == 0 then old(err) == 0 && |Pending()| == n + j else old(err) == -1 || n + j > buf.Length
        invariant err == 0 ==> (Number(Pending()) * CODE_TOP + end) * Left(j) == (base * CODE_TOP + end0) * CODE_TOP
      {
        FlushShift(end, l);
        FlushKeeps(Number(Pending()), end, j);
        CarryOut(end / CODE_BOT);
        end := (end * 256) % CODE_TOP;
        l := l - 8;
        j := j + 1;
      }
      FlushedUnit(l0, j);
    }

    /** Flushes. It succeeds exactly when no symbol was refused and the packet fits the buffer; then
        whatever bytes follow the flushed ones, a decoder's number stays inside the interval of
        everything encoded. */
    method Done()
      requires Valid()
      modifies this, buf
      ensures offs <= buf.Length && (err == 0 || err == -1)
      ensures err == 0 <==> !old(refused) && Size(old(iv)) <= buf.Length
      ensures err == 0 ==> offs == Size(old(iv)) && forall suffix: seq<byte> :: Inside(buf[..offs] + suffix, old(iv))
      ensures err == 0 ==> forall k :: offs <= k < buf.Length ==> buf[k] == 0
    {
      hide Number, Repeat, FlushPoint, FlushDigits, Pow2;
      var (l, end) := FlushPoint(val, rng);
      FlushUnused(val, rng);
      if err == 0 {
        FlushDigitsOfWindow(iv, Number(Pending()), val);
      }
      ghost var point := Number(Pending()) * CODE_TOP + end;
      ghost var j := EmitBits(l, end);
      ghost var ds := Pending();
      if rem >= 0 || ext > 0 {
        CarryOut(0);
      }
      if err == 0 {
        assert buf[..offs] == ds;
        forall suffix: seq<byte> ensures Inside(ds + suffix, old(iv)) {
          FlushedInside(ds, suffix, old(iv), point, Pow2(31 - l), j);
        }
        ZeroRest();
      }
    }

    method ZeroRest()
      requires offs <= buf.Length
      modifies buf
      ensures buf[..offs] == old(buf[..offs])
      ensures forall k :: offs <= k < buf.Length ==> buf[k] == 0
    {
      for i := offs to buf.Length
        invariant buf[..offs] == old(buf[..offs])
        invariant forall k :: offs <= k < i ==> buf[k] == 0
      {
        buf[i] := 0;
      }
    }
  }
}
