/** The root search of silkA2NLSF (internal/voip/codec/mlow/lpc.go, lines 505-590). The two
polynomials enter as an arbitrary function of the restart count, of which polynomial is meant
and of the grid point, with values below 2^30 in magnitude. */
module RootSearch {
  import opened Helpers

  const CELLS := 128           // lsfCosTabSzFix
  const STEPS := 3             // binDivStepsA2NLSFFix
  const RESTARTS := 16         // maxIterationsA2NLSFFix
  const TOP := 32767           // silkInt16Max

  type value = x: int | -0x4000_0000 < x < 0x4000_0000

  type Poly = (nat, bool, int) -> value

  /** Integer division as Go does it, truncating toward zero. */
  function Quot(a: int, b: int): (q: int)
    requires b != 0
    ensures (a >= 0 <==> b > 0) || a == 0 ==> q >= 0
  {
    if a >= 0 && b > 0 then a / b
    else if a < 0 && b < 0 then (-a) / (-b)
    else if a < 0 then -((-a) / b)
    else -(a / (-b))
  }

  /** a >> n. */
  function Shr(a: int, n: nat): int
    decreases n
  {
    if n == 0 then a else Shr(a / 2, n - 1)
  }

  function RshiftRound1(a: int): int { a / 2 + a % 2 }

  /** A weak change of sign between the ends of a bracket. */
  predicate Bracket(ylo: int, yhi: int) {
    (ylo <= 0 && yhi >= 0) || (ylo >= 0 && yhi <= 0)
  }

  lemma {:induction false} Shr5(a: int)
    ensures Shr(a, 5) == a / 32
  {
    assert Shr(a, 5) == Shr(a / 2 / 2, 3);
    assert Shr(a / 2 / 2, 3) == Shr(a / 2 / 2 / 2 / 2, 1);
  }

  lemma {:induction false} QuotAtMost(a: nat, b: nat, m: nat)
    requires b > 0 && a < (m + 1) * b
    ensures 0 <= a / b <= m
  {
    var q := a / b;
    assert a == q * b + a % b;
    if q >= m + 1 {
      MulMono(m + 1, q, b);
    }
  }

  // ---------------------------------------------------- inside one grid cell

  /** Interpolation within the last bracket: never a division by zero, and within the bracket's
      32 steps but for one pair of values, where rounding goes one step beyond. The chord crosses zero
      after ylo / (ylo - yhi) of the bracket; for small values the step is the nearest 32nd to that. */
  function Interpolation(ylo: value, yhi: value): (step: int)
    requires Bracket(ylo, yhi)
    ensures 0 <= step <= 33 && (step == 33 <==> ylo == -1 && yhi == 0)
    ensures Abs(ylo) < 65536 ==> NearChord(ylo, ylo - yhi, step)
    ensures Abs(ylo) >= 65536 ==> BelowChord(ylo, ylo - yhi, step)
  {
    hide Quot, Shr, NearChord, BelowChord;
    if Abs(ylo) < 65536 then
      var den := ylo - yhi;
      if den == 0 then
        NoChord(ylo);
        0
      else
        NearQuot(ylo, den);
        Quot(ylo * 32 + den / 2, den)
    else
      FarQuot(ylo, ylo - yhi);
      Quot(ylo, Shr(ylo - yhi, 8 - STEPS))
  }

  /** The step is within half a 32nd of the crossing. */
  ghost predicate NearChord(y: int, den: int, step: int) {
    2 * Abs(32 * y - step * den) <= Abs(den) + 1
  }

  /** The step is less than a 32nd short of the crossing, up to the bits that den / 32 drops. */
  ghost predicate BelowChord(y: int, den: int, step: int) {
    -992 <= (if den > 0 then 32 * y - step * den else step * den - 32 * y) < Abs(den) + 992
  }

  lemma {:induction false} NoChord(y: int)
    requires y == 0
    ensures NearChord(y, 0, 0)
  {
  }

  lemma {:induction false} NearQuot(y: int, den: int)
    requires den != 0 && ((0 <= y <= den) || (den <= y <= 0))
    ensures 0 <= Quot(y * 32 + den / 2, den) <= 33
    ensures Quot(y * 32 + den / 2, den) == 33 <==> y == -1 && den == -1
    ensures NearChord(y, den, Quot(y * 32 + den / 2, den))
  {
    hide NearChord, Quot;
    Towards(y * 32 + den / 2, den);
    if den > 0 {
      Rounded(32 * y, den, den / 2, 32);
      NearAbove(y, den, (32 * y + den / 2) / den);
    } else {
      Rounded(-32 * y, -den, -(den / 2), if den == -1 then 33 else 32);
      NearUnder(y, den, (-32 * y - den / 2) / -den);
    }
  }

  /** Quotients of numbers with the same sign. */
  lemma {:induction false} Towards(a: int, b: int)
    requires b != 0
    ensures a >= 0 && b > 0 ==> Quot(a, b) == a / b
    ensures a <= 0 && b < 0 ==> Quot(a, b) == (-a) / (-b)
  {
  }

  /** x / d to the nearest integer. */
  lemma {:induction false} Rounded(x: nat, d: nat, half: nat, m: nat)
    requires d > 0 && d - 1 <= 2 * half <= d + 1 && x <= 32 * d && half <= d
    requires m == if half == d then 33 else 32
    ensures var q := (x + half) / d;
            2 * Abs(x - q * d) <= d + 1 && q <= m && (half == d && x == 32 * d ==> q == 33)
            && (half == d && x <= 31 * d ==> q <= 32)
  {
    var q, r := (x + half) / d, (x + half) % d;
    NearFloor(x, d, half, q, r);
    if q > m {
      MulMono(m + 1, q, d);
    }
    if half == d && x == 32 * d && q < 33 {
      MulMono(q, 32, d);
    }
    if half == d && x <= 31 * d && q > 32 {
      MulMono(33, q, d);
    }
  }

  lemma {:induction false} NearFloor(x: nat, d: nat, half: nat, q: nat, r: nat)
    requires d > 0 && x + half == q * d + r && r < d && d - 1 <= 2 * half <= d + 1
    ensures 2 * Abs(x - q * d) <= d + 1
  {
  }

  lemma {:induction false} NearAbove(y: int, den: int, q: int)
    requires den > 0 && 2 * Abs(32 * y - q * den) <= den + 1
    ensures NearChord(y, den, q)
  {
  }

  lemma {:induction false} NearUnder(y: int, den: int, q: int)
    requires den < 0 && 2 * Abs(-32 * y - q * -den) <= -den + 1
    ensures NearChord(y, den, q)
  {
    assert q * -den == -(q * den);
  }

  lemma {:induction false} FarQuot(y: int, den: int)
    requires (65536 <= y <= den) || (den <= y <= -65536)
    ensures Shr(den, 8 - STEPS) != 0 && 0 <= Quot(y, Shr(den, 8 - STEPS)) <= 32
    ensures BelowChord(y, den, Quot(y, Shr(den, 8 - STEPS)))
  {
    hide BelowChord, Quot, Shr;
    Shr5(den);
    var q := den / 32;
    Towards(y, q);
    if den > 0 {
      QuotAtMost(y, q, 32);
      FarAbove(y, den, q, y / q, y % q);
    } else {
      QuotAtMost(-y, -q, 32);
      FarUnder(y, den, -q, (-y) / (-q), (-y) % (-q));
    }
  }

  lemma {:induction false} FarAbove(y: nat, den: nat, q: nat, s: nat, r: nat)
    requires den > 0 && q == den / 32 && s <= 32 && y == s * q + r && r < q
    ensures BelowChord(y, den, s)
  {
    var d := den % 32;
    assert s * den == 32 * (s * q) + s * d;
    MulMono(0, d, s);
    MulMono(d, 31, s);
  }

  lemma {:induction false} FarUnder(y: int, den: int, q: nat, s: nat, r: nat)
    requires den < 0 && q == -(den / 32) && s <= 32 && -y == s * q + r && r < q
    ensures BelowChord(y, den, s)
  {
    var d := den % 32;
    assert den == -32 * q + d;
    assert s * den == -32 * (s * q) + s * d;
    MulMono(0, d, s);
    MulMono(d, 31, s);
  }

  /** For large values it is not the nearest: the quotient is cut off. */
  lemma {:induction false} FarIsCutOff()
    ensures Interpolation(102000, -29072) == 24 && !NearChord(102000, 131072, 24) && NearChord(102000, 131072, 25)
  {
    Shr5(131072);
  }

  /** A bracket and the fraction of a cell at which it starts, counted back from the cell's end. */
  datatype Part = Part(xlo: int, ylo: value, xhi: int, yhi: value, ffrac: int)

  /** 128 >> m */
  function Eighth(m: nat): int { if m == 0 then 128 else if m == 1 then 64 else 32 }

  function Halved(f: int -> value, c: Part, m: nat): Part {
    var xmid := RshiftRound1(c.xlo + c.xhi);
    var ymid := f(xmid);
    if Bracket(c.ylo, ymid) then Part(c.xlo, c.ylo, xmid, ymid, c.ffrac)
    else Part(xmid, ymid, c.xhi, c.yhi, c.ffrac + Eighth(m))
  }

  /** After m <= 3 halvings. */
  ghost function Halvings(f: int -> value, c: Part, m: nat): (r: Part)
    requires Bracket(c.ylo, c.yhi) && c.ffrac == -256 && m <= STEPS
    ensures Bracket(r.ylo, r.yhi) && -256 <= r.ffrac <= -256 + (if m == 0 then 0 else 256 - Eighth(m - 1))
  {
    if m == 0 then c else Halved(f, Halvings(f, c, m - 1), m - 1)
  }

  /** The bracket left of a cell, and where in the cell the root is put. */
  ghost function LastPart(f: int -> value, xlo: int, ylo: value, xhi: int, yhi: value): (r: Part)
    requires Bracket(ylo, yhi)
    ensures Bracket(r.ylo, r.yhi) && -256 <= r.ffrac <= -32
  {
    Halvings(f, Part(xlo, ylo, xhi, yhi, -256), STEPS)
  }

  ghost function Located(f: int -> value, xlo: int, ylo: value, xhi: int, yhi: value): (x: int)
    requires Bracket(ylo, yhi)
    ensures -256 <= x <= 1
  {
    var c := LastPart(f, xlo, ylo, xhi, yhi);
    c.ffrac + Interpolation(c.ylo, c.yhi)
  }

  /** One halving keeps one half of the bracket, the first one rounded down. */
  lemma {:induction false} HalvedPart(f: int -> value, c: Part, m: nat)
    requires c.xlo >= c.xhi
    ensures var r, w := Halved(f, c, m), c.xlo - c.xhi;
            && c.xlo >= r.xlo >= r.xhi >= c.xhi && w - 1 <= 2 * (r.xlo - r.xhi) <= w + 1
            && if r.ffrac == c.ffrac then
                 r.xlo == c.xlo && r.ylo == c.ylo && r.yhi == f(r.xhi) && 0 <= w - 2 * (r.xlo - r.xhi) <= 1
               else r.xhi == c.xhi && r.yhi == c.yhi && r.ylo == f(r.xlo) && r.ffrac == c.ffrac + Eighth(m)
                    && 0 <= w - 2 * (c.xlo - r.xlo) <= 1
  {
    hide RshiftRound1, Bracket;
    Midpoint(c.xlo, c.xhi);
  }

  lemma {:induction false} Midpoint(a: int, b: int)
    requires a >= b
    ensures a >= RshiftRound1(a + b) >= b && 0 <= (a - b) - 2 * (a - RshiftRound1(a + b)) <= 1
  {
  }

  /** Values at the ends of a part: those of f, or those given for the ends of the cell. */
  ghost predicate Reads(f: int -> value, cell: Part, c: Part) {
    && ((c.xlo == cell.xlo && c.ylo == cell.ylo) || c.ylo == f(c.xlo))
    && ((c.xhi == cell.xhi && c.yhi == cell.yhi) || c.yhi == f(c.xhi))
  }

  /** The last bracket is an eighth of the cell, up to rounding; ffrac says which, as many 32nds of the
      cell's end as there are eighths behind it; and there is a weak change of sign between the values at
      its ends. */
  lemma {:induction false} LastPartIsEighth(f: int -> value, xlo: int, ylo: value, xhi: int, yhi: value)
    requires Bracket(ylo, yhi) && xlo >= xhi
    ensures var c, w := LastPart(f, xlo, ylo, xhi, yhi), xlo - xhi;
            var j := (c.ffrac + 256) / 32;
            && xlo >= c.xlo >= c.xhi >= xhi && w - 7 <= 8 * (c.xlo - c.xhi) <= w + 7
            && c.ffrac == 32 * j - 256 && 0 <= j <= 7 && 0 <= j * w - 8 * (xlo - c.xlo) <= 12
            && Bracket(c.ylo, c.yhi) && Reads(f, Part(xlo, ylo, xhi, yhi, -256), c)
  {
    hide Halved, Bracket;
    var c0 := Part(xlo, ylo, xhi, yhi, -256);
    var c1 := Halved(f, c0, 0);
    var c2 := Halved(f, c1, 1);
    var c3 := Halved(f, c2, 2);
    HalvedPart(f, c0, 0);
    HalvedPart(f, c1, 1);
    HalvedPart(f, c2, 2);
    ThreeHalvings(f, c0);
    var b0, b1, b2 := if c1.ffrac == c0.ffrac then 0 else 1, if c2.ffrac == c1.ffrac then 0 else 1,
                      if c3.ffrac == c2.ffrac then 0 else 1;
    EighthsBehind(xlo - xhi, c1.xlo - c1.xhi, c2.xlo - c2.xhi, xlo - c1.xlo, c1.xlo - c2.xlo, c2.xlo - c3.xlo,
                  b0, b1, b2);
    assert (c3.ffrac + 256) / 32 == 4 * b0 + 2 * b1 + b2;
  }

  /** Where three halvings of widths w, w1 and w2 lead, with the shares s0, s1, s2 left behind. */
  lemma {:induction false} EighthsBehind(w: nat, w1: nat, w2: nat, s0: int, s1: int, s2: int, b0: nat, b1: nat, b2: nat)
    requires b0 <= 1 && b1 <= 1 && b2 <= 1
    requires if b0 == 0 then s0 == 0 && 0 <= w - 2 * w1 <= 1 else w1 == w - s0 && 0 <= w - 2 * s0 <= 1
    requires if b1 == 0 then s1 == 0 && 0 <= w1 - 2 * w2 <= 1 else w2 == w1 - s1 && 0 <= w1 - 2 * s1 <= 1
    requires if b2 == 0 then s2 == 0 else 0 <= w2 - 2 * s2 <= 1
    ensures 0 <= (4 * b0 + 2 * b1 + b2) * w - 8 * (s0 + s1 + s2) <= 12
  {
    assert (4 * b0 + 2 * b1 + b2) * w == 4 * (b0 * w) + 2 * (b1 * w) + b2 * w;
    assert b0 * w == (if b0 == 0 then 0 else w) && b1 * w == (if b1 == 0 then 0 else w);
    assert b2 * w == if b2 == 0 then 0 else w;
  }

  lemma {:induction false} ThreeHalvings(f: int -> value, c: Part)
    requires Bracket(c.ylo, c.yhi) && c.ffrac == -256
    ensures Halvings(f, c, 3) == Halved(f, Halved(f, Halved(f, c, 0), 1), 2)
  {
    hide Halved;
    assert Halvings(f, c, 0) == c;
    assert Halvings(f, c, 1) == Halved(f, c, 0);
    assert Halvings(f, c, 2) == Halved(f, Halved(f, c, 0), 1);
  }

  /** The root leaves its cell, by one unit, exactly when the last bracket is the cell's last eighth
      with the values -1 and 0 at its ends. */
  lemma {:induction false} LeavesCell(f: int -> value, xlo: int, ylo: value, xhi: int, yhi: value)
    requires Bracket(ylo, yhi)
    ensures var c := LastPart(f, xlo, ylo, xhi, yhi);
            Located(f, xlo, ylo, xhi, yhi) > 0 <==> c.ffrac == -32 && c.ylo == -1 && c.yhi == 0
  {
    hide Interpolation, LastPart;
  }

  /** Three halvings of a bracket, then interpolation. */
  method Bisect(f: int -> value, xlo: int, ylo: value, xhi: int, yhi: value) returns (ffrac: int)
    requires Bracket(ylo, yhi)
    ensures ffrac == Located(f, xlo, ylo, xhi, yhi)
  {
    hide Interpolation;
    var xloL, yloL, xhiL, yhiL := xlo, ylo, xhi, yhi;
    ffrac := -256;
    ghost var c := Part(xlo, ylo, xhi, yhi, -256);
    for m := 0 to STEPS
      invariant Part(xloL, yloL, xhiL, yhiL, ffrac) == Halvings(f, c, m)
    {
      var xmid := RshiftRound1(xloL + xhiL);
      var ymid := f(xmid);
      if (yloL <= 0 && ymid >= 0) || (yloL >= 0 && ymid <= 0) {
        xhiL, yhiL := xmid, ymid;
      } else {
        xloL, yloL := xmid, ymid;
        ffrac := ffrac + Eighth(m);
      }
    }
    ffrac := ffrac + Interpolation(yloL, yhiL);
  }

  // -------------------------------------------------------- one pass, by cells

  /** The polynomials by restart count and parity of the root, and the grid. */
  datatype Grid = Grid(poly: Poly, cosTab: seq<int>) {
    ghost predicate Valid() {
      |cosTab| == CELLS + 1
    }

    /** The polynomial that root i is looked for in. */
    function F(pass: nat, i: nat): int -> value {
      x => poly(pass, i % 2 == 1, x)
    }

    function At(pass: nat, i: nat, k: nat): value
      requires Valid() && k <= CELLS
    {
      poly(pass, i % 2 == 1, cosTab[k])
    }

    /** Root 0 is put at zero unsearched when P starts out negative. */
    function First(pass: nat): (i: nat)
      requires Valid()
      ensures i <= 1
    {
      if At(pass, 0, 0) < 0 then 1 else 0
    }

    /** Value at the cell's start: read, or right after a root in the same cell assumed by the sign
        that the root's number implies. */
    function Lower(pass: nat, i: nat, k: nat, after: bool): value
      requires Valid() && 1 <= k <= CELLS
    {
      if after then (1 - (i / 2 % 2) * 2) * 4096 else At(pass, i, k - 1)
    }

    /** How far past zero the cell's end has to be: one right after a root on that end. */
    function Guard(pass: nat, i: nat, k: nat, after: bool): (g: int)
      requires Valid() && 1 <= k <= CELLS && (after ==> i >= 1)
      ensures 0 <= g <= 1
    {
      if after && At(pass, i - 1, k) == 0 then 1 else 0
    }

    predicate Crosses(pass: nat, i: nat, k: nat, after: bool)
      requires Valid() && 1 <= k <= CELLS && (after ==> i >= 1)
    {
      var lo, hi, g := Lower(pass, i, k, after), At(pass, i, k), Guard(pass, i, k, after);
      (lo <= 0 && hi >= g) || (lo >= 0 && hi <= -g)
    }

    /** The first cell from `from` on that root i's polynomial crosses; 129 if there is none. */
    ghost function FirstCell(pass: nat, i: nat, from: nat, after: bool): (k: nat)
      requires Valid() && from >= 1 && (after ==> i >= 1)
      ensures k <= CELLS ==> from <= k && Crosses(pass, i, k, after && k == from)
      ensures k <= CELLS + 1 || k == from
      ensures k > CELLS ==> k == if from > CELLS then from else CELLS + 1
      decreases CELLS + 1 - from
    {
      if from > CELLS then from
      else if Crosses(pass, i, from, after) then from
      else FirstCell(pass, i, from + 1, false)
    }

    /** Before it there is none: the cells in between are not crossed. */
    lemma {:induction false} FirstIsFirst(pass: nat, i: nat, from: nat, after: bool, k: nat)
      requires Valid() && from >= 1 && (after ==> i >= 1) && from <= k < FirstCell(pass, i, from, after) && k <= CELLS
      ensures !Crosses(pass, i, k, after && k == from)
      decreases CELLS + 1 - from
    {
      hide Crosses;
      if k > from {
        FirstIsFirst(pass, i, from + 1, false, k);
      }
    }

    /** A cell is crossed when its ends change sign, weakly, or by at least one at its end when that was the
        root before; its start counts as positive or negative by turns of two roots when that root lies in
        it. */
    lemma {:induction false} CrossedWhen(pass: nat, i: nat, k: nat)
      requires Valid() && 1 <= k <= CELLS
      ensures var lo, hi := poly(pass, i % 2 == 1, cosTab[k - 1]), poly(pass, i % 2 == 1, cosTab[k]);
              Crosses(pass, i, k, false) <==> (lo <= 0 <= hi) || (hi <= 0 <= lo)
      ensures i >= 1 ==>
                var hi, root := poly(pass, i % 2 == 1, cosTab[k]), poly(pass, i % 2 == 0, cosTab[k]) == 0;
                Crosses(pass, i, k, true) <==>
                  if i % 4 < 2 then (if root then hi < 0 else hi <= 0) else (if root then hi > 0 else hi >= 0)
    {
      if i >= 1 {
        AfterRoot(pass, i, k);
      }
    }

    lemma {:induction false} AfterRoot(pass: nat, i: nat, k: nat)
      requires Valid() && 1 <= k <= CELLS && i >= 1
      ensures Lower(pass, i, k, true) == if i % 4 < 2 then 4096 else -4096
      ensures Guard(pass, i, k, true) == if poly(pass, i % 2 == 0, cosTab[k]) == 0 then 1 else 0
    {
      assert ((i - 1) % 2 == 1) == (i % 2 == 0);
      assert i / 2 % 2 == if i % 4 < 2 then 0 else 1;
    }

    /** Where root i lies: the first cell, from that of the root before it on, that its polynomial
        crosses. */
    ghost function CellOf(pass: nat, i: nat): (k: nat)
      requires Valid() && i >= First(pass)
      ensures 1 <= k <= CELLS + 1
    {
      if i == First(pass) then FirstCell(pass, i, 1, false)
      else if CellOf(pass, i - 1) > CELLS then CELLS + 1
      else FirstCell(pass, i, CellOf(pass, i - 1), true)
    }

    /** Whether root i shares the cell of the root before it. */
    ghost predicate Shares(pass: nat, i: nat)
      requires Valid() && i >= First(pass)
    {
      i > First(pass) && CellOf(pass, i) == CellOf(pass, i - 1)
    }

    lemma {:induction false} CellCrosses(pass: nat, i: nat)
      requires Valid() && i >= First(pass) && CellOf(pass, i) <= CELLS
      ensures Crosses(pass, i, CellOf(pass, i), Shares(pass, i))
      ensures Bracket(Lower(pass, i, CellOf(pass, i), Shares(pass, i)), At(pass, i, CellOf(pass, i)))
      ensures i > First(pass) ==> CellOf(pass, i - 1) <= CellOf(pass, i)
    {
      hide Crosses, FirstCell;
      CrossesBracket(pass, i, CellOf(pass, i), Shares(pass, i));
    }

    lemma {:induction false} CrossesBracket(pass: nat, i: nat, k: nat, after: bool)
      requires Valid() && 1 <= k <= CELLS && (after ==> i >= 1)
      ensures Crosses(pass, i, k, after) ==> Bracket(Lower(pass, i, k, after), At(pass, i, k))
    {
    }

    /** The bracket of root i in its cell, and its place there. */
    ghost function Place(pass: nat, i: nat): (x: int)
      requires Valid() && i >= First(pass) && CellOf(pass, i) <= CELLS
      ensures -256 <= x <= 1
    {
      CellCrosses(pass, i);
      var k := CellOf(pass, i);
      Located(F(pass, i), cosTab[k - 1], Lower(pass, i, k, Shares(pass, i)), cosTab[k], At(pass, i, k))
    }

    ghost function RootValue(pass: nat, i: nat): int
      requires Valid() && (i >= First(pass) ==> CellOf(pass, i) <= CELLS)
    {
      if i < First(pass) then 0 else Min(256 * CellOf(pass, i) + Place(pass, i), TOP)
    }

    /** All d roots are found in this pass. */
    ghost predicate Complete(pass: nat, d: nat)
      requires Valid()
    {
      d >= 2 && CellOf(pass, d - 1) <= CELLS
    }

    lemma {:induction false} CellsClimb(pass: nat, i: nat, j: nat)
      requires Valid() && First(pass) <= i <= j && CellOf(pass, j) <= CELLS
      ensures CellOf(pass, i) <= CellOf(pass, j)
      decreases j
    {
      hide Crosses, FirstCell;
      if i < j {
        CellCrosses(pass, j);
        CellsClimb(pass, i, j - 1);
      }
    }

    /** A pass that loses one root loses all later ones. */
    lemma {:induction false} LostForGood(pass: nat, i: nat, j: nat)
      requires Valid() && First(pass) <= i <= j && CellOf(pass, i) > CELLS
      ensures CellOf(pass, j) > CELLS
      decreases j
    {
      hide FirstCell;
      if i < j {
        LostForGood(pass, i, j - 1);
      }
    }
  }

  /** Found roots fit 15 bits and come out of order by at most one grid cell and a unit. */
  ghost predicate Ordered(nlsf: seq<int>) {
    && (forall i :: 0 <= i < |nlsf| ==> 0 <= nlsf[i] <= TOP)
    && (forall i, j :: 0 <= i < j < |nlsf| ==> nlsf[i] <= nlsf[j] + 257)
  }

  ghost predicate RootsOf(g: Grid, pass: nat, nlsf: seq<int>, n: nat)
    requires g.Valid() && n <= |nlsf|
  {
    forall i :: 0 <= i < n ==> (i >= g.First(pass) ==> g.CellOf(pass, i) <= CELLS) && nlsf[i] == g.RootValue(pass, i)
  }

  lemma {:induction false} RootBounds(g: Grid, pass: nat, i: nat)
    requires g.Valid() && (i >= g.First(pass) ==> g.CellOf(pass, i) <= CELLS)
    ensures 0 <= g.RootValue(pass, i) <= TOP
    ensures i >= g.First(pass) ==>
              256 * (g.CellOf(pass, i) - 1) <= g.RootValue(pass, i) <= 256 * g.CellOf(pass, i) + 1
  {
    hide Grid.CellOf, Grid.Place;
  }

  /** A root beyond the end of its cell is one unit beyond, from the last bracket (-1, 0). */
  lemma {:induction false} RootBeyondCell(g: Grid, pass: nat, i: nat)
    requires g.Valid() && i >= g.First(pass) && g.CellOf(pass, i) <= CELLS
    ensures var k := g.CellOf(pass, i);
            g.RootValue(pass, i) > 256 * k <==>
              var lo := g.Lower(pass, i, k, g.Shares(pass, i));
              && k < CELLS && Bracket(lo, g.At(pass, i, k))
              && var c := LastPart(g.F(pass, i), g.cosTab[k - 1], lo, g.cosTab[k], g.At(pass, i, k));
                 c.ffrac == -32 && c.ylo == -1 && c.yhi == 0
  {
    hide LastPart, Grid.CellOf, Grid.Crosses, Grid.Lower;
    g.CellCrosses(pass, i);
    var k := g.CellOf(pass, i);
    LeavesCell(g.F(pass, i), g.cosTab[k - 1], g.Lower(pass, i, k, g.Shares(pass, i)), g.cosTab[k], g.At(pass, i, k));
  }

  lemma {:induction false} RootsOrdered(g: Grid, pass: nat, nlsf: seq<int>)
    requires g.Valid() && RootsOf(g, pass, nlsf, |nlsf|)
    ensures Ordered(nlsf)
  {
    hide Grid.CellOf, Grid.RootValue;
    forall i | 0 <= i < |nlsf| ensures 0 <= nlsf[i] <= TOP {
      RootBounds(g, pass, i);
    }
    forall i, j | 0 <= i < j < |nlsf| ensures nlsf[i] <= nlsf[j] + 257 {
      RootBounds(g, pass, i);
      RootBounds(g, pass, j);
      if i < g.First(pass) {
        SkippedRoot(g, pass, i);
      } else {
        g.CellsClimb(pass, i, j);
      }
    }
  }

  lemma {:induction false} SkippedRoot(g: Grid, pass: nat, i: nat)
    requires g.Valid() && i < g.First(pass)
    ensures g.RootValue(pass, i) == 0
  {
  }

  // -------------------------------------------------------------- the search

  /** Start of a pass over the grid: whether P is already negative at its first point. */
  method StartPass(g: Grid, pass: nat, nlsf: array<int>) returns (ylo: value, useQ: bool, rootIx: nat)
    requires g.Valid() && nlsf.Length >= 2
    modifies nlsf
    ensures rootIx == g.First(pass) && useQ == (rootIx % 2 == 1) && ylo == g.At(pass, rootIx, 0)
    ensures RootsOf(g, pass, nlsf[..], rootIx)
  {
    ylo, useQ, rootIx := g.poly(pass, false, g.cosTab[0]), false, 0;
    if ylo < 0 {
      nlsf[0] := 0;
      useQ := true;
      ylo := g.poly(pass, true, g.cosTab[0]);
      rootIx := 1;
    }
  }

  /** The even spacing used when no pass finds all roots. */
  method Spread(nlsf: array<int>)
    requires nlsf.Length >= 2
    modifies nlsf
    ensures forall i :: 0 <= i < nlsf.Length ==> nlsf[i] == (i + 1) * (32768 / (nlsf.Length + 1))
  {
    var d := nlsf.Length;
    nlsf[0] := Quot(32768, d + 1);
    for kk := 1 to d
      invariant forall i :: 0 <= i < kk ==> nlsf[i] == (i + 1) * (32768 / (d + 1))
    {
      nlsf[kk] := nlsf[kk - 1] + nlsf[0];
    }
  }

  /** Where the search of one pass stands: the value at the start of cell k and the guard are those of
      root i, which lies in the first cell from k on that its polynomial crosses. */
  ghost predicate Standing(g: Grid, pass: nat, i: nat, k: nat, after: bool, ylo: value, thr: int)
    requires g.Valid() && 1 <= k <= CELLS && i >= g.First(pass)
  {
    && (after ==> i > g.First(pass) && g.CellOf(pass, i - 1) == k)
    && (!after && i > g.First(pass) ==> g.CellOf(pass, i - 1) < k)
    && ylo == g.Lower(pass, i, k, after) && thr == g.Guard(pass, i, k, after)
    && g.CellOf(pass, i) == g.FirstCell(pass, i, k, after)
  }

  lemma {:induction false} StandsAtStart(g: Grid, pass: nat)
    requires g.Valid()
    ensures var i := g.First(pass); Standing(g, pass, i, 1, false, g.At(pass, i, 0), 0)
  {
    hide Grid.FirstCell;
  }

  /** No crossing in cell k: on to the next. */
  lemma {:induction false} StandsNext(g: Grid, pass: nat, i: nat, k: nat, after: bool, ylo: value, thr: int)
    requires g.Valid() && 1 <= k <= CELLS && i >= g.First(pass) && Standing(g, pass, i, k, after, ylo, thr)
    requires !g.Crosses(pass, i, k, after)
    ensures k < CELLS ==> Standing(g, pass, i, k + 1, false, g.At(pass, i, k), 0)
    ensures k == CELLS ==> g.CellOf(pass, i) > CELLS
  {
    hide Grid.CellOf, Grid.Crosses;
  }

  /** Cell k is root i's; the next root is looked for from the same cell on. */
  lemma {:induction false} StandsAfter(g: Grid, pass: nat, i: nat, k: nat, after: bool, ylo: value, thr: int)
    requires g.Valid() && 1 <= k <= CELLS && i >= g.First(pass) && Standing(g, pass, i, k, after, ylo, thr)
    requires g.Crosses(pass, i, k, after)
    ensures g.CellOf(pass, i) == k && g.Shares(pass, i) == after && Bracket(ylo, g.At(pass, i, k))
    ensures g.RootValue(pass, i)
         == Min(256 * k + Located(g.F(pass, i), g.cosTab[k - 1], ylo, g.cosTab[k], g.At(pass, i, k)), TOP)
    ensures Standing(g, pass, i + 1, k, true, g.Lower(pass, i + 1, k, true), if g.At(pass, i, k) == 0 then 1 else 0)
  {
    hide Located, Grid.Crosses;
    g.CrossesBracket(pass, i, k, after);
  }

  /** silkA2NLSF. For every polynomial pair and every even order the search ends, within 17 (128 + d)
      steps; the grid index stays in 1 .. 128 and the root index below d, and nothing is divided by
      zero. It succeeds exactly when one of the 17 passes crosses the grid often enough; then it
      returns, of the first such pass, each root at its place in its cell. */
  method A2NLSF(g: Grid, d: nat) returns (nlsf: array<int>, found: bool, ghost pass: nat, ghost steps: nat)
    requires g.Valid() && d >= 2 && d % 2 == 0
    ensures fresh(nlsf) && nlsf.Length == d && steps <= 17 * (128 + d)
    ensures found <==> exists p :: 0 <= p <= 16 && g.Complete(p, d)
    ensures found ==> pass <= 16 && g.Complete(pass, d) && forall p :: 0 <= p < pass ==> !g.Complete(p, d)
    ensures found ==> RootsOf(g, pass, nlsf[..], d) && Ordered(nlsf[..])
    ensures !found ==> forall i :: 0 <= i < d ==> nlsf[i] == (i + 1) * (32768 / (d + 1))
  {
    hide Ordered, Min, RootsOf, Standing, Located, Grid.CellOf, Grid.FirstCell, Grid.Lower, Grid.Guard, Grid.Complete;
    hide Grid.RootValue;
    nlsf := new int[d](_ => 0);
    var iter: nat, k: nat, thr: int := 0, 1, 0;
    steps, pass := 0, 0;
    var ylo: value, useQ: bool, rootIx: nat := StartPass(g, iter, nlsf);
    StandsAtStart(g, iter);
    ghost var after := false;
    while true
      invariant 1 <= k <= CELLS && g.First(iter) <= rootIx < d && iter <= RESTARTS && useQ == (rootIx % 2 == 1)
      invariant Standing(g, iter, rootIx, k, after, ylo, thr) && (after ==> rootIx >= 1)
      invariant RootsOf(g, iter, nlsf[..], rootIx)
      invariant forall p :: 0 <= p < iter ==> !g.Complete(p, d)
      invariant steps <= iter * (CELLS + d) + (k - 1) + rootIx
      decreases RESTARTS - iter, CELLS - k + d - rootIx
    {
      steps := steps + 1;
      var yhi := g.poly(iter, useQ, g.cosTab[k]);
      CrossingTest(g, iter, rootIx, k, after, ylo, thr);
      if (ylo <= 0 && yhi >= thr) || (ylo >= 0 && yhi <= -thr) {
        StandsAfter(g, iter, rootIx, k, after, ylo, thr);
        thr := if yhi == 0 then 1 else 0;
        var ffrac := Bisect(g.F(iter, rootIx), g.cosTab[k - 1], ylo, g.cosTab[k], yhi);
        ghost var before := nlsf[..];
        nlsf[rootIx] := Min(k * 256 + ffrac, TOP);
        RootAdded(g, iter, before, nlsf[..], rootIx);
        rootIx, after := rootIx + 1, true;
        if rootIx >= d {
          AllFound(g, iter, nlsf[..], d);
          found, pass := true, iter;
          StepsBound(iter, d, steps, k, rootIx);
          return;
        }
        useQ := rootIx % 2 != 0;
        ylo := (1 - (rootIx / 2 % 2) * 2) * 4096;
        AssumedSign(g, iter, rootIx, k);
      } else {
        StandsNext(g, iter, rootIx, k, after, ylo, thr);
        k, ylo, thr, after := k + 1, yhi, 0, false;
        if k > CELLS {
          PassLost(g, iter, rootIx, d);
          iter := iter + 1;
          NextPass(iter, d, steps, rootIx);
          if iter > RESTARTS {
            Spread(nlsf);
            found := false;
            return;
          }
          ylo, useQ, rootIx := StartPass(g, iter, nlsf);
          StandsAtStart(g, iter);
          k := 1;
        }
      }
    }
  }

  /** The branch test is the crossing test. */
  lemma {:induction false} CrossingTest(g: Grid, pass: nat, i: nat, k: nat, after: bool, ylo: value, thr: int)
    requires g.Valid() && 1 <= k <= CELLS && i >= g.First(pass) && Standing(g, pass, i, k, after, ylo, thr)
    ensures after ==> i >= 1
    ensures var yhi := g.At(pass, i, k);
            g.Crosses(pass, i, k, after) <==> (ylo <= 0 && yhi >= thr) || (ylo >= 0 && yhi <= -thr)
  {
    hide Grid.CellOf, Grid.FirstCell;
  }

  lemma {:induction false} AssumedSign(g: Grid, pass: nat, i: nat, k: nat)
    requires g.Valid() && 1 <= k <= CELLS
    ensures g.Lower(pass, i, k, true) == (1 - (i / 2 % 2) * 2) * 4096
  {
  }

  lemma {:induction false} RootAdded(g: Grid, pass: nat, before: seq<int>, after: seq<int>, n: nat)
    requires g.Valid() && n < |before| == |after| && RootsOf(g, pass, before, n)
    requires forall i :: 0 <= i < n ==> after[i] == before[i]
    requires (n >= g.First(pass) ==> g.CellOf(pass, n) <= CELLS) && after[n] == g.RootValue(pass, n)
    ensures RootsOf(g, pass, after, n + 1)
  {
    hide Grid.CellOf, Grid.RootValue;
  }

  lemma {:induction false} AllFound(g: Grid, pass: nat, nlsf: seq<int>, d: nat)
    requires g.Valid() && d == |nlsf| >= 2 && RootsOf(g, pass, nlsf, d)
    ensures g.Complete(pass, d) && Ordered(nlsf)
  {
    hide Ordered, Grid.CellOf, Grid.RootValue;
    RootsOrdered(g, pass, nlsf);
  }

  lemma {:induction false} PassLost(g: Grid, pass: nat, i: nat, d: nat)
    requires g.Valid() && g.First(pass) <= i < d && g.CellOf(pass, i) > CELLS
    ensures !g.Complete(pass, d)
  {
    hide Grid.CellOf;
    g.LostForGood(pass, i, d - 1);
  }

  lemma {:induction false} NextPass(iter: nat, d: nat, steps: nat, rootIx: nat)
    requires 1 <= iter <= RESTARTS + 1 && rootIx < d && steps <= (iter - 1) * (CELLS + d) + 128 + rootIx
    ensures steps <= iter * (CELLS + d) <= (RESTARTS + 1) * (CELLS + d)
  {
    assert iter * (CELLS + d) == (iter - 1) * (CELLS + d) + (CELLS + d);
    MulMono(iter, RESTARTS + 1, CELLS + d);
  }

  lemma {:induction false} StepsBound(iter: nat, d: nat, steps: nat, k: nat, rootIx: nat)
    requires iter <= RESTARTS && k <= CELLS && rootIx <= d && steps <= iter * (CELLS + d) + (k - 1) + rootIx
    ensures steps <= (RESTARTS + 1) * (CELLS + d)
  {
    MulMono(iter, RESTARTS, CELLS + d);
    assert (RESTARTS + 1) * (CELLS + d) == RESTARTS * (CELLS + d) + (CELLS + d);
  }
}
