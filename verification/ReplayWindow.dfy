/** The 64-bit replay mask of SrtpContext against the set of accepted indices it stands for
(internal/voip/media/srtp.go, lines 195-227; section 3.3.2 of RFC 3711). */
module ReplayWindow {
  import opened Words
  import opened Helpers

  const SIZE := 64
  const FULL := 0x1_0000_0000_0000_0000

  // ------------------------------------------- 64-bit words, one bit at a time

  predicate BitAt(w: nat, k: nat) {
    if k == 0 then w % 2 == 1 else BitAt(w / 2, k - 1)
  }

  /** w | 1 << k */
  function SetBit(w: nat, k: nat): (r: nat)
    ensures r >= w
  {
    if k == 0 then w - w % 2 + 1 else 2 * SetBit(w / 2, k - 1) + w % 2
  }

  lemma {:induction false} WordSize()
    ensures Pow2(SIZE) == FULL
  {
    assert Pow2(8) == 0x100;
    assert Pow2(16) == 0x1_0000;
    assert Pow2(24) == 0x100_0000;
    assert Pow2(32) == 0x1_0000_0000;
    assert Pow2(40) == 0x100_0000_0000;
    assert Pow2(48) == 0x1_0000_0000_0000;
    assert Pow2(56) == 0x100_0000_0000_0000;
  }

  /** The low n bits of x. */
  function Keep(x: nat, n: nat): (r: nat)
    ensures r < Pow2(n)
  {
    if n == 0 then 0 else x % 2 + 2 * Keep(x / 2, n - 1)
  }

  /** w << d, losing what leaves the word. */
  function Shl(w: u64, d: nat): (r: u64) {
    WordSize();
    if d == 0 then w else Keep(2 * Shl(w, d - 1), SIZE)
  }

  lemma {:induction false} BitOfKept(x: nat, n: nat, k: nat)
    requires k < n
    ensures BitAt(Keep(x, n), k) == BitAt(x, k)
    decreases n
  {
    if k > 0 {
      BitOfKept(x / 2, n - 1, k - 1);
    }
  }

  lemma {:induction false} ShlBits(w: u64, d: nat, k: nat)
    requires k < SIZE
    ensures BitAt(Shl(w, d), k) <==> k >= d && BitAt(w, k - d)
    decreases d
  {
    if d > 0 {
      var v: nat := Shl(w, d - 1);
      BitOfKept(2 * v, SIZE, k);
      assert (2 * v) % 2 == 0 && (2 * v) / 2 == v;
      if k > 0 {
        ShlBits(w, d - 1, k - 1);
      }
    }
  }

  lemma {:induction false} Halves(s: nat, b: nat)
    requires b < 2
    ensures (2 * s + b) / 2 == s && (2 * s + b) % 2 == b
  {
  }

  lemma {:induction false} BitStep(w: nat, k: nat)
    ensures BitAt(w, k) == if k == 0 then w % 2 == 1 else BitAt(w / 2, k - 1)
  {
  }

  lemma {:induction false} SetBitStep(w: nat, j: nat)
    ensures SetBit(w, j) == if j == 0 then 2 * (w / 2) + 1 else 2 * SetBit(w / 2, j - 1) + w % 2
  {
  }

  lemma {:induction false} SetBitBits(w: nat, j: nat, k: nat)
    ensures BitAt(SetBit(w, j), k) <==> k == j || BitAt(w, k)
    decreases j
  {
    hide BitAt, SetBit;
    SetBitStep(w, j);
    BitStep(w, k);
    BitStep(SetBit(w, j), k);
    if j == 0 {
      Halves(w / 2, 1);
    } else {
      Halves(SetBit(w / 2, j - 1), w % 2);
      if k > 0 {
        SetBitBits(w / 2, j - 1, k - 1);
      }
    }
  }

  lemma {:induction false} SetBitFits(w: nat, j: nat, n: nat)
    requires j < n && w < Pow2(n)
    ensures SetBit(w, j) < Pow2(n)
    decreases j
  {
    if j > 0 {
      SetBitFits(w / 2, j - 1, n - 1);
    }
  }

  // -------------------------------------------------------------- the window

  /** What the three fields stand for: `highest` is the greatest accepted index, and bit k
      tells whether highest - k has been accepted. */
  ghost predicate Stands(seen: bool, highest: u64, window: u64, accepted: set<nat>) {
    && (seen <==> accepted != {})
    && (seen ==>
          && highest in accepted && (forall x :: x in accepted ==> x <= highest)
          && forall k :: 0 <= k < SIZE ==> (BitAt(window, k) <==> k <= highest && highest - k in accepted))
  }

  /** An index is fresh when it was not accepted and is fewer than 64 below all that were. */
  ghost predicate Fresh(accepted: set<nat>, index: nat) {
    index !in accepted && forall x :: x in accepted ==> x < index + SIZE
  }

  /** replayCheck: on every state it decides freshness exactly. */
  function ReplayCheck(seen: bool, highest: u64, window: u64, index: u64, ghost accepted: set<nat>): (ok: bool)
    requires Stands(seen, highest, window, accepted)
    ensures ok <==> Fresh(accepted, index)
  {
    if !seen || index > highest then true
    else
      var delta := highest - index;
      if delta >= SIZE then false
      else
        assert highest - delta == index;
        !BitAt(window, delta)
  }

  lemma {:induction false} Advanced(highest: u64, window: u64, index: u64, accepted: set<nat>)
    requires Stands(true, highest, window, accepted) && index > highest
    ensures var delta := index - highest;
            var w := if delta >= SIZE then 1 else SetBit(Shl(window, delta), 0);
            w < FULL && Stands(true, index, w, accepted + {index})
  {
    var delta := index - highest;
    var all := accepted + {index};
    var w := if delta >= SIZE then 1 else SetBit(Shl(window, delta), 0);
    WordSize();
    if delta < SIZE {
      SetBitFits(Shl(window, delta), 0, 64);
    }
    forall k | 0 <= k < SIZE ensures BitAt(w, k) <==> k <= index && index - k in all {
      if delta >= SIZE {
        OneBit(k);
      } else {
        SetBitBits(Shl(window, delta), 0, k);
        ShlBits(window, delta, k);
        if k >= delta {
          assert index - k == highest - (k - delta);
        }
      }
    }
  }

  lemma {:induction false} OneBit(k: nat)
    ensures BitAt(1, k) <==> k == 0
  {
    if k > 0 {
      ZeroBit(k - 1);
    }
  }

  lemma {:induction false} ZeroBit(k: nat)
    ensures !BitAt(0, k)
  {
    if k > 0 {
      ZeroBit(k - 1);
    }
  }

  lemma {:induction false} FilledIn(highest: u64, window: u64, index: u64, accepted: set<nat>)
    requires Stands(true, highest, window, accepted) && highest - SIZE < index <= highest
    ensures var w := SetBit(window, highest - index);
            w < FULL && Stands(true, highest, w, accepted + {index})
  {
    var j := highest - index;
    var all := accepted + {index};
    WordSize();
    SetBitFits(window, j, 64);
    forall k | 0 <= k < SIZE ensures BitAt(SetBit(window, j), k) <==> k <= highest && highest - k in all {
      SetBitBits(window, j, k);
      assert k == j <==> highest - k == index;
    }
  }

  lemma {:induction false} Started(index: u64)
    ensures Stands(true, index, 1, {index})
  {
    forall k | 0 <= k < SIZE ensures BitAt(1, k) <==> k <= index && index - k in {index} {
      OneBit(k);
    }
  }
}
