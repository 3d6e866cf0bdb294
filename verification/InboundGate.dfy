/** The inbound media gate of a call, packet by packet: SSRC lock with failover, and the ring of
recent packets that drops relay copies (internal/voip/call/callmanager_media.go, lines 203-316). */
module InboundGate {
  import opened Words

  const RING := 512
  const FAILOVER_NS := 2_000_000_000

  type Key = u64

  function DedupKey(ssrc: u32, s: u16): Key { ssrc * 0x1_0000 + s }

  lemma {:induction false} KeyFixesPacket(a: u32, s: u16, b: u32, t: u16)
    requires DedupKey(a, s) == DedupKey(b, t)
    ensures a == b && s == t
  {
  }

  /** The last min(512, |h|) keys admitted. */
  ghost function Recent(h: seq<Key>): seq<Key> {
    if |h| <= RING then h else h[|h| - RING..]
  }

  ghost function Keys(s: seq<Key>): set<Key> { set k | k in s }

  ghost predicate Distinct(s: seq<Key>) {
    forall i, j :: 0 <= i < j < |s| ==> s[i] != s[j]
  }

  /** Where in the history ring slot s was written. */
  ghost function Written(n: nat, s: nat): int {
    if s < n % RING then n - n % RING + s else n - n % RING - RING + s
  }

  /** The ring holds the recent keys, the oldest at the write position once it is full. */
  ghost predicate RingOf(ring: seq<Key>, idx: nat, filled: bool, h: seq<Key>) {
    && |ring| == RING && idx == |h| % RING && (filled <==> |h| >= RING)
    && forall s :: 0 <= s < RING && Written(|h|, s) >= 0 ==> ring[s] == h[Written(|h|, s)]
  }

  lemma {:induction false} RingPush(ring: seq<Key>, idx: nat, filled: bool, h: seq<Key>, key: Key)
    requires RingOf(ring, idx, filled, h)
    ensures filled ==> ring[idx] == h[|h| - RING]
    ensures var i := idx + 1; RingOf(ring[idx := key], if i == RING then 0 else i, filled || i == RING, h + [key])
  {
    var n := |h|;
    assert n == n / RING * RING + n % RING;
    if filled {
      assert Written(n, idx) == n - RING;
    }
    var i := idx + 1;
    assert (n + 1) % RING == (if i == RING then 0 else i);
    var m := n + 1;
    forall s | 0 <= s < RING && Written(m, s) >= 0 ensures ring[idx := key][s] == (h + [key])[Written(m, s)] {
      if s == idx {
        assert Written(m, s) == n;
      } else {
        assert Written(m, s) == Written(n, s);
      }
    }
  }

  /** One more key: the oldest leaves once the window is full. */
  lemma {:induction false} RecentPush(h: seq<Key>, key: Key)
    requires Distinct(Recent(h)) && key !in Recent(h)
    ensures Distinct(Recent(h + [key]))
    ensures Keys(Recent(h + [key])) == (Keys(Recent(h)) - if |h| >= RING then {h[|h| - RING]} else {}) + {key}
  {
    var r, r' := Recent(h), Recent(h + [key]);
    if |h| >= RING {
      assert r' == r[1..] + [key] && r[0] == h[|h| - RING];
      forall k ensures k in r[1..] <==> k in r && k != r[0] {
        DropHead(r, k);
      }
    } else {
      assert r' == r + [key];
    }
    forall i, j | 0 <= i < j < |r'| ensures r'[i] != r'[j] {
      if j == |r'| - 1 {
        assert r'[i] in r;
      }
    }
  }

  lemma {:induction false} DropHead(r: seq<Key>, k: Key)
    requires Distinct(r) && r != []
    ensures k in r[1..] <==> k in r && k != r[0]
  {
    forall i | 1 <= i < |r| ensures r[i] in r[1..] {
      assert r[1..][i - 1] == r[i];
    }
    if k in r[1..] {
      var i :| 0 <= i < |r[1..]| && r[1..][i] == k;
      assert r[i + 1] == k;
    }
  }

  datatype Outcome = OwnStream | NotLocked | Duplicate | NotForUs | NotDecrypted | Handled

  class Gate {
    const selfSsrc: u32
    var lockedSsrc: u32
    var lockedLastNs: int
    var dedup: set<Key>
    var ring: array<Key>
    var idx: nat
    var filled: bool
    ghost var history: seq<Key>       // keys admitted, oldest first
    ghost var lastLocked: int         // when a packet of the locked stream last arrived

    ghost predicate Valid()
      reads this, ring
    {
      && ring.Length == RING && idx < RING && RingOf(ring[..], idx, filled, history)
      && dedup == Keys(Recent(history)) && Distinct(Recent(history))
      && (lockedSsrc != 0 ==> lastLocked == lockedLastNs && lockedSsrc != selfSsrc)
    }

    constructor (selfSsrc: u32)
      ensures Valid() && this.selfSsrc == selfSsrc && lockedSsrc == 0 && history == []
    {
      this.selfSsrc := selfSsrc;
      lockedSsrc, lockedLastNs, dedup, idx, filled := 0, 0, {}, 0, false;
      ring := new Key[RING](_ => 0);
      history, lastLocked := [], 0;
    }

    /** Relay copies: admits a key unless it is among the last 512 admitted. */
    method Admit(key: Key) returns (ok: bool)
      requires Valid()
      modifies this`dedup, this`idx, this`filled, this`history, ring
      ensures Valid()
      ensures ok <==> key !in Recent(old(history))
      ensures history == if ok then old(history) + [key] else old(history)
    {
      hide RingOf, Distinct, Recent;
      if key in dedup {
        return false;
      }
      assert key !in Recent(history);
      ghost var h := history;
      RingPush(ring[..], idx, filled, history, key);
      RecentPush(history, key);
      FullAt(ring[..], idx, filled, history);
      if filled {
        dedup := dedup - {ring[idx]};
      }
      ring[idx] := key;
      dedup := dedup + {key};
      history := history + [key];
      idx := idx + 1;
      if idx == RING {
        idx, filled := 0, true;
      }
      ok := true;
    }

    /** onRelayData for one RTP packet. `wanted`: not a declared own stream, and keys and a handler
        exist; `decrypts`: it unprotects to a non-empty payload. */
    method OnRtp(ssrc: u32, s: u16, nowNs: int, wanted: bool, decrypts: bool) returns (r: Outcome)
      requires Valid()
      modifies this, ring
      ensures Valid() && ring == old(ring)
      ensures r == OwnStream <==> ssrc == selfSsrc
      ensures r == NotLocked <==>
                && ssrc != selfSsrc && old(lockedSsrc) != 0 && ssrc != old(lockedSsrc)
                && nowNs - old(lastLocked) <= FAILOVER_NS
      ensures r != OwnStream && r != NotLocked ==> (r == Duplicate <==> DedupKey(ssrc, s) in Recent(old(history)))
      ensures r == Handled <==> r !in {OwnStream, NotLocked, Duplicate} && wanted && decrypts
      ensures r == NotForUs <==> r !in {OwnStream, NotLocked, Duplicate} && !wanted
      ensures r == Handled ==> lockedSsrc == ssrc && lastLocked == nowNs
      ensures r == Handled && old(lockedSsrc) != 0 && ssrc != old(lockedSsrc) ==> nowNs - old(lastLocked) > FAILOVER_NS
      ensures r != Handled ==> lockedSsrc == old(lockedSsrc)
      ensures old(lockedSsrc) != 0 && ssrc == old(lockedSsrc) && ssrc != selfSsrc ==> lastLocked == nowNs
      ensures old(lockedSsrc) != 0 && lockedSsrc == old(lockedSsrc) && ssrc != lockedSsrc ==>
                lastLocked == old(lastLocked)
      ensures history == if r in {OwnStream, NotLocked, Duplicate} then old(history)
                         else old(history) + [DedupKey(ssrc, s)]
    {
      hide RingOf, Distinct, Recent, DedupKey;
      if ssrc == selfSsrc {
        return OwnStream;
      }
      var failoverTry := false;
      if lockedSsrc != 0 && ssrc != lockedSsrc {
        if nowNs - lockedLastNs > FAILOVER_NS {
          failoverTry := true;
        } else {
          return NotLocked;
        }
      }
      if ssrc == lockedSsrc {
        lockedLastNs := nowNs;
        lastLocked := nowNs;
      }
      var ok := Admit(DedupKey(ssrc, s));
      if !ok {
        return Duplicate;
      }
      if !wanted {
        return NotForUs;
      }
      if !decrypts {
        return NotDecrypted;
      }
      if lockedSsrc == 0 || failoverTry {
        if lockedSsrc == 0 {
          lockedSsrc, lockedLastNs, lastLocked := ssrc, nowNs, nowNs;
        } else if failoverTry && ssrc != lockedSsrc && nowNs - lockedLastNs > FAILOVER_NS {
          lockedSsrc, lockedLastNs, lastLocked := ssrc, nowNs, nowNs;
        }
      }
      r := Handled;
    }

    /** The reset between calls. */
    method Reset()
      requires Valid()
      modifies this
      ensures Valid() && lockedSsrc == 0 && history == []
    {
      lockedSsrc, lockedLastNs, dedup, idx, filled := 0, 0, {}, 0, false;
      history := [];
    }
  }

  lemma {:induction false} FullAt(ring: seq<Key>, idx: nat, filled: bool, h: seq<Key>)
    requires RingOf(ring, idx, filled, h)
    ensures idx < RING <= |ring| && (filled <==> |h| >= RING)
  {
  }

  // --------------------------------------------------------------- whole runs

  datatype Rtp = Rtp(ssrc: u32, s: u16, now: int, wanted: bool, decrypts: bool)

  /** The last of the first n packets that carries this SSRC, or -1. */
  ghost function LastOf(ps: seq<Rtp>, n: nat, ssrc: u32): (j: int)
    requires n <= |ps|
    ensures -1 <= j < n && (j >= 0 ==> ps[j].ssrc == ssrc)
  {
    if n == 0 then -1 else if ps[n - 1].ssrc == ssrc then n - 1 else LastOf(ps, n - 1, ssrc)
  }

  /** The packet was new to the ring and went on. */
  predicate Admits(r: Outcome) { r !in {OwnStream, NotLocked, Duplicate} }

  /** The keys of the first n packets that were admitted. */
  ghost function Admitted(ps: seq<Rtp>, rs: seq<Outcome>, n: nat): seq<Key>
    requires n <= |ps| && n <= |rs|
  {
    if n == 0 then []
    else
      var before := Admitted(ps, rs, n - 1);
      if Admits(rs[n - 1]) then before + [DedupKey(ps[n - 1].ssrc, ps[n - 1].s)] else before
  }

  /** An earlier packet with the SSRC and sequence number of packet i was admitted, and fewer than
      512 others after it. */
  ghost predicate Repeated(ps: seq<Rtp>, rs: seq<Outcome>, i: nat)
    requires i < |ps| && i <= |rs|
  {
    exists j :: 0 <= j < i && TwinAt(ps, rs, i, j)
  }

  ghost predicate TwinAt(ps: seq<Rtp>, rs: seq<Outcome>, i: nat, j: nat)
    requires j < i < |ps| && i <= |rs|
  {
    && Admits(rs[j]) && ps[j].ssrc == ps[i].ssrc && ps[j].s == ps[i].s
    && |Admitted(ps, rs, i)| - |Admitted(ps, rs, j)| <= 512
  }

  /** Packet j's key stands where it was admitted. */
  lemma {:induction false} AdmittedAt(ps: seq<Rtp>, rs: seq<Outcome>, n: nat, j: nat)
    requires j < n <= |ps| && n <= |rs| && Admits(rs[j])
    ensures var m := |Admitted(ps, rs, j)|;
            m < |Admitted(ps, rs, n)| && Admitted(ps, rs, n)[m] == DedupKey(ps[j].ssrc, ps[j].s)
  {
    hide DedupKey, Admits;
    if j < n - 1 {
      AdmittedAt(ps, rs, n - 1, j);
    }
  }

  lemma {:induction false} OriginOf(ps: seq<Rtp>, rs: seq<Outcome>, n: nat, m: nat) returns (j: nat)
    requires n <= |ps| && n <= |rs| && m < |Admitted(ps, rs, n)|
    ensures j < n && Admits(rs[j]) && m == |Admitted(ps, rs, j)|
    ensures Admitted(ps, rs, n)[m] == DedupKey(ps[j].ssrc, ps[j].s)
  {
    hide DedupKey, Admits;
    if m < |Admitted(ps, rs, n - 1)| {
      j := OriginOf(ps, rs, n - 1, m);
    } else {
      j := n - 1;
    }
  }

  /** The ring knows a key exactly if its packet is a repetition. */
  lemma {:induction false} KnownIsRepeated(ps: seq<Rtp>, rs: seq<Outcome>, i: nat)
    requires i < |ps| && i <= |rs|
    ensures DedupKey(ps[i].ssrc, ps[i].s) in Recent(Admitted(ps, rs, i)) <==> Repeated(ps, rs, i)
  {
    hide DedupKey, Admits, Admitted;
    var h, key := Admitted(ps, rs, i), DedupKey(ps[i].ssrc, ps[i].s);
    var from := if |h| <= RING then 0 else |h| - RING;
    assert Recent(h) == h[from..];
    if key in Recent(h) {
      var k :| 0 <= k < |Recent(h)| && Recent(h)[k] == key;
      var j := OriginOf(ps, rs, i, from + k);
      KeyFixesPacket(ps[j].ssrc, ps[j].s, ps[i].ssrc, ps[i].s);
      assert TwinAt(ps, rs, i, j);
    }
    if Repeated(ps, rs, i) {
      var j :| 0 <= j < i && TwinAt(ps, rs, i, j);
      AdmittedAt(ps, rs, i, j);
      var m := |Admitted(ps, rs, j)|;
      assert Recent(h)[m - from] == key;
    }
  }

  lemma {:induction false} AdmittedPrefix(ps: seq<Rtp>, rs: seq<Outcome>, r: Outcome, n: nat)
    requires n <= |ps| && n <= |rs|
    ensures Admitted(ps, rs + [r], n) == Admitted(ps, rs, n)
  {
    hide DedupKey, Admits;
    if n > 0 {
      AdmittedPrefix(ps, rs, r, n - 1);
    }
  }

  lemma {:induction false} RepeatedPrefix(ps: seq<Rtp>, rs: seq<Outcome>, r: Outcome, i: nat)
    requires i < |ps| && i <= |rs|
    ensures Repeated(ps, rs + [r], i) == Repeated(ps, rs, i)
  {
    hide Admitted, Admits;
    AdmittedPrefix(ps, rs, r, i);
    forall j | 0 <= j < i ensures TwinAt(ps, rs + [r], i, j) == TwinAt(ps, rs, i, j) {
      AdmittedPrefix(ps, rs, r, j);
    }
  }

  /** What packet i does when `lock` is the locked SSRC before it and `next` after it. */
  ghost predicate Judged(ps: seq<Rtp>, rs: seq<Outcome>, i: nat, selfSsrc: u32, lock: u32, next: u32)
    requires i < |ps| && i < |rs|
  {
    var p, r, last := ps[i], rs[i], LastOf(ps, i, lock);
    && next == (if r == Handled then p.ssrc else lock)
    && (lock != 0 ==> last >= 0)
    && (r == OwnStream <==> p.ssrc == selfSsrc)
    && (r == NotLocked <==> p.ssrc != selfSsrc && lock != 0 && p.ssrc != lock && p.now - ps[last].now <= 2_000_000_000)
    && (r == Duplicate <==> r != OwnStream && r != NotLocked && Repeated(ps, rs, i))
    && (r == NotForUs <==> Admits(r) && !p.wanted)
    && (r == Handled <==> Admits(r) && p.wanted && p.decrypts)
  }

  lemma {:induction false} JudgedPrefix(ps: seq<Rtp>, rs: seq<Outcome>, r: Outcome, i: nat, selfSsrc: u32, lock: u32,
                                        next: u32)
    requires i < |ps| && i < |rs| && Judged(ps, rs, i, selfSsrc, lock, next)
    ensures Judged(ps, rs + [r], i, selfSsrc, lock, next)
  {
    hide Repeated, Admits;
    RepeatedPrefix(ps, rs, r, i);
  }

  /** A run from a reset gate. Once an SSRC is locked, another one gets through only when more than
      2 s passed since the last packet of the locked stream, and becomes the lock when it is handled;
      of the packets let through, the ring drops exactly those that repeat one of the last 512
      admitted, and every other one that is wanted and decrypts is handled. */
  method Receive(gate: Gate, ps: seq<Rtp>) returns (rs: seq<Outcome>, ghost locks: seq<u32>)
    requires gate.Valid() && gate.lockedSsrc == 0 && gate.history == []
    modifies gate, gate.ring
    ensures gate.Valid() && |rs| == |ps| && |locks| == |ps| + 1 && locks[0] == 0
    ensures forall i :: 0 <= i < |ps| ==> Judged(ps, rs, i, gate.selfSsrc, locks[i], locks[i + 1])
  {
    hide RingOf, Distinct, Recent, Judged, Admitted;
    rs, locks := [], [gate.lockedSsrc];
    NoneAdmitted(ps);
    for i := 0 to |ps|
      invariant gate.Valid() && gate.ring == old(gate.ring) && |rs| == i && |locks| == i + 1
      invariant locks[0] == 0 && gate.lockedSsrc == locks[i] && gate.history == Admitted(ps, rs, i)
      invariant gate.lockedSsrc != 0 ==>
                  LastOf(ps, i, gate.lockedSsrc) >= 0 && gate.lastLocked == ps[LastOf(ps, i, gate.lockedSsrc)].now
      invariant forall j :: 0 <= j < i ==> Judged(ps, rs, j, gate.selfSsrc, locks[j], locks[j + 1])
    {
      var r;
      ghost var next;
      r, next := ReceiveOne(gate, ps, rs, i);
      forall j | 0 <= j < i ensures Judged(ps, rs + [r], j, gate.selfSsrc, locks[j], locks[j + 1]) {
        JudgedPrefix(ps, rs, r, j, gate.selfSsrc, locks[j], locks[j + 1]);
      }
      rs, locks := rs + [r], locks + [next];
    }
  }

  lemma {:induction false} NoneAdmitted(ps: seq<Rtp>)
    ensures Admitted(ps, [], 0) == []
  {
  }

  method ReceiveOne(gate: Gate, ps: seq<Rtp>, ghost rs: seq<Outcome>, i: nat) returns (r: Outcome, ghost next: u32)
    requires gate.Valid() && |rs| == i < |ps| && gate.history == Admitted(ps, rs, i)
    requires gate.lockedSsrc != 0 ==>
               LastOf(ps, i, gate.lockedSsrc) >= 0 && gate.lastLocked == ps[LastOf(ps, i, gate.lockedSsrc)].now
    modifies gate, gate.ring
    ensures gate.Valid() && gate.ring == old(gate.ring) && next == gate.lockedSsrc
    ensures gate.history == Admitted(ps, rs + [r], i + 1)
    ensures Judged(ps, rs + [r], i, gate.selfSsrc, old(gate.lockedSsrc), next)
    ensures next != 0 ==> LastOf(ps, i + 1, next) >= 0 && gate.lastLocked == ps[LastOf(ps, i + 1, next)].now
  {
    hide RingOf, Distinct, Recent, Repeated, DedupKey;
    var p := ps[i];
    KnownIsRepeated(ps, rs, i);
    r := gate.OnRtp(p.ssrc, p.s, p.now, p.wanted, p.decrypts);
    next := gate.lockedSsrc;
    RepeatedPrefix(ps, rs, r, i);
    AdmittedPrefix(ps, rs, r, i);
  }
}
