/** Agreement of an SRTP sender and receiver over whole runs with loss, reordering and
duplication (internal/voip/media/srtp.go lines 83-227, sections 3.3.1 and 3.3.2 of RFC 3711). */
module SrtpRuns {
  import opened Words
  import opened Helpers
  import opened Rtp
  import opened ReplayWindow
  import opened Srtp

  const INDICES := WRAP * ROCS

  // --------------------------------------------------------- index estimation

  /** x lies in the half-open window of 2^16 indices around h; which end is open depends on
      the half of the sequence space that h is in. */
  predicate Trackable(h: int, x: int) {
    if h % WRAP < 0x8000 then -0x8000 < x - h <= 0x8000 else -0x8000 <= x - h < 0x8000
  }

  lemma {:induction false} NearIsTrackable(h: int, x: int)
    requires -0x8000 < x - h < 0x8000
    ensures Trackable(h, x)
  {
  }

  /** The receiver's estimate is the sender's index exactly when that index is in the window
      around the highest one seen (in the 48-bit index space, which wraps). */
  lemma {:induction false} EstimateExact(ro: Rollover, x: u64)
    requires ro.initialized && x < INDICES
    ensures ro.EstimatedIndex(x % WRAP) == x <==>
              Trackable(ro.Head(), x) || Trackable(ro.Head(), x + INDICES) || Trackable(ro.Head(), x - INDICES)
  {
    var roc, q, s := ro.roc, x / WRAP, x % WRAP;
    assert x == q * WRAP + s && ro.Head() == roc * WRAP + ro.lastSeq;
    IndexParts(roc, ro.lastSeq);
    Window(roc, ro.lastSeq, q, s);
    Window(roc, ro.lastSeq, q + ROCS, s);
    Window(roc, ro.lastSeq, q - ROCS, s);
  }

  /** One window meets each residue class of sequence numbers in one rollover count. */
  lemma {:induction false} Window(roc: int, last: u16, q: int, s: u16)
    ensures Trackable(roc * WRAP + last, q * WRAP + s) <==>
              q == roc + if last < 0x8000 then (if s - last > 0x8000 then -1 else 0)
                         else (if last - s > 0x8000 then 1 else 0)
  {
    assert (roc * WRAP + last) % WRAP == last;
    var d := q - roc;
    assert q * WRAP + s - (roc * WRAP + last) == d * WRAP + s - last;
  }

  /** A fresh receiver places a packet right exactly when the sender has not rolled over. */
  lemma {:induction false} FirstExact(x: u64)
    ensures Rollover(0, 0, false).EstimatedIndex(x % WRAP) == x <==> x < WRAP
  {
  }

  /** commitRoc keeps the greatest index. */
  lemma {:induction false} CommitKeepsMax(ro: Rollover, x: u64)
    requires ro.initialized && x < INDICES && Trackable(ro.Head(), x)
    ensures var s := x % WRAP;
            ro.Committed(ro.Estimate(s), s).Head() == Max(ro.Head(), x) && ro.Committed(ro.Estimate(s), s).initialized
  {
    var roc, q, s := ro.roc, x / WRAP, x % WRAP;
    assert x == q * WRAP + s && ro.Head() == roc * WRAP + ro.lastSeq;
    Window(roc, ro.lastSeq, q, s);
  }

  // ------------------------------------------------------------------- sender

  /** A sender that jumps ahead counts right exactly when its sequence number did not wrap or it jumps by
      less than 2^15. */
  lemma {:induction false} JumpExact(h: nat, x: nat)
    requires h <= x < h + WRAP && x < INDICES
    ensures Rollover(h / WRAP, h % WRAP, true).Sent(x % WRAP).Head() == x <==> h / WRAP == x / WRAP || x - h < 0x8000
  {
    assert h == h / WRAP * WRAP + h % WRAP && x == x / WRAP * WRAP + x % WRAP;
    assert x / WRAP == h / WRAP || x / WRAP == h / WRAP + 1;
  }

  /** The sender after n consecutive packets, the first numbered s0. */
  ghost function SentAfter(s0: u16, n: nat): Rollover {
    if n == 0 then Rollover(0, 0, false) else SentAfter(s0, n - 1).Sent((s0 + n - 1) % WRAP)
  }

  /** The n-th packet goes out under index s0 + n: the counter never misses a wrap. */
  lemma {:induction false} SenderIndex(s0: u16, n: nat)
    requires s0 + n < INDICES
    ensures SentAfter(s0, n + 1) == Rollover((s0 + n) / WRAP, (s0 + n) % WRAP, true)
  {
    if n > 0 {
      SenderIndex(s0, n - 1);
      NextIndex(s0 + n - 1);
    }
  }

  lemma {:induction false} NextIndex(x: nat)
    requires x + 1 < INDICES
    ensures Rollover(x / WRAP, x % WRAP, true).Sent((x + 1) % WRAP) == Rollover((x + 1) / WRAP, (x + 1) % WRAP, true)
  {
    if x % WRAP == WRAP - 1 {
      assert (x + 1) / WRAP == x / WRAP + 1 && (x + 1) % WRAP == 0;
    } else {
      assert (x + 1) / WRAP == x / WRAP && (x + 1) % WRAP == x % WRAP + 1;
    }
  }

  lemma {:induction false} SenderHead(s0: u16, n: nat)
    requires s0 + n < INDICES
    ensures SentAfter(s0, n).Sent((s0 + n) % WRAP) == SentAfter(s0, n + 1)
    ensures SentAfter(s0, n + 1).Head() == s0 + n
  {
    SenderIndex(s0, n);
  }

  lemma {:induction false} WrapStep(x: nat)
    ensures (x % WRAP + 1) % WRAP == (x + 1) % WRAP
  {
  }

  // --------------------------------------------------------------- one packet

  /** A receiver that places a genuine packet right returns it, unless its index is stale. */
  lemma {:induction false} GenuinePacket(keys: Keys, r: Receiver, p: Packet, x: u64)
    requires keys.Valid() && p.header.WellFormed() && p.payload != [] && x < INDICES
    requires p.header.sequenceNumber == x % WRAP && r.ro.EstimatedIndex(x % WRAP) == x
    ensures Verdict(keys, r, Wire(keys, p, x)) == if Fresh(r.accepted, x) then Ok(p) else Err(Replay)
  {
    hide HeaderBytes, Crypt, ParseHeader, Fresh, AuthBytes, Rollover.Estimate, Wire, Header.WellFormed;
    WireLayout(keys, p, x);
    IndexParts(r.ro.Estimate(x % WRAP), x % WRAP);
    CryptUndone(keys, p.header.ssrc, x, p.payload);
  }

  /** Header, ciphertext and tag, where the receiver looks for them. */
  lemma {:induction false} WireLayout(keys: Keys, p: Packet, x: u64)
    requires keys.Valid() && p.header.WellFormed() && p.payload != [] && x < INDICES
    ensures var data, body := Wire(keys, p, x), |Wire(keys, p, x)| - keys.tagLen;
            && ParseHeader(data) == Ok(p.header) && MIN_HEADER <= p.header.Size() < body
            && data[body..] == keys.mac(data[..body], x / WRAP)
            && data[p.header.Size()..body] == Crypt(keys, p.header.ssrc, x, p.payload)
  {
    hide HeaderBytes, Crypt, ParseHeader, Header.WellFormed;
    var h, auth := p.header, AuthBytes(keys, p, x);
    var head, cipher, tag := HeaderBytes(h), Crypt(keys, h.ssrc, x, p.payload), keys.mac(auth, x / WRAP);
    HeaderLength(h);
    assert Wire(keys, p, x) == head + (cipher + tag);
    HeaderRoundTrip(h, cipher + tag);
    Cuts(head, cipher, tag);
  }

  /** A packet whose tag was tampered with is refused and changes nothing, so the genuine one is still
      accepted behind it. */
  lemma {:induction false} TamperedTag(keys: Keys, r: Receiver, p: Packet, x: u64, tag: seq<byte>)
    requires keys.Valid() && p.header.WellFormed() && p.payload != [] && x < INDICES
    requires p.header.sequenceNumber == x % WRAP && r.ro.EstimatedIndex(x % WRAP) == x && Fresh(r.accepted, x)
    requires |tag| == keys.tagLen && tag != keys.mac(AuthBytes(keys, p, x), x / WRAP)
    ensures var forged := AuthBytes(keys, p, x) + tag;
            && Verdict(keys, r, forged) == Err(AuthFailed) && After(keys, r, forged) == r
            && Verdict(keys, After(keys, r, forged), Wire(keys, p, x)) == Ok(p)
  {
    hide HeaderBytes, Crypt, ParseHeader, Fresh, Rollover.Estimate, Wire, Header.WellFormed, Header.Size, Verdict;
    hide After;
    hide Word16;
    var h, cipher := p.header, Crypt(keys, p.header.ssrc, x, p.payload);
    var forged := AuthBytes(keys, p, x) + tag;
    HeaderLength(h);
    assert forged == HeaderBytes(h) + (cipher + tag);
    HeaderRoundTrip(h, cipher + tag);
    ParsedSequence(forged);
    Cuts(HeaderBytes(h), cipher, tag);
    AcceptedExactly(keys, r, forged);
    GenuinePacket(keys, r, p, x);
  }

  lemma {:induction false} HeaderLength(h: Header)
    requires h.WellFormed()
    ensures |HeaderBytes(h)| == h.Size() >= MIN_HEADER
  {
    hide FixedBytes, CsrcBytes, ExtensionBytes;
    ExtensionSize(h);
  }

  lemma {:induction false} Cuts(a: seq<byte>, b: seq<byte>, c: seq<byte>)
    ensures var s := a + b + c; s[..|a| + |b|] == a + b && s[|a| + |b|..] == c && s[|a|..|a| + |b|] == b
  {
  }

  // --------------------------------------------------------------- whole runs

  /** Consecutively numbered packets. */
  ghost predicate Numbered(s0: u16, sent: seq<Packet>) {
    forall n :: 0 <= n < |sent| ==>
      sent[n].header.WellFormed() && sent[n].payload != [] && sent[n].header.sequenceNumber == (s0 + n) % WRAP
  }

  /** A run: the packets sent, and the indices of those that arrive, in order of arrival. */
  ghost predicate Run(keys: Keys, s0: u16, sent: seq<Packet>, xs: seq<nat>) {
    && keys.Valid() && Numbered(s0, sent) && s0 + |sent| <= INDICES
    && forall j :: 0 <= j < |xs| ==> s0 <= xs[j] < s0 + |sent|
  }

  /** Greatest of the first j > 0 arrivals. */
  ghost function MaxOf(xs: seq<nat>, j: nat): nat
    requires 0 < j <= |xs|
  {
    if j == 1 then xs[0] else Max(MaxOf(xs, j - 1), xs[j - 1])
  }

  ghost predicate Among(xs: seq<nat>, j: nat, x: nat)
    requires j <= |xs|
  {
    exists i :: 0 <= i < j && xs[i] == x
  }

  /** An arrival a receiver can follow: the first before the sender's first rollover, each
      later one in the window around the greatest so far. */
  ghost predicate Reachable(xs: seq<nat>, j: nat)
    requires j < |xs|
  {
    if j == 0 then xs[0] < WRAP else Trackable(MaxOf(xs, j), xs[j])
  }

  ghost predicate InReach(xs: seq<nat>) {
    forall j :: 0 <= j < |xs| ==> Reachable(xs, j)
  }

  ghost function Sender(s0: u16, sent: seq<Packet>, x: nat): Packet
    requires s0 <= x < s0 + |sent|
  {
    sent[x - s0]
  }

  ghost function Arrival(keys: Keys, s0: u16, sent: seq<Packet>, xs: seq<nat>, j: nat): seq<byte>
    requires Run(keys, s0, sent, xs) && j < |xs|
  {
    Wire(keys, Sender(s0, sent, xs[j]), xs[j])
  }

  /** The receiver after j arrivals. */
  ghost function StateAt(keys: Keys, s0: u16, sent: seq<Packet>, xs: seq<nat>, j: nat): Receiver
    requires Run(keys, s0, sent, xs) && j <= |xs|
  {
    if j == 0 then Receiver(Rollover(0, 0, false), {})
    else After(keys, StateAt(keys, s0, sent, xs, j - 1), Arrival(keys, s0, sent, xs, j - 1))
  }

  /** A repeated arrival, or one at least 64 behind the greatest. */
  ghost predicate Stale(xs: seq<nat>, j: nat)
    requires j < |xs|
  {
    j > 0 && (Among(xs, j, xs[j]) || xs[j] + SIZE <= MaxOf(xs, j))
  }

  /** What arrival j should give: its packet, the first time, if fewer than 64 behind. */
  ghost function Expected(s0: u16, sent: seq<Packet>, xs: seq<nat>, j: nat): Result<Packet>
    requires j < |xs| && s0 <= xs[j] < s0 + |sent|
  {
    if Stale(xs, j) then Err(Replay) else Ok(Sender(s0, sent, xs[j]))
  }

  /** Accepted indices are arrivals, and only those at least 64 behind are missing. */
  ghost predicate Accounts(xs: seq<nat>, j: nat, accepted: set<nat>)
    requires 0 < j <= |xs|
  {
    && MaxOf(xs, j) in accepted
    && (forall x :: x in accepted ==> x <= MaxOf(xs, j) && Among(xs, j, x))
    && (forall i :: 0 <= i < j ==> xs[i] in accepted || xs[i] + SIZE <= MaxOf(xs, j))
  }

  ghost predicate Follows(xs: seq<nat>, j: nat, r: Receiver)
    requires j <= |xs|
  {
    if j == 0 then r == Receiver(Rollover(0, 0, false), {})
    else r.ro.initialized && r.ro.Head() == MaxOf(xs, j) && Accounts(xs, j, r.accepted)
  }

  lemma {:induction false} MaxIsGreatest(xs: seq<nat>, j: nat)
    requires 0 < j <= |xs|
    ensures forall i :: 0 <= i < j ==> xs[i] <= MaxOf(xs, j)
  {
    if j > 1 {
      MaxIsGreatest(xs, j - 1);
    }
  }

  /** The replay test of the receiver, said in terms of the arrivals. */
  lemma {:induction false} FreshMeansNew(xs: seq<nat>, j: nat, accepted: set<nat>)
    requires 0 < j < |xs| && Accounts(xs, j, accepted)
    ensures Fresh(accepted, xs[j]) <==> !Stale(xs, j)
  {
    var x := xs[j];
    if x in accepted {
      assert Among(xs, j, x);
    } else if Among(xs, j, x) {
      var i :| 0 <= i < j && xs[i] == x;
      assert xs[i] + SIZE <= MaxOf(xs, j);
    }
  }

  lemma {:induction false} PlacedRight(xs: seq<nat>, j: nat, r: Receiver)
    requires j < |xs| && Reachable(xs, j) && Follows(xs, j, r) && xs[j] < INDICES
    ensures r.ro.EstimatedIndex(xs[j] % WRAP) == xs[j]
  {
    if j == 0 {
      FirstExact(xs[0]);
    } else {
      EstimateExact(r.ro, xs[j]);
    }
  }

  lemma {:induction false} AccountsAccept(xs: seq<nat>, j: nat, accepted: set<nat>)
    requires 0 < j < |xs| && Accounts(xs, j, accepted)
    ensures Accounts(xs, j + 1, accepted + {xs[j]})
  {
    var all := accepted + {xs[j]};
    forall x | x in all ensures x <= MaxOf(xs, j + 1) && Among(xs, j + 1, x) {
      if x == xs[j] {
        assert Among(xs, j + 1, xs[j]);
      } else {
        assert Among(xs, j, x);
      }
    }
  }

  lemma {:induction false} AccountsReject(xs: seq<nat>, j: nat, accepted: set<nat>)
    requires 0 < j < |xs| && Accounts(xs, j, accepted) && Stale(xs, j)
    ensures MaxOf(xs, j + 1) == MaxOf(xs, j) && Accounts(xs, j + 1, accepted)
  {
    MaxIsGreatest(xs, j);
    forall x | x in accepted ensures Among(xs, j + 1, x) {
      assert Among(xs, j, x);
    }
    if Among(xs, j, xs[j]) {
      var i :| 0 <= i < j && xs[i] == xs[j];
    }
  }

  lemma {:induction false} FollowsAccept(xs: seq<nat>, j: nat, r: Receiver)
    requires j < |xs| && Reachable(xs, j) && Follows(xs, j, r) && xs[j] < INDICES
    ensures Follows(xs, j + 1, r.Accepting(xs[j] % WRAP))
  {
    PlacedRight(xs, j, r);
    if j > 0 {
      CommitKeepsMax(r.ro, xs[j]);
      AccountsAccept(xs, j, r.accepted);
    } else {
      assert Among(xs, 1, xs[0]);
    }
  }

  /** One arrival at a receiver that follows the run. */
  lemma {:induction false} ArrivalAgrees(keys: Keys, s0: u16, sent: seq<Packet>, xs: seq<nat>, j: nat, r: Receiver)
    requires Run(keys, s0, sent, xs) && j < |xs| && Reachable(xs, j) && Follows(xs, j, r)
    ensures Verdict(keys, r, Arrival(keys, s0, sent, xs, j)) == Expected(s0, sent, xs, j)
  {
    PlacedRight(xs, j, r);
    var p := Sender(s0, sent, xs[j]);
    assert p.header.WellFormed() && p.payload != [] && p.header.sequenceNumber == xs[j] % WRAP;
    GenuinePacket(keys, r, p, xs[j]);
    if j > 0 {
      FreshMeansNew(xs, j, r.accepted);
    }
  }

  lemma {:induction false} FollowsAfter(keys: Keys, s0: u16, sent: seq<Packet>, xs: seq<nat>, j: nat, r: Receiver)
    requires Run(keys, s0, sent, xs) && j < |xs| && Reachable(xs, j) && Follows(xs, j, r)
    ensures Follows(xs, j + 1, After(keys, r, Arrival(keys, s0, sent, xs, j)))
  {
    ArrivalAgrees(keys, s0, sent, xs, j, r);
    if Stale(xs, j) {
      AccountsReject(xs, j, r.accepted);
    } else {
      var p := Sender(s0, sent, xs[j]);
      assert p.header.sequenceNumber == xs[j] % WRAP;
      FollowsAccept(xs, j, r);
    }
  }

  lemma {:induction false} StartFollows(xs: seq<nat>)
    ensures Follows(xs, 0, Receiver(Rollover(0, 0, false), {}))
  {
  }

  /** Every state of a run in reach follows the arrivals, and every arrival gives what it
      should: the exact index is recovered, a packet is returned once, with its original header
      and payload, and one that has not arrived yet is refused only if 64 or more behind. */
  lemma {:induction false} RunAgrees(keys: Keys, s0: u16, sent: seq<Packet>, xs: seq<nat>, j: nat)
    requires Run(keys, s0, sent, xs) && InReach(xs) && j <= |xs|
    ensures Follows(xs, j, StateAt(keys, s0, sent, xs, j))
    ensures j < |xs| ==>
              Verdict(keys, StateAt(keys, s0, sent, xs, j), Arrival(keys, s0, sent, xs, j)) == Expected(s0, sent, xs, j)
  {
    hide Follows, Reachable, Verdict, Expected, Arrival, After, Rollover.Head;
    StartFollows(xs);
    if j > 0 {
      RunAgrees(keys, s0, sent, xs, j - 1);
      FollowsAfter(keys, s0, sent, xs, j - 1, StateAt(keys, s0, sent, xs, j - 1));
    }
    if j < |xs| {
      ArrivalAgrees(keys, s0, sent, xs, j, StateAt(keys, s0, sent, xs, j));
    }
  }

  /** Each arrival less than 2^15 from the greatest so far. */
  ghost predicate Near(xs: seq<nat>) {
    forall j :: 0 <= j < |xs| ==> if j == 0 then xs[0] < WRAP else -0x8000 < xs[j] - MaxOf(xs, j) < 0x8000
  }

  /** Staying less than 2^15 from the greatest index is enough for the receiver. */
  lemma {:induction false} NearRunAgrees(keys: Keys, s0: u16, sent: seq<Packet>, xs: seq<nat>, j: nat)
    requires Run(keys, s0, sent, xs) && Near(xs) && j < |xs|
    ensures InReach(xs)
    ensures Verdict(keys, StateAt(keys, s0, sent, xs, j), Arrival(keys, s0, sent, xs, j)) == Expected(s0, sent, xs, j)
  {
    hide Verdict, Expected, Arrival, Trackable, MaxOf;
    forall i | 0 <= i < |xs| ensures Reachable(xs, i) {
      if i > 0 {
        NearIsTrackable(MaxOf(xs, i), xs[i]);
      }
    }
    RunAgrees(keys, s0, sent, xs, j);
  }

  // ------------------------------------------------------ arbitrary datagrams

  ghost function AfterAll(keys: Keys, r: Receiver, datas: seq<seq<byte>>, n: nat): Receiver
    requires |keys.salt| == 14 && n <= |datas|
  {
    if n == 0 then r else After(keys, AfterAll(keys, r, datas, n - 1), datas[n - 1])
  }

  /** The index a receiver gives to an accepted datagram. */
  ghost function AcceptedIndex(keys: Keys, r: Receiver, datas: seq<seq<byte>>, n: nat): nat
    requires |keys.salt| == 14 && n < |datas| && Verdict(keys, AfterAll(keys, r, datas, n), datas[n]).Ok?
  {
    var before := AfterAll(keys, r, datas, n);
    before.ro.EstimatedIndex(Verdict(keys, before, datas[n]).value.header.sequenceNumber)
  }

  lemma {:induction false} AcceptedStays(keys: Keys, r: Receiver, datas: seq<seq<byte>>, m: nat, n: nat)
    requires |keys.salt| == 14 && m <= n <= |datas|
    ensures AfterAll(keys, r, datas, m).accepted <= AfterAll(keys, r, datas, n).accepted
  {
    if m < n {
      AcceptedStays(keys, r, datas, m, n - 1);
    }
  }

  /** Whatever arrives, forged or not, and whatever the MAC says, no index is accepted twice. */
  lemma {:induction false} NeverTwice(keys: Keys, r: Receiver, datas: seq<seq<byte>>, m: nat, n: nat)
    requires |keys.salt| == 14 && m < n < |datas|
    requires Verdict(keys, AfterAll(keys, r, datas, m), datas[m]).Ok?
    requires Verdict(keys, AfterAll(keys, r, datas, n), datas[n]).Ok?
    ensures AcceptedIndex(keys, r, datas, m) != AcceptedIndex(keys, r, datas, n)
  {
    AcceptedStays(keys, r, datas, m + 1, n);
    assert AcceptedIndex(keys, r, datas, m) in AfterAll(keys, r, datas, m + 1).accepted;
    OnlyFresh(keys, AfterAll(keys, r, datas, n), datas[n]);
  }

  /** The receiver returns a datagram only under an index it had not accepted. */
  lemma {:induction false} OnlyFresh(keys: Keys, r: Receiver, data: seq<byte>)
    requires |keys.salt| == 14 && Verdict(keys, r, data).Ok?
    ensures Fresh(r.accepted, r.ro.EstimatedIndex(Verdict(keys, r, data).value.header.sequenceNumber))
  {
  }

  // ------------------------------------------------------ the two ends together

  /** p carries the payload under index x, and w is p on the wire. */
  ghost predicate SentAs(keys: Keys, x: nat, payload: seq<byte>, p: Packet, w: seq<byte>) {
    && |keys.salt| == 14 && x < INDICES && p.header.WellFormed() && p.header.sequenceNumber == x % WRAP
    && p.payload == payload && w == Wire(keys, p, x)
  }

  method SendOne(sender: Context, source: Rtp.Session, payload: seq<byte>, samples: int, ghost x: u64)
    returns (p: Packet, wire: seq<byte>)
    requires sender.Valid() && source.payloadType < 128
    requires sender.Ro().Sent(source.sequenceNumber).Head() == x < INDICES && source.sequenceNumber == x % WRAP
    modifies source, sender
    ensures sender.Valid() && sender.Ro() == old(sender.Ro()).Sent(old(source.sequenceNumber))
    ensures source.sequenceNumber == (old(source.sequenceNumber) + 1) % WRAP
    ensures SentAs(sender.keys, x, payload, p, wire)
  {
    p := source.CreatePacketWithDuration(payload, samples, false);
    var w := sender.Protect(p);
    wire := w.value;
  }

  ghost predicate AllSent(keys: Keys, s0: u16, payloads: seq<seq<byte>>, sent: seq<Packet>, wires: seq<seq<byte>>) {
    && |sent| == |wires| <= |payloads|
    && forall n :: 0 <= n < |sent| ==> SentAs(keys, s0 + n, payloads[n], sent[n], wires[n])
  }

  lemma {:induction false} SentSnoc(keys: Keys, s0: u16, payloads: seq<seq<byte>>, sent: seq<Packet>,
                                    wires: seq<seq<byte>>, payload: seq<byte>, p: Packet, w: seq<byte>, x: nat)
    requires AllSent(keys, s0, payloads, sent, wires) && |sent| < |payloads| && x == s0 + |sent|
    requires payload == payloads[|sent|] && SentAs(keys, x, payload, p, w)
    ensures AllSent(keys, s0, payloads, sent + [p], wires + [w])
  {
  }

  /** The packet source and the sending context after n packets. */
  ghost predicate InStep(s0: u16, n: nat, next: u16, ro: Rollover) {
    next == (s0 + n) % WRAP && ro == SentAfter(s0, n)
  }

  lemma {:induction false} InStepNext(s0: u16, n: nat, next: u16, ro: Rollover)
    requires InStep(s0, n, next, ro) && s0 + n < INDICES
    ensures ro.Sent(next).Head() == s0 + n && next == (s0 + n) % WRAP
    ensures InStep(s0, n + 1, (next + 1) % WRAP, ro.Sent(next))
  {
    SenderHead(s0, n);
    WrapStep(s0 + n);
  }

  lemma {:induction false} StartSending(keys: Keys, s0: u16, payloads: seq<seq<byte>>)
    ensures AllSent(keys, s0, payloads, [], []) && InStep(s0, 0, s0, Rollover(0, 0, false))
  {
  }

  /** The packets that one session numbers from s0 on, as protected by one context. */
  method SendAll(keys: Keys, source: Rtp.Session, payloads: seq<seq<byte>>, samples: int)
    returns (sent: seq<Packet>, wires: seq<seq<byte>>)
    requires keys.Valid() && source.payloadType < 128 && source.sequenceNumber + |payloads| <= INDICES
    modifies source
    ensures |sent| == |payloads| && AllSent(keys, old(source.sequenceNumber), payloads, sent, wires)
  {
    hide AllSent, SentAs, InStep, Stands;
    var sender := new Context(keys);
    ghost var s0 := source.sequenceNumber;
    sent, wires := [], [];
    StartSending(keys, s0, payloads);
    for n := 0 to |payloads|
      invariant sender.Valid() && sender.keys == keys && fresh(sender)
      invariant |sent| == n && AllSent(keys, s0, payloads, sent, wires)
      invariant InStep(s0, n, source.sequenceNumber, sender.Ro())
    {
      InStepNext(s0, n, source.sequenceNumber, sender.Ro());
      ghost var x := s0 + n;
      var payload := payloads[n];
      var p, w := SendOne(sender, source, payload, samples, x);
      SentSnoc(keys, s0, payloads, sent, wires, payload, p, w, x);
      sent, wires := sent + [p], wires + [w];
    }
  }

  lemma {:induction false} SentInFull(keys: Keys, s0: u16, payloads: seq<seq<byte>>, sent: seq<Packet>,
                                      wires: seq<seq<byte>>)
    requires |sent| == |payloads| && AllSent(keys, s0, payloads, sent, wires)
    requires forall n :: 0 <= n < |payloads| ==> payloads[n] != []
    ensures Numbered(s0, sent)
    ensures forall n :: 0 <= n < |sent| ==> sent[n].payload == payloads[n]
  {
    forall n | 0 <= n < |sent|
      ensures sent[n].header.WellFormed() && sent[n].payload == payloads[n] != []
      ensures sent[n].header.sequenceNumber == (s0 + n) % WRAP
    {
      assert SentAs(keys, s0 + n, payloads[n], sent[n], wires[n]);
    }
  }

  /** Each answer so far is the one its arrival should give. */
  ghost predicate AsExpected(s0: u16, sent: seq<Packet>, xs: seq<nat>, got: seq<Result<Packet>>) {
    && |got| <= |xs|
    && forall j :: 0 <= j < |got| ==> s0 <= xs[j] < s0 + |sent| && got[j] == Expected(s0, sent, xs, j)
  }

  lemma {:induction false} ExpectedSnoc(s0: u16, sent: seq<Packet>, xs: seq<nat>, got: seq<Result<Packet>>,
                                        one: Result<Packet>)
    requires AsExpected(s0, sent, xs, got) && |got| < |xs| && s0 <= xs[|got|] < s0 + |sent|
    requires one == Expected(s0, sent, xs, |got|)
    ensures AsExpected(s0, sent, xs, got + [one])
  {
  }

  /** A whole call: the packets of a session, protected by one context, reach another context
      in any order, with any of them lost or repeated, within the receiver's reach. */
  method Exchange(keys: Keys, source: Rtp.Session, payloads: seq<seq<byte>>, samples: int, xs: seq<nat>)
    returns (sent: seq<Packet>, got: seq<Result<Packet>>)
    requires keys.Valid() && source.payloadType < 128 && source.sequenceNumber + |payloads| <= INDICES
    requires forall n :: 0 <= n < |payloads| ==> payloads[n] != []
    requires InReach(xs)
    requires forall j :: 0 <= j < |xs| ==> source.sequenceNumber <= xs[j] < source.sequenceNumber + |payloads|
    modifies source
    ensures |sent| == |payloads| && forall n :: 0 <= n < |sent| ==> sent[n].payload == payloads[n]
    ensures |got| == |xs| && AsExpected(old(source.sequenceNumber), sent, xs, got)
  {
    var s0 := source.sequenceNumber;
    var wires;
    sent, wires := SendAll(keys, source, payloads, samples);
    SentInFull(keys, s0, payloads, sent, wires);
    got := ReceiveAll(keys, s0, payloads, sent, wires, xs);
  }

  method ReceiveOne(receiver: Context, ghost s0: u16, ghost sent: seq<Packet>, wire: seq<byte>, ghost xs: seq<nat>,
                    ghost j: nat)
    returns (one: Result<Packet>)
    requires receiver.Valid() && Run(receiver.keys, s0, sent, xs) && InReach(xs) && j < |xs|
    requires receiver.Abs() == StateAt(receiver.keys, s0, sent, xs, j)
    requires wire == Arrival(receiver.keys, s0, sent, xs, j)
    modifies receiver
    ensures receiver.Valid() && receiver.Abs() == StateAt(receiver.keys, s0, sent, xs, j + 1)
    ensures one == Expected(s0, sent, xs, j)
  {
    RunAgrees(receiver.keys, s0, sent, xs, j);
    one := receiver.Unprotect(wire);
  }

  lemma {:induction false} ArrivesAsSent(keys: Keys, s0: u16, payloads: seq<seq<byte>>, sent: seq<Packet>,
                                         wires: seq<seq<byte>>, xs: seq<nat>, j: nat)
    requires Run(keys, s0, sent, xs) && j < |xs| && AllSent(keys, s0, payloads, sent, wires)
    ensures wires[xs[j] - s0] == Arrival(keys, s0, sent, xs, j)
  {
    var n := xs[j] - s0;
    assert SentAs(keys, s0 + n, payloads[n], sent[n], wires[n]);
  }

  method ReceiveAll(keys: Keys, s0: u16, ghost payloads: seq<seq<byte>>, ghost sent: seq<Packet>,
                    wires: seq<seq<byte>>, xs: seq<nat>)
    returns (got: seq<Result<Packet>>)
    requires Run(keys, s0, sent, xs) && InReach(xs) && AllSent(keys, s0, payloads, sent, wires)
    ensures |got| == |xs| && AsExpected(s0, sent, xs, got)
  {
    hide InReach, Arrival, After, Expected, SentAs, Numbered, Verdict;
    var receiver := new Context(keys);
    got := [];
    for j := 0 to |xs|
      invariant receiver.Valid() && receiver.keys == keys && fresh(receiver)
      invariant receiver.Abs() == StateAt(keys, s0, sent, xs, j)
      invariant |got| == j && AsExpected(s0, sent, xs, got)
    {
      ArrivesAsSent(keys, s0, payloads, sent, wires, xs, j);
      var one := ReceiveOne(receiver, s0, sent, wires[xs[j] - s0], xs, j);
      ExpectedSnoc(s0, sent, xs, got, one);
      got := got + [one];
    }
  }
}
