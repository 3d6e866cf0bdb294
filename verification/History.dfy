/** Call history by keyset pages (internal/app/events/callregistry.go, lines 205-229, over the
queries of internal/store/sqlite/sqlite.go, lines 124-170). */
module History {

  /** The byte order of call identifiers. */
  predicate StrLess(a: string, b: string) {
    if b == "" then false
    else if a == "" then true
    else a[0] < b[0] || (a[0] == b[0] && StrLess(a[1..], b[1..]))
  }

  lemma {:induction false} StrTotal(a: string, b: string)
    ensures a == b || StrLess(a, b) || StrLess(b, a)
    ensures !(StrLess(a, b) && StrLess(b, a)) && !StrLess(a, a)
  {
    if a != "" && b != "" {
      StrTotal(a[1..], b[1..]);
      if a[0] == b[0] && a[1..] == b[1..] {
        assert a == [a[0]] + a[1..] && b == [b[0]] + b[1..];
      }
    }
    if a != "" {
      StrTotal(a[1..], a[1..]);
    }
  }

  lemma {:induction false} StrTransitive(a: string, b: string, c: string)
    requires StrLess(a, b) && StrLess(b, c)
    ensures StrLess(a, c)
  {
    if a != "" && a[0] == b[0] && b[0] == c[0] {
      StrTransitive(a[1..], b[1..], c[1..]);
    }
  }

  /** The pair that orders and pages the history. */
  datatype Key = Key(endedAt: nat, callId: string)

  /** A zero cursor means "from the top". */
  const TOP := Key(0, "")

  predicate Below(a: Key, b: Key) {
    a.endedAt < b.endedAt || (a.endedAt == b.endedAt && StrLess(a.callId, b.callId))
  }

  lemma {:induction false} KeysOrdered(a: Key, b: Key, c: Key)
    ensures a == b || Below(a, b) || Below(b, a)
    ensures !(Below(a, b) && Below(b, a)) && !Below(a, a)
    ensures Below(a, b) && Below(b, c) ==> Below(a, c)
    ensures !Below(a, TOP)
  {
    hide StrLess;
    StrTotal(a.callId, b.callId);
    StrTotal(a.callId, a.callId);
    NothingBelowEmpty(a.callId);
    if StrLess(a.callId, b.callId) && StrLess(b.callId, c.callId) {
      StrTransitive(a.callId, b.callId, c.callId);
    }
  }

  lemma {:induction false} NothingBelowEmpty(a: string)
    ensures !StrLess(a, "")
  {
  }

  datatype Record = Record(callId: string, sessionId: string, endedAt: nat, details: string) {
    function Rank(): Key { Key(endedAt, callId) }
  }

  /** call_records, with call_id as its primary key. */
  type Table = set<Record>

  ghost predicate Keyed(t: Table) {
    forall a, b :: a in t && b in t && a.callId == b.callId ==> a == b
  }

  // ------------------------------------------------------------------ queries

  /** Insert ... ON CONFLICT (call_id) DO NOTHING. */
  ghost function Insert(t: Table, r: Record): (t': Table)
    requires Keyed(t)
    ensures Keyed(t') && t <= t'
  {
    if exists x :: x in t && x.callId == r.callId then t else t + {r}
  }

  /** Prune keeps `keep` records with the latest ends; which of several equal ends is the
      database's choice. */
  ghost predicate Pruned(t: Table, keep: nat, t': Table) {
    && t' <= t && |t'| == (if keep < |t| then keep else |t|)
    && forall a, b :: a in t' && b in t && b !in t' ==> b.endedAt <= a.endedAt
  }

  lemma {:induction false} SubsetSize(a: Table, b: Table)
    requires a <= b
    ensures |a| <= |b| && (|a| == |b| ==> a == b)
  {
    assert b == a + (b - a);
  }

  /** A record that fewer than `keep` others end as late as is never pruned. */
  lemma {:induction false} PruneKeepsRecent(t: Table, keep: nat, t': Table, r: Record)
    requires Pruned(t, keep, t') && r in t && |set x | x in t && x != r && x.endedAt >= r.endedAt| < keep
    ensures r in t'
  {
    var later := set x | x in t && x != r && x.endedAt >= r.endedAt;
    if keep >= |t| {
      SubsetSize(t', t);
    } else if r !in t' {
      SubsetSize(t', later);
    }
  }

  /** A change between two pages: persist inserts a record and prunes. */
  datatype Change = Inserted(r: Record) | Kept(keep: nat, kept: Table)

  ghost predicate Step(t: Table, c: Change, t': Table) {
    && Keyed(t)
    && match c
       case Inserted(r) => t' == Insert(t, r)
       case Kept(keep, kept) => t' == kept && Pruned(t, keep, kept)
  }

  /** Tables seen by successive pages, any number of changes apart. */
  ghost predicate Evolves(t: Table, cs: seq<Change>, t': Table)
    decreases |cs|
  {
    if cs == [] then t' == t else exists u :: Step(t, cs[0], u) && Evolves(u, cs[1..], t')
  }

  lemma {:induction false} EvolvesKeyed(t: Table, cs: seq<Change>, t': Table)
    requires Keyed(t) && Evolves(t, cs, t')
    ensures Keyed(t')
    decreases |cs|
  {
    if cs != [] {
      var u :| Step(t, cs[0], u) && Evolves(u, cs[1..], t');
      EvolvesKeyed(u, cs[1..], t');
    }
  }

  ghost predicate Matches(r: Record, session: string, before: Key) {
    (session == "" || r.sessionId == session) && (before == TOP || Below(r.Rank(), before))
  }

  ghost function Matching(t: Table, session: string, before: Key): Table {
    set r | r in t && Matches(r, session, before)
  }

  /** Without a session and a cursor every record is asked for; a session selects its own. */
  lemma {:induction false} EverySession(t: Table, session: string)
    requires session != ""
    ensures Matching(t, "", TOP) == t
    ensures Matching(t, session, TOP) == set r | r in t && r.sessionId == session
  {
  }

  ghost predicate Tops(t: Table, g: Record) {
    g in t && forall r :: r in t && r != g ==> Below(r.Rank(), g.Rank())
  }

  lemma {:induction false} TopsMore(t: Table, g: Record, x: Record)
    requires Tops(t - {x}, g) && x in t && Below(x.Rank(), g.Rank())
    ensures Tops(t, g)
  {
    hide Below;
    forall r | r in t && r != g ensures Below(r.Rank(), g.Rank()) {
      assert r == x || r in t - {x};
    }
  }

  lemma {:induction false} TopsOver(t: Table, g: Record, x: Record)
    requires Tops(t - {x}, g) && x in t && Below(g.Rank(), x.Rank())
    ensures Tops(t, x)
  {
    hide Below;
    forall r | r in t && r != x ensures Below(r.Rank(), x.Rank()) {
      assert r in t - {x};
      KeysOrdered(r.Rank(), g.Rank(), x.Rank());
    }
  }

  lemma {:induction false} GreatestExists(t: Table)
    requires t != {} && Keyed(t)
    ensures exists g :: Tops(t, g)
  {
    hide Below, Tops;
    var x :| x in t;
    if t == {x} {
      assert Tops(t, x) by { OnlyOne(x); }
    } else {
      assert t - {x} != {} by { assert t == {x} + (t - {x}); }
      GreatestExists(t - {x});
      var g :| Tops(t - {x}, g);
      assert g in t && g != x by { TopIsMember(t - {x}, g); }
      KeysOrdered(x.Rank(), g.Rank(), g.Rank());
      if Below(x.Rank(), g.Rank()) {
        TopsMore(t, g, x);
      } else {
        TopsOver(t, g, x);
      }
    }
  }

  lemma {:induction false} OnlyOne(x: Record)
    ensures Tops({x}, x)
  {
  }

  lemma {:induction false} TopIsMember(t: Table, g: Record)
    requires Tops(t, g)
    ensures g in t
  {
  }

  ghost function Greatest(t: Table): (g: Record)
    requires t != {} && Keyed(t)
    ensures Tops(t, g)
  {
    GreatestExists(t);
    var g :| Tops(t, g);
    g
  }

  /** ORDER BY ended_at DESC, call_id DESC. */
  ghost function Sorted(t: Table): seq<Record>
    requires Keyed(t)
    decreases |t|
  {
    if t == {} then [] else [Greatest(t)] + Sorted(t - {Greatest(t)})
  }

  ghost function Take(s: seq<Record>, n: nat): seq<Record> {
    if n < |s| then s[..n] else s
  }

  ghost function List(t: Table, session: string, limit: nat, before: Key): seq<Record>
    requires Keyed(t)
  {
    Take(Sorted(Matching(t, session, before)), limit)
  }

  // -------------------------------------------------------------- descending

  ghost predicate Descending(s: seq<Record>) {
    forall i, j :: 0 <= i < j < |s| ==> Below(s[j].Rank(), s[i].Rank())
  }

  ghost predicate AllBelow(s: seq<Record>, k: Key) {
    k == TOP || forall i :: 0 <= i < |s| ==> Below(s[i].Rank(), k)
  }

  lemma {:induction false} SortedIsSorted(t: Table)
    requires Keyed(t)
    ensures Descending(Sorted(t)) && |Sorted(t)| == |t| && forall r :: r in Sorted(t) <==> r in t
    decreases |t|
  {
    hide Below, Descending;
    if t == {} {
      NoneDescend();
    } else {
      var g := Greatest(t);
      SortedIsSorted(t - {g});
      AheadOfAll(g, Sorted(t - {g}));
    }
  }

  lemma {:induction false} NoneDescend()
    ensures Descending([])
  {
  }

  lemma {:induction false} AheadOfAll(g: Record, rest: seq<Record>)
    requires Descending(rest) && forall r :: r in rest ==> Below(r.Rank(), g.Rank())
    ensures Descending([g] + rest)
  {
    hide Below;
    var all := [g] + rest;
    forall i, j | 0 <= i < j < |all| ensures Below(all[j].Rank(), all[i].Rank()) {
      assert all[j] == rest[j - 1] && rest[j - 1] in rest;
    }
  }

  ghost predicate SameRecords(a: seq<Record>, b: seq<Record>) {
    forall r :: r in a <==> r in b
  }

  /** Descending order leaves one arrangement of the same records. */
  lemma {:induction false} OneOrder(a: seq<Record>, b: seq<Record>)
    requires Descending(a) && Descending(b) && SameRecords(a, b)
    ensures a == b
    decreases |a|
  {
    hide Below;
    if a != [] && b != [] {
      SameHead(a, b);
      SameTail(a, b);
      OneOrder(a[1..], b[1..]);
      assert a == [a[0]] + a[1..] && b == [b[0]] + b[1..];
    } else {
      HeadIn(a);
      HeadIn(b);
    }
  }

  lemma {:induction false} HeadIn(a: seq<Record>)
    ensures a == [] || a[0] in a
  {
  }

  lemma {:induction false} SameHead(a: seq<Record>, b: seq<Record>)
    requires Descending(a) && Descending(b) && SameRecords(a, b) && a != [] && b != []
    ensures a[0] == b[0]
  {
    hide Below;
    assert a[0] in b && b[0] in a;
    var i :| 0 <= i < |b| && b[i] == a[0];
    var j :| 0 <= j < |a| && a[j] == b[0];
    KeysOrdered(a[0].Rank(), b[0].Rank(), b[0].Rank());
  }

  lemma {:induction false} SameTail(a: seq<Record>, b: seq<Record>)
    requires Descending(a) && Descending(b) && SameRecords(a, b) && a != [] && b != [] && a[0] == b[0]
    ensures SameRecords(a[1..], b[1..])
  {
    hide Below;
    forall r ensures r in a[1..] ==> r in b[1..] {
      TailMember(a, b, r);
    }
    forall r ensures r in b[1..] ==> r in a[1..] {
      TailMember(b, a, r);
    }
  }

  lemma {:induction false} TailMember(a: seq<Record>, b: seq<Record>, r: Record)
    requires Descending(a) && SameRecords(a, b) && a != [] && b != [] && a[0] == b[0]
    ensures r in a[1..] ==> r in b[1..]
  {
    hide Below;
    if r in a[1..] {
      var i :| 0 <= i < |a[1..]| && a[1..][i] == r;
      OnceOnly(a, 0, i + 1);
      assert r == a[i + 1] && r in b;
      var j :| 0 <= j < |b| && b[j] == r;
      assert b[1..][j - 1] == r;
    }
  }

  lemma {:induction false} OnceOnly(s: seq<Record>, i: nat, j: nat)
    requires Descending(s) && i < j < |s|
    ensures s[i] != s[j]
  {
    hide Below;
    KeysOrdered(s[i].Rank(), s[j].Rank(), s[j].Rank());
  }

  /** r is in s from position n on exactly when it is in s below the key before. */
  lemma {:induction false} TailIsBelow(s: seq<Record>, n: nat, r: Record)
    requires Descending(s) && 0 < n <= |s|
    ensures r in s[n..] <==> r in s && Below(r.Rank(), s[n - 1].Rank())
  {
    hide Below;
    forall i | n <= i < |s| ensures s[i] in s[n..] {
      assert s[n..][i - n] == s[i];
    }
    if r in s[n..] {
      var i :| 0 <= i < |s[n..]| && s[n..][i] == r;
      assert s[n + i] == r;
    } else if r in s {
      var i :| 0 <= i < |s| && s[i] == r;
      KeysOrdered(r.Rank(), s[n - 1].Rank(), r.Rank());
    }
  }

  /** The rows after the one with key k are the rows of the cursor k. */
  lemma {:induction false} SortedAfter(t: Table, session: string, before: Key, n: nat)
    requires Keyed(t) && 0 < n <= |Sorted(Matching(t, session, before))|
    ensures var s := Sorted(Matching(t, session, before));
            s[n - 1].Rank() != TOP ==> s[n..] == Sorted(Matching(t, session, s[n - 1].Rank()))
  {
    hide Below, Sorted, Keyed;
    PartKeyed(t, session, before);
    var s := Sorted(Matching(t, session, before));
    SortedIsSorted(Matching(t, session, before));
    var k := s[n - 1].Rank();
    if k != TOP {
      PartKeyed(t, session, k);
      SortedIsSorted(Matching(t, session, k));
      forall r ensures r in s[n..] <==> r in Matching(t, session, k) {
        TailIsBelow(s, n, r);
        KeysOrdered(r.Rank(), k, before);
        assert s[n - 1] in s;
      }
      OneOrder(s[n..], Sorted(Matching(t, session, k)));
    }
  }

  lemma {:induction false} PartKeyed(t: Table, session: string, before: Key)
    requires Keyed(t)
    ensures Keyed(Matching(t, session, before))
  {
  }

  // -------------------------------------------------------------------- pages

  datatype Page = Page(rows: seq<Record>, next: Key)

  /** HistoryRows on the answer to a query for one row more than the page holds. */
  method HistoryRows(recs: seq<Record>, limit: nat, ghost t: Table, ghost session: string, ghost before: Key)
    returns (rows: seq<Record>, next: Key)
    requires limit >= 1 && Keyed(t) && recs == List(t, session, limit + 1, before)
    ensures Page(rows, next) == PageOf(t, session, limit, before)
  {
    hide List, Keyed;
    next := TOP;
    var kept := recs;
    if |recs| > limit {
      kept := recs[..limit];
      next := kept[limit - 1].Rank();
    }
    rows := [];
    for i := 0 to |kept|
      invariant rows == kept[..i]
    {
      rows := rows + [kept[i]];
    }
  }

  ghost function PageOf(t: Table, session: string, limit: nat, before: Key): Page
    requires Keyed(t) && limit >= 1
  {
    var recs := List(t, session, limit + 1, before);
    Page(Take(recs, limit), if |recs| > limit then recs[limit - 1].Rank() else TOP)
  }

  /** The rows a client collects by following cursors, page i being served from ts[i], and
      whether it reached a page without a cursor. */
  ghost function Collect(ts: seq<Table>, session: string, limit: nat, before: Key, i: nat): (r: (seq<Record>, bool))
    requires limit >= 1 && i <= |ts| && forall k :: 0 <= k < |ts| ==> Keyed(ts[k])
    decreases |ts| - i
  {
    if i == |ts| then ([], false)
    else
      var page := PageOf(ts[i], session, limit, before);
      if page.next == TOP then (page.rows, true)
      else
        var (rows, done) := Collect(ts, session, limit, page.next, i + 1);
        (page.rows + rows, done)
  }

  ghost predicate PageGood(t: Table, session: string, before: Key, page: Page) {
    && Descending(page.rows) && AllBelow(page.rows, before)
    && (forall r :: r in page.rows ==> r in t && Matches(r, session, before))
    && (page.next != TOP ==> page.rows != [] && page.next == page.rows[|page.rows| - 1].Rank())
    && forall r :: r in t && Matches(r, session, before) && r !in page.rows ==>
         page.next != TOP && Below(r.Rank(), page.next)
  }

  /** A page holds the next rows below its cursor, and its own cursor splits them from the rest;
      in particular a cursor is never the zero one while rows remain. */
  lemma {:induction false} PagesAreGood(t: Table, session: string, limit: nat, before: Key)
    requires Keyed(t) && limit >= 1
    ensures PageGood(t, session, before, PageOf(t, session, limit, before))
  {
    hide Below, Sorted, Keyed, Matches;
    var m := Matching(t, session, before);
    PartKeyed(t, session, before);
    var s := Sorted(m);
    SortedIsSorted(m);
    var page := PageOf(t, session, limit, before);
    if |s| > limit {
      Shown(s, limit);
      assert page.rows == s[..limit] && page.next == s[limit - 1].Rank();
      forall r | r in m && r !in page.rows ensures Below(r.Rank(), page.next) {
        assert r in s;
        Hidden(s, limit, r);
      }
    }
    BelowCursor(t, session, before, page.rows);
  }

  lemma {:induction false} Shown(s: seq<Record>, n: nat)
    requires Descending(s) && 0 < n < |s|
    ensures s[n - 1].Rank() != TOP && Descending(s[..n]) && forall r :: r in s[..n] ==> r in s
  {
    hide Below;
    KeysOrdered(s[n].Rank(), TOP, TOP);
    assert Below(s[n].Rank(), s[n - 1].Rank());
  }

  lemma {:induction false} Hidden(s: seq<Record>, n: nat, r: Record)
    requires Descending(s) && 0 < n < |s| && r in s && r !in s[..n]
    ensures Below(r.Rank(), s[n - 1].Rank())
  {
    hide Below;
    forall i | 0 <= i < n ensures s[i] in s[..n] {
      assert s[..n][i] == s[i];
    }
    var i :| 0 <= i < |s| && s[i] == r;
  }

  lemma {:induction false} BelowCursor(t: Table, session: string, before: Key, rows: seq<Record>)
    requires forall r :: r in rows ==> r in Matching(t, session, before)
    ensures AllBelow(rows, before) && forall r :: r in rows ==> r in t && Matches(r, session, before)
  {
    hide Below;
    forall i | 0 <= i < |rows| ensures rows[i] in Matching(t, session, before) {
      assert rows[i] in rows;
    }
  }

  // --------------------------------------------------------------- whole runs

  lemma {:induction false} JoinDescending(a: seq<Record>, b: seq<Record>)
    requires Descending(a) && Descending(b) && a != [] && AllBelow(b, a[|a| - 1].Rank()) && a[|a| - 1].Rank() != TOP
    ensures Descending(a + b)
  {
    hide Below;
    var s := a + b;
    forall i, j | 0 <= i < j < |s| ensures Below(s[j].Rank(), s[i].Rank()) {
      if j >= |a| {
        assert s[j] == b[j - |a|];
        if i < |a| {
          KeysOrdered(s[j].Rank(), a[|a| - 1].Rank(), s[i].Rank());
        }
      }
    }
  }

  /** With any change at all to the table between pages, the rows collected are strictly
      descending, so no record comes twice. */
  lemma {:induction false} CollectDescends(ts: seq<Table>, session: string, limit: nat, before: Key, i: nat)
    requires limit >= 1 && i <= |ts| && forall k :: 0 <= k < |ts| ==> Keyed(ts[k])
    ensures Descending(Collect(ts, session, limit, before, i).0)
    ensures AllBelow(Collect(ts, session, limit, before, i).0, before)
    decreases |ts| - i
  {
    hide Below, PageOf, Keyed;
    if i < |ts| {
      var page := PageOf(ts[i], session, limit, before);
      PagesAreGood(ts[i], session, limit, before);
      if page.next != TOP {
        CollectDescends(ts, session, limit, page.next, i + 1);
        var rest := Collect(ts, session, limit, page.next, i + 1).0;
        JoinDescending(page.rows, rest);
        forall k | 0 <= k < |rest| && before != TOP ensures Below(rest[k].Rank(), before) {
          KeysOrdered(rest[k].Rank(), page.next, before);
        }
      }
    }
  }

  /** Every record of the session that is there throughout is collected, once the client has
      reached the last page. */
  lemma {:induction false} CollectComplete(ts: seq<Table>, session: string, limit: nat, before: Key, i: nat, r: Record)
    requires limit >= 1 && i <= |ts| && forall k :: 0 <= k < |ts| ==> Keyed(ts[k])
    requires Collect(ts, session, limit, before, i).1
    requires Matches(r, session, before) && forall k :: i <= k < |ts| ==> r in ts[k]
    ensures r in Collect(ts, session, limit, before, i).0
    decreases |ts| - i
  {
    hide Below, PageOf, Keyed;
    var page := PageOf(ts[i], session, limit, before);
    PagesAreGood(ts[i], session, limit, before);
    if page.next != TOP && r !in page.rows {
      CollectComplete(ts, session, limit, page.next, i + 1, r);
    }
  }

  /** Between two pages the table changes by inserts and prunes. */
  ghost predicate ChangedBetween(ts: seq<Table>, cs: seq<seq<Change>>) {
    |cs| + 1 == |ts| && forall i :: 0 <= i < |cs| ==> Evolves(ts[i], cs[i], ts[i + 1])
  }

  lemma {:induction false} AllKeyed(ts: seq<Table>, cs: seq<seq<Change>>, k: nat)
    requires ChangedBetween(ts, cs) && Keyed(ts[0]) && k < |ts|
    ensures Keyed(ts[k])
  {
    hide Keyed, Evolves;
    if k > 0 {
      AllKeyed(ts, cs, k - 1);
      EvolvesKeyed(ts[k - 1], cs[k - 1], ts[k]);
    }
  }

  /** Following cursors while records are inserted and pruned between the pages: no record comes
      twice, and one that is there throughout is not missed. */
  lemma {:induction false} PagesUnderChange(ts: seq<Table>, cs: seq<seq<Change>>, session: string, limit: nat,
                                            r: Record)
    requires limit >= 1 && ChangedBetween(ts, cs) && Keyed(ts[0])
    ensures forall k :: 0 <= k < |ts| ==> Keyed(ts[k])
    ensures var (rows, done) := Collect(ts, session, limit, TOP, 0);
            && Descending(rows)
            && (forall i, j :: 0 <= i < j < |rows| ==> rows[i] != rows[j])
            && (done && Matches(r, session, TOP) && (forall k :: 0 <= k < |ts| ==> r in ts[k]) ==> r in rows)
  {
    hide Keyed, Evolves, Below, Collect;
    forall k | 0 <= k < |ts| ensures Keyed(ts[k]) {
      AllKeyed(ts, cs, k);
    }
    var (rows, done) := Collect(ts, session, limit, TOP, 0);
    CollectDescends(ts, session, limit, TOP, 0);
    forall i, j | 0 <= i < j < |rows| ensures rows[i] != rows[j] {
      OnceOnly(rows, i, j);
    }
    if done && Matches(r, session, TOP) && (forall k :: 0 <= k < |ts| ==> r in ts[k]) {
      CollectComplete(ts, session, limit, TOP, 0, r);
    }
  }

  // -------------------------------------------------------------- fixed store

  ghost predicate Constant(ts: seq<Table>, t: Table) {
    forall k :: 0 <= k < |ts| ==> ts[k] == t
  }

  /** On a table that does not change, the pages join to the full sorted list, and no more pages
      are needed than there are rows. */
  lemma {:induction false} FixedStore(ts: seq<Table>, t: Table, session: string, limit: nat, before: Key, i: nat)
    requires limit >= 1 && i <= |ts| && Keyed(t) && Constant(ts, t)
    ensures Collect(ts, session, limit, before, i).1 ==>
              Collect(ts, session, limit, before, i).0 == Sorted(Matching(t, session, before))
    ensures |Matching(t, session, before)| < |ts| - i ==> Collect(ts, session, limit, before, i).1
    decreases |ts| - i
  {
    hide Below, Keyed, Sorted, Matching, PageOf;
    if i < |ts| {
      PartKeyed(t, session, before);
      var s := Sorted(Matching(t, session, before));
      SortedIsSorted(Matching(t, session, before));
      FixedPage(t, session, limit, before);
      if |s| > limit {
        var k := s[limit - 1].Rank();
        FixedStore(ts, t, session, limit, k, i + 1);
        assert s == s[..limit] + s[limit..];
      }
    }
  }

  /** A page of a table, and what is left after it. */
  lemma {:induction false} FixedPage(t: Table, session: string, limit: nat, before: Key)
    requires limit >= 1 && Keyed(t) && Keyed(Matching(t, session, before))
    ensures var s, page := Sorted(Matching(t, session, before)), PageOf(t, session, limit, before);
            if |s| > limit then
              && page == Page(s[..limit], s[limit - 1].Rank()) && page.next != TOP
              && Keyed(Matching(t, session, page.next)) && s[limit..] == Sorted(Matching(t, session, page.next))
              && |Matching(t, session, page.next)| < |Matching(t, session, before)|
            else page == Page(s, TOP)
  {
    hide Below, Keyed, Sorted, Matching;
    var s := Sorted(Matching(t, session, before));
    SortedIsSorted(Matching(t, session, before));
    if |s| > limit {
      Shown(s, limit);
      SortedAfter(t, session, before, limit);
      var k := s[limit - 1].Rank();
      assert List(t, session, limit + 1, before)[limit - 1] == s[limit - 1];
      PartKeyed(t, session, k);
      SortedIsSorted(Matching(t, session, k));
    }
  }
}
