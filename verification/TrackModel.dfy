/**
  The flow key of lib/peak_track.h and the least-recently-used map that the flow tracker of
  lib/peak_track.c stands for.
 */
module TrackModel {

  /** A packet as the tracker sees it. */
  datatype Packet = Packet(saddr: nat, sport: nat, daddr: nat, dport: nat, proto: nat)

  /** Address and port of the lower and of the upper endpoint. */
  datatype Key = Key(addr0: nat, port0: nat, addr1: nat, port1: nat, proto: nat)

  function KeyOf(p: Packet): Key {
    if p.saddr < p.daddr then Key(p.saddr, p.sport, p.daddr, p.dport, p.proto)
    else Key(p.daddr, p.dport, p.saddr, p.sport, p.proto)
  }

  /** TRACK_KEY, with its assignments by direction. */
  method TrackKey(p: Packet) returns (k: Key)
    ensures k == KeyOf(p)
  {
    var port, addr := new nat[2], new nat[2];
    var dir := if p.saddr < p.daddr then 0 else 1;
    port[dir] := p.sport;
    port[1 - dir] := p.dport;
    addr[dir] := p.saddr;
    addr[1 - dir] := p.daddr;
    k := Key(addr[0], port[0], addr[1], port[1], p.proto);
  }

  predicate SameWay(p: Packet, q: Packet) {
    p.saddr == q.saddr && p.sport == q.sport && p.daddr == q.daddr && p.dport == q.dport
  }

  predicate OtherWay(p: Packet, q: Packet) {
    p.saddr == q.daddr && p.sport == q.dport && p.daddr == q.saddr && p.dport == q.sport
  }

  /** Two packets have the same key exactly if they run between the same endpoints; the direction
      only matters between equal addresses. */
  lemma {:induction false} KeyExact(p: Packet, q: Packet)
    ensures KeyOf(p) == KeyOf(q) <==>
      p.proto == q.proto && (SameWay(p, q) || (p.saddr != p.daddr && OtherWay(p, q)))
  {
  }

  // ---------------------------------------------------------------- the map

  datatype Entry = Entry(key: Key, id: nat)
  datatype Option<T> = None | Some(value: T)

  /** The entries, least recently acquired first, and the next id. */
  datatype Lru = Lru(order: seq<Entry>, next: nat)

  /** uint64_t */
  const IDS: nat := 0x1_0000_0000_0000_0000

  function IndexOf(o: seq<Entry>, k: Key): (i: nat)
    ensures i <= |o| && (i < |o| ==> o[i].key == k) && forall j :: 0 <= j < i ==> o[j].key != k
  {
    if o == [] then 0 else if o[0].key == k then 0 else 1 + IndexOf(o[1..], k)
  }

  /** What acquiring k does; fixed is no_timeout. */
  function After(l: Lru, max: nat, fixed: bool, k: Key): Lru
    requires max >= 1
  {
    var o := l.order;
    var i := IndexOf(o, k);
    if i < |o| then Lru(o[..i] + o[i + 1..] + [o[i]], l.next)
    else if |o| < max then Lru(o + [Entry(k, l.next)], (l.next + 1) % IDS)
    else if fixed then l
    else Lru(o[1..] + [Entry(k, l.next)], (l.next + 1) % IDS)
  }

  ghost predicate Unique(o: seq<Entry>) {
    forall i, j :: 0 <= i < j < |o| ==> o[i].key != o[j].key
  }

  ghost predicate Sound(l: Lru, max: nat) {
    Unique(l.order) && |l.order| <= max && l.next < IDS
  }

  lemma {:induction false} AfterSound(l: Lru, max: nat, fixed: bool, k: Key)
    requires Sound(l, max) && max >= 1
    ensures Sound(After(l, max, fixed, k), max)
  {
    var o := l.order;
    var i := IndexOf(o, k);
    if i < |o| { MovedUnique(o, i); }
  }

  lemma {:induction false} MovedUnique(o: seq<Entry>, i: nat)
    requires Unique(o) && i < |o|
    ensures Unique(o[..i] + o[i + 1..] + [o[i]])
  {
    var p := o[..i] + o[i + 1..] + [o[i]];
    assert |p| == |o|;
    forall a, b | 0 <= a < b < |p| ensures p[a].key != p[b].key {
      assert p[a] == o[if a < i then a else a + 1];
      assert p[b] == if b + 1 == |o| then o[i] else o[if b < i then b else b + 1];
    }
  }

  function Run(ks: seq<Key>, max: nat, fixed: bool): Lru
    requires max >= 1
  {
    if ks == [] then Lru([], 0) else After(Run(ks[..|ks| - 1], max, fixed), max, fixed, ks[|ks| - 1])
  }

  lemma {:induction false} RunSound(ks: seq<Key>, max: nat, fixed: bool)
    requires max >= 1
    ensures Sound(Run(ks, max, fixed), max)
  {
    if ks != [] {
      RunSound(ks[..|ks| - 1], max, fixed);
      AfterSound(Run(ks[..|ks| - 1], max, fixed), max, fixed, ks[|ks| - 1]);
    }
  }

  // ---------------------------------------------------------------- least recently used

  function Without(s: seq<Key>, k: Key): seq<Key> {
    if s == [] then [] else (if s[0] == k then [] else [s[0]]) + Without(s[1..], k)
  }

  /** The keys of a history, ordered by their last use. */
  function Recency(ks: seq<Key>): seq<Key> {
    if ks == [] then [] else Without(Recency(ks[..|ks| - 1]), ks[|ks| - 1]) + [ks[|ks| - 1]]
  }

  function KeysOf(o: seq<Entry>): (s: seq<Key>)
    ensures |s| == |o| && forall i :: 0 <= i < |o| ==> s[i] == o[i].key
  {
    seq(|o|, i requires 0 <= i < |o| => o[i].key)
  }

  function Latest(s: seq<Key>, n: nat): seq<Key> {
    if |s| <= n then s else s[|s| - n..]
  }

  /** Position of the last use. */
  function LastUse(ks: seq<Key>, k: Key): int {
    if ks == [] then -1 else if ks[|ks| - 1] == k then |ks| - 1 else LastUse(ks[..|ks| - 1], k)
  }

  lemma {:induction false} WithoutMember(s: seq<Key>, k: Key, x: Key)
    ensures x in Without(s, k) <==> x in s && x != k
  {
    if s != [] { WithoutMember(s[1..], k, x); }
  }

  lemma {:induction false} WithoutAppend(a: seq<Key>, b: seq<Key>, k: Key)
    ensures Without(a + b, k) == Without(a, k) + Without(b, k)
  {
    if a == [] {
      assert a + b == b;
    } else {
      WithoutAppend(a[1..], b, k);
      assert (a + b)[1..] == a[1..] + b && (a + b)[0] == a[0];
      var h := if a[0] == k then [] else [a[0]];
      assert h + (Without(a[1..], k) + Without(b, k)) == (h + Without(a[1..], k)) + Without(b, k);
    }
  }

  lemma {:induction false} WithoutAbsent(s: seq<Key>, k: Key)
    requires k !in s
    ensures Without(s, k) == s
  {
    if s != [] {
      WithoutAbsent(s[1..], k);
    }
  }

  lemma {:induction false} LastUseSeen(ks: seq<Key>, k: Key)
    ensures -1 <= LastUse(ks, k) < |ks|
    ensures LastUse(ks, k) >= 0 <==> k in ks
    ensures LastUse(ks, k) >= 0 ==> ks[LastUse(ks, k)] == k
  {
    if ks != [] {
      var n := |ks| - 1;
      LastUseSeen(ks[..n], k);
      assert ks == ks[..n] + [ks[n]];
    }
  }

  ghost predicate ByLastUse(s: seq<Key>, ks: seq<Key>) {
    forall i, j :: 0 <= i < j < |s| ==> LastUse(ks, s[i]) < LastUse(ks, s[j])
  }

  lemma {:induction false} WithoutOrdered(s: seq<Key>, ks: seq<Key>, k: Key)
    requires ByLastUse(s, ks)
    ensures ByLastUse(Without(s, k), ks)
  {
    if s != [] {
      var t := s[1..];
      forall i, j | 0 <= i < j < |t| ensures LastUse(ks, t[i]) < LastUse(ks, t[j]) {
        assert t[i] == s[i + 1] && t[j] == s[j + 1];
      }
      WithoutOrdered(t, ks, k);
      var w := Without(t, k);
      if s[0] != k {
        forall j | 0 <= j < |w| ensures LastUse(ks, s[0]) < LastUse(ks, w[j]) {
          WithoutMember(t, k, w[j]);
          var m :| 0 <= m < |t| && t[m] == w[j];
          assert s[m + 1] == w[j];
        }
      }
    }
  }

  /** Recency lists the keys of the history once each, in the order of their last use. */
  lemma {:induction false} RecencyMeaning(ks: seq<Key>)
    ensures ByLastUse(Recency(ks), ks)
    ensures forall k :: k in Recency(ks) <==> k in ks
  {
    if ks != [] {
      var n := |ks| - 1;
      var old_, k := ks[..n], ks[n];
      RecencyMeaning(old_);
      WithoutOrdered(Recency(old_), old_, k);
      var w := Without(Recency(old_), k);
      forall x ensures x in w <==> x in old_ && x != k { WithoutMember(Recency(old_), k, x); }
      var r := w + [k];
      forall i, j | 0 <= i < j < |r| ensures LastUse(ks, r[i]) < LastUse(ks, r[j]) {
        assert r[i] == w[i] && r[i] in w;
        LastUseSeen(old_, r[i]);
        if j < n && j < |w| { assert r[j] in w; }
      }
      assert ks == old_ + [k];
    }
  }

  lemma {:induction false} WithoutAt(s: seq<Key>, i: nat)
    requires i < |s| && forall j :: 0 <= j < |s| && j != i ==> s[j] != s[i]
    ensures Without(s, s[i]) == s[..i] + s[i + 1..]
  {
    var k := s[i];
    var a, b := s[..i], s[i + 1..];
    assert s == a + ([k] + b);
    WithoutAppend(a, [k] + b, k);
    WithoutAppend([k], b, k);
    assert Without([k], k) == [] by { assert [k][1..] == []; }
    forall j | 0 <= j < |b| ensures b[j] != k { assert b[j] == s[i + 1 + j]; }
    WithoutAbsent(a, k);
    WithoutAbsent(b, k);
    assert Without([k] + b, k) == [] + b == b;
  }

  lemma {:induction false} RecencyUnique(ks: seq<Key>)
    ensures forall i, j :: 0 <= i < j < |Recency(ks)| ==> Recency(ks)[i] != Recency(ks)[j]
  {
    RecencyMeaning(ks);
  }

  /** The case of an entry that is there: it becomes the most recent one. */
  lemma {:induction false} LatestHit(a: seq<Key>, l: seq<Key>, i: nat, n: nat)
    requires i < |l| <= n && (a == [] || |l| == n)
    requires forall x, y :: 0 <= x < y < |a + l| ==> (a + l)[x] != (a + l)[y]
    ensures Latest(Without(a + l, l[i]) + [l[i]], n) == l[..i] + l[i + 1..] + [l[i]]
  {
    WithoutInner(a, l, i);
    LatestBehind(a, l[..i] + l[i + 1..], l[i], n);
  }

  lemma {:induction false} WithoutInner(a: seq<Key>, l: seq<Key>, i: nat)
    requires i < |l| && forall x, y :: 0 <= x < y < |a + l| ==> (a + l)[x] != (a + l)[y]
    ensures Without(a + l, l[i]) == a + (l[..i] + l[i + 1..])
  {
    var k := l[i];
    WithoutAppend(a, l, k);
    forall j | 0 <= j < |l| && j != i ensures l[j] != k {
      assert (a + l)[|a| + j] == l[j] && (a + l)[|a| + i] == k;
    }
    WithoutAt(l, i);
    forall j | 0 <= j < |a| ensures a[j] != k {
      assert (a + l)[j] == a[j] && (a + l)[|a| + i] == k;
    }
    WithoutAbsent(a, k);
  }

  /** The last n of a and then m and k, where m is one short of n or a is empty. */
  lemma {:induction false} LatestBehind(a: seq<Key>, m: seq<Key>, k: Key, n: nat)
    requires |m| < n && (a == [] || |m| + 1 == n)
    ensures Latest((a + m) + [k], n) == m + [k]
  {
    var s := (a + m) + [k];
    assert s[|a|..] == m + [k];
  }

  lemma {:induction false} LatestShifted(a: seq<Key>, m: seq<Key>, k: Key, n: nat)
    requires |m| == n >= 1
    ensures Latest((a + m) + [k], n) == m[1..] + [k]
  {
    var s := (a + m) + [k];
    assert s[|a| + 1..] == m[1..] + [k];
  }

  /** The case of a new entry. */
  lemma {:induction false} LatestMiss(a: seq<Key>, l: seq<Key>, k: Key, n: nat)
    requires k !in l && 1 <= n && |l| <= n && (a == [] || |l| == n)
    ensures Latest(Without(a + l, k) + [k], n) == (if |l| < n then l else l[1..]) + [k]
  {
    WithoutOuter(a, l, k);
    if |l| < n {
      LatestAll(l, k, n);
    } else {
      LatestShifted(Without(a, k), l, k, n);
    }
  }

  lemma {:induction false} WithoutOuter(a: seq<Key>, l: seq<Key>, k: Key)
    requires k !in l
    ensures Without(a + l, k) == Without(a, k) + l && (a == [] ==> Without(a + l, k) == l)
  {
    WithoutAppend(a, l, k);
    WithoutAbsent(l, k);
  }

  lemma {:induction false} LatestAll(l: seq<Key>, k: Key, n: nat)
    requires |l| < n
    ensures Latest(l + [k], n) == l + [k]
  {
  }

  /** The keys after an acquisition, with i the position of k. */
  function NextKeys(s: seq<Key>, max: nat, k: Key, i: nat): seq<Key>
    requires max >= 1 && i <= |s| <= max
  {
    if i < |s| then s[..i] + s[i + 1..] + [k] else (if |s| < max then s else s[1..]) + [k]
  }

  lemma {:induction false} KeysAfter(l: Lru, max: nat, k: Key)
    requires 1 <= max && |l.order| <= max
    ensures KeysOf(After(l, max, false, k).order) == NextKeys(KeysOf(l.order), max, k, IndexOf(l.order, k))
  {
  }

  lemma {:induction false} LatestNext(r: seq<Key>, max: nat, k: Key, i: nat)
    requires max >= 1 && i <= |Latest(r, max)| && (if i < |Latest(r, max)| then Latest(r, max)[i] == k else k !in Latest(r, max))
    requires forall i, j :: 0 <= i < j < |r| ==> r[i] != r[j]
    ensures Latest(Without(r, k) + [k], max) == NextKeys(Latest(r, max), max, k, i)
  {
    var s := Latest(r, max);
    var a := r[..|r| - |s|];
    assert r == a + s;
    if i < |s| {
      LatestHit(a, s, i, max);
    } else {
      LatestMiss(a, s, k, max);
    }
  }

  lemma {:induction false} LruStep(l: Lru, r: seq<Key>, max: nat, k: Key)
    requires max >= 1 && KeysOf(l.order) == Latest(r, max)
    requires forall i, j :: 0 <= i < j < |r| ==> r[i] != r[j]
    ensures KeysOf(After(l, max, false, k).order) == Latest(Without(r, k) + [k], max)
  {
    var i := IndexOf(l.order, k);
    KeysAfter(l, max, k);
    assert i == |l.order| ==> forall j :: 0 <= j < |l.order| ==> KeysOf(l.order)[j] != k;
    LatestNext(r, max, k, i);
  }

  /** A tracker with timeouts holds exactly the max most recently acquired keys, so what it evicts
      is the least recently acquired one. */
  lemma {:induction false} LruRun(ks: seq<Key>, max: nat)
    requires max >= 1
    ensures KeysOf(Run(ks, max, false).order) == Latest(Recency(ks), max)
  {
    if ks != [] {
      var n := |ks| - 1;
      LruRun(ks[..n], max);
      RecencyUnique(ks[..n]);
      LruStep(Run(ks[..n], max, false), Recency(ks[..n]), max, ks[n]);
    }
  }

  // ---------------------------------------------------------------- without timeouts

  function Position(s: seq<Key>, k: Key): (i: nat)
    ensures i <= |s| && (i < |s| ==> s[i] == k) && (forall j :: 0 <= j < i ==> s[j] != k)
    ensures i < |s| <==> k in s
  {
    if s == [] then 0 else if s[0] == k then 0 else 1 + Position(s[1..], k)
  }

  /** The keys of a history, ordered by their first use. */
  function Firsts(ks: seq<Key>): seq<Key> {
    if ks == [] then []
    else
      var f, k := Firsts(ks[..|ks| - 1]), ks[|ks| - 1];
      if k in f then f else f + [k]
  }

  /** How many different keys were used before k. */
  function Rank(ks: seq<Key>, k: Key): nat {
    Position(Firsts(ks), k)
  }

  lemma {:induction false} FirstsSeen(ks: seq<Key>, k: Key)
    ensures k in Firsts(ks) <==> k in ks
  {
    if ks != [] {
      var n := |ks| - 1;
      FirstsSeen(ks[..n], k);
      FirstsSeen(ks[..n], ks[n]);
      assert ks == ks[..n] + [ks[n]];
    }
  }

  lemma {:induction false} PositionAppend(s: seq<Key>, t: seq<Key>, k: Key)
    requires k in s
    ensures Position(s + t, k) == Position(s, k)
  {
    var i, j := Position(s, k), Position(s + t, k);
    assert (s + t)[i] == k && (j < |s| ==> (s + t)[j] == s[j]);
  }

  /** A key that was used keeps its rank. */
  lemma {:induction false} RankStays(ks: seq<Key>, n: nat, k: Key)
    requires n <= |ks| && k in ks[..n]
    ensures Rank(ks, k) == Rank(ks[..n], k) && k in ks
    decreases |ks| - n
  {
    assert ks == ks[..n] + ks[n..];
    if n == |ks| {
      assert ks[..n] == ks;
    } else {
      var m := |ks| - 1;
      assert ks[..m][..n] == ks[..n];
      RankStays(ks[..m], n, k);
      FirstsSeen(ks[..m], k);
      PositionAppend(Firsts(ks[..m]), [ks[m]], k);
    }
  }

  function IdOf(o: seq<Entry>, k: Key): Option<nat> {
    var i := IndexOf(o, k);
    if i < |o| then Some(o[i].id) else None
  }

  lemma {:induction false} IdHere(o: seq<Entry>, i: nat)
    requires Unique(o) && i < |o|
    ensures IdOf(o, o[i].key) == Some(o[i].id)
  {
    assert forall j :: 0 <= j < i ==> o[j].key != o[i].key;
  }

  /** Acquiring an entry that is there changes no id. */
  lemma {:induction false} IdMoved(o: seq<Entry>, i: nat, x: Key)
    requires Unique(o) && i < |o|
    ensures IdOf(o[..i] + o[i + 1..] + [o[i]], x) == IdOf(o, x)
  {
    var p := o[..i] + o[i + 1..] + [o[i]];
    MovedUnique(o, i);
    var j := IndexOf(o, x);
    if j < |o| {
      var m := if j < i then j else if j == i then |p| - 1 else j - 1;
      assert p[m] == o[j];
      IdHere(p, m);
    } else {
      forall m | 0 <= m < |p| ensures p[m].key != x {
        assert p[m] == o[if m == |p| - 1 then i else if m < i then m else m + 1];
      }
    }
  }

  lemma {:induction false} IdAdded(o: seq<Entry>, e: Entry, x: Key)
    requires IndexOf(o, e.key) == |o|
    ensures IdOf(o + [e], x) == if x == e.key then Some(e.id) else IdOf(o, x)
  {
    var i := IndexOf(o + [e], x);
    assert i < |o| ==> (o + [e])[i] == o[i];
    var j := IndexOf(o, x);
    assert j < |o| ==> (o + [e])[j] == o[j];
    assert (o + [e])[|o|] == e;
  }

  /** What a tracker without timeouts holds: the first max keys, numbered as they came. */
  ghost predicate Numbered(l: Lru, ks: seq<Key>, max: nat) {
    && l.next == |l.order| == (if |Firsts(ks)| < max then |Firsts(ks)| else max)
    && forall k :: IdOf(l.order, k) == if Rank(ks, k) < l.next then Some(Rank(ks, k)) else None
  }

  lemma {:induction false} FixedStep(l: Lru, ks: seq<Key>, max: nat, k: Key)
    requires 1 <= max < IDS && Numbered(l, ks, max) && Sound(l, max)
    ensures Numbered(After(l, max, true, k), ks + [k], max)
  {
    var o, u := l.order, After(l, max, true, k);
    RankStep(ks, k, k);
    assert IdOf(o, k) == if Rank(ks, k) < l.next then Some(Rank(ks, k)) else None;
    assert u.next == |u.order| == if |Firsts(ks + [k])| < max then |Firsts(ks + [k])| else max;
    forall x ensures IdOf(u.order, x) == if Rank(ks + [k], x) < u.next then Some(Rank(ks + [k], x)) else None {
      assert IdOf(o, x) == if Rank(ks, x) < l.next then Some(Rank(ks, x)) else None;
      FixedId(l, ks, max, k, x);
    }
  }

  /** The id of one key after a step. */
  lemma {:induction false} FixedId(l: Lru, ks: seq<Key>, max: nat, k: Key, x: Key)
    requires 1 <= max < IDS && Sound(l, max)
    requires l.next == |l.order| == if |Firsts(ks)| < max then |Firsts(ks)| else max
    requires IdOf(l.order, k) == if Rank(ks, k) < l.next then Some(Rank(ks, k)) else None
    requires IdOf(l.order, x) == if Rank(ks, x) < l.next then Some(Rank(ks, x)) else None
    ensures var u := After(l, max, true, k);
      IdOf(u.order, x) == if Rank(ks + [k], x) < u.next then Some(Rank(ks + [k], x)) else None
  {
    RankStep(ks, k, x);
    IdNumbers(l, max, k, x, |Firsts(ks)|, Rank(ks, k), Rank(ks, x), Rank(ks + [k], x));
  }

  /** The same with numbers: f keys so far, and the ranks of k and of x before and after. */
  lemma {:induction false} IdNumbers(l: Lru, max: nat, k: Key, x: Key, f: nat, rk: nat, rx: nat, rx': nat)
    requires 1 <= max < IDS && Sound(l, max) && l.next == |l.order| == if f < max then f else max
    requires IdOf(l.order, k) == if rk < l.next then Some(rk) else None
    requires IdOf(l.order, x) == if rx < l.next then Some(rx) else None
    requires rk <= f && rx <= f && (x == k ==> rx == rk)
    requires rx' == if rk < f || rx < f then rx else if x == k then f else f + 1
    ensures var u := After(l, max, true, k); IdOf(u.order, x) == if rx' < u.next then Some(rx') else None
  {
    var o := l.order;
    var i := IndexOf(o, k);
    if i < |o| {
      IdMoved(o, i, x);
    } else if |o| < max {
      IdAdded(o, Entry(k, l.next), x);
    }
  }

  /** The rank of x when k is used next; the keys not used yet share the next rank. */
  lemma {:induction false} RankStep(ks: seq<Key>, k: Key, x: Key)
    ensures Rank(ks, x) <= |Firsts(ks)|
    ensures k in Firsts(ks) ==> Firsts(ks + [k]) == Firsts(ks)
    ensures k !in Firsts(ks) ==> Firsts(ks + [k]) == Firsts(ks) + [k]
    ensures k !in Firsts(ks) ==>
      (Rank(ks + [k], x) == if x in Firsts(ks) then Rank(ks, x) else if x == k then |Firsts(ks)| else |Firsts(ks)| + 1)
  {
    assert (ks + [k])[..|ks|] == ks;
    var f := Firsts(ks);
    if k !in f {
      if x in f { PositionAppend(f, [k], x); }
      var p := Position(f + [k], x);
      assert p < |f| ==> (f + [k])[p] == f[p];
      assert (f + [k])[|f|] == k;
    }
  }

  lemma {:induction false} FixedRun(ks: seq<Key>, max: nat)
    requires 1 <= max < IDS
    ensures Numbered(Run(ks, max, true), ks, max)
  {
    if ks == [] {
      forall k ensures IdOf([], k) == None { }
    } else {
      var n := |ks| - 1;
      FixedRun(ks[..n], max);
      RunSound(ks[..n], max, true);
      FixedStep(Run(ks[..n], max, true), ks[..n], max, ks[n]);
      assert ks == ks[..n] + [ks[n]];
    }
  }

  // ---------------------------------------------------------------- ids

  /** The use of ks[j] adds an entry: its key is not held, and there is room or something to evict. */
  ghost predicate Admits(ks: seq<Key>, j: nat, max: nat, fixed: bool)
    requires max >= 1 && j < |ks|
  {
    var held := KeysOf(Run(ks[..j], max, fixed).order);
    ks[j] !in held && (fixed ==> |held| < max)
  }

  /** How many of the first n uses added an entry. */
  ghost function Admissions(ks: seq<Key>, n: nat, max: nat, fixed: bool): nat
    requires max >= 1 && n <= |ks|
  {
    if n == 0 then 0 else Admissions(ks, n - 1, max, fixed) + if Admits(ks, n - 1, max, fixed) then 1 else 0
  }

  /** The use that added the entry of k. */
  ghost predicate AddedAt(ks: seq<Key>, j: nat, max: nat, fixed: bool, k: Key)
    requires max >= 1 && j < |ks|
  {
    ks[j] == k && Admits(ks, j, max, fixed)
  }

  /** The same in terms of the history alone: with timeouts a use adds an entry exactly if the key is not
      among the max most recent ones, without timeouts exactly if it is new and among the first max. */
  lemma {:induction false} AdmitsMeaning(ks: seq<Key>, j: nat, max: nat, fixed: bool)
    requires 1 <= max < IDS && j < |ks|
    ensures !fixed ==> (Admits(ks, j, max, fixed) <==> ks[j] !in Latest(Recency(ks[..j]), max))
    ensures fixed ==> (Admits(ks, j, max, fixed) <==> ks[j] !in ks[..j] && |Firsts(ks[..j])| < max)
  {
    var before, k := ks[..j], ks[j];
    if fixed {
      FixedRun(before, max);
      FirstsSeen(before, k);
      var o := Run(before, max, true).order;
      assert IdOf(o, k) == if Rank(before, k) < |o| then Some(Rank(before, k)) else None;
      HeldKey(o, k);
    } else {
      LruRun(before, max);
    }
  }

  lemma {:induction false} HeldKey(o: seq<Entry>, k: Key)
    ensures k in KeysOf(o) <==> IndexOf(o, k) < |o|
    ensures k in KeysOf(o) <==> IdOf(o, k).Some?
  {
    if k in KeysOf(o) {
      var i :| 0 <= i < |o| && KeysOf(o)[i] == k;
      assert o[i].key == k;
    }
    if IndexOf(o, k) < |o| { assert KeysOf(o)[IndexOf(o, k)] == k; }
  }

  /** Every id is the number of admissions before the one of its entry, and so is the next one. */
  ghost predicate Counted(l: Lru, ks: seq<Key>, n: nat, max: nat, fixed: bool)
    requires max >= 1 && n <= |ks|
  {
    && l.next == Admissions(ks, n, max, fixed) % IDS
    && forall k :: IdOf(l.order, k).Some? ==> Issued(ks, n, max, fixed, k, IdOf(l.order, k).value)
  }

  ghost predicate Issued(ks: seq<Key>, n: nat, max: nat, fixed: bool, k: Key, id: nat)
    requires max >= 1 && n <= |ks|
  {
    exists j :: 0 <= j < n && AddedAt(ks, j, max, fixed, k) && LastAdded(ks, n, j, max, fixed, k)
      && id == Admissions(ks, j, max, fixed) % IDS
  }

  /** No later use added an entry of k. */
  ghost predicate LastAdded(ks: seq<Key>, n: nat, j: nat, max: nat, fixed: bool, k: Key)
    requires max >= 1 && n <= |ks|
  {
    forall i :: j < i < n ==> !AddedAt(ks, i, max, fixed, k)
  }

  lemma {:induction false} IssuedStays(ks: seq<Key>, n: nat, max: nat, fixed: bool, k: Key, id: nat)
    requires max >= 1 && n < |ks| && Issued(ks, n, max, fixed, k, id) && !AddedAt(ks, n, max, fixed, k)
    ensures Issued(ks, n + 1, max, fixed, k, id)
  {
    var j :| 0 <= j < n && AddedAt(ks, j, max, fixed, k) && LastAdded(ks, n, j, max, fixed, k)
      && id == Admissions(ks, j, max, fixed) % IDS;
    assert LastAdded(ks, n + 1, j, max, fixed, k);
  }

  lemma {:induction false} IdEvicted(o: seq<Entry>, k: Key)
    requires Unique(o) && o != []
    ensures IdOf(o[1..], k) == if k == o[0].key then None else IdOf(o, k)
  {
    var i := IndexOf(o[1..], k);
    if i < |o| - 1 {
      assert o[i + 1].key == k;
      IdHere(o, i + 1);
    } else {
      assert forall j :: 1 <= j < |o| ==> o[j].key == o[1..][j - 1].key;
    }
  }

  /** The ids after one use. */
  lemma {:induction false} IdsAfter(l: Lru, max: nat, fixed: bool, k: Key, x: Key)
    requires max >= 1 && Sound(l, max)
    ensures var u := After(l, max, fixed, k); var held := KeysOf(l.order);
      if k !in held && (fixed ==> |held| < max)
      then u.next == (l.next + 1) % IDS && (if x == k then IdOf(u.order, x) == Some(l.next)
                                            else IdOf(u.order, x).Some? ==> IdOf(u.order, x) == IdOf(l.order, x))
      else u.next == l.next && IdOf(u.order, x) == IdOf(l.order, x)
  {
    var o := l.order;
    HeldKey(o, k);
    var i := IndexOf(o, k);
    if i < |o| {
      IdMoved(o, i, x);
    } else if |o| < max {
      IdAdded(o, Entry(k, l.next), x);
    } else if !fixed {
      IdEvicted(o, k);
      IdEvicted(o, x);
      HeldKey(o[1..], k);
      IdAdded(o[1..], Entry(k, l.next), x);
    }
  }

  lemma {:induction false} OneMore(a: nat)
    ensures (a % IDS + 1) % IDS == (a + 1) % IDS
  {
  }

  /** After any history, with timeouts or without: the next id is the number of admissions so far, and the
      id of every entry the number of admissions before its own, modulo 2^64. */
  lemma {:induction false} IdsExact(ks: seq<Key>, n: nat, max: nat, fixed: bool)
    requires max >= 1 && n <= |ks|
    ensures Counted(Run(ks[..n], max, fixed), ks, n, max, fixed)
  {
    if n == 0 {
      assert forall k :: IdOf([], k) == None;
    } else {
      var m := n - 1;
      IdsExact(ks, m, max, fixed);
      RunSound(ks[..m], max, fixed);
      RunStep(ks, m, max, fixed);
      var l, u := Run(ks[..m], max, fixed), Run(ks[..n], max, fixed);
      IdNext(ks, m, max, fixed, l);
      forall x | IdOf(u.order, x).Some? ensures Issued(ks, n, max, fixed, x, IdOf(u.order, x).value) {
        IdIssued(ks, m, max, fixed, l, x);
      }
    }
  }

  lemma {:induction false} RunStep(ks: seq<Key>, m: nat, max: nat, fixed: bool)
    requires max >= 1 && m < |ks|
    ensures Run(ks[..m + 1], max, fixed) == After(Run(ks[..m], max, fixed), max, fixed, ks[m])
  {
    assert ks[..m + 1][..m] == ks[..m];
  }

  lemma {:induction false} IdNext(ks: seq<Key>, m: nat, max: nat, fixed: bool, l: Lru)
    requires max >= 1 && m < |ks| && l == Run(ks[..m], max, fixed) && Sound(l, max)
    requires l.next == Admissions(ks, m, max, fixed) % IDS
    ensures After(l, max, fixed, ks[m]).next == Admissions(ks, m + 1, max, fixed) % IDS
  {
    IdsAfter(l, max, fixed, ks[m], ks[m]);
    assert Admits(ks, m, max, fixed) <==> ks[m] !in KeysOf(l.order) && (fixed ==> |KeysOf(l.order)| < max);
    NextId(Admissions(ks, m, max, fixed), Admissions(ks, m + 1, max, fixed), l.next);
  }

  lemma {:induction false} NextId(a: nat, b: nat, next: nat)
    requires next == a % IDS && a <= b <= a + 1
    ensures b % IDS == if b == a then next else (next + 1) % IDS
  {
    OneMore(a);
  }

  lemma {:induction false} IdIssued(ks: seq<Key>, m: nat, max: nat, fixed: bool, l: Lru, x: Key)
    requires max >= 1 && m < |ks| && l == Run(ks[..m], max, fixed) && Sound(l, max)
    requires l.next == Admissions(ks, m, max, fixed) % IDS
    requires IdOf(l.order, x).Some? ==> Issued(ks, m, max, fixed, x, IdOf(l.order, x).value)
    ensures var o := After(l, max, fixed, ks[m]).order;
      IdOf(o, x).Some? ==> Issued(ks, m + 1, max, fixed, x, IdOf(o, x).value)
  {
    IdsAfter(l, max, fixed, ks[m], x);
    var o := After(l, max, fixed, ks[m]).order;
    if AddedAt(ks, m, max, fixed, x) {
      assert LastAdded(ks, m + 1, m, max, fixed, x);
    } else if IdOf(o, x).Some? {
      assert IdOf(o, x) == IdOf(l.order, x);
      IssuedStays(ks, m, max, fixed, x, IdOf(o, x).value);
    }
  }

  lemma {:induction false} AdmissionsGrow(ks: seq<Key>, i: nat, j: nat, max: nat, fixed: bool)
    requires max >= 1 && i <= j <= |ks|
    ensures Admissions(ks, i, max, fixed) <= Admissions(ks, j, max, fixed)
    ensures i < j && Admits(ks, i, max, fixed) ==> Admissions(ks, i, max, fixed) < Admissions(ks, j, max, fixed)
  {
    if i < j { AdmissionsGrow(ks, i, j - 1, max, fixed); }
  }

  /** Among fewer than 2^64 admissions no two share an id. */
  lemma {:induction false} IdsDiffer(ks: seq<Key>, i: nat, j: nat, max: nat, fixed: bool)
    requires max >= 1 && i < j < |ks| && Admits(ks, i, max, fixed) && Admits(ks, j, max, fixed)
    requires Admissions(ks, |ks|, max, fixed) <= IDS
    ensures Admissions(ks, i, max, fixed) % IDS != Admissions(ks, j, max, fixed) % IDS
  {
    AdmissionsGrow(ks, i, j, max, fixed);
    AdmissionsGrow(ks, j, |ks|, max, fixed);
    Unwrapped(Admissions(ks, i, max, fixed));
    Unwrapped(Admissions(ks, j, max, fixed));
  }

  lemma {:induction false} Unwrapped(a: nat)
    requires a < IDS
    ensures a % IDS == a
  {
  }

  /** Three keys through a tracker of one flow get three ids. */
  lemma {:induction false} ThreeIds(a: Key, b: Key, c: Key)
    requires a != b && b != c
    ensures Run([a, b, c], 1, false) == Lru([Entry(c, 2)], 3)
  {
    assert [a, b, c][..2] == [a, b] && [a, b][..1] == [a] && [a][..0] == [];
    assert Run([a], 1, false) == Lru([Entry(a, 0)], 1);
    assert Run([a, b], 1, false) == Lru([Entry(b, 1)], 2);
  }

  /** The lower endpoint comes first, and both are kept as they are. */
  lemma {:induction false} KeyOrder(p: Packet)
    ensures var k := KeyOf(p);
      && k.addr0 <= k.addr1 && k.proto == p.proto
      && multiset{(k.addr0, k.port0), (k.addr1, k.port1)} == multiset{(p.saddr, p.sport), (p.daddr, p.dport)}
      && (p.saddr == p.daddr ==> k.port1 == p.sport)
  {
  }
}
