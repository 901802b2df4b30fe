/**
  The paged sorted list of include/peak_page.h: a chain of pages with up to n elements each,
  kept sorted, with full pages split in two.  A chain is a sequence of pages; comparison is by
  key.
 */
module PageList {

  datatype Entry<T> = Entry(key: int, val: T)
  datatype Option<T> = None | Some(value: T)

  type Chain<T> = seq<seq<Entry<T>>>

  function Flat<T>(c: Chain<T>): seq<Entry<T>> {
    if c == [] then [] else c[0] + Flat(c[1..])
  }

  ghost predicate Ascending<T>(s: seq<Entry<T>>) {
    forall i, j :: 0 <= i < j < |s| ==> s[i].key < s[j].key
  }

  ghost predicate Below<T>(s: seq<Entry<T>>, key: int) {
    forall i :: 0 <= i < |s| ==> s[i].key < key
  }

  ghost predicate Above<T>(s: seq<Entry<T>>, key: int) {
    forall i :: 0 <= i < |s| ==> key < s[i].key
  }

  /** Every page holds at least one element and at most n; with two or more pages, each is at
      least half full. */
  ghost predicate Filled<T>(c: Chain<T>, n: nat) {
    && (forall i :: 0 <= i < |c| ==> 1 <= |c[i]| <= n)
    && (|c| >= 2 ==> forall i :: 0 <= i < |c| ==> (n + 1) / 2 <= |c[i]|)
  }

  ghost predicate Valid<T>(c: Chain<T>, n: nat) {
    n >= 1 && Filled(c, n) && Ascending(Flat(c))
  }

  ghost function Keys<T>(c: Chain<T>): set<int> { set e | e in Flat(c) :: e.key }

  lemma {:induction false} FlatAppend<T>(a: Chain<T>, b: Chain<T>)
    ensures Flat(a + b) == Flat(a) + Flat(b)
  {
    if a == [] {
      assert a + b == b;
    } else {
      FlatAppend(a[1..], b);
      assert (a + b)[1..] == a[1..] + b && (a + b)[0] == a[0];
      assert Flat(a + b) == a[0] + (Flat(a[1..]) + Flat(b));
    }
  }

  /** The chain around page p. */
  lemma {:induction false} FlatAround<T>(c: Chain<T>, p: nat)
    requires p < |c|
    ensures Flat(c) == Flat(c[..p]) + c[p] + Flat(c[p + 1..])
  {
    FlatAppend(c[..p], c[p..]);
    assert c == c[..p] + c[p..];
    assert c[p..][1..] == c[p + 1..];
  }

  lemma {:induction false} FlatSwap<T>(c: Chain<T>, p: nat, mid: Chain<T>)
    requires p < |c|
    ensures Flat(c[..p] + mid + c[p + 1..]) == Flat(c[..p]) + Flat(mid) + Flat(c[p + 1..])
  {
    FlatAppend(c[..p] + mid, c[p + 1..]);
    FlatAppend(c[..p], mid);
  }

  /** Where a key that is not in the chain belongs: before position pos of page p. */
  ghost predicate Slot<T>(c: Chain<T>, key: int, p: nat, pos: nat) {
    && p < |c| && pos <= |c[p]|
    && Below(Flat(c[..p]) + c[p][..pos], key) && Above(c[p][pos..] + Flat(c[p + 1..]), key)
  }

  lemma {:induction false} SlotSplit<T>(c: Chain<T>, key: int, p: nat, pos: nat)
    requires Ascending(Flat(c)) && p < |c| && pos <= |c[p]|
    requires Below(Flat(c[..p]), key)
    requires pos > 0 ==> c[p][pos - 1].key < key
    requires pos < |c[p]| ==> key < c[p][pos].key
    requires pos == |c[p]| ==> p + 1 == |c|
    ensures Slot(c, key, p, pos)
  {
    FlatAround(c, p);
    var a, x, z, f := Flat(c[..p]), c[p], Flat(c[p + 1..]), Flat(c);
    assert f == a + x + z;
    forall i | 0 <= i < pos ensures x[i].key < key {
      assert f[|a| + i] == x[i] && f[|a| + (pos - 1)] == x[pos - 1];
    }
    assert pos == |x| ==> c[p + 1..] == [];
    var b := x[pos..] + z;
    forall i | 0 <= i < |b| ensures key < b[i].key {
      assert b[i] == f[|a| + pos + i] && f[|a| + pos] == x[pos];
    }
  }

  lemma {:induction false} FlatMore<T>(c: Chain<T>, p: nat)
    requires p < |c|
    ensures Flat(c[..p + 1]) == Flat(c[..p]) + c[p]
  {
    FlatAppend(c[..p], [c[p]]);
    assert c[..p + 1] == c[..p] + [c[p]];
    assert Flat([c[p]]) == c[p] + Flat([]);
  }

  lemma {:induction false} BelowLast<T>(a: seq<Entry<T>>, x: seq<Entry<T>>, z: seq<Entry<T>>, key: int)
    requires Ascending(a + x + z) && Below(a, key) && x != [] && x[|x| - 1].key < key
    ensures Below(a + x, key)
  {
    var f := a + x + z;
    forall i | 0 <= i < |x| ensures x[i].key < key {
      assert f[|a| + i] == x[i] && f[|a| + (|x| - 1)] == x[|x| - 1];
    }
  }

  lemma {:induction false} PastPage<T>(c: Chain<T>, key: int, p: nat)
    requires Ascending(Flat(c)) && p < |c| && c[p] != [] && Below(Flat(c[..p]), key) && c[p][|c[p]| - 1].key < key
    ensures Below(Flat(c[..p + 1]), key)
  {
    FlatAround(c, p);
    FlatMore(c, p);
    BelowLast(Flat(c[..p]), c[p], Flat(c[p + 1..]), key);
  }

  lemma {:induction false} BeforeLast<T>(c: Chain<T>, key: int)
    requires c != [] && c[|c| - 1] != [] && Below(Flat(c), key)
    ensures Below(Flat(c[..|c| - 1]), key) && c[|c| - 1][|c[|c| - 1]| - 1].key < key
  {
    var p := |c| - 1;
    FlatAround(c, p);
    var a, x, f := Flat(c[..p]), c[p], Flat(c);
    forall i | 0 <= i < |a| ensures a[i].key < key { assert f[i] == a[i]; }
    assert f[|a| + (|x| - 1)] == x[|x| - 1];
  }

  /** The page that takes a new key: the first one that does not end below it, or else the last one. */
  ghost predicate Home<T>(c: Chain<T>, key: int, p: nat)
    requires forall i :: 0 <= i < |c| ==> |c[i]| >= 1
  {
    && p < |c| && (p + 1 == |c| || key <= c[p][|c[p]| - 1].key)
    && forall q :: 0 <= q < p ==> c[q][|c[q]| - 1].key < key
  }

  /** The search loop of PAGE_INSERT: the element with the key, or the place for it.  An empty
      chain has no place. */
  method Seek<T>(c: Chain<T>, key: int) returns (hit: bool, p: nat, pos: nat)
    requires Ascending(Flat(c)) && forall i :: 0 <= i < |c| ==> |c[i]| >= 1
    ensures hit ==> p < |c| && pos < |c[p]| && c[p][pos].key == key
    ensures !hit && c != [] ==> Slot(c, key, p, pos) && Home(c, key, p)
  {
    hit, p, pos := false, 0, 0;
    while p < |c|
      invariant !hit && pos == 0 && p <= |c| && Below(Flat(c[..p]), key)
      invariant forall q :: 0 <= q < p ==> c[q][|c[q]| - 1].key < key
    {
      if key < c[p][0].key {
        SlotSplit(c, key, p, 0);
        assert (c[p][0..] + Flat(c[p + 1..]))[|c[p]| - 1] == c[p][|c[p]| - 1];
        return;
      }
      if key > c[p][|c[p]| - 1].key {
        PastPage(c, key, p);
        p := p + 1;
        continue;
      }
      while pos < |c[p]|
        invariant pos < |c[p]| && (pos > 0 ==> c[p][pos - 1].key < key)
        decreases |c[p]| - pos
      {
        if c[p][pos].key == key {
          return true, p, pos;
        } else if key < c[p][pos].key {
          SlotSplit(c, key, p, pos);
          return;
        }
        pos := pos + 1;
      }
      assert false;
    }
    if c != [] {
      // PAGE_MAX, one position further
      assert c[..p] == c;
      BeforeLast(c, key);
      p := |c| - 1;
      pos := |c[p]|;
      SlotSplit(c, key, p, pos);
    }
  }

  /** PAGE_FIND */
  method Find<T>(c: Chain<T>, key: int) returns (found: Option<Entry<T>>)
    requires Ascending(Flat(c)) && forall i :: 0 <= i < |c| ==> |c[i]| >= 1
    ensures found.Some? ==> found.value in Flat(c) && found.value.key == key
    ensures found.None? ==> key !in Keys(c)
  {
    var p := 0;
    while p < |c|
      invariant p <= |c| && Below(Flat(c[..p]), key)
    {
      if key < c[p][0].key {
        SlotSplit(c, key, p, 0);
        SlotAbsent(c, key, p, 0);
        return None;
      }
      if key > c[p][|c[p]| - 1].key {
        PastPage(c, key, p);
        p := p + 1;
        continue;
      }
      var i := 0;
      while i < |c[p]|
        invariant i <= |c[p]| && forall k :: 0 <= k < i ==> c[p][k].key != key
      {
        if c[p][i].key == key {
          OnPage(c, p, i);
          return Some(c[p][i]);
        }
        i := i + 1;
      }
      NotOnPage(c, key, p);
      return None;
    }
    assert c[..p] == c;
    return None;
  }

  lemma {:induction false} SlotAbsent<T>(c: Chain<T>, key: int, p: nat, pos: nat)
    requires Slot(c, key, p, pos)
    ensures key !in Keys(c)
    ensures Flat(c) == (Flat(c[..p]) + c[p][..pos]) + (c[p][pos..] + Flat(c[p + 1..]))
  {
    FlatAround(c, p);
    var a, b := Flat(c[..p]) + c[p][..pos], c[p][pos..] + Flat(c[p + 1..]);
    assert c[p] == c[p][..pos] + c[p][pos..];
    assert Flat(c) == a + b;
    forall e | e in Flat(c) ensures e.key != key {
      assert e in a || e in b;
    }
  }

  /** A key within the bounds of a page that is not on it is nowhere. */
  lemma {:induction false} NotOnPage<T>(c: Chain<T>, key: int, p: nat)
    requires Ascending(Flat(c)) && p < |c| && c[p] != []
    requires c[p][0].key <= key <= c[p][|c[p]| - 1].key && forall k :: 0 <= k < |c[p]| ==> c[p][k].key != key
    ensures key !in Keys(c)
  {
    FlatAround(c, p);
    var a, x, f := Flat(c[..p]), c[p], Flat(c);
    assert f[|a|] == x[0] && f[|a| + (|x| - 1)] == x[|x| - 1];
    forall i | 0 <= i < |f| ensures f[i].key != key {
      if |a| <= i < |a| + |x| { assert f[i] == x[i - |a|]; }
    }
  }

  // ---------------------------------------------------------------- insertion

  /** The pages that may replace a page when x comes in at pos. */
  ghost predicate Replaces<T>(r: Chain<T>, page: seq<Entry<T>>, pos: nat, x: Entry<T>, n: nat)
    requires pos <= |page|
  {
    && Flat(r) == page[..pos] + [x] + page[pos..]
    && (|page| < n ==> |r| == 1 && |r[0]| == |page| + 1)
    && (|page| == n ==> |r| == 2 && |r[0]| == (if pos >= (n + 1) / 2 then (n + 1) / 2 else n - (n + 1) / 2 + 1))
  }

  /** The bias: whichever half gets the element, both end up at least half full. */
  lemma {:induction false} HalfFull<T>(r: Chain<T>, page: seq<Entry<T>>, pos: nat, x: Entry<T>, n: nat)
    requires n >= 1 && pos <= |page| == n && Replaces(r, page, pos, x, n)
    ensures (n + 1) / 2 <= |r[0]| <= n && (n + 1) / 2 <= |r[1]| <= n
  {
    FlatTwo(r[0], r[1]);
    assert r == [r[0], r[1]];
  }

  lemma {:induction false} FlatTwo<T>(a: seq<Entry<T>>, b: seq<Entry<T>>)
    ensures Flat([a, b]) == a + b
  {
    assert [a, b][1..] == [b];
    assert Flat([b]) == b + Flat([]);
  }

  lemma {:induction false} SplitHigh<T>(page: seq<Entry<T>>, s: nat, pos: nat, x: Entry<T>)
    requires s <= pos <= |page|
    ensures page[..s] + (page[s..][..pos - s] + [x] + page[s..][pos - s..]) == page[..pos] + [x] + page[pos..]
  {
    assert page[s..][pos - s..] == page[pos..];
    assert page[..s] + page[s..][..pos - s] == page[..pos];
  }

  lemma {:induction false} SplitLow<T>(page: seq<Entry<T>>, s: nat, pos: nat, x: Entry<T>)
    requires pos <= s <= |page|
    ensures (page[..s][..pos] + [x] + page[..s][pos..]) + page[s..] == page[..pos] + [x] + page[pos..]
  {
    assert page[..s][..pos] == page[..pos];
    assert page[..s][pos..] + page[s..] == page[pos..];
  }

  /** The second half of PAGE_INSERT: a full page is split with a bias towards the half that gets
      the element, then the elements behind it move up. */
  method Place<T>(page: seq<Entry<T>>, pos: nat, x: Entry<T>, n: nat) returns (r: Chain<T>)
    requires n >= 1 && pos <= |page| <= n
    ensures Replaces(r, page, pos, x, n)
  {
    if |page| == n {
      var split := (n + 1) / 2;
      var low, high;
      if pos >= split {
        low, high := page[..split], page[split..];
        SplitHigh(page, split, pos, x);
        high := high[..pos - split] + [x] + high[pos - split..];
      } else {
        low, high := page[..n - split], page[n - split..];
        SplitLow(page, n - split, pos, x);
        low := low[..pos] + [x] + low[pos..];
      }
      r := [low, high];
      FlatTwo(low, high);
    } else {
      r := [page[..pos] + [x] + page[pos..]];
    }
  }

  /** The chain stays filled. */
  lemma {:induction false} StaysFilled<T>(c: Chain<T>, p: nat, pos: nat, x: Entry<T>, n: nat, m: Chain<T>)
    requires Filled(c, n) && n >= 1 && p < |c| && pos <= |c[p]| && Replaces(m, c[p], pos, x, n)
    ensures Filled(c[..p] + m + c[p + 1..], n)
  {
    var d := c[..p] + m + c[p + 1..];
    if |c[p]| == n { HalfFull(m, c[p], pos, x, n); }
    forall i | 0 <= i < |d|
      ensures 1 <= |d[i]| <= n && (|d| >= 2 ==> (n + 1) / 2 <= |d[i]|)
    {
      if p <= i < p + |m| {
        assert d[i] == m[i - p];
      } else {
        assert d[i] == c[if i < p then i else i - |m| + 1];
      }
    }
  }

  ghost function With<T>(s: seq<Entry<T>>, k: nat, x: Entry<T>): seq<Entry<T>>
    requires k <= |s|
  {
    s[..k] + [x] + s[k..]
  }

  lemma {:induction false} OnPage<T>(c: Chain<T>, p: nat, pos: nat)
    requires p < |c| && pos < |c[p]|
    ensures c[p][pos] in Flat(c)
  {
    FlatAround(c, p);
    assert (Flat(c[..p]) + c[p])[|Flat(c[..p])| + pos] == c[p][pos];
  }

  /** An insertion of the key needs a new page. */
  ghost predicate Full<T>(c: Chain<T>, key: int, n: nat)
    requires forall i :: 0 <= i < |c| ==> |c[i]| >= 1
  {
    c == [] || exists p: nat :: Home(c, key, p) && |c[p]| == n
  }

  lemma {:induction false} FullHere<T>(c: Chain<T>, key: int, n: nat, p: nat)
    requires (forall i :: 0 <= i < |c| ==> |c[i]| >= 1) && c != [] && Home(c, key, p)
    ensures Full(c, key, n) <==> |c[p]| == n
  {
    assert forall q: nat :: Home(c, key, q) ==> q == p;
  }

  /** What an insertion does to a chain. */
  ghost predicate Insertion<T>(c: Chain<T>, x: Entry<T>, c': Chain<T>, k: nat) {
    k <= |Flat(c)| && Flat(c') == With(Flat(c), k, x)
  }

  /** The insertion proper, once the place is known. */
  method InsertAt<T>(c: Chain<T>, p: nat, pos: nat, x: Entry<T>, n: nat) returns (c': Chain<T>, ghost k: nat)
    requires Valid(c, n) && Slot(c, x.key, p, pos)
    ensures Valid(c', n) && Insertion(c, x, c', k)
  {
    var m := Place(c[p], pos, x, n);
    c' := c[..p] + m + c[p + 1..];
    k := |Flat(c[..p]) + c[p][..pos]|;
    Inserted(c, p, pos, x, n, m);
  }

  lemma {:induction false} Single<T>(x: Entry<T>, n: nat)
    requires n >= 1
    ensures Valid([[x]], n) && Insertion([], x, [[x]], 0)
  {
    assert Flat([[x]]) == [x] + Flat([]);
  }

  /** PAGE_INSERT: an element with the same key is returned as it is; otherwise x goes where it
      belongs, unless a page is needed and cannot be allocated. */
  method Insert<T>(c: Chain<T>, x: Entry<T>, n: nat, memory: bool) returns (c': Chain<T>, ret: Option<Entry<T>>, ghost k: nat)
    requires Valid(c, n)
    ensures Valid(c', n)
    ensures ret.None? <==> !memory && x.key !in Keys(c) && Full(c, x.key, n)
    ensures ret.None? ==> c' == c
    ensures ret.Some? && x.key in Keys(c) ==> c' == c && ret.value in Flat(c) && ret.value.key == x.key
    ensures ret.Some? && x.key !in Keys(c) ==> ret.value == x && Insertion(c, x, c', k)
  {
    c', ret, k := c, None, 0;
    var hit, p, pos := Seek(c, x.key);
    if hit {
      OnPage(c, p, pos);
      ret := Some(c[p][pos]);
    } else if c == [] {
      if memory {
        Single(x, n);
        c', ret := [[x]], Some(x);
      }
    } else {
      SlotAbsent(c, x.key, p, pos);
      FullHere(c, x.key, n, p);
      if |c[p]| < n || memory {
        c', k := InsertAt(c, p, pos, x, n);
        ret := Some(x);
      }
    }
  }

  lemma {:induction false} Inserted<T>(c: Chain<T>, p: nat, pos: nat, x: Entry<T>, n: nat, m: Chain<T>)
    requires Valid(c, n) && Slot(c, x.key, p, pos) && Replaces(m, c[p], pos, x, n)
    ensures Valid(c[..p] + m + c[p + 1..], n)
    ensures Insertion(c, x, c[..p] + m + c[p + 1..], |Flat(c[..p]) + c[p][..pos]|)
  {
    StaysFilled(c, p, pos, x, n, m);
    FlatSwap(c, p, m);
    SlotAbsent(c, x.key, p, pos);
    Spread(Flat(c[..p]), c[p], pos, Flat(c[p + 1..]), x);
    Joined(Flat(c[..p]) + c[p][..pos], x, c[p][pos..] + Flat(c[p + 1..]));
  }

  /** A new element inside a page, seen from the whole sequence. */
  lemma {:induction false} Spread<T>(a: seq<Entry<T>>, page: seq<Entry<T>>, pos: nat, z: seq<Entry<T>>, x: Entry<T>)
    requires pos <= |page|
    ensures var l, r := a + page[..pos], page[pos..] + z;
      && a + (page[..pos] + [x] + page[pos..]) + z == l + [x] + r
      && With(l + r, |l|, x) == l + [x] + r
  {
    var l, r := a + page[..pos], page[pos..] + z;
    assert (l + r)[..|l|] == l && (l + r)[|l|..] == r;
  }

  lemma {:induction false} Joined<T>(a: seq<Entry<T>>, x: Entry<T>, b: seq<Entry<T>>)
    requires Ascending(a + b) && Below(a, x.key) && Above(b, x.key)
    ensures Ascending(a + [x] + b)
  {
    var s := a + [x] + b;
    forall i, j | 0 <= i < j < |s| ensures s[i].key < s[j].key {
      if i != |a| && j != |a| {
        assert s[i] == (a + b)[if i < |a| then i else i - 1];
        assert s[j] == (a + b)[if j < |a| then j else j - 1];
      }
    }
  }
}
