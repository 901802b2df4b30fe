/**
  The vocabulary of the stream allocator (lib/peak_stream.c): size_t arithmetic, streams as
  runs of pages, the invariant of the page pool and what follows from it.
 */
module StreamModel {

  newtype byte = x: int | 0 <= x < 256

  // ---------------------------------------------------------------- size_t

  const WORD := 0x1_0000_0000_0000_0000

  function Wrap(x: int): (r: nat)
    ensures r < WORD && (0 <= x < WORD ==> r == x)
  {
    x % WORD
  }

  lemma {:induction false} ModShift(x: int, k: int)
    ensures (x + k * WORD) % WORD == x % WORD
    decreases if k < 0 then -k else k
  {
    if k > 0 {
      ModShift(x, k - 1);
      assert (x + (k - 1) * WORD + WORD) % WORD == (x + (k - 1) * WORD) % WORD;
    } else if k < 0 {
      ModShift(x, k + 1);
      assert (x + (k + 1) * WORD - WORD) % WORD == (x + (k + 1) * WORD) % WORD;
    }
  }

  /** Wrapping early or late makes no difference. */
  lemma {:induction false} WrapPlus(a: int, b: int)
    ensures Wrap(Wrap(a) + b) == Wrap(a + b)
  {
    ModShift(a + b, -(a / WORD));
  }

  lemma {:induction false} WrapMinus(a: int, b: int)
    ensures Wrap(a - Wrap(b)) == Wrap(a - b)
  {
    ModShift(a - b, b / WORD);
  }

  // ---------------------------------------------------------------- pages

  /** p * ps, the offset of page p */
  function Addr(p: nat, ps: nat): nat { if p == 0 then 0 else Addr(p - 1, ps) + ps }

  /** x / ps and x % ps */
  function Quot(x: nat, ps: nat): nat
    requires ps > 0
  {
    if x < ps then 0 else 1 + Quot(x - ps, ps)
  }

  function Rest(x: nat, ps: nat): (r: nat)
    requires ps > 0
    ensures r < ps
  {
    if x < ps then x else Rest(x - ps, ps)
  }

  lemma {:induction false} QuotRest(x: nat, ps: nat)
    requires ps > 0
    ensures x == Addr(Quot(x, ps), ps) + Rest(x, ps)
  {
    if x >= ps { QuotRest(x - ps, ps); }
  }

  lemma {:induction false} QuotUnique(p: nat, r: nat, ps: nat)
    requires r < ps
    ensures Quot(Addr(p, ps) + r, ps) == p && Rest(Addr(p, ps) + r, ps) == r
  {
    if p > 0 { QuotUnique(p - 1, r, ps); }
  }

  lemma {:induction false} AddrMono(a: nat, b: nat, ps: nat)
    requires a <= b
    ensures Addr(a, ps) <= Addr(b, ps) && (a < b ==> Addr(a, ps) + ps <= Addr(b, ps))
  {
    if a < b { AddrMono(a, b - 1, ps); }
  }

  lemma {:induction false} AddrAdd(a: nat, b: nat, ps: nat)
    ensures Addr(a + b, ps) == Addr(a, ps) + Addr(b, ps)
  {
    if b > 0 { AddrAdd(a, b - 1, ps); }
  }

  /** They are the machine's operators. */
  lemma {:induction false} QuotIsDiv(x: nat, ps: nat)
    requires ps > 0
    ensures Quot(x, ps) == x / ps && Rest(x, ps) == x % ps
  {
    if x >= ps {
      QuotIsDiv(x - ps, ps);
      var q, r := (x - ps) / ps, (x - ps) % ps;
      assert x == (q + 1) * ps + r;
      DivUnique(x, ps, q + 1, r);
    } else {
      DivUnique(x, ps, 0, x);
    }
  }

  lemma {:induction false} DivUnique(x: int, ps: nat, q: int, r: nat)
    requires ps > 0 && x == q * ps + r && r < ps
    ensures x / ps == q && x % ps == r
  {
    var q', r' := x / ps, x % ps;
    assert x == q' * ps + r' && 0 <= r' < ps;
    assert (q - q') * ps == r' - r;
    if q > q' { MulAtLeast(q - q', ps); }
    if q < q' { MulAtLeast(q' - q, ps); }
  }

  lemma {:induction false} MulAtLeast(a: nat, b: nat)
    requires a >= 1
    ensures a * b >= b
  {
    assert a * b == (a - 1) * b + b;
  }

  /** The number of pages that x bytes need. */
  function Pages(x: nat, ps: nat): nat
    requires ps > 0
  {
    if x == 0 then 0 else Quot(x - 1, ps) + 1
  }

  lemma {:induction false} PagesBound(x: nat, ps: nat)
    requires ps > 0
    ensures Addr(Pages(x, ps), ps) >= x && (x > 0 ==> Pages(x, ps) > 0 && Addr(Pages(x, ps) - 1, ps) < x)
  {
    if x > 0 { QuotRest(x - 1, ps); }
  }

  lemma {:induction false} PagesExact(x: nat, ps: nat, n: nat)
    requires ps > 0 && Addr(n, ps) >= x && (n > 0 ==> Addr(n - 1, ps) < x)
    ensures Pages(x, ps) == n
  {
    PagesBound(x, ps);
    var m := Pages(x, ps);
    if m < n { AddrMono(m, n - 1, ps); }
    if n < m { AddrMono(n, m - 1, ps); }
  }

  /** ALLOC_ALIGN(x, ps), in size_t arithmetic */
  function AlignUp(x: nat, ps: nat): (r: nat)
    requires ps > 0
    ensures r < WORD
  {
    Wrap(Wrap(x + ps) - (if Rest(x, ps) != 0 then Rest(x, ps) else ps))
  }

  /** The pages for x bytes lie within the range of size_t. */
  predicate Fits(x: nat, ps: nat)
    requires ps > 0
  {
    Addr(Pages(x, ps), ps) < WORD
  }

  /** The macro computes the page count exactly as long as rounding up does not leave the range of
      size_t. */
  lemma {:induction false} AlignIsPages(x: nat, ps: nat)
    requires ps > 0 && x > 0
    ensures Quot(AlignUp(x, ps), ps) == Pages(x, ps) <==> Fits(x, ps)
  {
    var d, n := if Rest(x, ps) != 0 then Rest(x, ps) else ps, Pages(x, ps);
    assert x + ps - d == Addr(n, ps) by { RoundUp(x, ps); }
    assert AlignUp(x, ps) == Wrap(x + ps - d) by { WrapPlus(x + ps, 0 - d); }
    if Fits(x, ps) {
      QuotUnique(n, 0, ps);
    } else {
      QuotRest(AlignUp(x, ps), ps);
    }
  }

  /** The page count _peak_stream_claim computes for x bytes in all. */
  function PagesFor(x: nat, ps: nat): nat
    requires ps > 0
  {
    Quot(AlignUp(Wrap(x), ps), ps)
  }

  lemma {:induction false} PagesForFits(x: nat, ps: nat)
    requires ps > 0 && Fits(x, ps)
    ensures PagesFor(x, ps) == Pages(x, ps) && x < WORD && Wrap(x) == x
  {
    PagesBound(x, ps);
    if x > 0 {
      AlignIsPages(x, ps);
    } else {
      WrapPlus(ps, 0 - ps);
    }
  }

  /** Where rounding up wraps, the page count is zero. */
  lemma {:induction false} PagesForWraps(x: nat, ps: nat)
    requires 0 < ps < WORD && x < WORD && !Fits(x, ps)
    ensures PagesFor(x, ps) == 0
  {
    var d, n := if Rest(x, ps) != 0 then Rest(x, ps) else ps, Pages(x, ps);
    assert x + ps - d == Addr(n, ps) by { RoundUp(x, ps); }
    assert AlignUp(x, ps) == Wrap(x + ps - d) by { WrapPlus(x + ps, 0 - d); }
    WrapOnce(x + ps - d);
  }

  lemma {:induction false} WrapOnce(x: nat)
    requires WORD <= x < 2 * WORD
    ensures Wrap(x) == x - WORD
  {
  }

  lemma {:induction false} RoundUp(x: nat, ps: nat)
    requires ps > 0 && x > 0
    ensures x + ps - (if Rest(x, ps) != 0 then Rest(x, ps) else ps) == Addr(Pages(x, ps), ps)
  {
    var q, r := Quot(x, ps), Rest(x, ps);
    QuotRest(x, ps);
    PagesExact(x, ps, if r == 0 then q else q + 1);
  }

  // ---------------------------------------------------------------- the free list

  /** The in-order sequence of the page tree. */
  predicate Ascending(s: seq<int>) { forall i, j :: 0 <= i < j < |s| ==> s[i] < s[j] }

  ghost function SetOf(s: seq<int>): set<int> { set p | p in s }

  /** n consecutive free pages, from r on */
  ghost predicate RunAt(free: set<int>, r: int, n: int) {
    forall p :: r <= p < r + n ==> p in free
  }

  ghost predicate LowestRun(free: set<int>, r: int, n: int) {
    RunAt(free, r, n) && forall q {:trigger RunAt(free, q, n)} :: RunAt(free, q, n) ==> r <= q
  }

  ghost predicate HasRun(free: set<int>, n: int) { exists r :: RunAt(free, r, n) }

  /** n neighbours in the sequence hold consecutive pages */
  ghost predicate Consecutive(s: seq<int>, base: nat, n: nat) {
    base + n <= |s| && forall k :: base <= k < base + n ==> s[k] == s[base] + (k - base)
  }

  ghost predicate Within(p: int, a: int, n: int) { a <= p < a + n }

  ghost function Interval(a: int, n: int): set<int> { set p | a <= p < a + n && Within(p, a, n) }

  /** Consecutive free pages are neighbours in the sequence. */
  lemma {:induction false} RunInSeq(s: seq<int>, b: nat, n: nat)
    requires Ascending(s) && b < |s| && RunAt(SetOf(s), s[b], n) && n >= 1
    ensures Consecutive(s, b, n)
  {
    if n > 1 {
      RunInSeq(s, b, n - 1);
      var q, e := s[b] + (n - 1), b + (n - 2);
      assert q in SetOf(s);
      var k :| 0 <= k < |s| && s[k] == q;
      assert s[e] == q - 1;
      assert e + 1 <= k;
      assert s[e] < s[e + 1] <= s[k];
    }
  }

  /** A stretch that ends in a gap, or at the end, holds no start of a longer run. */
  lemma {:induction false} NoRunHere(s: seq<int>, base: nat, i: nat, n: nat, q: int)
    requires Ascending(s) && 1 <= i < n && Consecutive(s, base, i)
    requires base + i == |s| || s[base + i] != s[base] + i
    requires s[base] <= q && (base + i < |s| ==> q < s[base + i])
    ensures !RunAt(SetOf(s), q, n)
  {
    var x := s[base] + i;
    assert s[base + (i - 1)] == x - 1;
    forall k | 0 <= k < |s| ensures s[k] != x {
      assert k < base + i ==> s[k] <= s[base + (i - 1)];
      assert k > base + i ==> s[base + i] < s[k];
    }
    if q in SetOf(s) {
      var b :| 0 <= b < |s| && s[b] == q;
      assert base <= b < base + i;
      assert q <= x < q + n && x !in SetOf(s);
    } else {
      assert q <= q < q + n;
    }
  }

  /** Taking a stretch out of the sequence takes an interval out of the set. */
  lemma {:induction false} CutRun(s: seq<int>, base: nat, n: nat)
    requires Ascending(s) && base < |s| && n >= 1 && Consecutive(s, base, n)
    ensures Ascending(s[..base] + s[base + n..])
    ensures SetOf(s[..base] + s[base + n..]) == SetOf(s) - Interval(s[base], n)
  {
    var t, e := s[..base] + s[base + n..], base + (n - 1);
    assert s[e] == s[base] + (n - 1);
    assert forall i :: 0 <= i < |t| ==> t[i] == s[if i < base then i else i + n];
    forall p | p in t ensures p in s && p !in Interval(s[base], n) {
      var i :| 0 <= i < |t| && t[i] == p;
      var k := if i < base then i else i + n;
      assert s[k] == p;
      assert k < base ==> s[k] < s[base];
      assert k > e ==> s[e] < s[k];
    }
    forall p | p in s && p !in Interval(s[base], n) ensures p in t {
      var k :| 0 <= k < |s| && s[k] == p;
      assert t[if k < base then k else k - n] == p;
    }
  }

  // ---------------------------------------------------------------- streams

  /** struct _peak_stream; buf is the offset of the data in the page memory */
  datatype Stream = Stream(pageNo: int, pageCount: int, buf: int, len: int)

  function Off(s: Stream, ps: nat): int
    requires s.pageNo >= 0
  {
    s.buf - Addr(s.pageNo, ps)
  }

  ghost function Range(s: Stream): set<int> { Interval(s.pageNo, s.pageCount) }

  ghost predicate StreamOk(s: Stream, ps: nat, total: nat)
    requires ps > 0
  {
    && 0 <= s.pageNo && 1 <= s.pageCount && s.pageNo + s.pageCount <= total
    && 0 <= Off(s, ps) < ps && 1 <= s.len && s.pageCount == Pages(Off(s, ps) + s.len, ps)
  }

  /** The allocator invariant: free pages and the page ranges of live streams never meet. */
  ghost predicate Sound(ps: nat, total: nat, free: set<int>, live: map<nat, Stream>)
    requires ps > 0
  {
    && free <= Interval(0, total)
    && (forall i :: i in live ==> StreamOk(live[i], ps, total) && Range(live[i]) !! free)
    && (forall i, j :: i in live && j in live && i != j ==> Range(live[i]) !! Range(live[j]))
  }

  lemma {:induction false} FewPages(free: set<int>, total: nat)
    requires forall p :: p in free ==> 0 <= p < total
    ensures |free| <= total
  {
    if total > 0 {
      FewPages(free - {total - 1}, total - 1);
    } else if free != {} {
      var p := Pick(free);
      assert false;
    }
  }

  lemma {:induction false} Pick<T>(s: set<T>) returns (x: T)
    requires s != {}
    ensures x in s
  {
    x :| x in s;
  }

  /** Every live stream owns a page of its own, so streams and free pages fit the pool together. */
  lemma {:induction false} FewStreams(ps: nat, total: nat, free: set<int>, live: map<nat, Stream>)
    requires ps > 0 && Sound(ps, total, free, live)
    ensures |live| + |free| <= total
    decreases |live|
  {
    if live.Keys == {} {
      assert live == map[];
      FewPages(free, total);
    } else {
      var i :| i in live;
      var p, live' := live[i].pageNo, Without(live, i);
      OneLess(live, i);
      PageForStream(ps, total, free, live, i, live');
      FewStreams(ps, total, free + {p}, live');
    }
  }

  lemma {:induction false} OneLess(live: map<nat, Stream>, i: nat)
    requires i in live
    ensures Without(live, i).Keys == live.Keys - {i} && |Without(live, i)| == |live| - 1
  {
    var live' := Without(live, i);
    assert live'.Keys == live.Keys - {i};
    assert |live'.Keys| == |live.Keys| - 1;
  }

  lemma {:induction false} PageForStream(ps: nat, total: nat, free: set<int>, live: map<nat, Stream>, i: nat, live': map<nat, Stream>)
    requires ps > 0 && Sound(ps, total, free, live) && i in live
    requires live'.Keys == live.Keys - {i} && forall j :: j in live' ==> live'[j] == live[j]
    ensures Sound(ps, total, free + {live[i].pageNo}, live') && live[i].pageNo !in free
  {
    var p := live[i].pageNo;
    assert p in Range(live[i]);
  }

  // ---------------------------------------------------------------- page memory

  /** Byte a of the page memory is byte a % ps of page a / ps. */
  function At(mem: seq<seq<byte>>, ps: nat, a: int): byte
    requires ps > 0
  {
    if a >= 0 && Quot(a, ps) < |mem| && Rest(a, ps) < |mem[Quot(a, ps)]| then mem[Quot(a, ps)][Rest(a, ps)] else 0
  }

  function Bytes(mem: seq<seq<byte>>, ps: nat, s: Stream): (r: seq<byte>)
    requires ps > 0 && s.len >= 0
    ensures |r| == s.len && forall k {:trigger r[k]} :: 0 <= k < s.len ==> r[k] == At(mem, ps, s.buf + k)
  {
    seq<byte>(s.len, k requires 0 <= k < s.len => At(mem, ps, s.buf + k))
  }

  /** The memory after writing b at address a. */
  function Poke(mem: seq<seq<byte>>, ps: nat, a: nat, b: byte): seq<seq<byte>>
    requires ps > 0 && Quot(a, ps) < |mem| && |mem[Quot(a, ps)]| == ps
  {
    mem[Quot(a, ps) := mem[Quot(a, ps)][Rest(a, ps) := b]]
  }

  lemma {:induction false} PokeAt(mem: seq<seq<byte>>, ps: nat, a: nat, b: byte, x: nat)
    requires ps > 0 && Quot(a, ps) < |mem| && |mem[Quot(a, ps)]| == ps
    ensures At(Poke(mem, ps, a, b), ps, x) == if x == a then b else At(mem, ps, x)
  {
    QuotRest(a, ps);
    QuotRest(x, ps);
  }

  ghost predicate SamePages(mem: seq<seq<byte>>, mem': seq<seq<byte>>, on: set<int>) {
    |mem'| == |mem| && forall p :: p in on && 0 <= p < |mem| ==> mem'[p] == mem[p]
  }

  /** Every byte of a stream lies on a page the stream owns. */
  lemma {:induction false} OnOwnPages(s: Stream, ps: nat, total: nat, k: int)
    requires ps > 0 && StreamOk(s, ps, total) && 0 <= k < s.len
    ensures s.buf + k >= 0 && s.pageNo <= Quot(s.buf + k, ps) < s.pageNo + s.pageCount
  {
    var x := Off(s, ps) + k;
    var q, r := Quot(x, ps), Rest(x, ps);
    QuotRest(x, ps);
    AddrAdd(s.pageNo, q, ps);
    QuotUnique(s.pageNo + q, r, ps);
    PagesBound(Off(s, ps) + s.len, ps);
    if q >= s.pageCount { AddrMono(s.pageCount, q, ps); }
  }

  lemma {:induction false} SameAt(mem: seq<seq<byte>>, mem': seq<seq<byte>>, ps: nat, a: int, on: set<int>)
    requires ps > 0 && (a >= 0 ==> Quot(a, ps) in on) && SamePages(mem, mem', on)
    ensures At(mem', ps, a) == At(mem, ps, a)
  {
  }

  lemma {:induction false} BytesKept(mem: seq<seq<byte>>, mem': seq<seq<byte>>, s: Stream, ps: nat, total: nat)
    requires ps > 0 && StreamOk(s, ps, total) && SamePages(mem, mem', Range(s))
    ensures Bytes(mem', ps, s) == Bytes(mem, ps, s)
  {
    var b, b' := Bytes(mem, ps, s), Bytes(mem', ps, s);
    forall k | 0 <= k < s.len ensures b'[k] == b[k] {
      OnOwnPages(s, ps, total, k);
      SameAt(mem, mem', ps, s.buf + k, Range(s));
    }
  }

  // ---------------------------------------------------------------- what the operations do to the invariant

  lemma {:induction false} PagesLess(x: nat, q: nat, ps: nat)
    requires ps > 0 && x >= Addr(q, ps)
    ensures Pages(x, ps) >= q && Pages(x - Addr(q, ps), ps) == Pages(x, ps) - q
  {
    var n := Pages(x, ps);
    PagesBound(x, ps);
    if n < q { AddrMono(n, q - 1, ps); }
    AddrAdd(n - q, q, ps);
    if n > q { AddrAdd(n - q - 1, q, ps); }
    PagesExact(x - Addr(q, ps), ps, n - q);
  }

  ghost function Without(live: map<nat, Stream>, id: nat): map<nat, Stream> {
    map j | j in live && j != id :: live[j]
  }

  /** A new stream on free pages. */
  lemma {:induction false} SoundFresh(ps: nat, total: nat, free: set<int>, live: map<nat, Stream>, id: nat, r: int, n: nat, size: nat)
    requires ps > 0 && Sound(ps, total, free, live) && id !in live
    requires size > 0 && n == Pages(size, ps) && RunAt(free, r, n)
    ensures n >= 1 && r >= 0 && Sound(ps, total, free - Interval(r, n), live[id := Stream(r, n, Addr(r, ps), size)])
  {
    assert r in free && r + (n - 1) in free;
    var s := Stream(r, n, Addr(r, ps), size);
    assert Range(s) <= free;
    assert StreamOk(s, ps, total);
  }

  /** Replacing one stream's record by another whose pages it may own. */
  lemma {:induction false} SoundReplace(ps: nat, total: nat, free: set<int>, live: map<nat, Stream>, id: nat, free': set<int>, s': Stream)
    requires ps > 0 && Sound(ps, total, free, live) && id in live && StreamOk(s', ps, total)
    requires free' <= free + Range(live[id]) && Range(s') <= Range(live[id]) + free && Range(s') !! free'
    ensures Sound(ps, total, free', live[id := s'])
  {
    var live' := live[id := s'];
    assert forall j :: j in live && j != id ==> Range(live[j]) !! Range(live[id]);
    assert Range(live[id]) <= Interval(0, total);
  }

  lemma {:induction false} SoundDrop(ps: nat, total: nat, free: set<int>, live: map<nat, Stream>, id: nat, free': set<int>)
    requires ps > 0 && Sound(ps, total, free, live) && id in live && free' <= free + Range(live[id])
    ensures Sound(ps, total, free', Without(live, id))
  {
    assert forall j :: j in live && j != id ==> Range(live[j]) !! Range(live[id]);
    assert Range(live[id]) <= Interval(0, total);
  }

  // ---------------------------------------------------------------- growing

  /** The pages a growth asks for; less than none if the code finds the stream too large already. */
  ghost function Need(s: Stream, ps: nat, size: nat): int
    requires ps > 0 && s.len >= 0
  {
    PagesFor(s.len + size, ps) - s.pageCount
  }

  /** The pages right behind the stream are not all free. */
  ghost predicate Blocked(s: Stream, ps: nat, free: set<int>, size: nat)
    requires ps > 0 && s.len >= 0
  {
    Need(s, ps, size) > 0 && !RunAt(free, s.pageNo + s.pageCount, Need(s, ps, size))
  }

  /** Growing within the range of size_t is safe for a stream that starts on a page boundary, for one
      whose last page has the room, and for one that has to move. */
  ghost predicate GrowSafe(s: Stream, ps: nat, free: set<int>, size: nat)
    requires ps > 0 && s.pageNo >= 0 && s.len >= 0 && Off(s, ps) >= 0
  {
    && Fits(s.len + size, ps)
    && (|| Off(s, ps) == 0
        || (Need(s, ps, size) == 0 && Pages(Off(s, ps) + s.len + size, ps) == s.pageCount)
        || Blocked(s, ps, free, size))
  }

  /** Some way to grow exists: in place, or on a fresh run for all of it. */
  ghost predicate CanGrow(s: Stream, ps: nat, free: set<int>, size: nat)
    requires ps > 0 && s.len >= 0
  {
    !Blocked(s, ps, free, size) || HasRun(free, Pages(s.len + size, ps))
  }

  /** What _peak_stream_claim makes of a stream it grows in place. */
  ghost function GrowRecord(s: Stream, ps: nat, size: nat): Stream
    requires ps > 0 && s.pageNo >= 0 && s.len >= 0
  {
    if Need(s, ps, size) == 0 then s.(len := Wrap(s.len + size))
    else Stream(s.pageNo, s.pageCount + Need(s, ps, size), Addr(s.pageNo, ps), Wrap(s.len + size))
  }

  ghost function GrowFree(s: Stream, ps: nat, free: set<int>, size: nat): set<int>
    requires ps > 0 && s.len >= 0
  {
    free - Interval(s.pageNo + s.pageCount, Need(s, ps, size))
  }

  lemma {:induction false} StreamLength(s: Stream, ps: nat, total: nat)
    requires ps > 0 && StreamOk(s, ps, total) && Addr(total, ps) < WORD
    ensures s.len < WORD && ps < WORD && Fits(s.len, ps) && Pages(s.len, ps) <= s.pageCount
  {
    PagesGrow(s.len, Off(s, ps) + s.len, ps);
    PagesBound(s.len, ps);
    AddrMono(Pages(s.len, ps), total, ps);
    AddrMono(1, total, ps);
    assert Addr(1, ps) == Addr(0, ps) + ps;
  }

  /** A stream that has to move stays within the range of size_t. */
  lemma {:induction false} BlockedFits(s: Stream, ps: nat, total: nat, free: set<int>, size: nat)
    requires ps > 0 && StreamOk(s, ps, total) && Addr(total, ps) < WORD && size < WORD && Blocked(s, ps, free, size)
    ensures Fits(s.len + size, ps)
  {
    var x := s.len + size;
    StreamLength(s, ps, total);
    if x < WORD {
      if !Fits(x, ps) { PagesForWraps(x, ps); }
    } else {
      var y := x - WORD;
      WrapOnce(x);
      PagesGrow(y, s.len, ps);
      AddrMono(Pages(y, ps), Pages(s.len, ps), ps);
      PagesForFits(y, ps);
    }
  }

  /** Growth in place is refused exactly if one of the pages that are still needed behind the stream is
      taken. */
  lemma {:induction false} BlockedExact(s: Stream, ps: nat, total: nat, free: set<int>, size: nat)
    requires ps > 0 && StreamOk(s, ps, total) && Addr(total, ps) < WORD && size < WORD
    ensures Blocked(s, ps, free, size) <==>
      Fits(s.len + size, ps) && exists p :: s.pageNo + s.pageCount <= p < s.pageNo + Pages(s.len + size, ps) && p !in free
  {
    if Fits(s.len + size, ps) {
      PagesForFits(s.len + size, ps);
    } else if Blocked(s, ps, free, size) {
      BlockedFits(s, ps, total, free, size);
    }
  }

  /** What a growth in place does, and when it is safe, in terms of pages: the count becomes what the new
      length needs, the pages in between are taken, and the data moves to the first page if there are
      any. */
  lemma {:induction false} GrowExact(s: Stream, ps: nat, free: set<int>, size: nat)
    requires ps > 0 && s.pageNo >= 0 && s.len >= 0 && Off(s, ps) >= 0 && Fits(s.len + size, ps)
    ensures var n := Pages(s.len + size, ps); var r := GrowRecord(s, ps, size);
      && r == Stream(s.pageNo, n, if n == s.pageCount then s.buf else Addr(s.pageNo, ps), s.len + size)
      && GrowFree(s, ps, free, size) == free - Interval(s.pageNo + s.pageCount, n - s.pageCount)
      && (GrowSafe(s, ps, free, size) <==>
           Off(s, ps) == 0 || (n == s.pageCount && Pages(Off(s, ps) + s.len + size, ps) == n) || Blocked(s, ps, free, size))
  {
    PagesForFits(s.len + size, ps);
  }

  /** A growth is honest if the invariant holds, the data is where it was and the length is right. */
  ghost predicate Honest(ps: nat, total: nat, free: set<int>, live: map<nat, Stream>, id: nat, s: Stream, size: nat)
    requires ps > 0 && id in live
  {
    Sound(ps, total, free, live) && live[id].buf == s.buf && live[id].len == s.len + size
  }

  lemma {:induction false} GrowSound(ps: nat, total: nat, free: set<int>, live: map<nat, Stream>, id: nat, size: nat)
    requires ps > 0 && Sound(ps, total, free, live) && id in live
    requires size > 0 && !Blocked(live[id], ps, free, size) && GrowSafe(live[id], ps, free, size)
    ensures var s := live[id];
      Honest(ps, total, GrowFree(s, ps, free, size), live[id := GrowRecord(s, ps, size)], id, s, size)
  {
    var s := live[id];
    PagesForFits(s.len + size, ps);
    PagesGrow(s.len, s.len + size, ps);
    GrownOk(ps, total, free, s, size);
    SoundReplace(ps, total, free, live, id, GrowFree(s, ps, free, size), GrowRecord(s, ps, size));
  }

  /** Exactly the safe growths are honest. */
  lemma {:induction false} GrowVerdict(ps: nat, total: nat, free: set<int>, live: map<nat, Stream>, id: nat, size: nat)
    requires ps > 0 && Addr(total, ps) < WORD && Sound(ps, total, free, live) && id in live
    requires size > 0 && !Blocked(live[id], ps, free, size)
    ensures var s := live[id];
      GrowSafe(s, ps, free, size) <==>
        Honest(ps, total, GrowFree(s, ps, free, size), live[id := GrowRecord(s, ps, size)], id, s, size)
  {
    var s := live[id];
    var live' := live[id := GrowRecord(s, ps, size)];
    if GrowSafe(s, ps, free, size) {
      GrowSound(ps, total, free, live, id, size);
    } else if Fits(s.len + size, ps) {
      PagesForFits(s.len + size, ps);
      if Need(s, ps, size) == 0 { assert !StreamOk(live'[id], ps, total); }
    } else {
      StreamLength(s, ps, total);
      if s.len + size < WORD {
        PagesForWraps(s.len + size, ps);
        assert !StreamOk(live'[id], ps, total);
      }
    }
  }

  lemma {:induction false} PagesGrow(x: nat, y: nat, ps: nat)
    requires ps > 0 && x <= y
    ensures Pages(x, ps) <= Pages(y, ps)
  {
    PagesBound(x, ps);
    PagesBound(y, ps);
    if Pages(y, ps) < Pages(x, ps) { AddrMono(Pages(y, ps), Pages(x, ps) - 1, ps); }
  }

  lemma {:induction false} GrownOk(ps: nat, total: nat, free: set<int>, s: Stream, size: nat)
    requires ps > 0 && StreamOk(s, ps, total) && Range(s) !! free && free <= Interval(0, total) && size > 0
    requires GrowSafe(s, ps, free, size) && !Blocked(s, ps, free, size)
    requires Need(s, ps, size) == Pages(s.len + size, ps) - s.pageCount && Wrap(s.len + size) == s.len + size
    requires Off(s, ps) == 0 ==> Need(s, ps, size) >= 0
    ensures var s', free' := GrowRecord(s, ps, size), GrowFree(s, ps, free, size);
      && StreamOk(s', ps, total) && s'.buf == s.buf
      && free' <= free && Range(s') <= Range(s) + free && Range(s') !! free'
  {
    var need, e := Need(s, ps, size), s.pageNo + s.pageCount;
    if need > 0 {
      assert e + (need - 1) in free;
      assert Interval(e, need) <= free;
    }
  }

  lemma {:induction false} SameChain(m0: seq<seq<byte>>, m1: seq<seq<byte>>, m2: seq<seq<byte>>, a: set<int>, b: set<int>, c: set<int>)
    requires SamePages(m0, m1, a) && SamePages(m1, m2, b) && c <= a && c <= b
    ensures SamePages(m0, m2, c)
  {
  }

  /** A live stream does not notice what happens to free pages. */
  lemma {:induction false} LiveKept(ps: nat, total: nat, free: set<int>, live: map<nat, Stream>, i: nat, mem: seq<seq<byte>>, mem': seq<seq<byte>>)
    requires ps > 0 && Sound(ps, total, free, live) && i in live && SamePages(mem, mem', Interval(0, total) - free)
    ensures Bytes(mem', ps, live[i]) == Bytes(mem, ps, live[i])
  {
    assert Range(live[i]) <= Interval(0, total) - free;
    BytesKept(mem, mem', live[i], ps, total);
  }

  /** All streams but one are where they were and hold what they held. */
  ghost predicate OthersKept(ps: nat, live: map<nat, Stream>, mem: seq<seq<byte>>, live': map<nat, Stream>, mem': seq<seq<byte>>, but: nat)
    requires ps > 0 && forall i :: i in live ==> live[i].len >= 0
  {
    forall i :: i in live && i != but ==>
      i in live' && live'[i] == live[i] && Bytes(mem', ps, live[i]) == Bytes(mem, ps, live[i])
  }

  lemma {:induction false} OthersAreKept(ps: nat, total: nat, free: set<int>, live: map<nat, Stream>, mem: seq<seq<byte>>,
      live': map<nat, Stream>, mem': seq<seq<byte>>, but: nat, gone: set<int>)
    requires ps > 0 && Sound(ps, total, free, live)
    requires forall i :: i in live && i != but ==> i in live' && live'[i] == live[i]
    requires gone <= if but in live then Range(live[but]) else {}
    requires SamePages(mem, mem', Interval(0, total) - free - gone)
    ensures OthersKept(ps, live, mem, live', mem', but)
  {
    forall i | i in live && i != but ensures Bytes(mem', ps, live[i]) == Bytes(mem, ps, live[i]) {
      BytesKept(mem, mem', live[i], ps, total);
    }
  }

  /** The free pages after s moved to d. */
  ghost function MovedFree(free: set<int>, s: Stream, d: Stream, ps: nat): set<int>
    requires ps > 0 && s.pageNo >= 0 && s.len >= 0 && Off(s, ps) >= 0
  {
    free - Range(d) + Interval(s.pageNo, Quot(Off(s, ps) + s.len, ps))
  }

  /** A stream was copied to d and its old place released. */
  lemma {:induction false} MovedAway(ps: nat, total: nat, free: set<int>, live: map<nat, Stream>, id: nat, n: nat, d: Stream, q: nat,
      free': set<int>, live': map<nat, Stream>, m0: seq<seq<byte>>, m1: seq<seq<byte>>, m2: seq<seq<byte>>)
    requires ps > 0 && Sound(ps, total, free, live) && id in live && n !in live && q <= live[id].pageCount && d.len >= 0
    requires free' == free - Range(d) + Interval(live[id].pageNo, q) && live' == Without(live[n := d], id)
    requires Sound(ps, total, free', live')
    requires SamePages(m0, m1, Interval(0, total) - free) && SamePages(m1, m2, Interval(0, total) - free')
    ensures Bytes(m2, ps, d) == Bytes(m1, ps, d)
    ensures OthersKept(ps, live, m0, live', m2, id)
  {
    var freed := Interval(live[id].pageNo, q);
    assert live'[n] == d;
    LiveKept(ps, total, free', live', n, m1, m2);
    SameChain(m0, m1, m2, Interval(0, total) - free, Interval(0, total) - free', Interval(0, total) - free - freed);
    OthersAreKept(ps, total, free, live, m0, live', m2, id, freed);
  }

  /** In place, the old bytes stay the first bytes. */
  lemma {:induction false} GrownBytes(mem: seq<seq<byte>>, mem': seq<seq<byte>>, s: Stream, s': Stream, ps: nat, total: nat)
    requires ps > 0 && StreamOk(s, ps, total) && SamePages(mem, mem', Range(s)) && s'.buf == s.buf && s'.len >= s.len
    ensures Bytes(mem', ps, s')[..s.len] == Bytes(mem, ps, s)
  {
    BytesKept(mem, mem', s, ps, total);
    assert forall k :: 0 <= k < s.len ==> Bytes(mem', ps, s')[k] == Bytes(mem', ps, s)[k];
  }

  // ---------------------------------------------------------------- conservation

  ghost function Owned(live: map<nat, Stream>): set<int> {
    set i, p | i in live.Keys && p in Range(live[i]) :: p
  }

  /** Pages that are neither free nor owned: no operation can ever hand them out again. */
  ghost function Leaked(total: nat, free: set<int>, live: map<nat, Stream>): set<int> {
    Interval(0, total) - free - Owned(live)
  }

  /** One stream's record changed from s to s'. */
  lemma {:induction false} OwnedReplace(ps: nat, total: nat, free: set<int>, live: map<nat, Stream>, id: nat, s': Stream)
    requires ps > 0 && Sound(ps, total, free, live) && id in live
    ensures Owned(live[id := s']) == Owned(live) - Range(live[id]) + Range(s')
  {
    var live' := live[id := s'];
    forall p | p in Owned(live') ensures p in Owned(live) - Range(live[id]) + Range(s') {
      var i :| i in live' && p in Range(live'[i]);
    }
    forall p | p in Owned(live) - Range(live[id]) + Range(s') ensures p in Owned(live') {
      if p in Range(s') {
        assert p in Range(live'[id]);
      } else {
        var i :| i in live && p in Range(live[i]);
        assert live'[i] == live[i];
      }
    }
  }

  lemma {:induction false} OwnedDrop(ps: nat, total: nat, free: set<int>, live: map<nat, Stream>, id: nat)
    requires ps > 0 && Sound(ps, total, free, live) && id in live
    ensures Owned(Without(live, id)) == Owned(live) - Range(live[id])
  {
    var live' := Without(live, id);
    forall p | p in Owned(live) - Range(live[id]) ensures p in Owned(live') {
      var i :| i in live && p in Range(live[i]);
      assert live'[i] == live[i];
    }
    forall p | p in Owned(live') ensures p in Owned(live) - Range(live[id]) {
      var i :| i in live' && p in Range(live'[i]);
      assert Range(live[i]) !! Range(live[id]);
    }
  }

  lemma {:induction false} OwnedAdd(live: map<nat, Stream>, id: nat, s: Stream)
    requires id !in live
    ensures Owned(live[id := s]) == Owned(live) + Range(s)
  {
    var live' := live[id := s];
    forall p | p in Owned(live) + Range(s) ensures p in Owned(live') {
      if p in Range(s) {
        assert p in Range(live'[id]);
      } else {
        var i :| i in live && p in Range(live[i]);
        assert live'[i] == live[i];
      }
    }
  }

  /** The pages a full release leaves behind: the last one, if the data ended inside it. */
  ghost function LostPages(s: Stream, ps: nat, size: nat): set<int>
    requires ps > 0 && s.pageNo >= 0 && s.len >= 0 && Off(s, ps) >= 0
  {
    if size == s.len && Rest(Off(s, ps) + s.len, ps) != 0 then {s.pageNo + s.pageCount - 1} else {}
  }

  /** Streams that start on a page boundary and end on one. */
  ghost predicate WholePages(ps: nat, live: map<nat, Stream>)
    requires ps > 0 && forall i :: i in live ==> live[i].pageNo >= 0 && live[i].len >= 0
  {
    forall i :: i in live ==> Off(live[i], ps) == 0 && Rest(live[i].len, ps) == 0
  }

  /** A stream that lost its first size bytes and the pages they filled. */
  ghost function Shrunk(s: Stream, ps: nat, size: nat): Stream
    requires ps > 0 && s.pageNo >= 0 && Off(s, ps) >= 0
  {
    var q := Quot(Off(s, ps) + size, ps);
    Stream(s.pageNo + q, s.pageCount - q, s.buf + size, s.len - size)
  }

  /** The arithmetic of a release: x bytes into the first page, y bytes to the end. */
  lemma {:induction false} ShrunkArith(x: nat, y: nat, ps: nat)
    requires ps > 0 && x <= y
    ensures var q := Quot(x, ps);
      && q <= Pages(y, ps) && Addr(q, ps) <= x
      && Pages(y - Addr(q, ps), ps) == Pages(y, ps) - q
      && (x == y ==> Pages(y, ps) - q == if Rest(y, ps) == 0 then 0 else 1)
  {
    var q, r := Quot(x, ps), Rest(x, ps);
    QuotRest(x, ps);
    PagesLess(y, q, ps);
    if x == y { PagesExact(r, ps, if r == 0 then 0 else 1); }
  }

  lemma {:induction false} ShrunkOk(s: Stream, ps: nat, total: nat, size: nat)
    requires ps > 0 && StreamOk(s, ps, total) && size <= s.len
    ensures var q := Quot(Off(s, ps) + size, ps);
      && q <= s.pageCount
      && (size < s.len ==> StreamOk(Shrunk(s, ps, size), ps, total))
      && (size == s.len ==> s.pageCount - q == if Rest(Off(s, ps) + s.len, ps) == 0 then 0 else 1)
  {
    var x := Off(s, ps) + size;
    var q := Quot(x, ps);
    ShrunkArith(x, Off(s, ps) + s.len, ps);
    QuotRest(x, ps);
    AddrAdd(s.pageNo, q, ps);
  }

  lemma {:induction false} LeakShrink(ps: nat, total: nat, free: set<int>, live: map<nat, Stream>, id: nat, size: nat)
    requires ps > 0 && Sound(ps, total, free, live) && id in live && 0 < size <= live[id].len
    ensures var s := live[id];
      var free' := free + Interval(s.pageNo, Quot(Off(s, ps) + size, ps));
      var live' := if size < s.len then live[id := Shrunk(s, ps, size)] else Without(live, id);
      Leaked(total, free', live') == Leaked(total, free, live) + LostPages(s, ps, size)
  {
    var s := live[id];
    ShrunkOk(s, ps, total, size);
    assert Range(s) <= Owned(live) by {
      forall p | p in Range(s) ensures p in Owned(live) { assert id in live.Keys; }
    }
    assert Range(s) <= Interval(0, total) && Range(s) !! free;
    var front, lost := Interval(s.pageNo, Quot(Off(s, ps) + size, ps)), LostPages(s, ps, size);
    if size < s.len {
      OwnedReplace(ps, total, free, live, id, Shrunk(s, ps, size));
      Accounts(Interval(0, total), free, Owned(live), Range(s), front, Range(Shrunk(s, ps, size)), lost);
    } else {
      OwnedDrop(ps, total, free, live, id);
      Accounts(Interval(0, total), free, Owned(live), Range(s), front, {}, lost);
    }
  }

  /** A range of owned pages splits into pages that become free, pages kept and pages lost. */
  lemma {:induction false} Accounts<T>(all: set<T>, free: set<T>, owned: set<T>, range: set<T>, front: set<T>, rest: set<T>, lost: set<T>)
    requires range <= owned && range <= all && range !! free
    requires range == front + rest + lost && lost !! front && lost !! rest
    ensures all - (free + front) - (owned - range + rest) == all - free - owned + lost
  {
  }

  lemma {:induction false} RestAdd(x: nat, y: nat, ps: nat)
    requires ps > 0 && Rest(x, ps) == 0 && Rest(y, ps) == 0
    ensures Rest(x + y, ps) == 0 && (y <= x ==> Rest(x - y, ps) == 0)
  {
    QuotRest(x, ps);
    QuotRest(y, ps);
    var a, b := Quot(x, ps), Quot(y, ps);
    AddrAdd(a, b, ps);
    QuotUnique(a + b, 0, ps);
    if y <= x {
      if a < b { AddrMono(a, b, ps); }
      AddrAdd(a - b, b, ps);
      QuotUnique(a - b, 0, ps);
    }
  }

  lemma {:induction false} WholeShrink(ps: nat, total: nat, s: Stream, size: nat)
    requires ps > 0 && StreamOk(s, ps, total) && size <= s.len
    requires Off(s, ps) == 0 && Rest(s.len, ps) == 0 && Rest(size, ps) == 0
    ensures LostPages(s, ps, size) == {}
    ensures Off(Shrunk(s, ps, size), ps) == 0 && Rest(Shrunk(s, ps, size).len, ps) == 0
  {
    RestAdd(s.len, size, ps);
    QuotRest(size, ps);
    AddrAdd(s.pageNo, Quot(size, ps), ps);
  }

  lemma {:induction false} ShrunkBytes(mem: seq<seq<byte>>, mem': seq<seq<byte>>, s: Stream, ps: nat, total: nat, size: nat)
    requires ps > 0 && StreamOk(s, ps, total) && size < s.len && SamePages(mem, mem', Range(Shrunk(s, ps, size)))
    ensures Bytes(mem', ps, Shrunk(s, ps, size)) == Bytes(mem, ps, s)[size..]
  {
    ShrunkOk(s, ps, total, size);
    var z := Shrunk(s, ps, size);
    BytesKept(mem, mem', z, ps, total);
    var b, c := Bytes(mem, ps, z), Bytes(mem, ps, s)[size..];
    forall k | 0 <= k < |b| ensures b[k] == c[k] {
      assert z.buf + k == s.buf + (size + k);
      assert c[k] == Bytes(mem, ps, s)[size + k];
    }
  }

  // ---------------------------------------------------------------- the arithmetic of the release loop

  /** One turn: the stream moves on by a page, in size_t arithmetic. */
  function NextPage(s: Stream, ps: nat): Stream {
    Stream(s.pageNo + 1, s.pageCount - 1, Wrap(s.buf + ps), Wrap(s.len - ps))
  }

  /** A word that changed by e k times */
  ghost function Turned(x: int, e: int, k: nat): int {
    if k == 0 then x else Wrap(Turned(x, e, k - 1) + e)
  }

  ghost function Turns(s: Stream, ps: nat, k: nat): Stream {
    Stream(s.pageNo + k, s.pageCount - k, Turned(s.buf, ps, k), Turned(s.len, -1 * ps, k))
  }

  /** It holds the true value modulo WORD. */
  lemma {:induction false} TurnedUp(x: nat, ps: nat, k: nat)
    requires x < WORD
    ensures Turned(x, ps, k) == Wrap(x + Addr(k, ps))
  {
    if k > 0 {
      TurnedUp(x, ps, k - 1);
      WrapPlus(x + Addr(k - 1, ps), ps);
    }
  }

  lemma {:induction false} TurnedDown(x: nat, ps: nat, k: nat)
    requires x < WORD
    ensures Turned(x, -1 * ps, k) == Wrap(x - Addr(k, ps))
  {
    if k > 0 {
      TurnedDown(x, ps, k - 1);
      WrapPlus(x - Addr(k - 1, ps), 0 - ps);
    }
  }

  lemma {:induction false} OffsetFits(s: Stream, ps: nat, total: nat)
    requires ps > 0 && StreamOk(s, ps, total) && Addr(total, ps) < WORD
    ensures 0 <= s.buf && s.buf + s.len <= Addr(total, ps)
  {
    AddrMono(s.pageNo + s.pageCount, total, ps);
    AddrAdd(s.pageNo, s.pageCount, ps);
    PagesBound(Off(s, ps) + s.len, ps);
  }

  /** The loop test, as the C code evaluates it, holds for exactly (offset + size) / ps turns. */
  lemma {:induction false} TurnTest(s: Stream, size: nat, ps: nat, total: nat, k: nat)
    requires ps > 0 && StreamOk(s, ps, total) && Addr(total, ps) < WORD && size <= s.len
    requires k <= Quot(Off(s, ps) + size, ps)
    ensures (s.pageCount - k != 0 && Wrap(Wrap(s.buf - Addr(s.pageNo, ps)) + Turned(size, -1 * ps, k)) >= ps)
              <==> k < Quot(Off(s, ps) + size, ps)
  {
    var x, q := Off(s, ps) + size, Quot(Off(s, ps) + size, ps);
    TurnValue(s, size, ps, total, k);
    ShrunkOk(s, ps, total, size);
    QuotRest(x, ps);
    AddrMono(k, q, ps);
  }

  lemma {:induction false} TurnValue(s: Stream, size: nat, ps: nat, total: nat, k: nat)
    requires ps > 0 && StreamOk(s, ps, total) && Addr(total, ps) < WORD && size <= s.len
    requires k <= Quot(Off(s, ps) + size, ps)
    ensures Wrap(Wrap(s.buf - Addr(s.pageNo, ps)) + Turned(size, -1 * ps, k)) == Off(s, ps) + size - Addr(k, ps)
  {
    TurnBounds(s, size, ps, total, k);
    TurnedDown(size, ps, k);
    TestValue(Off(s, ps), size, Addr(k, ps));
  }

  lemma {:induction false} TurnBounds(s: Stream, size: nat, ps: nat, total: nat, k: nat)
    requires ps > 0 && StreamOk(s, ps, total) && Addr(total, ps) < WORD && size <= s.len
    requires k <= Quot(Off(s, ps) + size, ps)
    ensures 0 <= Off(s, ps) < WORD && size < WORD && 0 <= Off(s, ps) + size - Addr(k, ps) < WORD
  {
    var x := Off(s, ps) + size;
    OffsetFits(s, ps, total);
    QuotRest(x, ps);
    AddrMono(k, Quot(x, ps), ps);
  }

  lemma {:induction false} TestValue(off: int, size: int, d: int)
    requires 0 <= off < WORD && 0 <= off + size - d < WORD
    ensures Wrap(Wrap(off) + Wrap(size - d)) == off + size - d
  {
    WrapPlus(size - d, off);
  }

  /** After the last turn, mopping up the rest moves the buffer by size and shortens it by size. */
  lemma {:induction false} MopUp(buf: nat, len: nat, size: nat, ps: nat, q: nat)
    requires buf + len < WORD && size <= len
    ensures Wrap(Turned(buf, ps, q) + Turned(size, -1 * ps, q)) == buf + size
    ensures Wrap(Turned(len, -1 * ps, q) - Turned(size, -1 * ps, q)) == len - size
  {
    MopBuffer(buf, size, ps, q);
    MopLength(len, size, ps, q);
  }

  lemma {:induction false} MopBuffer(buf: nat, size: nat, ps: nat, q: nat)
    requires buf + size < WORD
    ensures Wrap(Turned(buf, ps, q) + Turned(size, -1 * ps, q)) == buf + size
  {
    TurnedUp(buf, ps, q);
    TurnedDown(size, ps, q);
    SettleBuffer(buf, size, Addr(q, ps));
  }

  lemma {:induction false} MopLength(len: nat, size: nat, ps: nat, q: nat)
    requires size <= len < WORD
    ensures Wrap(Turned(len, -1 * ps, q) - Turned(size, -1 * ps, q)) == len - size
  {
    TurnedDown(len, ps, q);
    TurnedDown(size, ps, q);
    SettleLength(len, size, Addr(q, ps));
  }

  lemma {:induction false} SettleBuffer(buf: int, size: int, d: int)
    ensures Wrap(Wrap(buf + d) + Wrap(size - d)) == Wrap(buf + size)
  {
    WrapPlus(buf + d, Wrap(size - d));
    WrapPlus(size - d, buf + d);
  }

  lemma {:induction false} SettleLength(len: int, size: int, d: int)
    ensures Wrap(Wrap(len - d) - Wrap(size - d)) == Wrap(len - size)
  {
    WrapPlus(len - d, 0 - Wrap(size - d));
    WrapMinus(len - d, size - d);
  }

  // ---------------------------------------------------------------- runs of the allocator

  datatype Pool = Pool(free: set<int>, live: map<nat, Stream>)

  /** What one call does to the pool. */
  datatype Op =
    | Nothing
    | New(id: nat, r: nat, size: nat)
    | Extend(id: nat, size: nat)
    | Move(id: nat, n: nat, r: nat, size: nat)
    | Drop(id: nat, size: nat)

  ghost function NewStream(ps: nat, r: nat, len: nat): Stream
    requires ps > 0
  {
    Stream(r, Pages(len, ps), Addr(r, ps), len)
  }

  ghost predicate Enabled(ps: nat, total: nat, p: Pool, op: Op)
    requires ps > 0 && Sound(ps, total, p.free, p.live)
  {
    match op
    case Nothing => true
    case New(id, r, size) => id !in p.live && size > 0 && LowestRun(p.free, r, Pages(size, ps))
    case Extend(id, size) =>
      id in p.live && size > 0 && !Blocked(p.live[id], ps, p.free, size) && GrowSafe(p.live[id], ps, p.free, size)
    case Move(id, n, r, size) =>
      && id in p.live && n !in p.live && size > 0 && Blocked(p.live[id], ps, p.free, size)
      && LowestRun(p.free, r, Pages(p.live[id].len + size, ps))
    case Drop(id, size) => id in p.live && 0 < size <= p.live[id].len
  }

  ghost function Apply(ps: nat, total: nat, p: Pool, op: Op): Pool
    requires ps > 0 && Sound(ps, total, p.free, p.live) && Enabled(ps, total, p, op)
  {
    match op
    case Nothing => p
    case New(id, r, size) =>
      var d := NewStream(ps, r, size);
      Pool(p.free - Range(d), p.live[id := d])
    case Extend(id, size) =>
      Pool(GrowFree(p.live[id], ps, p.free, size), p.live[id := GrowRecord(p.live[id], ps, size)])
    case Move(id, n, r, size) =>
      var s := p.live[id]; var d := NewStream(ps, r, s.len + size);
      Pool(MovedFree(p.free, s, d, ps), Without(p.live[n := d], id))
    case Drop(id, size) =>
      var s := p.live[id];
      Pool(p.free + Interval(s.pageNo, Quot(Off(s, ps) + size, ps)),
           if size < s.len then p.live[id := Shrunk(s, ps, size)] else Without(p.live, id))
  }

  /** The pages a call takes out of circulation for good. */
  ghost function Lost(ps: nat, total: nat, p: Pool, op: Op): set<int>
    requires ps > 0 && Sound(ps, total, p.free, p.live) && Enabled(ps, total, p, op)
  {
    match op
    case Move(id, _, _, _) => LostPages(p.live[id], ps, p.live[id].len)
    case Drop(id, size) => LostPages(p.live[id], ps, size)
    case _ => {}
  }

  lemma {:induction false} ShrinkSound(ps: nat, total: nat, free: set<int>, live: map<nat, Stream>, id: nat, size: nat)
    requires ps > 0 && Sound(ps, total, free, live) && id in live && 0 < size <= live[id].len
    ensures var s := live[id];
      var free' := free + Interval(s.pageNo, Quot(Off(s, ps) + size, ps));
      Sound(ps, total, free', if size < s.len then live[id := Shrunk(s, ps, size)] else Without(live, id))
  {
    var s := live[id];
    ShrunkOk(s, ps, total, size);
    var free' := free + Interval(s.pageNo, Quot(Off(s, ps) + size, ps));
    if size < s.len {
      SoundReplace(ps, total, free, live, id, free', Shrunk(s, ps, size));
    } else {
      SoundDrop(ps, total, free, live, id, free');
    }
  }

  lemma {:induction false} MoveApplies(ps: nat, total: nat, p: Pool, id: nat, n: nat, size: nat, d: Stream, p': Pool)
    requires ps > 0 && Sound(ps, total, p.free, p.live) && id in p.live && n !in p.live && size > 0
    requires Blocked(p.live[id], ps, p.free, size)
    requires d.pageNo >= 0 && d == NewStream(ps, d.pageNo, p.live[id].len + size) && LowestRun(p.free, d.pageNo, d.pageCount)
    requires p'.free == MovedFree(p.free, p.live[id], d, ps) && p'.live == Without(p.live[n := d], id)
    ensures Enabled(ps, total, p, Move(id, n, d.pageNo, size)) && p' == Apply(ps, total, p, Move(id, n, d.pageNo, size))
  {
  }

  /** A move is a fresh stream followed by the release of the old one. */
  lemma {:induction false} MoveIsNewAndDrop(ps: nat, total: nat, p: Pool, id: nat, n: nat, r: nat, size: nat)
    requires ps > 0 && Sound(ps, total, p.free, p.live) && Enabled(ps, total, p, Move(id, n, r, size))
    ensures Enabled(ps, total, p, New(n, r, p.live[id].len + size))
    ensures var p1 := Apply(ps, total, p, New(n, r, p.live[id].len + size));
      && Sound(ps, total, p1.free, p1.live) && id in p1.live && p1.live[id] == p.live[id]
      && Enabled(ps, total, p1, Drop(id, p.live[id].len))
      && Apply(ps, total, p1, Drop(id, p.live[id].len)) == Apply(ps, total, p, Move(id, n, r, size))
  {
    var s := p.live[id];
    var d := NewStream(ps, r, s.len + size);
    MovedNew(ps, total, p, n, r, s.len + size);
    DroppedWhole(ps, total, Pool(p.free - Range(d), p.live[n := d]), id, s);
  }

  lemma {:induction false} DroppedWhole(ps: nat, total: nat, p: Pool, id: nat, s: Stream)
    requires ps > 0 && Sound(ps, total, p.free, p.live) && id in p.live && p.live[id] == s
    ensures Enabled(ps, total, p, Drop(id, s.len))
    ensures Apply(ps, total, p, Drop(id, s.len)) ==
      Pool(p.free + Interval(s.pageNo, Quot(Off(s, ps) + s.len, ps)), Without(p.live, id))
  {
  }

  lemma {:induction false} MovedNew(ps: nat, total: nat, p: Pool, n: nat, r: nat, len: nat)
    requires ps > 0 && Sound(ps, total, p.free, p.live) && Enabled(ps, total, p, New(n, r, len))
    ensures var d := NewStream(ps, r, len);
      && Apply(ps, total, p, New(n, r, len)) == Pool(p.free - Range(d), p.live[n := d])
      && Sound(ps, total, p.free - Range(d), p.live[n := d])
  {
    SoundFresh(ps, total, p.free, p.live, n, r, Pages(len, ps), len);
  }

  lemma {:induction false} MoveSound(ps: nat, total: nat, p: Pool, id: nat, n: nat, r: nat, size: nat)
    requires ps > 0 && Sound(ps, total, p.free, p.live) && Enabled(ps, total, p, Move(id, n, r, size))
    ensures var p' := Apply(ps, total, p, Move(id, n, r, size)); Sound(ps, total, p'.free, p'.live)
  {
    MoveIsNewAndDrop(ps, total, p, id, n, r, size);
    var p1 := Apply(ps, total, p, New(n, r, p.live[id].len + size));
    ShrinkSound(ps, total, p1.free, p1.live, id, p.live[id].len);
  }

  /** Every call keeps free pages and streams apart. */
  lemma {:induction false} ApplySound(ps: nat, total: nat, p: Pool, op: Op)
    requires ps > 0 && Sound(ps, total, p.free, p.live) && Enabled(ps, total, p, op)
    ensures var p' := Apply(ps, total, p, op); Sound(ps, total, p'.free, p'.live)
  {
    match op
    case Nothing =>
    case New(id, r, size) => SoundFresh(ps, total, p.free, p.live, id, r, Pages(size, ps), size);
    case Extend(id, size) => GrowSound(ps, total, p.free, p.live, id, size);
    case Move(id, n, r, size) => MoveSound(ps, total, p, id, n, r, size);
    case Drop(id, size) => ShrinkSound(ps, total, p.free, p.live, id, size);
  }

  lemma {:induction false} LeakNew(ps: nat, total: nat, p: Pool, id: nat, r: nat, size: nat)
    requires ps > 0 && Sound(ps, total, p.free, p.live) && Enabled(ps, total, p, New(id, r, size))
    ensures var p' := Apply(ps, total, p, New(id, r, size)); Leaked(total, p'.free, p'.live) == Leaked(total, p.free, p.live)
  {
    var d := NewStream(ps, r, size);
    OwnedAdd(p.live, id, d);
    assert Range(d) <= p.free;
  }

  lemma {:induction false} LeakExtend(ps: nat, total: nat, p: Pool, id: nat, size: nat)
    requires ps > 0 && Sound(ps, total, p.free, p.live) && Enabled(ps, total, p, Extend(id, size))
    ensures var p' := Apply(ps, total, p, Extend(id, size)); Leaked(total, p'.free, p'.live) == Leaked(total, p.free, p.live)
  {
    var s := p.live[id];
    var s', need := GrowRecord(s, ps, size), Need(s, ps, size);
    PagesForFits(s.len + size, ps);
    PagesGrow(s.len, s.len + size, ps);
    OwnedReplace(ps, total, p.free, p.live, id, s');
    assert Range(s') == Range(s) + Interval(s.pageNo + s.pageCount, need);
    assert Interval(s.pageNo + s.pageCount, need) <= p.free;
    assert Range(s) <= Owned(p.live) by {
      forall x | x in Range(s) ensures x in Owned(p.live) { assert id in p.live.Keys; }
    }
  }

  lemma {:induction false} LeakDrop(ps: nat, total: nat, p: Pool, id: nat, size: nat)
    requires ps > 0 && Sound(ps, total, p.free, p.live) && Enabled(ps, total, p, Drop(id, size))
    ensures var p' := Apply(ps, total, p, Drop(id, size));
      Leaked(total, p'.free, p'.live) == Leaked(total, p.free, p.live) + LostPages(p.live[id], ps, size)
  {
    LeakShrink(ps, total, p.free, p.live, id, size);
  }

  lemma {:induction false} LeakMove(ps: nat, total: nat, p: Pool, id: nat, n: nat, r: nat, size: nat)
    requires ps > 0 && Sound(ps, total, p.free, p.live) && Enabled(ps, total, p, Move(id, n, r, size))
    ensures var p' := Apply(ps, total, p, Move(id, n, r, size));
      Leaked(total, p'.free, p'.live) == Leaked(total, p.free, p.live) + LostPages(p.live[id], ps, p.live[id].len)
  {
    var len := p.live[id].len;
    MoveIsNewAndDrop(ps, total, p, id, n, r, size);
    LeakNew(ps, total, p, n, r, len + size);
    LeakDrop(ps, total, Apply(ps, total, p, New(n, r, len + size)), id, len);
  }

  /** Conservation: free, owned and lost pages add up, and a call loses a page exactly when a stream
      ends (or moves away from) inside it. */
  lemma {:induction false} Conservation(ps: nat, total: nat, p: Pool, op: Op)
    requires ps > 0 && Sound(ps, total, p.free, p.live) && Enabled(ps, total, p, op)
    ensures var p' := Apply(ps, total, p, op);
      Leaked(total, p'.free, p'.live) == Leaked(total, p.free, p.live) + Lost(ps, total, p, op)
  {
    match op
    case Nothing =>
    case New(id, r, size) => LeakNew(ps, total, p, id, r, size);
    case Extend(id, size) => LeakExtend(ps, total, p, id, size);
    case Move(id, n, r, size) => LeakMove(ps, total, p, id, n, r, size);
    case Drop(id, size) => LeakShrink(ps, total, p.free, p.live, id, size);
  }

  ghost predicate WholeOp(ps: nat, op: Op)
    requires ps > 0
  {
    op.Nothing? || Rest(op.size, ps) == 0
  }

  lemma {:induction false} WholeExtend(ps: nat, total: nat, p: Pool, id: nat, size: nat)
    requires ps > 0 && Sound(ps, total, p.free, p.live) && Enabled(ps, total, p, Extend(id, size))
    requires WholePages(ps, p.live) && Rest(size, ps) == 0
    ensures var s := GrowRecord(p.live[id], ps, size); s.len >= 0 && Off(s, ps) == 0 && Rest(s.len, ps) == 0
  {
    PagesForFits(p.live[id].len + size, ps);
    RestAdd(p.live[id].len, size, ps);
  }

  lemma {:induction false} WholeStep(ps: nat, total: nat, p: Pool, op: Op)
    requires ps > 0 && Sound(ps, total, p.free, p.live) && Enabled(ps, total, p, op)
    requires WholePages(ps, p.live) && WholeOp(ps, op)
    ensures Lost(ps, total, p, op) == {}
    ensures var p' := Apply(ps, total, p, op); Sound(ps, total, p'.free, p'.live) && WholePages(ps, p'.live)
  {
    ApplySound(ps, total, p, op);
    WholeLost(ps, total, p, op);
    WholeKept(ps, total, p, op);
  }

  lemma {:induction false} WholeLost(ps: nat, total: nat, p: Pool, op: Op)
    requires ps > 0 && Sound(ps, total, p.free, p.live) && Enabled(ps, total, p, op)
    requires WholePages(ps, p.live) && WholeOp(ps, op)
    ensures Lost(ps, total, p, op) == {}
  {
    match op
    case Move(id, n, r, size) => WholeMove(ps, total, p, id, n, r, size);
    case Drop(id, size) => WholeShrink(ps, total, p.live[id], size);
    case _ =>
  }

  lemma {:induction false} WholeKept(ps: nat, total: nat, p: Pool, op: Op)
    requires ps > 0 && Sound(ps, total, p.free, p.live) && Enabled(ps, total, p, op)
    requires WholePages(ps, p.live) && WholeOp(ps, op)
    requires var p' := Apply(ps, total, p, op); Sound(ps, total, p'.free, p'.live)
    ensures WholePages(ps, Apply(ps, total, p, op).live)
  {
    match op
    case Nothing =>
    case New(id, r, size) => WholeDropped(ps, p.live, id, NewStream(ps, r, size));
    case Extend(id, size) =>
      WholeExtend(ps, total, p, id, size);
      WholeDropped(ps, p.live, id, GrowRecord(p.live[id], ps, size));
    case Move(id, n, r, size) => WholeMoved(ps, total, p, id, n, r, size);
    case Drop(id, size) =>
      WholeShrink(ps, total, p.live[id], size);
      WholeDropped(ps, p.live, id, Shrunk(p.live[id], ps, size));
  }

  lemma {:induction false} WholeDropped(ps: nat, live: map<nat, Stream>, id: nat, s: Stream)
    requires ps > 0 && s.pageNo >= 0 && Off(s, ps) == 0 && s.len >= 0 && Rest(s.len, ps) == 0
    requires (forall i :: i in live ==> live[i].pageNo >= 0 && live[i].len >= 0) && WholePages(ps, live)
    ensures WholePages(ps, live[id := s]) && WholePages(ps, Without(live, id))
  {
  }

  lemma {:induction false} WholeMoved(ps: nat, total: nat, p: Pool, id: nat, n: nat, r: nat, size: nat)
    requires ps > 0 && Sound(ps, total, p.free, p.live) && Enabled(ps, total, p, Move(id, n, r, size))
    requires WholePages(ps, p.live) && Rest(size, ps) == 0
    ensures var live' := Apply(ps, total, p, Move(id, n, r, size)).live;
      (forall i :: i in live' ==> live'[i].pageNo >= 0 && live'[i].len >= 0) && WholePages(ps, live')
  {
    var d := NewStream(ps, r, p.live[id].len + size);
    WholeMove(ps, total, p, id, n, r, size);
    WholeDropped(ps, p.live, n, d);
    WholeDropped(ps, p.live[n := d], id, d);
  }

  lemma {:induction false} WholeMove(ps: nat, total: nat, p: Pool, id: nat, n: nat, r: nat, size: nat)
    requires ps > 0 && Sound(ps, total, p.free, p.live) && Enabled(ps, total, p, Move(id, n, r, size))
    requires WholePages(ps, p.live) && Rest(size, ps) == 0
    ensures LostPages(p.live[id], ps, p.live[id].len) == {}
    ensures var d := NewStream(ps, r, p.live[id].len + size); Off(d, ps) == 0 && Rest(d.len, ps) == 0
  {
    var s := p.live[id];
    RestAdd(s.len, size, ps);
    WholeShrink(ps, total, s, s.len);
  }

  // ---------------------------------------------------------------- all runs

  /** What the code does without asking whether it should: claims whose sizes wrap, and growths from
      the middle of a page. */
  ghost predicate Possible(ps: nat, total: nat, p: Pool, op: Op)
    requires ps > 0 && Sound(ps, total, p.free, p.live)
  {
    match op
    case New(id, r, size) =>
      && id !in p.live && 0 < size < WORD
      && (if Fits(size, ps) then LowestRun(p.free, r, Pages(size, ps)) else Least(p.free, r))
    case Extend(id, size) => id in p.live && 0 < size < WORD && !Blocked(p.live[id], ps, p.free, size)
    case _ => Enabled(ps, total, p, op)
  }

  ghost predicate Least(free: set<int>, r: int) {
    r in free && forall q :: q in free ==> r <= q
  }

  /** The record of a fresh stream, with the page count as the code computes it. */
  ghost function FreshStream(ps: nat, r: nat, size: nat): Stream
    requires ps > 0
  {
    Stream(r, PagesFor(size, ps), Addr(r, ps), size)
  }

  ghost function Effect(ps: nat, total: nat, p: Pool, op: Op): Pool
    requires ps > 0 && Sound(ps, total, p.free, p.live) && Possible(ps, total, p, op)
  {
    match op
    case New(id, r, size) =>
      var d := FreshStream(ps, r, size);
      Pool(p.free - Range(d), p.live[id := d])
    case Extend(id, size) =>
      Pool(GrowFree(p.live[id], ps, p.free, size), p.live[id := GrowRecord(p.live[id], ps, size)])
    case _ => Apply(ps, total, p, op)
  }

  /** A claim is safe if its size does not wrap and growing does not hurt the stream. */
  ghost predicate Safe(ps: nat, p: Pool, op: Op)
    requires ps > 0
  {
    match op
    case New(_, _, size) => Fits(size, ps)
    case Extend(id, size) =>
      && id in p.live && p.live[id].pageNo >= 0 && p.live[id].len >= 0 && Off(p.live[id], ps) >= 0
      && GrowSafe(p.live[id], ps, p.free, size)
    case _ => true
  }

  /** The invariant holds after the call, and a stream that grew is where it was and as long as
      promised. */
  ghost predicate Good(ps: nat, total: nat, p: Pool, op: Op, p': Pool)
    requires ps > 0
  {
    && Sound(ps, total, p'.free, p'.live)
    && (op.Extend? ==>
        && op.id in p.live && op.id in p'.live
        && p'.live[op.id].buf == p.live[op.id].buf && p'.live[op.id].len == p.live[op.id].len + op.size)
  }

  /** A safe call is one of the steps above. */
  lemma {:induction false} SafeStep(ps: nat, total: nat, p: Pool, op: Op)
    requires ps > 0 && Sound(ps, total, p.free, p.live) && Possible(ps, total, p, op) && Safe(ps, p, op)
    ensures Enabled(ps, total, p, op) && Effect(ps, total, p, op) == Apply(ps, total, p, op)
  {
    if op.New? { PagesForFits(op.size, ps); }
  }

  /** A call is good if and only if it is safe. */
  lemma {:induction false} StepVerdict(ps: nat, total: nat, p: Pool, op: Op)
    requires ps > 0 && Addr(total, ps) < WORD && Sound(ps, total, p.free, p.live) && Possible(ps, total, p, op)
    ensures Safe(ps, p, op) <==> Good(ps, total, p, op, Effect(ps, total, p, op))
  {
    if op.Extend? {
      GrowVerdict(ps, total, p.free, p.live, op.id, op.size);
    } else if Safe(ps, p, op) {
      SafeStep(ps, total, p, op);
      ApplySound(ps, total, p, op);
    } else {
      PageSize(ps, total, p.free, op.r);
      PagesForWraps(op.size, ps);
      assert !StreamOk(Effect(ps, total, p, op).live[op.id], ps, total);
    }
  }

  lemma {:induction false} PageSize(ps: nat, total: nat, free: set<int>, r: int)
    requires free <= Interval(0, total) && r in free && Addr(total, ps) < WORD
    ensures ps < WORD
  {
    assert 0 <= r < total;
    AddrMono(1, total, ps);
    assert Addr(1, ps) == Addr(0, ps) + ps;
  }

  ghost predicate Follows(ps: nat, total: nat, p: Pool, op: Op, p': Pool)
    requires ps > 0
  {
    Sound(ps, total, p.free, p.live) ==> Possible(ps, total, p, op) && p' == Effect(ps, total, p, op)
  }

  /** A run: each state follows from the one before by a call. */
  ghost predicate Run(ps: nat, total: nat, states: seq<Pool>, ops: seq<Op>)
    requires ps > 0
  {
    && |states| == |ops| + 1 && Addr(total, ps) < WORD
    && states[0] == Pool(Interval(0, total), map[])
    && forall i {:trigger ops[i]} :: 0 <= i < |ops| ==> Follows(ps, total, states[i], ops[i], states[i + 1])
  }

  /** The first k calls are safe. */
  ghost predicate SafeUpTo(ps: nat, states: seq<Pool>, ops: seq<Op>, k: nat)
    requires ps > 0
  {
    k <= |ops| && k < |states| && forall i {:trigger ops[i]} :: 0 <= i < k ==> Safe(ps, states[i], ops[i])
  }

  ghost predicate GoodUpTo(ps: nat, total: nat, states: seq<Pool>, ops: seq<Op>, k: nat)
    requires ps > 0
  {
    k <= |ops| && k < |states| && forall i {:trigger ops[i]} :: 0 <= i < k ==> Good(ps, total, states[i], ops[i], states[i + 1])
  }

  /** A run goes well up to any point if and only if all its calls so far were safe. */
  lemma {:induction false} RunExact(ps: nat, total: nat, states: seq<Pool>, ops: seq<Op>, k: nat)
    requires ps > 0 && Run(ps, total, states, ops) && k <= |ops|
    ensures SafeUpTo(ps, states, ops, k) <==> GoodUpTo(ps, total, states, ops, k)
    ensures SafeUpTo(ps, states, ops, k) ==> Sound(ps, total, states[k].free, states[k].live)
  {
    if k > 0 {
      RunExact(ps, total, states, ops, k - 1);
      var op := ops[k - 1];
      assert Follows(ps, total, states[k - 1], op, states[k]);
      if SafeUpTo(ps, states, ops, k - 1) {
        StepVerdict(ps, total, states[k - 1], op);
      }
    }
  }

  /** In every state of every run of safe calls, free pages and streams are disjoint and each stream
      owns a page. */
  lemma {:induction false} RunSound(ps: nat, total: nat, states: seq<Pool>, ops: seq<Op>, k: nat)
    requires ps > 0 && Run(ps, total, states, ops) && SafeUpTo(ps, states, ops, k)
    ensures Sound(ps, total, states[k].free, states[k].live)
    ensures |states[k].live| + |states[k].free| <= total
  {
    RunExact(ps, total, states, ops, k);
    FewStreams(ps, total, states[k].free, states[k].live);
  }

  lemma {:induction false} WholeRunLeak(ps: nat, total: nat, states: seq<Pool>, ops: seq<Op>, k: nat)
    requires ps > 0 && Run(ps, total, states, ops) && SafeUpTo(ps, states, ops, k)
    requires forall i :: 0 <= i < |ops| ==> WholeOp(ps, ops[i])
    ensures Sound(ps, total, states[k].free, states[k].live) && WholePages(ps, states[k].live)
    ensures Leaked(total, states[k].free, states[k].live) == {}
  {
    if k > 0 {
      WholeRunLeak(ps, total, states, ops, k - 1);
      var p, op := states[k - 1], ops[k - 1];
      assert Follows(ps, total, p, op, states[k]) && WholeOp(ps, op);
      SafeStep(ps, total, p, op);
      WholeStep(ps, total, p, op);
      Conservation(ps, total, p, op);
    } else {
      NothingLeft(Interval(0, total), Owned(map[]));
    }
  }

  lemma {:induction false} NothingLeft<T>(a: set<T>, b: set<T>)
    ensures a - a - b == {}
  {
  }

  lemma {:induction false} Partition<T>(a: set<T>, b: set<T>, c: set<T>)
    requires a - b - c == {} && b <= a && c <= a
    ensures a == b + c
  {
    assert forall x :: x in a && x !in b && x !in c ==> x in a - b - c;
  }

  /** If all calls are safe and all sizes are page multiples, free and owned pages partition the pool
      throughout. */
  lemma {:induction false} WholeRun(ps: nat, total: nat, states: seq<Pool>, ops: seq<Op>, k: nat)
    requires ps > 0 && Run(ps, total, states, ops) && SafeUpTo(ps, states, ops, k)
    requires forall i :: 0 <= i < |ops| ==> WholeOp(ps, ops[i])
    ensures Interval(0, total) == states[k].free + Owned(states[k].live)
    ensures states[k].free !! Owned(states[k].live)
  {
    WholeRunLeak(ps, total, states, ops, k);
    Partition(Interval(0, total), states[k].free, Owned(states[k].live));
  }

  // ---------------------------------------------------------------- what goes wrong

  lemma {:induction false} RunOfTwo(ps: nat, total: nat, p0: Pool, op1: Op, p1: Pool, op2: Op, p2: Pool) returns (states: seq<Pool>)
    requires ps > 0 && Addr(total, ps) < WORD && p0 == Pool(Interval(0, total), map[])
    requires Follows(ps, total, p0, op1, p1) && Follows(ps, total, p1, op2, p2)
    ensures states == [p0, p1, p2] && Run(ps, total, states, [op1, op2])
  {
    states := [p0, p1, p2];
    var ops := [op1, op2];
    assert Follows(ps, total, states[0], ops[0], states[1]);
    assert Follows(ps, total, states[1], ops[1], states[2]);
  }

  /** A claim of a page and four bytes: two pages. */
  lemma {:induction false} FirstClaim(ps: nat, total: nat, p0: Pool) returns (p1: Pool)
    requires ps >= 56 && total >= 2 && Addr(total, ps) < WORD && p0 == Pool(Interval(0, total), map[])
    ensures Sound(ps, total, p0.free, p0.live)
    ensures Possible(ps, total, p0, New(0, 0, ps + 4)) && p1 == Effect(ps, total, p0, New(0, 0, ps + 4))
    ensures Sound(ps, total, p1.free, p1.live)
    ensures p1.live == map[0 := Stream(0, 2, 0, ps + 4)] && p1.free == Interval(0, total) - Interval(0, 2)
  {
    TwoPages(ps, 4);
    AddrMono(2, total, ps);
    PagesForFits(ps + 4, ps);
    forall q | RunAt(p0.free, q, 2) ensures 0 <= q { assert q in p0.free; }
    assert LowestRun(p0.free, 0, 2);
    p1 := Effect(ps, total, p0, New(0, 0, ps + 4));
    StepVerdict(ps, total, p0, New(0, 0, ps + 4));
  }

  lemma {:induction false} TwoPages(ps: nat, x: nat)
    requires 0 < x < ps
    ensures Pages(x, ps) == 1 && Pages(ps + x, ps) == 2 && Quot(x, ps) == 0 && Quot(ps + x, ps) == 1 && Rest(ps + x, ps) == x
  {
    assert Quot(x - 1, ps) == 0 && Quot(ps + x - 1, ps) == 1 + Quot(x - 1, ps);
  }

  lemma {:induction false} OnlyDrop(ps: nat, total: nat, p1: Pool, size: nat) returns (p2: Pool)
    requires ps > 0 && Sound(ps, total, p1.free, p1.live) && p1.live == map[0 := Stream(0, 2, 0, ps + 4)] && 0 < size <= ps + 4
    ensures Possible(ps, total, p1, Drop(0, size)) && p2 == Effect(ps, total, p1, Drop(0, size))
    ensures Sound(ps, total, p2.free, p2.live)
    ensures var q := Quot(size, ps);
      && p2.live == (if size < ps + 4 then map[0 := Stream(q, 2 - q, size, ps + 4 - size)] else map[])
      && p2.free == p1.free + Interval(0, q)
  {
    p2 := Effect(ps, total, p1, Drop(0, size));
    ApplySound(ps, total, p1, Drop(0, size));
    assert size == ps + 4 ==> p2.live == map[];
  }

  /** The first claim and a release of size bytes of it. */
  lemma {:induction false} ClaimThenDrop(ps: nat, total: nat, size: nat) returns (states: seq<Pool>)
    requires ps >= 56 && total >= 2 && Addr(total, ps) < WORD && 0 < size <= ps + 4
    ensures Run(ps, total, states, [New(0, 0, ps + 4), Drop(0, size)])
    ensures Sound(ps, total, states[2].free, states[2].live)
    ensures var q := Quot(size, ps);
      && states[2].live == (if size < ps + 4 then map[0 := Stream(q, 2 - q, size, ps + 4 - size)] else map[])
      && states[2].free == Interval(0, total) - Interval(0, 2) + Interval(0, q)
  {
    var p0 := Pool(Interval(0, total), map[]);
    var p1 := FirstClaim(ps, total, p0);
    var p2 := OnlyDrop(ps, total, p1, size);
    states := RunOfTwo(ps, total, p0, New(0, 0, ps + 4), p1, Drop(0, size), p2);
  }

  /** For pages of any size: after a claim of a page and four bytes and a release that leaves ten bytes,
      growing by one byte loses a page and the place of the data. */
  lemma {:induction false} UnsafeExample(ps: nat, total: nat) returns (states: seq<Pool>)
    requires ps >= 56 && total >= 2 && Addr(total, ps) < WORD
    ensures Run(ps, total, states, [New(0, 0, ps + 4), Drop(0, ps - 6)])
    ensures states[2].live == map[0 := Stream(0, 2, ps - 6, 10)]
    ensures Sound(ps, total, states[2].free, states[2].live) && Possible(ps, total, states[2], Extend(0, 1))
    ensures !Safe(ps, states[2], Extend(0, 1))
    ensures Effect(ps, total, states[2], Extend(0, 1)).live[0] == Stream(0, 1, 0, 11)
  {
    TwoPages(ps, ps - 6);
    states := ClaimThenDrop(ps, total, ps - 6);
    UnsafeGrowth(ps, total, states[2], Stream(0, 2, ps - 6, 10));
  }

  lemma {:induction false} UnsafeGrowth(ps: nat, total: nat, p: Pool, s: Stream)
    requires ps >= 56 && total >= 2 && Addr(total, ps) < WORD && Sound(ps, total, p.free, p.live)
    requires s == Stream(0, 2, ps - 6, 10) && p.live == map[0 := s]
    ensures Possible(ps, total, p, Extend(0, 1)) && !Safe(ps, p, Extend(0, 1))
    ensures Effect(ps, total, p, Extend(0, 1)).live[0] == Stream(0, 1, 0, 11)
  {
    TwoPages(ps, 11);
    AddrMono(1, total, ps);
    PagesForFits(11, ps);
    assert Addr(0, ps) == 0 && Need(s, ps, 1) == -1 && Off(s, ps) == ps - 6;
  }

  /** For pages of any size: a stream that ends inside a page takes the page with it. */
  lemma {:induction false} LeakExample(ps: nat, total: nat) returns (states: seq<Pool>)
    requires ps >= 56 && total >= 2 && Addr(total, ps) < WORD
    ensures Run(ps, total, states, [New(0, 0, ps + 4), Drop(0, ps + 4)])
    ensures states[2].live == map[] && 1 in Leaked(total, states[2].free, states[2].live)
  {
    TwoPages(ps, 4);
    states := ClaimThenDrop(ps, total, ps + 4);
    assert Within(1, 0, total) && Within(1, 0, 2);
  }

  /** A claim whose size wraps yields a stream without a page, on a page that stays free: with one page
      of 64 bytes the references are then used up, and the next claim finds a page but no reference. */
  lemma {:induction false} OverflowExample() returns (p: Pool)
    ensures AlignUp(WORD - 1, 64) == 0 && !Fits(WORD - 1, 64)
    ensures var p0 := Pool(Interval(0, 1), map[]);
      && Sound(64, 1, p0.free, p0.live) && Possible(64, 1, p0, New(0, 0, WORD - 1))
      && p == Effect(64, 1, p0, New(0, 0, WORD - 1))
    ensures p.live == map[0 := Stream(0, 0, 0, WORD - 1)] && 0 in p.free
    ensures !Sound(64, 1, p.free, p.live) && |p.live| == 1
  {
    LastBlock();
    var p0 := Pool(Interval(0, 1), map[]);
    assert 0 in p0.free;
    p := Effect(64, 1, p0, New(0, 0, WORD - 1));
    assert !StreamOk(p.live[0], 64, 1);
    assert Range(p.live[0]) == {};
  }

  lemma {:induction false} LastBlock()
    ensures AlignUp(WORD - 1, 64) == 0 && !Fits(WORD - 1, 64) && PagesFor(WORD - 1, 64) == 0
  {
    QuotIsDiv(WORD - 1, 64);
    assert Rest(WORD - 1, 64) == 63;
    AlignIsPages(WORD - 1, 64);
    PagesBound(WORD - 1, 64);
  }
}
