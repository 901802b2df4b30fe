/**
  The stream page allocator of lib/peak_stream.c.  The page tree appears as its in-order
  sequence (what its operations do to that sequence is proved in RedBlackTree); free pages
  hold the tree nodes, so any tree operation may rewrite the middle of any free page.
 */
module Streams {
  import opened StreamModel

  const STREAM_ERROR := -1

  /** STREAM_MAGIC in memory order on a little-endian host */
  const MAGIC: seq<byte> := [0x08, 0xFA, 0x07, 0xCD, 0x06, 0xBA, 0x05, 0xEF]

  /** sizeof(struct peak_stream_page) */
  const HEADER := 56

  /** A stream reference as the user holds it */
  datatype Ref = Null | Id(id: nat)

  /** STREAM_CHECK passes */
  predicate Intact(page: seq<byte>) {
    |page| >= 16 && page[..8] == MAGIC && page[|page| - 8..] == MAGIC
  }

  ghost predicate MemoryOk(mem: seq<seq<byte>>, ps: nat, total: nat, free: set<int>) {
    && |mem| == total
    && (forall p :: 0 <= p < total ==> |mem[p]| == ps)
    && (forall p :: p in free && 0 <= p < total ==> Intact(mem[p]))
  }

  /** m may follow mem: pages in the tree stay intact, all others stay the same. */
  predicate Rewritten(mem: seq<seq<byte>>, m: seq<seq<byte>>, pages: seq<int>) {
    && |m| == |mem|
    && (forall p {:trigger m[p]} :: 0 <= p < |m| ==> |m[p]| == |mem[p]|)
    && (forall p {:trigger m[p]} :: 0 <= p < |m| && p in pages ==> Intact(m[p]))
    && (forall p {:trigger m[p]} :: 0 <= p < |m| && p !in pages ==> m[p] == mem[p])
  }

  lemma {:induction false} RewrittenOk(mem: seq<seq<byte>>, m: seq<seq<byte>>, pages: seq<int>, ps: nat, total: nat)
    requires Rewritten(mem, m, pages) && MemoryOk(mem, ps, total, SetOf(pages))
    ensures MemoryOk(m, ps, total, SetOf(pages)) && SamePages(mem, m, Interval(0, total) - SetOf(pages))
  {
  }

  /** The reference pool and the live references share the ids 0..total. */
  ghost predicate RefsOk(spare: seq<nat>, live: map<nat, Stream>, total: nat) {
    && |spare| + |live| == total
    && (forall i :: 0 <= i < |spare| ==> spare[i] !in live)
    && (forall i, j :: 0 <= i < j < |spare| ==> spare[i] != spare[j])
  }

  class StreamPool {
    const total: nat
    const ps: nat
    var pages: seq<int>
    var live: map<nat, Stream>
    var spare: seq<nat>
    var mem: seq<seq<byte>>

    ghost predicate Formed()
      reads this
    {
      && ps >= HEADER && total > 0 && Addr(total, ps) < WORD
      && Ascending(pages) && SetOf(pages) <= Interval(0, total)
      && MemoryOk(mem, ps, total, SetOf(pages))
    }

    ghost predicate Valid()
      reads this
    {
      Formed() && RefsOk(spare, live, total) && Sound(ps, total, SetOf(pages), live)
    }

    /** The pool as the run lemmas see it */
    ghost function State(): Pool
      reads this
    {
      Pool(SetOf(pages), live)
    }

    ghost predicate Known(ref: Ref)
      reads this
    {
      ref.Id? ==> ref.id in live
    }

    /** The loop of peak_stream_init: every page is released into the empty tree. */
    constructor (total: nat, ps: nat)
      requires total > 0 && ps >= HEADER && Addr(total, ps) < WORD
      ensures this.total == total && this.ps == ps
      ensures Valid() && State() == Pool(Interval(0, total), map[])
    {
      this.total, this.ps := total, ps;
      pages, live := [], map[];
      spare := seq(total, i => i);
      mem := seq(total, _ => seq(ps, _ => 0));
      new;
      var i := 0;
      while i < total
        invariant 0 <= i <= total && Formed() && SetOf(pages) == Interval(0, i)
        invariant live == map[] && RefsOk(spare, live, total)
      {
        assert Interval(0, i + 1) == Interval(0, i) + {i};
        ReleasePage(i);
        i := i + 1;
      }
    }

    /** peak_stream_init */
    static method Init(total: nat, ps: nat) returns (pool: StreamPool?)
      ensures pool == null <==> total == 0 || ps % 8 != 0 || ps < HEADER || Addr(total, ps) >= WORD
      ensures pool != null ==> fresh(pool) && pool.total == total && pool.ps == ps
      ensures pool != null ==> pool.Valid() && pool.State() == Pool(Interval(0, total), map[])
    {
      if total == 0 || ps % 8 != 0 || ps < HEADER || Addr(total, ps) >= WORD {
        return null;
      }
      pool := new StreamPool(total, ps);
    }

    // ------------------------------------------------------------ the page tree

    /** A tree operation relinks nodes: the middle of free pages changes, nothing else does. */
    method Relink()
      requires Formed()
      modifies this`mem
      ensures Formed() && SamePages(old(mem), mem, Interval(0, total) - SetOf(pages))
    {
      assert forall p :: p in pages ==> p in SetOf(pages);
      assert Rewritten(mem, mem, pages);
      var m: seq<seq<byte>> :| Rewritten(mem, m, pages);
      RewrittenOk(mem, m, pages, ps, total);
      mem := m;
    }

    /** peak_stream_probe: how many consecutive free pages start at base; |pages| stands for NULL */
    method Probe(base: nat, stop: int) returns (count: nat)
      requires base <= |pages|
      ensures Consecutive(pages, base, count) && (0 <= stop ==> count <= stop)
      ensures count == stop || base + count == |pages| || pages[base + count] != pages[base] + count
    {
      count := 0;
      var next := base;
      while true
        invariant next == base + count && Consecutive(pages, base, count) && (0 <= stop ==> count <= stop)
        decreases |pages| - next
      {
        if next == |pages| {
          break;
        }
        if count == stop {
          break;
        }
        if pages[next] != pages[base] + count {
          break;
        }
        next := next + 1;
        count := count + 1;
      }
    }

    /** peak_stream_unhook: n pages leave the tree; no page is found trashed */
    method Unhook(base: nat, n: int)
      requires Formed() && (n > 0 ==> base < |pages| && Consecutive(pages, base, n))
      modifies this`pages, this`mem
      ensures Formed() && SamePages(old(mem), mem, Interval(0, total) - SetOf(old(pages)))
      ensures n <= 0 ==> pages == old(pages)
      ensures n > 0 ==> SetOf(pages) == SetOf(old(pages)) - Interval(old(pages)[base], n)
    {
      var i := 0;
      ghost var s := pages;
      while i < n
        invariant 0 <= i && (n > 0 ==> i <= n) && (n <= 0 ==> i == 0)
        invariant n > 0 ==> pages == s[..base] + s[base + i..]
        invariant n <= 0 ==> pages == s
        invariant Formed() && SamePages(old(mem), mem, Interval(0, total) - SetOf(s))
      {
        assert pages[base] == s[base + i] && pages[base] in SetOf(pages);
        assert Intact(mem[pages[base]]);
        CutOne(pages, base);
        pages := pages[..base] + pages[base + 1..];
        Relink();
        i := i + 1;
      }
      if n > 0 { CutRun(s, base, n); }
    }

    /** RB_FIND on the page tree: the place of page p, or |pages| for NULL */
    method FindPage(p: int) returns (k: nat)
      requires Ascending(pages)
      ensures k <= |pages| && (k < |pages| ==> pages[k] == p) && (k == |pages| ==> p !in SetOf(pages))
    {
      k := 0;
      while k < |pages| && pages[k] != p
        invariant k <= |pages| && forall j :: 0 <= j < k ==> pages[j] != p
      {
        k := k + 1;
      }
    }

    /** __peak_stream_reclaim: the n pages behind the stream, if they are all free */
    method Reclaim(s: Stream, n: int) returns (r: int)
      requires Formed() && n != 0 && s.pageNo >= 0
      modifies this`pages, this`mem
      ensures Formed() && SamePages(old(mem), mem, Interval(0, total) - SetOf(old(pages)))
      ensures r == (if RunAt(SetOf(old(pages)), s.pageNo + s.pageCount, n) then s.pageNo else STREAM_ERROR)
      ensures r == STREAM_ERROR ==> pages == old(pages) && mem == old(mem)
      ensures r != STREAM_ERROR ==> SetOf(pages) == SetOf(old(pages)) - Interval(s.pageNo + s.pageCount, n)
    {
      var index := s.pageNo + s.pageCount;
      var page := FindPage(index);
      var count := Probe(page, n);
      ProbedRun(pages, page, index, count, n);
      if n > count {
        return STREAM_ERROR;
      }
      Unhook(page, n);
      assert n < 0 ==> Interval(index, n) == {};
      return s.pageNo;
    }

    /** __peak_stream_claim: the lowest run of n free pages, or an error exactly when there is none; for
        no pages at all, the first free page, which stays free */
    method ClaimRun(n: int) returns (r: int)
      requires Formed() && n >= 0 && pages != []
      modifies this`pages, this`mem
      ensures Formed() && SamePages(old(mem), mem, Interval(0, total) - SetOf(old(pages)))
      ensures r == STREAM_ERROR ==> n >= 1 && pages == old(pages) && mem == old(mem) && !HasRun(SetOf(pages), n)
      ensures r != STREAM_ERROR ==> r in SetOf(old(pages)) && SetOf(pages) == SetOf(old(pages)) - Interval(r, n)
      ensures r != STREAM_ERROR && n >= 1 ==> LowestRun(SetOf(old(pages)), r, n)
      ensures n == 0 ==> Least(SetOf(pages), r) && pages == old(pages)
    {
      var page := 0;
      FirstLeast(pages);
      if n >= 1 { FirstIsLeast(pages, n); }
      while true
        invariant page < |pages| && pages == old(pages) && mem == old(mem) && Formed() && (n == 0 ==> page == 0)
        invariant n >= 1 ==> forall q {:trigger RunAt(SetOf(pages), q, n)} :: RunAt(SetOf(pages), q, n) ==> pages[page] <= q
        decreases |pages| - page
      {
        var i := Probe(page, n);
        if n <= i {
          break;
        }
        PassedOver(pages, page, i, n);
        page := page + i;
        if page == |pages| {
          return STREAM_ERROR;
        }
      }
      r := pages[page];
      assert r in SetOf(pages);
      assert n == 0 ==> Interval(r, n) == {};
      ConsecutiveRun(pages, page, n);
      Unhook(page, n);
    }

    // ------------------------------------------------------------ release

    /** RB_INSERT into the page tree; true means the page was there already */
    method InsertPage(p: int) returns (dup: bool)
      requires Ascending(pages)
      modifies this`pages
      ensures dup <==> p in SetOf(old(pages))
      ensures Ascending(pages) && SetOf(pages) == SetOf(old(pages)) + {p}
    {
      var k := 0;
      while k < |pages| && pages[k] < p
        invariant k <= |pages| && forall j :: 0 <= j < k ==> pages[j] < p
      {
        k := k + 1;
      }
      dup := k < |pages| && pages[k] == p;
      InsertedAt(pages, k, p);
      if !dup {
        pages := pages[..k] + [p] + pages[k..];
      }
    }

    /** _peak_stream_release: the page gets its header and joins the tree, where it was not before */
    method ReleasePage(p: int)
      requires Formed() && 0 <= p < total && p !in SetOf(pages)
      modifies this`pages, this`mem
      ensures Formed() && SetOf(pages) == SetOf(old(pages)) + {p}
      ensures SamePages(old(mem), mem, Interval(0, total) - SetOf(pages))
    {
      mem := mem[p := MAGIC + mem[p][8..ps - 8] + MAGIC];
      assert Intact(mem[p]);
      var dup := InsertPage(p);
      assert !dup;
      Relink();
    }

    /** prealloc_put on the reference pool */
    method PutRef(id: nat)
      requires id in live && RefsOk(spare, live, total)
      modifies this`spare, this`live
      ensures live == Without(old(live), id) && RefsOk(spare, live, total)
    {
      spare := [id] + spare;
      live := map j | j in live && j != id :: live[j];
      assert live.Keys == old(live.Keys) - {id};
      assert |live.Keys| == |old(live.Keys)| - 1;
    }

    /** The loop of peak_stream_release: whole pages go back one by one, while the remaining size
        and the stream's length may run below zero and wrap. */
    method ReleaseLoop(s0: Stream, size0: nat) returns (s: Stream)
      requires Formed() && StreamOk(s0, ps, total) && Range(s0) !! SetOf(pages) && size0 <= s0.len
      modifies this`pages, this`mem
      ensures Formed() && s == Shrunk(s0, ps, size0)
      ensures SetOf(pages) == SetOf(old(pages)) + Interval(s0.pageNo, Quot(Off(s0, ps) + size0, ps))
      ensures SamePages(old(mem), mem, Interval(0, total) - SetOf(pages))
    {
      ghost var q, k := Quot(Off(s0, ps) + size0, ps), 0;
      assert q <= s0.pageCount by { ShrunkOk(s0, ps, total, size0); }
      s := s0;
      var size := size0;
      var sizeAdj := Wrap(s.buf - Addr(s.pageNo, ps));
      var more := TurnNeeded(s0, size0, ps, total, s, sizeAdj, size, k);
      while more
        invariant 0 <= k <= q && Formed() && AtTurn(s0, size0, ps, k, s, size) && (more <==> k < q)
        invariant SetOf(pages) == SetOf(old(pages)) + Interval(s0.pageNo, k)
        invariant SamePages(old(mem), mem, Interval(0, total) - SetOf(pages))
        decreases q - k
      {
        Untaken(s0, SetOf(old(pages)), k);
        ReleasePage(s.pageNo);
        s, size := Turn(s0, size0, ps, s, size, k);
        k := k + 1;
        more := TurnNeeded(s0, size0, ps, total, s, sizeAdj, size, k);
      }
      s := Mop(s0, size0, ps, total, s, size);
    }

    /** The records and pages of peak_stream_release */
    method ReleaseRecord(ref: Ref, size: nat) returns (ref': Ref)
      requires Valid() && Known(ref) && (ref.Id? ==> size <= live[ref.id].len)
      modifies this
      ensures Valid()
      ensures size == 0 || ref.Null? ==> ref' == ref && live == old(live) && pages == old(pages) && mem == old(mem)
      ensures size > 0 && ref.Id? ==>
        var s := old(live[ref.id]); var q := Quot(Off(s, ps) + size, ps);
        && SetOf(pages) == SetOf(old(pages)) + Interval(s.pageNo, q)
        && SamePages(old(mem), mem, Interval(0, total) - SetOf(pages))
        && ref' == (if size < s.len then ref else Null)
        && live == (if size < s.len then old(live)[ref.id := Shrunk(s, ps, size)] else Without(old(live), ref.id))
    {
      if size == 0 || ref == Null {
        return ref;
      }
      var s := live[ref.id];
      ShrunkOk(s, ps, total, size);
      ghost var free := SetOf(pages);
      var s' := ReleaseLoop(s, size);
      if s'.len == 0 {
        SoundDrop(ps, total, free, live, ref.id, SetOf(pages));
        PutRef(ref.id);
        ref' := Null;
      } else {
        SoundReplace(ps, total, free, live, ref.id, SetOf(pages), s');
        SameRefs(spare, live, ref.id, s', total);
        live := live[ref.id := s'];
        ref' := ref;
      }
    }

    /** peak_stream_release: exactly the first size bytes go, the rest stay in order, and no other
        stream notices. */
    method Release(ref: Ref, size: nat) returns (ref': Ref, ghost op: Op)
      requires Valid() && Known(ref) && (ref.Id? ==> size <= live[ref.id].len)
      modifies this
      ensures Valid() && Enabled(ps, total, old(State()), op) && State() == Apply(ps, total, old(State()), op)
      ensures op == if size == 0 || ref.Null? then Nothing else Drop(ref.id, size)
      ensures op.Nothing? ==> ref' == ref && mem == old(mem)
      ensures op.Drop? ==>
        && ref' == (if size < old(live[ref.id].len) then ref else Null)
        && (ref'.Id? ==> ref.id in live && Bytes(mem, ps, live[ref.id]) == old(Bytes(mem, ps, live[ref.id]))[size..])
        && OthersKept(ps, old(live), old(mem), live, mem, ref.id)
    {
      op := if size == 0 || ref.Null? then Nothing else Drop(ref.id, size);
      ref' := ReleaseRecord(ref, size);
      if op.Drop? {
        Released(ps, total, SetOf(old(pages)), old(live), ref.id, size, SetOf(pages), live, old(mem), mem);
      }
    }

    // ------------------------------------------------------------ claim

    /** peak_stream_get, and the record stored there: a reference is always left, because every
        stream owns a page */
    method GetRef(s: Stream) returns (id: nat)
      requires RefsOk(spare, live, total) && |live| < total
      modifies this`spare, this`live
      ensures id !in old(live) && live == old(live)[id := s] && RefsOk(spare, live, total)
    {
      id := spare[0];
      spare := spare[1..];
      live := live[id := s];
      assert live.Keys == old(live.Keys) + {id};
      assert |live.Keys| == |old(live.Keys)| + 1;
    }

    /** _peak_stream_claim without a stream: the lowest run of free pages that is long enough.  A size
        whose rounding wraps yields a stream without pages instead, and exactly then the pool breaks. */
    method Fresh(size: nat) returns (ref: Ref)
      requires Valid() && 0 < size < WORD
      modifies this
      ensures SamePages(old(mem), mem, Interval(0, total) - SetOf(old(pages)))
      ensures ref == Null ==> live == old(live) && pages == old(pages) && mem == old(mem) && Valid()
      ensures ref.Id? <==> old(CanStart(ps, SetOf(pages), size))
      ensures ref.Id? ==>
        && ref.id !in old(live) && ref.id in live && live[ref.id].pageNo >= 0
        && Possible(ps, total, old(State()), New(ref.id, live[ref.id].pageNo, size))
        && State() == Effect(ps, total, old(State()), New(ref.id, live[ref.id].pageNo, size))
        && (Valid() <==> Fits(size, ps))
    {
      if pages == [] {
        if Fits(size, ps) { PagesBound(size, ps); NoPages(Pages(size, ps)); }
        return Null;
      }
      ghost var p := State();
      RoomLeft();
      var n := Quot(AlignUp(size, ps), ps);
      assert n == PagesFor(size, ps);
      PageCount(size, n);
      var r := ClaimRun(n);
      if r == STREAM_ERROR {
        return Null;
      }
      var id := GetRef(Stream(r, n, Addr(r, ps), size));
      FreshStep(ps, total, p, id, r, size);
      ref := Id(id);
    }

    lemma PageCount(size: nat, n: nat)
      requires Formed() && pages != [] && 0 < size < WORD && n == PagesFor(size, ps)
      ensures if Fits(size, ps) then n == Pages(size, ps) && n >= 1 else n == 0
    {
      assert pages[0] in SetOf(pages);
      PageSize(ps, total, SetOf(pages), pages[0]);
      if Fits(size, ps) {
        PagesForFits(size, ps);
        PagesBound(size, ps);
      } else {
        PagesForWraps(size, ps);
      }
    }

    /** _peak_stream_claim on a stream: grown in place unless the next pages are taken */
    method GrowInPlace(id: nat, size: nat) returns (ok: bool)
      requires Valid() && id in live && 0 < size < WORD
      modifies this`live, this`pages, this`mem
      ensures Formed()
      ensures ok == !Blocked(old(live[id]), ps, SetOf(old(pages)), size)
      ensures ok ==>
        && live == old(live)[id := GrowRecord(old(live[id]), ps, size)]
        && SetOf(pages) == GrowFree(old(live[id]), ps, SetOf(old(pages)), size)
        && SamePages(old(mem), mem, Interval(0, total) - SetOf(old(pages)))
      ensures !ok ==> live == old(live) && pages == old(pages) && mem == old(mem)
    {
      var s := live[id];
      var need := Quot(AlignUp(Wrap(size + s.len), ps), ps) - s.pageCount;
      assert need == Need(s, ps, size);
      if need == 0 {
        assert Interval(s.pageNo + s.pageCount, 0) == {};
        live := live[id := s.(len := Wrap(s.len + size))];
      } else {
        var r := Reclaim(s, need);
        if r == STREAM_ERROR {
          return false;
        }
        live := live[id := Stream(r, s.pageCount + need, Addr(r, ps), Wrap(s.len + size))];
      }
      return true;
    }

    /** Exactly the safe growths leave a sound pool with the data in its place and of the right length. */
    method Grow(id: nat, size: nat) returns (ok: bool)
      requires Valid() && id in live && 0 < size < WORD
      modifies this`live, this`pages, this`mem
      ensures ok == !Blocked(old(live[id]), ps, SetOf(old(pages)), size)
      ensures ok ==>
        && Possible(ps, total, old(State()), Op.Extend(id, size))
        && State() == Effect(ps, total, old(State()), Op.Extend(id, size))
        && SamePages(old(mem), mem, Interval(0, total) - SetOf(old(pages)))
        && id in live && (Safe(ps, old(State()), Op.Extend(id, size)) <==> Valid() && Placed(old(live[id]), live[id], size))
      ensures !ok ==> live == old(live) && pages == old(pages) && mem == old(mem) && Valid()
    {
      ok := GrowInPlace(id, size);
      if ok {
        SameRefs(spare, old(live), id, live[id], total);
        GrowVerdict(ps, total, SetOf(old(pages)), old(live), id, size);
      }
    }

    lemma RoomLeft()
      requires Valid() && pages != []
      ensures |live| < total
    {
      assert pages[0] in SetOf(pages);
      FewStreams(ps, total, SetOf(pages), live);
    }

    lemma NoPages(n: nat)
      requires pages == [] && n >= 1
      ensures !HasRun(SetOf(pages), n)
    {
      forall r ensures !RunAt(SetOf(pages), r, n) {
        assert r <= r < r + n && r !in SetOf(pages);
      }
    }

    // ------------------------------------------------------------ data

    /** The owner of a stream writes one byte into it; no other stream sees it. */
    method Write(id: nat, k: nat, b: byte)
      requires Valid() && id in live && k < live[id].len
      modifies this`mem
      ensures Valid() && Bytes(mem, ps, live[id]) == old(Bytes(mem, ps, live[id]))[k := b]
      ensures SamePages(old(mem), mem, Interval(0, total) - Range(live[id]))
    {
      var s := live[id];
      OnOwnPages(s, ps, total, k);
      mem := Poke(mem, ps, s.buf + k, b);
      forall i | 0 <= i < s.len ensures Bytes(mem, ps, s)[i] == old(Bytes(mem, ps, s))[k := b][i] {
        PokeAt(old(mem), ps, s.buf + k, b, s.buf + i);
      }
    }

    /** memcpy from one stream to the start of another */
    method Copy(to: nat, from: nat)
      requires Valid() && to in live && from in live && to != from && live[from].len <= live[to].len
      modifies this`mem
      ensures Valid() && SamePages(old(mem), mem, Interval(0, total) - Range(live[to]))
      ensures Bytes(mem, ps, live[to])[..live[from].len] == old(Bytes(mem, ps, live[from]))
    {
      var d, s := live[to], live[from];
      var i := 0;
      ghost var data := Bytes(mem, ps, s);
      while i < s.len
        invariant 0 <= i <= s.len && Valid() && SamePages(old(mem), mem, Interval(0, total) - Range(d))
        invariant Bytes(mem, ps, d)[..i] == data[..i]
      {
        ReadBack(old(mem), mem, s, d, ps, total, i);
        Write(to, i, At(mem, ps, s.buf + i));
        i := i + 1;
      }
    }

    /** A fresh run of pages with a copy of the stream's bytes */
    method MoveOut(id: nat, size: nat, ghost room: bool) returns (ref: Ref)
      requires Valid() && id in live && size > 0 && Fits(live[id].len + size, ps)
      requires room == HasRun(SetOf(pages), Pages(live[id].len + size, ps))
      modifies this
      ensures Valid()
      ensures ref == Null ==> live == old(live) && pages == old(pages) && mem == old(mem)
      ensures ref.Id? <==> room
      ensures ref.Id? ==> Doubled(ps, total, old(State()), old(mem), State(), mem, id, ref.id, size)
    {
      ghost var mem0, p0 := mem, State();
      ref := FreshFor(id, size, room);
      if ref.Id? {
        CopyOver(id, ref.id, size, p0, mem0);
      }
    }

    /** A fresh stream for all of a stream and size bytes more. */
    method FreshFor(id: nat, size: nat, ghost room: bool) returns (ref: Ref)
      requires Valid() && id in live && size > 0 && Fits(live[id].len + size, ps)
      requires room == HasRun(SetOf(pages), Pages(live[id].len + size, ps))
      modifies this
      ensures Valid()
      ensures ref == Null ==> live == old(live) && pages == old(pages) && mem == old(mem)
      ensures ref.Id? <==> room
      ensures ref.Id? ==> Prepared(ps, total, old(State()), old(mem), State(), mem, id, ref.id, size)
    {
      ghost var mem0, p0 := mem, State();
      PagesForFits(live[id].len + size, ps);
      ref := Fresh(live[id].len + size);
      if ref.Id? {
        Apart(ps, total, p0, mem0, State(), mem, id, ref.id, size);
      }
    }

    /** The bytes of a stream go to the new one. */
    method CopyOver(id: nat, n: nat, size: nat, ghost p0: Pool, ghost mem0: seq<seq<byte>>)
      requires Valid() && Sound(ps, total, p0.free, p0.live) && id in p0.live
      requires Prepared(ps, total, p0, mem0, State(), mem, id, n, size)
      modifies this`mem
      ensures Valid() && Doubled(ps, total, p0, mem0, State(), mem, id, n, size)
    {
      ghost var p1, mem1 := State(), mem;
      Copy(n, id);
      Copied(ps, total, p0, mem0, p1, mem1, mem, id, n, size);
    }

    /** A whole stream is released. */
    method DropAll(id: nat, ghost q: nat)
      requires Valid() && id in live && q == Quot(Off(live[id], ps) + live[id].len, ps)
      modifies this
      ensures Valid() && live == Without(old(live), id)
      ensures SetOf(pages) == SetOf(old(pages)) + Interval(old(live[id]).pageNo, q)
      ensures SamePages(old(mem), mem, Interval(0, total) - SetOf(pages))
    {
      var gone := ReleaseRecord(Id(id), live[id].len);
    }

    /** The old place of a stream that was copied to stream n is released. */
    method LetGo(id: nat, n: nat, size: nat, ghost p0: Pool, ghost mem0: seq<seq<byte>>)
      requires Valid() && Sound(ps, total, p0.free, p0.live) && id in p0.live && size > 0
      requires Doubled(ps, total, p0, mem0, State(), mem, id, n, size)
      modifies this
      ensures Valid() && Left(ps, total, p0, mem0, State(), mem, id, n, size)
    {
      ghost var p1, mem1 := State(), mem;
      ghost var q := Quot(Off(live[id], ps) + live[id].len, ps);
      DropAll(id, q);
      LeftBehind(ps, total, p0, mem0, p1, mem1, State(), mem, id, n, size);
    }

    /** A stream and its longer copy: the copy takes over. */
    method TakeOver(id: nat, n: nat, size: nat, ghost p0: Pool, ghost mem0: seq<seq<byte>>) returns (ghost op: Op)
      requires Valid() && Sound(ps, total, p0.free, p0.live) && id in p0.live && size > 0
      requires Doubled(ps, total, p0, mem0, State(), mem, id, n, size) && Blocked(p0.live[id], ps, p0.free, size)
      modifies this
      ensures Valid() && op.Move? && op.id == id && op.n == n && op.size == size
      ensures Enabled(ps, total, p0, op) && State() == Apply(ps, total, p0, op)
      ensures Carried(ps, p0.live, mem0, live, mem, id, n, size)
    {
      LetGo(id, n, size, p0, mem0);
      op := Move(id, n, live[n].pageNo, size);
      Relocated(ps, total, p0, mem0, id, n, size, State(), mem);
    }

    /** The second half of peak_stream_claim: a blocked stream moves to a fresh run of pages, if there is
        room for all of it. */
    method Relocate(id: nat, size: nat, ghost room: bool) returns (ref: Ref, ghost op: Op)
      requires Valid() && id in live && 0 < size < WORD && Blocked(live[id], ps, SetOf(pages), size)
      requires room == HasRun(SetOf(pages), Pages(live[id].len + size, ps))
      modifies this
      ensures Valid() && (ref.Id? <==> room)
      ensures ref == Null ==> live == old(live) && pages == old(pages) && mem == old(mem)
      ensures ref.Id? ==>
        && Enabled(ps, total, old(State()), op) && State() == Apply(ps, total, old(State()), op)
        && op.Move? && op.id == id && op.n == ref.id && op.size == size
        && Carried(ps, old(live), old(mem), live, mem, id, ref.id, size)
    {
      BlockedFits(live[id], ps, total, SetOf(pages), size);
      ghost var p0, mem0 := State(), mem;
      ref := MoveOut(id, size, room);
      op := Nothing;
      if ref.Id? {
        op := TakeOver(id, ref.id, size, p0, mem0);
      }
    }

    /** The first half of peak_stream_claim: growth in place */
    method Extend(id: nat, size: nat) returns (ok: bool)
      requires Valid() && id in live && 0 < size < WORD
      modifies this`live, this`pages, this`mem
      ensures ok == !Blocked(old(live[id]), ps, SetOf(old(pages)), size)
      ensures !ok ==> live == old(live) && pages == old(pages) && mem == old(mem) && Valid()
      ensures ok ==>
        && Possible(ps, total, old(State()), Op.Extend(id, size))
        && State() == Effect(ps, total, old(State()), Op.Extend(id, size))
        && id in live && (Safe(ps, old(State()), Op.Extend(id, size)) <==> Valid() && Placed(old(live[id]), live[id], size))
      ensures ok && Safe(ps, old(State()), Op.Extend(id, size)) ==> Carried(ps, old(live), old(mem), live, mem, id, id, size)
    {
      ghost var live0, mem0, free0 := live, mem, SetOf(pages);
      ok := Grow(id, size);
      if ok && GrowSafe(live0[id], ps, free0, size) {
        Extended(ps, total, free0, live0, id, size, SetOf(pages), live, mem0, mem);
      }
    }

    /** peak_stream_claim on a stream.  It keeps its bytes, at its start and in order, whether it
        grows in place or moves; a failed claim changes nothing; an unsafe growth breaks the
        allocator, loses the start of the data or cheats on the length. */
    method ClaimMore(id: nat, size: nat) returns (ok: bool, ref': Ref, ghost op: Op)
      requires Valid() && id in live && 0 < size < WORD
      modifies this
      ensures !ok ==> ref' == Id(id) && live == old(live) && pages == old(pages) && mem == old(mem) && Valid()
      ensures ok <==> old(CanGrow(live[id], ps, SetOf(pages), size))
      ensures ok ==> Possible(ps, total, old(State()), op) && State() == Effect(ps, total, old(State()), op)
      ensures ok ==> op == Op.Extend(id, size) || (op.Move? && op.id == id && op.size == size && ref' == Id(op.n))
      ensures ok && Safe(ps, old(State()), op) ==>
        Valid() && ref'.Id? && Carried(ps, old(live), old(mem), live, mem, id, ref'.id, size)
      ensures ok && !Safe(ps, old(State()), op) ==>
        ref' == Id(id) && id in live && !(Valid() && Placed(old(live[id]), live[id], size))
    {
      ok := Extend(id, size);
      ref', op := Id(id), Op.Extend(id, size);
      if !ok {
        var moved;
        moved, op := Relocate(id, size, HasRun(SetOf(pages), Pages(live[id].len + size, ps)));
        if moved.Id? {
          ok, ref' := true, moved;
        }
      }
    }

    /** peak_stream_claim: a step of the pool, which goes well exactly if it is safe */
    method Claim(ref: Ref, size: nat) returns (ok: bool, ref': Ref, ghost op: Op)
      requires Valid() && Known(ref) && size < WORD
      modifies this
      ensures !ok || size == 0 ==> ref' == ref && live == old(live) && pages == old(pages) && mem == old(mem) && Valid()
      ensures ok ==> Possible(ps, total, old(State()), op) && State() == Effect(ps, total, old(State()), op)
      ensures ok <==> size == 0 || (if ref.Id? then CanGrow(old(live[ref.id]), ps, SetOf(old(pages)), size)
                                    else CanStart(ps, SetOf(old(pages)), size))
      ensures ok && size > 0 && ref.Null? ==>
        && ref'.Id? && ref'.id in live && ref'.id !in old(live) && op == New(ref'.id, live[ref'.id].pageNo, size)
        && (Valid() <==> Fits(size, ps))
      ensures ok && size > 0 && ref.Null? && Fits(size, ps) ==>
        && live[ref'.id].len == size && LowestRun(SetOf(old(pages)), live[ref'.id].pageNo, Pages(size, ps))
        && OthersKept(ps, old(live), old(mem), live, mem, ref'.id)
      ensures ok && size > 0 && ref.Id? && Safe(ps, old(State()), op) ==>
        Valid() && ref'.Id? && Carried(ps, old(live), old(mem), live, mem, ref.id, ref'.id, size)
      ensures ok && size > 0 && ref.Id? && !Safe(ps, old(State()), op) ==>
        ref' == ref && ref.id in live && !(Valid() && Placed(old(live[ref.id]), live[ref.id], size))
    {
      op := Nothing;
      if size == 0 {
        return true, ref, op;
      }
      if ref.Null? {
        ok, ref', op := ClaimFirst(size);
      } else {
        ok, ref', op := ClaimMore(ref.id, size);
      }
    }

    /** peak_stream_claim without a stream */
    method ClaimFirst(size: nat) returns (ok: bool, ref: Ref, ghost op: Op)
      requires Valid() && 0 < size < WORD
      modifies this
      ensures !ok ==> ref == Null && live == old(live) && pages == old(pages) && mem == old(mem) && Valid()
      ensures ok <==> old(CanStart(ps, SetOf(pages), size))
      ensures ok ==>
        && Possible(ps, total, old(State()), op) && State() == Effect(ps, total, old(State()), op)
        && ref.Id? && ref.id in live && ref.id !in old(live) && op == New(ref.id, live[ref.id].pageNo, size)
        && (Valid() <==> Fits(size, ps))
      ensures ok && Fits(size, ps) ==>
        && live[ref.id].len == size && LowestRun(SetOf(old(pages)), live[ref.id].pageNo, Pages(size, ps))
        && OthersKept(ps, old(live), old(mem), live, mem, ref.id)
    {
      ghost var live0, mem0, free0 := live, mem, SetOf(pages);
      assert pages != [] ==> pages[0] in free0;
      assert pages == [] ==> free0 == {};
      ref := Fresh(size);
      op := Nothing;
      if ref.Id? {
        op := New(ref.id, live[ref.id].pageNo, size);
        OthersAreKept(ps, total, free0, live0, mem0, live, mem, ref.id, {});
      }
      return ref.Id?, ref, op;
    }
  }

  /** A fresh claim finds pages, or at least one page if its size wraps. */
  ghost predicate CanStart(ps: nat, free: set<int>, size: nat)
    requires ps > 0
  {
    if Fits(size, ps) then HasRun(free, Pages(size, ps)) else free != {}
  }

  /** Stream id became stream id', size bytes longer: it starts with its old bytes in order, and all other
      streams are where they were and hold what they held. */
  ghost predicate Carried(ps: nat, live: map<nat, Stream>, mem: seq<seq<byte>>, live': map<nat, Stream>, mem': seq<seq<byte>>,
      id: nat, id': nat, size: nat)
    requires ps > 0 && id in live && forall i :: i in live ==> live[i].len >= 0
  {
    && id' in live' && live'[id'].len == live[id].len + size
    && Bytes(mem', ps, live'[id'])[..live[id].len] == Bytes(mem, ps, live[id])
    && OthersKept(ps, live, mem, live', mem', id)
  }

  /** The data is where it was, and size bytes longer. */
  ghost predicate Placed(s: Stream, s': Stream, size: nat) {
    s'.buf == s.buf && s'.len == s.len + size
  }

  lemma {:induction false} FirstLeast(s: seq<int>)
    requires Ascending(s) && s != []
    ensures Least(SetOf(s), s[0])
  {
  }

  /** The record of a fresh stream is a step of the pool, and a sound one if and only if the size fits. */
  lemma {:induction false} FreshStep(ps: nat, total: nat, p: Pool, id: nat, r: nat, size: nat)
    requires ps > 0 && Addr(total, ps) < WORD && Sound(ps, total, p.free, p.live)
    requires Possible(ps, total, p, New(id, r, size))
    ensures var p' := Effect(ps, total, p, New(id, r, size));
      && p'.live == p.live[id := FreshStream(ps, r, size)] && p'.free == p.free - Range(FreshStream(ps, r, size))
      && (Sound(ps, total, p'.free, p'.live) <==> Fits(size, ps))
  {
    StepVerdict(ps, total, p, New(id, r, size));
  }

  /** Stream n is a longer copy of stream id on the lowest free run. */
  ghost predicate Doubled(ps: nat, total: nat, p: Pool, m: seq<seq<byte>>, p': Pool, m': seq<seq<byte>>, id: nat, n: nat, size: nat)
    requires ps > 0 && Sound(ps, total, p.free, p.live) && id in p.live
  {
    && n !in p.live && n in p'.live && p'.live == p.live[n := p'.live[n]]
    && var s, d := p.live[id], p'.live[n];
       && d.pageNo >= 0 && d == NewStream(ps, d.pageNo, s.len + size) && LowestRun(p.free, d.pageNo, d.pageCount)
       && p'.free == p.free - Range(d)
       && SamePages(m, m', Interval(0, total) - p.free)
       && Bytes(m', ps, d)[..s.len] == Bytes(m, ps, s)
  }

  /** Stream n took the place of stream id. */
  ghost predicate Left(ps: nat, total: nat, p: Pool, m: seq<seq<byte>>, p': Pool, m': seq<seq<byte>>, id: nat, n: nat, size: nat)
    requires ps > 0 && Sound(ps, total, p.free, p.live) && id in p.live
  {
    && n !in p.live && n in p'.live
    && var s, d := p.live[id], p'.live[n];
       && d.pageNo >= 0 && d == NewStream(ps, d.pageNo, s.len + size) && LowestRun(p.free, d.pageNo, d.pageCount)
       && p' == Pool(MovedFree(p.free, s, d, ps), Without(p.live[n := d], id))
       && Bytes(m', ps, d)[..s.len] == Bytes(m, ps, s)
       && OthersKept(ps, p.live, m, p'.live, m', id)
  }

  lemma {:induction false} SamePagesTwice(m0: seq<seq<byte>>, m1: seq<seq<byte>>, m2: seq<seq<byte>>, total: nat, free: set<int>, d: set<int>)
    requires SamePages(m0, m1, Interval(0, total) - free) && SamePages(m1, m2, Interval(0, total) - d) && d <= free
    ensures SamePages(m0, m2, Interval(0, total) - free)
  {
  }

  /** Stream n is a fresh one for all of stream id and size bytes more; the bytes of stream id are
      untouched. */
  ghost predicate Prepared(ps: nat, total: nat, p: Pool, m: seq<seq<byte>>, p': Pool, m': seq<seq<byte>>, id: nat, n: nat, size: nat)
    requires ps > 0 && Sound(ps, total, p.free, p.live) && id in p.live
  {
    && n !in p.live && n in p'.live && n != id && p'.live == p.live[n := p'.live[n]]
    && var s, d := p.live[id], p'.live[n];
       && d.pageNo >= 0 && d == NewStream(ps, d.pageNo, s.len + size) && LowestRun(p.free, d.pageNo, d.pageCount)
       && p'.free == p.free - Range(d) && Range(d) <= p.free
       && SamePages(m, m', Interval(0, total) - p.free)
       && Bytes(m', ps, s) == Bytes(m, ps, s)
  }

  lemma {:induction false} Apart(ps: nat, total: nat, p0: Pool, m0: seq<seq<byte>>, p1: Pool, m1: seq<seq<byte>>, id: nat, n: nat, size: nat)
    requires ps > 0 && Sound(ps, total, p0.free, p0.live) && id in p0.live && n in p1.live && p1.live[n].pageNo >= 0
    requires var len := p0.live[id].len + size;
      && Fits(len, ps) && Possible(ps, total, p0, New(n, p1.live[n].pageNo, len))
      && p1 == Effect(ps, total, p0, New(n, p1.live[n].pageNo, len))
    requires SamePages(m0, m1, Interval(0, total) - p0.free)
    ensures Prepared(ps, total, p0, m0, p1, m1, id, n, size)
  {
    SafeStep(ps, total, p0, New(n, p1.live[n].pageNo, p0.live[id].len + size));
    var d := p1.live[n];
    assert RunAt(p0.free, d.pageNo, d.pageCount);
    BytesKept(m0, m1, p0.live[id], ps, total);
  }

  lemma {:induction false} Copied(ps: nat, total: nat, p0: Pool, m0: seq<seq<byte>>, p1: Pool, m1: seq<seq<byte>>, m2: seq<seq<byte>>,
      id: nat, n: nat, size: nat)
    requires ps > 0 && Sound(ps, total, p0.free, p0.live) && id in p0.live && Prepared(ps, total, p0, m0, p1, m1, id, n, size)
    requires SamePages(m1, m2, Interval(0, total) - Range(p1.live[n]))
    requires Bytes(m2, ps, p1.live[n])[..p0.live[id].len] == Bytes(m1, ps, p0.live[id])
    ensures Doubled(ps, total, p0, m0, p1, m2, id, n, size)
  {
    SamePagesTwice(m0, m1, m2, total, p0.free, Range(p1.live[n]));
  }

  /** The pool and the bytes after the old place was released. */
  lemma {:induction false} LeftBehind(ps: nat, total: nat, p0: Pool, m0: seq<seq<byte>>, p1: Pool, m1: seq<seq<byte>>,
      p2: Pool, m2: seq<seq<byte>>, id: nat, n: nat, size: nat)
    requires ps > 0 && Sound(ps, total, p0.free, p0.live) && id in p0.live && Sound(ps, total, p2.free, p2.live)
    requires Doubled(ps, total, p0, m0, p1, m1, id, n, size) && id in p1.live
    requires p1.live[id].pageNo >= 0 && p1.live[id].len >= 0 && Off(p1.live[id], ps) >= 0
    requires p2.live == Without(p1.live, id)
    requires p2.free == p1.free + Interval(p1.live[id].pageNo, Quot(Off(p1.live[id], ps) + p1.live[id].len, ps))
    requires SamePages(m1, m2, Interval(0, total) - p2.free)
    ensures Left(ps, total, p0, m0, p2, m2, id, n, size)
  {
    var s, d := p0.live[id], p1.live[n];
    assert p1.live[id] == s && p2.live[n] == d;
    assert p2 == Pool(MovedFree(p0.free, s, d, ps), Without(p0.live[n := d], id));
    LeftBytes(ps, total, p0, id, n, d, m0, m1, m2);
  }

  lemma {:induction false} LeftBytes(ps: nat, total: nat, p: Pool, id: nat, n: nat, d: Stream, m0: seq<seq<byte>>, m1: seq<seq<byte>>, m2: seq<seq<byte>>)
    requires ps > 0 && Sound(ps, total, p.free, p.live) && id in p.live && n !in p.live && d.len >= 0
    requires var p' := Pool(MovedFree(p.free, p.live[id], d, ps), Without(p.live[n := d], id));
      && Sound(ps, total, p'.free, p'.live)
      && SamePages(m0, m1, Interval(0, total) - p.free) && SamePages(m1, m2, Interval(0, total) - p'.free)
    ensures Bytes(m2, ps, d) == Bytes(m1, ps, d) && OthersKept(ps, p.live, m0, Without(p.live[n := d], id), m2, id)
  {
    var s := p.live[id];
    var q := Quot(Off(s, ps) + s.len, ps);
    assert q <= s.pageCount by { ShrunkOk(s, ps, total, s.len); }
    MovedAway(ps, total, p.free, p.live, id, n, d, q, MovedFree(p.free, s, d, ps), Without(p.live[n := d], id), m0, m1, m2);
  }

  /** The pool and the bytes after a move. */
  lemma {:induction false} Relocated(ps: nat, total: nat, p: Pool, m: seq<seq<byte>>, id: nat, n: nat, size: nat, p': Pool, m': seq<seq<byte>>)
    requires ps > 0 && Sound(ps, total, p.free, p.live) && id in p.live && size > 0
    requires Blocked(p.live[id], ps, p.free, size) && Left(ps, total, p, m, p', m', id, n, size)
    ensures var op := Move(id, n, p'.live[n].pageNo, size);
      Enabled(ps, total, p, op) && p' == Apply(ps, total, p, op)
    ensures Carried(ps, p.live, m, p'.live, m', id, n, size)
  {
    MoveApplies(ps, total, p, id, n, size, p'.live[n], p');
  }

  /** The bytes after growing in place. */
  lemma {:induction false} Extended(ps: nat, total: nat, free: set<int>, live: map<nat, Stream>, id: nat, size: nat,
      free': set<int>, live': map<nat, Stream>, m: seq<seq<byte>>, m': seq<seq<byte>>)
    requires ps > 0 && Sound(ps, total, free, live) && id in live && size > 0
    requires !Blocked(live[id], ps, free, size) && GrowSafe(live[id], ps, free, size)
    requires free' == GrowFree(live[id], ps, free, size) && live' == live[id := GrowRecord(live[id], ps, size)]
    requires SamePages(m, m', Interval(0, total) - free)
    ensures Enabled(ps, total, Pool(free, live), Op.Extend(id, size))
    ensures Pool(free', live') == Apply(ps, total, Pool(free, live), Op.Extend(id, size))
    ensures Carried(ps, live, m, live', m', id, id, size)
  {
    GrowSound(ps, total, free, live, id, size);
    GrownBytes(m, m', live[id], live'[id], ps, total);
    OthersAreKept(ps, total, free, live, m, live', m', id, {});
  }

  /** The bytes after a release. */
  lemma {:induction false} Released(ps: nat, total: nat, free: set<int>, live: map<nat, Stream>, id: nat, size: nat,
      free': set<int>, live': map<nat, Stream>, m: seq<seq<byte>>, m': seq<seq<byte>>)
    requires ps > 0 && Sound(ps, total, free, live) && id in live && 0 < size <= live[id].len && Sound(ps, total, free', live')
    requires free' == free + Interval(live[id].pageNo, Quot(Off(live[id], ps) + size, ps))
    requires live' == if size < live[id].len then live[id := Shrunk(live[id], ps, size)] else Without(live, id)
    requires SamePages(m, m', Interval(0, total) - free')
    ensures Enabled(ps, total, Pool(free, live), Drop(id, size))
    ensures Pool(free', live') == Apply(ps, total, Pool(free, live), Drop(id, size))
    ensures size < live[id].len ==> Bytes(m', ps, live'[id]) == Bytes(m, ps, live[id])[size..]
    ensures OthersKept(ps, live, m, live', m', id)
  {
    var s := live[id];
    var freed := Interval(s.pageNo, Quot(Off(s, ps) + size, ps));
    assert freed <= Range(s) by { ShrunkOk(s, ps, total, size); }
    OthersAreKept(ps, total, free, live, m, live', m', id, freed);
    if size < s.len {
      LiveShrunk(ps, total, free', live', id, s, size, m, m');
    }
  }

  lemma {:induction false} LiveShrunk(ps: nat, total: nat, free: set<int>, live: map<nat, Stream>, id: nat, s: Stream, size: nat,
      m: seq<seq<byte>>, m': seq<seq<byte>>)
    requires ps > 0 && StreamOk(s, ps, total) && size < s.len
    requires Sound(ps, total, free, live) && id in live && live[id] == Shrunk(s, ps, size) && SamePages(m, m', Interval(0, total) - free)
    ensures Bytes(m', ps, live[id]) == Bytes(m, ps, s)[size..]
  {
    assert Range(live[id]) !! free && Range(live[id]) <= Interval(0, total);
    ShrunkBytes(m, m', s, ps, total, size);
  }

  lemma {:induction false} SameRefs(spare: seq<nat>, live: map<nat, Stream>, id: nat, s: Stream, total: nat)
    requires RefsOk(spare, live, total) && id in live
    ensures RefsOk(spare, live[id := s], total)
  {
    assert live[id := s].Keys == live.Keys;
    assert |live[id := s].Keys| == |live.Keys|;
  }

  /** The source of a copy is not touched while its target is written. */
  lemma {:induction false} ReadBack(mem: seq<seq<byte>>, mem': seq<seq<byte>>, s: Stream, d: Stream, ps: nat, total: nat, i: nat)
    requires ps > 0 && StreamOk(s, ps, total) && i < s.len && Range(s) !! Range(d)
    requires SamePages(mem, mem', Interval(0, total) - Range(d))
    ensures At(mem', ps, s.buf + i) == Bytes(mem, ps, s)[i]
  {
    BytesKept(mem, mem', s, ps, total);
    assert Bytes(mem', ps, s)[i] == At(mem', ps, s.buf + i);
  }

  /** The stream and the remaining size after k turns of the release loop. */
  ghost predicate AtTurn(s0: Stream, size0: nat, ps: nat, k: nat, s: Stream, size: nat) {
    s == Turns(s0, ps, k) && size == Turned(size0, -1 * ps, k)
  }

  /** The test of the release loop */
  method TurnNeeded(ghost s0: Stream, ghost size0: nat, ps: nat, ghost total: nat, s: Stream, sizeAdj: nat, size: nat, ghost k: nat)
    returns (more: bool)
    requires ps > 0 && StreamOk(s0, ps, total) && Addr(total, ps) < WORD && size0 <= s0.len
    requires k <= Quot(Off(s0, ps) + size0, ps) && AtTurn(s0, size0, ps, k, s, size)
    requires sizeAdj == Wrap(s0.buf - Addr(s0.pageNo, ps))
    ensures more <==> k < Quot(Off(s0, ps) + size0, ps)
  {
    more := s.pageCount != 0 && Wrap(sizeAdj + size) >= ps;
    TurnTest(s0, size0, ps, total, k);
  }

  /** The accounting of one turn */
  method Turn(ghost s0: Stream, ghost size0: nat, ps: nat, s: Stream, size: nat, ghost k: nat) returns (s': Stream, size': nat)
    requires AtTurn(s0, size0, ps, k, s, size)
    ensures AtTurn(s0, size0, ps, k + 1, s', size')
  {
    s' := NextPage(s, ps);
    size' := Wrap(size - ps);
  }

  /** Mopping up the remaining size */
  method Mop(ghost s0: Stream, ghost size0: nat, ps: nat, ghost total: nat, s: Stream, size: nat) returns (s': Stream)
    requires ps > 0 && StreamOk(s0, ps, total) && Addr(total, ps) < WORD && size0 <= s0.len
    requires AtTurn(s0, size0, ps, Quot(Off(s0, ps) + size0, ps), s, size)
    ensures s' == Shrunk(s0, ps, size0)
  {
    Mopped(s0, size0, ps, total, Quot(Off(s0, ps) + size0, ps));
    s' := s.(buf := Wrap(s.buf + size), len := Wrap(s.len - size));
  }

  lemma {:induction false} Mopped(s0: Stream, size0: nat, ps: nat, total: nat, q: nat)
    requires ps > 0 && StreamOk(s0, ps, total) && Addr(total, ps) < WORD && size0 <= s0.len
    ensures var s, size := Turns(s0, ps, q), Turned(size0, -1 * ps, q);
      s.(buf := Wrap(s.buf + size), len := Wrap(s.len - size)) == Stream(s0.pageNo + q, s0.pageCount - q, s0.buf + size0, s0.len - size0)
  {
    OffsetFits(s0, ps, total);
    MopUp(s0.buf, s0.len, size0, ps, q);
  }

  /** The next page of the stream is in no tree yet. */
  lemma {:induction false} Untaken(s: Stream, free: set<int>, k: nat)
    requires Range(s) !! free && k < s.pageCount
    ensures s.pageNo + k !in free + Interval(s.pageNo, k)
    ensures Interval(s.pageNo, k + 1) == Interval(s.pageNo, k) + {s.pageNo + k}
  {
    assert s.pageNo + k in Range(s);
  }

  lemma {:induction false} InsertedAt(s: seq<int>, k: nat, p: int)
    requires Ascending(s) && k <= |s|
    requires (forall j :: 0 <= j < k ==> s[j] < p) && (k < |s| ==> p <= s[k])
    ensures p in SetOf(s) <==> k < |s| && s[k] == p
    ensures k < |s| && s[k] == p ==> SetOf(s) == SetOf(s) + {p}
    ensures !(k < |s| && s[k] == p) ==>
              Ascending(s[..k] + [p] + s[k..]) && SetOf(s[..k] + [p] + s[k..]) == SetOf(s) + {p}
  {
    if k < |s| && s[k] == p {
      assert p in SetOf(s);
    } else {
      InsertedOrder(s, k, p);
      InsertedSet(s, k, p);
      assert forall j :: k <= j < |s| ==> s[k] <= s[j];
    }
  }

  lemma {:induction false} InsertedOrder(s: seq<int>, k: nat, p: int)
    requires Ascending(s) && k <= |s| && (forall j :: 0 <= j < k ==> s[j] < p) && (k < |s| ==> p < s[k])
    ensures Ascending(s[..k] + [p] + s[k..])
  {
    var t := s[..k] + [p] + s[k..];
    forall i, j | 0 <= i < j < |t| ensures t[i] < t[j] {
      assert t[i] == if i < k then s[i] else if i == k then p else s[i - 1];
      assert t[j] == if j < k then s[j] else if j == k then p else s[j - 1];
      if j > k { assert s[k] <= s[j - 1]; }
    }
  }

  lemma {:induction false} InsertedSet(s: seq<int>, k: nat, p: int)
    requires k <= |s|
    ensures SetOf(s[..k] + [p] + s[k..]) == SetOf(s) + {p}
  {
    assert s == s[..k] + s[k..];
  }

  lemma {:induction false} FirstIsLeast(s: seq<int>, n: int)
    requires Ascending(s) && s != [] && n >= 1
    ensures forall q {:trigger RunAt(SetOf(s), q, n)} :: RunAt(SetOf(s), q, n) ==> s[0] <= q
  {
    forall q | RunAt(SetOf(s), q, n) ensures s[0] <= q {
      assert q in SetOf(s);
    }
  }

  lemma {:induction false} ConsecutiveRun(s: seq<int>, base: nat, n: nat)
    requires base < |s| && Consecutive(s, base, n)
    ensures RunAt(SetOf(s), s[base], n)
  {
    forall p | s[base] <= p < s[base] + n ensures p in SetOf(s) {
      assert s[base + (p - s[base])] == p;
    }
  }

  /** What the probe behind a stream found. */
  lemma {:induction false} ProbedRun(s: seq<int>, k: nat, index: int, count: nat, n: int)
    requires Ascending(s) && k <= |s| && n != 0 && Consecutive(s, k, count)
    requires if k < |s| then s[k] == index else index !in SetOf(s)
    requires count == n || k + count == |s| || s[k + count] != s[k] + count
    requires 0 <= n ==> count <= n
    ensures RunAt(SetOf(s), index, n) <==> n <= count
    ensures 0 < n <= count ==> k < |s| && Consecutive(s, k, n)
  {
    if 0 < n {
      if k == |s| {
        assert index <= index < index + n;
      } else if n <= count {
        ConsecutiveRun(s, k, n);
      } else {
        assert count >= 1 by { assert s[k + 0] == s[k] + 0; }
        NoRunHere(s, k, count, n, index);
      }
    }
  }

  /** After the stretch at base, no run of n starts before the next stretch. */
  lemma {:induction false} PassedOver(s: seq<int>, base: nat, i: nat, n: nat)
    requires Ascending(s) && base < |s| && i < n && Consecutive(s, base, i)
    requires base + i == |s| || s[base + i] != s[base] + i
    requires forall q {:trigger RunAt(SetOf(s), q, n)} :: RunAt(SetOf(s), q, n) ==> s[base] <= q
    ensures i >= 1
    ensures base + i == |s| ==> !HasRun(SetOf(s), n)
    ensures base + i < |s| ==> forall q {:trigger RunAt(SetOf(s), q, n)} :: RunAt(SetOf(s), q, n) ==> s[base + i] <= q
  {
    assert i >= 1 by { assert s[base + 0] == s[base] + 0; }
    forall q | RunAt(SetOf(s), q, n) ensures base + i < |s| && s[base + i] <= q {
      if base + i == |s| || q < s[base + i] { NoRunHere(s, base, i, n, q); }
    }
  }

  lemma {:induction false} CutOne(s: seq<int>, k: nat)
    requires Ascending(s) && k < |s|
    ensures Ascending(s[..k] + s[k + 1..]) && SetOf(s[..k] + s[k + 1..]) == SetOf(s) - {s[k]}
  {
    CutRun(s, k, 1);
    assert Interval(s[k], 1) == {s[k]};
  }
}
