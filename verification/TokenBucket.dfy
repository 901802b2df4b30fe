/**
  The token bucket of include/peak_token.h: how much a stretch of requests can take.
 */
module TokenBucket {

  /** Tokens at hand, tokens per second, and the time of the last refill in milliseconds. */
  datatype Bucket = Bucket(have: int, max: int, ts: int)

  datatype Request = Request(want: int, ts: int)

  /** Division as in C. */
  function Quotient(a: int, b: int): int
    requires b > 0
  {
    if a >= 0 then a / b else -((-a) / b)
  }

  /** The bucket at time ts. */
  function Refilled(b: Bucket, ts: int): Bucket {
    var credit := ts - b.ts;
    if credit <= 0 then b
    else
      var have := b.have + Quotient(credit * b.max, 1000);
      Bucket(if have > b.max then b.max else have, b.max, ts)
  }

  predicate Granted(b: Bucket, r: Request) {
    b.max == 0 || !(r.want > 0 && Refilled(b, r.ts).have <= 0)
  }

  function After(b: Bucket, r: Request): Bucket {
    if b.max == 0 then b
    else
      var f := Refilled(b, r.ts);
      if Granted(b, r) then f.(have := f.have - r.want) else f
  }

  function Run(b: Bucket, rs: seq<Request>): Bucket {
    if rs == [] then b else After(Run(b, rs[..|rs| - 1]), rs[|rs| - 1])
  }

  /** The tokens handed out in a run. */
  function Total(b: Bucket, rs: seq<Request>): int {
    if rs == [] then 0
    else
      var n := |rs| - 1;
      Total(b, rs[..n]) + if Granted(Run(b, rs[..n]), rs[n]) then rs[n].want else 0
  }

  ghost predicate Modest(rs: seq<Request>, w: int) {
    forall i :: 0 <= i < |rs| ==> 0 <= rs[i].want <= w
  }

  // ---------------------------------------------------------------- what holds at any time

  /** A bucket between its overdraft and its maximum. */
  ghost predicate Level(b: Bucket, w: int) {
    b.max > 0 && 1 - w <= b.have <= b.max
  }

  lemma {:induction false} Gain(c: int, max: int)
    requires c > 0 && max > 0
    ensures c * max >= 0 && 0 <= 1000 * Quotient(c * max, 1000) <= c * max
  {
    Product(c, max);
  }

  lemma {:induction false} Product(c: int, max: int)
    requires c >= 0 && max >= 0
    ensures c * max >= 0
  {
  }

  lemma {:induction false} RefilledLevel(b: Bucket, ts: int, w: int)
    requires Level(b, w)
    ensures Level(Refilled(b, ts), w) && b.have <= Refilled(b, ts).have
    ensures Refilled(b, ts).max == b.max && b.ts <= Refilled(b, ts).ts
    ensures 1000 * Refilled(b, ts).have <= 1000 * b.have + (Refilled(b, ts).ts - b.ts) * b.max
  {
    if ts > b.ts { Gain(ts - b.ts, b.max); }
  }

  lemma {:induction false} AfterLevel(b: Bucket, r: Request, w: int)
    requires Level(b, w) && 0 <= r.want <= w && w >= 1
    ensures Level(After(b, r), w) && After(b, r).max == b.max
  {
    RefilledLevel(b, r.ts, w);
  }

  /** Tokens never exceed the maximum, nor run below the largest request. */
  lemma {:induction false} RunLevel(b: Bucket, rs: seq<Request>, w: int)
    requires Level(b, w) && Modest(rs, w) && w >= 1
    ensures Level(Run(b, rs), w) && Run(b, rs).max == b.max && Run(b, rs).ts >= b.ts
  {
    if rs != [] {
      var n := |rs| - 1;
      RunLevel(b, rs[..n], w);
      AfterLevel(Run(b, rs[..n]), rs[n], w);
      RefilledLevel(Run(b, rs[..n]), rs[n].ts, w);
    }
  }

  /** The books of one request. */
  lemma {:induction false} AfterBooks(b: Bucket, r: Request, w: int)
    requires Level(b, w) && 0 <= r.want <= w
    ensures var a := After(b, r); var g := if Granted(b, r) then r.want else 0;
      1000 * (a.have + g) <= 1000 * b.have + (a.ts - b.ts) * b.max
  {
    RefilledLevel(b, r.ts, w);
  }

  /** What a refill brings: nothing for a timestamp that is not newer; else the elapsed time at the nominal
      rate, without the fraction, up to the maximum. */
  lemma {:induction false} RefilledExact(b: Bucket, ts: int)
    requires b.max > 0 && b.have <= b.max
    ensures ts <= b.ts ==> Refilled(b, ts) == b
    ensures ts > b.ts ==> Refilled(b, ts).ts == ts && Refilled(b, ts).max == b.max && exists q ::
      0 <= 1000 * q <= (ts - b.ts) * b.max < 1000 * q + 1000 && Refilled(b, ts).have == if b.have + q > b.max then b.max else b.have + q
  {
    if ts > b.ts {
      var x := (ts - b.ts) * b.max;
      Gain(ts - b.ts, b.max);
      Fraction(x);
      var q := Quotient(x, 1000);
      assert 0 <= 1000 * q <= x < 1000 * q + 1000;
    }
  }

  /** Whoever wants tokens gets them exactly if there is one at hand after the refill; returning tokens and
      a bucket without a maximum are never refused. */
  lemma {:induction false} GrantedExact(b: Bucket, r: Request)
    ensures b.max == 0 ==> Granted(b, r) && After(b, r) == b
    ensures b.max != 0 && r.want <= 0 ==> Granted(b, r)
    ensures b.max != 0 && r.want > 0 ==> (Granted(b, r) <==> Refilled(b, r.ts).have > 0)
    ensures b.max != 0 ==> After(b, r).have == Refilled(b, r.ts).have - if Granted(b, r) then r.want else 0
  {
  }

  /** Tokens at hand are enough, with or without a refill. */
  lemma {:induction false} Spendable(b: Bucket, r: Request)
    requires 0 < b.have <= b.max
    ensures Granted(b, r)
  {
    RefilledLevel(b, r.ts, 1);
  }

  /** Nobody starves: once the refill since the last one covers the largest request, any request is
      granted. */
  lemma {:induction false} Served(b: Bucket, r: Request, w: int)
    requires Level(b, w) && w >= 1 && r.ts > b.ts && (r.ts - b.ts) * b.max >= 1000 * w
    ensures Granted(b, r)
  {
    Gain(r.ts - b.ts, b.max);
    AtLeast((r.ts - b.ts) * b.max, w);
  }

  lemma {:induction false} AtLeast(x: int, w: int)
    requires w >= 1 && x >= 1000 * w
    ensures Quotient(x, 1000) >= w
  {
  }

  /** Nothing is lost but what a full bucket cannot take and the fraction of a token. */
  lemma {:induction false} NoLoss(b: Bucket, r: Request, w: int)
    requires Level(b, w) && 0 <= r.want <= w
    ensures var a := After(b, r); var g := if Granted(b, r) then r.want else 0;
      a.have + g == b.max || 1000 * (a.have + g) > 1000 * b.have + (a.ts - b.ts) * b.max - 1000
  {
    if r.ts > b.ts {
      Gain(r.ts - b.ts, b.max);
      Fraction((r.ts - b.ts) * b.max);
    }
  }

  lemma {:induction false} Fraction(x: int)
    requires x >= 0
    ensures 1000 * Quotient(x, 1000) > x - 1000
  {
  }

  // ---------------------------------------------------------------- 64-bit arithmetic

  /** int64_t */
  predicate In64(x: int) { -0x8000_0000_0000_0000 <= x < 0x8000_0000_0000_0000 }

  /** Every value the code computes for a request fits 64 bits. */
  ghost predicate Computable(b: Bucket, r: Request) {
    var credit := r.ts - b.ts;
    && In64(credit)
    && (b.max != 0 && credit > 0 ==> In64(credit * b.max) && In64(b.have + Quotient(credit * b.max, 1000)))
    && (b.max != 0 && Granted(b, r) ==> In64(Refilled(b, r.ts).have - r.want))
  }

  /** As long as the maximum is below 2^62, the arithmetic is exact if and only if the elapsed time and
      its product with the maximum fit 64 bits. */
  lemma {:induction false} Fits64(b: Bucket, r: Request, w: int)
    requires Level(b, w) && b.max < 0x4000_0000_0000_0000 && 0 <= r.want <= w <= 0x4000_0000_0000_0000
    ensures Computable(b, r) <==> In64(r.ts - b.ts) && (r.ts > b.ts ==> In64((r.ts - b.ts) * b.max))
  {
    RefilledLevel(b, r.ts, w);
    if r.ts > b.ts {
      Gain(r.ts - b.ts, b.max);
    }
  }

  /** A new bucket of ten million tokens, first asked in 2014 by a millisecond clock. */
  lemma {:induction false} OverflowExample()
    ensures var b := Bucket(10_000_000, 10_000_000, 0); var r := Request(1, 1_400_000_000_000);
      Level(b, 1) && !Computable(b, r)
  {
    assert 1_400_000_000_000 * 10_000_000 == 14_000_000_000_000_000_000;
  }

  lemma {:induction false} Spread(a: int, b: int, max: int)
    ensures a * max + b * max == (a + b) * max
  {
  }

  lemma {:induction false} RunBooks(b: Bucket, rs: seq<Request>, w: int)
    requires Level(b, w) && Modest(rs, w) && w >= 1
    ensures 1000 * (Run(b, rs).have + Total(b, rs)) <= 1000 * b.have + (Run(b, rs).ts - b.ts) * b.max
  {
    if rs != [] {
      var n := |rs| - 1;
      var m := Run(b, rs[..n]);
      RunBooks(b, rs[..n], w);
      RunLevel(b, rs[..n], w);
      AfterBooks(m, rs[n], w);
      Spread(m.ts - b.ts, Run(b, rs).ts - m.ts, b.max);
    }
  }

  lemma {:induction false} RunSplit(b: Bucket, a: seq<Request>, c: seq<Request>)
    ensures Run(b, a + c) == Run(Run(b, a), c)
  {
    if c == [] {
      assert a + c == a;
    } else {
      var n := |c| - 1;
      RunSplit(b, a, c[..n]);
      assert (a + c)[..|a + c| - 1] == a + c[..n];
    }
  }

  /** In a run from a full bucket with requests of at most w tokens, whatever the timestamps: the
      tokens never exceed the maximum, and any stretch takes at most what was there, the refill of
      its time at the nominal rate, and one token less than the largest request. */
  lemma {:induction false} Rate(max: int, before: seq<Request>, rs: seq<Request>, w: int)
    requires max > 0 && w >= 1 && Modest(before, w) && Modest(rs, w)
    ensures var s := Run(Bucket(max, max, 0), before); var e := Run(Bucket(max, max, 0), before + rs);
      && e.have <= max
      && 1000 * Total(s, rs) <= 1000 * (s.have + w - 1) + (e.ts - s.ts) * max
  {
    var b := Bucket(max, max, 0);
    RunSplit(b, before, rs);
    RunLevel(b, before, w);
    RunLevel(Run(b, before), rs, w);
    RunBooks(Run(b, before), rs, w);
  }

  // ---------------------------------------------------------------- the object

  class Token {
    var have: int
    var max: int
    var ts_ms: int

    function View(): Bucket reads this { Bucket(have, max, ts_ms) }

    /** _peak_token_init */
    constructor (max: int)
      ensures View() == Bucket(max, max, 0)
    {
      this.max, have, ts_ms := max, max, 0;
    }

    /** _peak_token_credit */
    method Credit(want: int, ts: int) returns (ok: bool)
      modifies this
      ensures View() == After(old(View()), Request(want, ts)) && ok == Granted(old(View()), Request(want, ts))
    {
      var credit := ts - ts_ms;
      if max == 0 {
        return true;
      }
      if credit > 0 {
        ts_ms := ts;
        have := have + Quotient(credit * max, 1000);
        if have > max {
          have := max;
        }
      }
      if want > 0 && have <= 0 {
        return false;
      }
      have := have - want;
      return true;
    }
  }
}
