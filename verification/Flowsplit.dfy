/**
  The run of bin/flowsplit over a trace: every packet goes to the output file its flow was given.
  A trace is the sequence of its packets as far as they could be parsed; a file is the sequence of
  the trace positions stored in it.
 */
module Flowsplit {
  import opened TrackModel
  import opened Tracker
  import StreamModel

  type Trace = seq<Option<Packet>>

  /** The tool does not start, or stops at a packet whose flow finds no room, or finishes. */
  datatype Outcome = Panic | Stopped(at: nat, files: seq<seq<nat>>) | Done(files: seq<seq<nat>>)

  /** The flow keys of the first m packets. */
  function Keys(trace: Trace, m: nat): seq<Key>
    requires m <= |trace|
  {
    if m == 0 then []
    else Keys(trace, m - 1) + if trace[m - 1].Some? then [KeyOf(trace[m - 1].value)] else []
  }

  function AllKeys(trace: Trace): seq<Key> { Keys(trace, |trace|) }

  /** The file of a packet: the rank of its flow in the whole trace, wrapped around. */
  function FileOf(trace: Trace, p: Packet, n: nat): nat
    requires n > 0
  {
    Rank(AllKeys(trace), KeyOf(p)) % n
  }

  /** The packets of file j among the first m. */
  function Picked(trace: Trace, m: nat, j: nat, n: nat): seq<nat>
    requires m <= |trace| && n > 0
  {
    if m == 0 then []
    else
      var p := trace[m - 1];
      Picked(trace, m - 1, j, n) + if p.Some? && FileOf(trace, p.value, n) == j then [m - 1] else []
  }

  /** Every file holds its packets among the first m. */
  ghost predicate Sorted(trace: Trace, m: nat, n: nat, files: seq<seq<nat>>)
    requires m <= |trace| && n > 0
  {
    |files| == n && forall j :: 0 <= j < n ==> files[j] == Picked(trace, m, j, n)
  }

  lemma {:induction false} PickedExact(trace: Trace, m: nat, j: nat, n: nat, x: nat)
    requires m <= |trace| && n > 0
    ensures x in Picked(trace, m, j, n) <==> x < m && trace[x].Some? && FileOf(trace, trace[x].value, n) == j
  {
    if m > 0 { PickedExact(trace, m - 1, j, n, x); }
  }

  /** The packets of a file keep the order of the trace. */
  lemma {:induction false} PickedAscends(trace: Trace, m: nat, j: nat, n: nat)
    requires m <= |trace| && n > 0
    ensures forall a, b :: 0 <= a < b < |Picked(trace, m, j, n)| ==> Picked(trace, m, j, n)[a] < Picked(trace, m, j, n)[b]
    ensures forall a :: 0 <= a < |Picked(trace, m, j, n)| ==> Picked(trace, m, j, n)[a] < m
  {
    if m > 0 { PickedAscends(trace, m - 1, j, n); }
  }

  /** Two packets of one flow, in either direction between different addresses, share a file, at any
      point of the run that has seen both. */
  lemma {:induction false} SameFile(trace: Trace, m: nat, n: nat, x: nat, y: nat, j: nat)
    requires n > 0 && m <= |trace| && x < m && y < m && trace[x].Some? && trace[y].Some?
    requires SameFlow(trace[x].value, trace[y].value)
    ensures x in Picked(trace, m, j, n) <==> y in Picked(trace, m, j, n)
  {
    KeyExact(trace[x].value, trace[y].value);
    PickedExact(trace, m, j, n, x);
    PickedExact(trace, m, j, n, y);
  }

  /** The same protocol and the same or swapped endpoints. */
  predicate SameFlow(p: Packet, q: Packet) {
    p.proto == q.proto && (SameWay(p, q) || (p.saddr != p.daddr && OtherWay(p, q)))
  }

  lemma {:induction false} KeysPrefix(trace: Trace, m: nat)
    requires m <= |trace|
    ensures |Keys(trace, m)| <= |AllKeys(trace)| && AllKeys(trace)[..|Keys(trace, m)|] == Keys(trace, m)
    decreases |trace| - m
  {
    var a := AllKeys(trace);
    if m == |trace| {
      assert a[..|a|] == a;
    } else {
      KeysPrefix(trace, m + 1);
      var b, c := Keys(trace, m), Keys(trace, m + 1);
      assert c[..|b|] == b;
      assert a[..|c|][..|b|] == a[..|b|];
    }
  }

  /** Packet i in a run that is at its key: the id it gets is the rank over the whole trace. */
  lemma {:induction false} Assigned(trace: Trace, i: nat, l: Lru, max: nat)
    requires i < |trace| && trace[i].Some? && 1 <= max < IDS
    requires l == Run(Keys(trace, i), max, true)
    ensures Keys(trace, i + 1) == Keys(trace, i) + [KeyOf(trace[i].value)]
    ensures After(l, max, true, KeyOf(trace[i].value)) == Run(Keys(trace, i + 1), max, true)
    ensures var k, u := KeyOf(trace[i].value), Run(Keys(trace, i + 1), max, true);
      var r := Rank(AllKeys(trace), k);
      && (IdOf(u.order, k) == if r < max then Some(r) else None)
      && (r >= max ==> |Firsts(AllKeys(trace))| > max)
  {
    var k, a, b := KeyOf(trace[i].value), Keys(trace, i), Keys(trace, i + 1);
    assert b == a + [k] && b[..|b| - 1] == a && b[|b| - 1] == k;
    FixedRun(b, max);
    KeysPrefix(trace, i + 1);
    RankStays(AllKeys(trace), |b|, k);
    FirstsSeen(b, k);
    FirstsSeen(AllKeys(trace), k);
  }

  // ---------------------------------------------------------------- what a file holds

  /** The first packet of a flow. */
  predicate NewFlow(trace: Trace, x: nat) {
    && x < |trace| && trace[x].Some?
    && forall w :: 0 <= w < x && trace[w].Some? ==> !SameFlow(trace[w].value, trace[x].value)
  }

  predicate FirstFlow(trace: Trace, x: nat) {
    NewFlow(trace, x) && forall w :: 0 <= w < x ==> !NewFlow(trace, w)
  }

  /** The next flow after the one that starts at x starts at y. */
  predicate NextFlow(trace: Trace, x: nat, y: nat) {
    x < y && NewFlow(trace, x) && NewFlow(trace, y) && forall w :: x < w < y ==> !NewFlow(trace, w)
  }

  /** How flows are dealt to files, said of the files alone: every parsed packet of the first m is in a
      file, in the order of the trace; flows stay together; the first flow is in file 0, and a new flow
      goes to the file behind that of the flow that started before it, wrapping around. */
  ghost predicate Dealt(trace: Trace, m: nat, n: nat, files: seq<seq<nat>>)
    requires m <= |trace| && n > 0
  {
    && |files| == n
    && (forall j :: 0 <= j < n ==> Stored(trace, m, files[j]))
    && (forall x: nat :: x < m && trace[x].Some? ==> exists j :: 0 <= j < n && x in files[j])
    && OneFile(trace, files) && FirstInFront(trace, files) && InTurn(trace, n, files)
  }

  ghost predicate OneFile(trace: Trace, files: seq<seq<nat>>) {
    forall x, y, i, j :: 0 <= i < |files| && 0 <= j < |files| && x in files[i] && y in files[j] && Together(trace, x, y) ==> i == j
  }

  ghost predicate FirstInFront(trace: Trace, files: seq<seq<nat>>) {
    forall x, j :: 0 <= j < |files| && x in files[j] && FirstFlow(trace, x) ==> j == 0
  }

  ghost predicate InTurn(trace: Trace, n: nat, files: seq<seq<nat>>)
    requires n > 0
  {
    forall x, y, i, j :: 0 <= i < |files| && 0 <= j < |files| && x in files[i] && y in files[j] && NextFlow(trace, x, y) ==> j == (i + 1) % n
  }

  predicate Together(trace: Trace, x: nat, y: nat) {
    x < |trace| && y < |trace| && trace[x].Some? && trace[y].Some? && SameFlow(trace[x].value, trace[y].value)
  }

  /** Parsed packets among the first m, in order. */
  ghost predicate Stored(trace: Trace, m: nat, file: seq<nat>)
    requires m <= |trace|
  {
    && (forall i, j :: 0 <= i < j < |file| ==> file[i] < file[j])
    && (forall x :: x in file ==> x < m && trace[x].Some?)
  }

  /** The rank of a flow is the number of flows that started before it. */
  function StartsBefore(trace: Trace, x: nat): nat {
    if x == 0 then 0 else StartsBefore(trace, x - 1) + if NewFlow(trace, x - 1) then 1 else 0
  }

  lemma {:induction false} NewIsNew(trace: Trace, x: nat)
    requires x < |trace| && trace[x].Some?
    ensures NewFlow(trace, x) <==> KeyOf(trace[x].value) !in Keys(trace, x)
  {
    var k := KeyOf(trace[x].value);
    if k in Keys(trace, x) {
      var w := KeyPlace(trace, x, k);
      KeyExact(trace[w].value, trace[x].value);
    } else {
      forall w | 0 <= w < x && trace[w].Some? ensures !SameFlow(trace[w].value, trace[x].value) {
        KeyExact(trace[w].value, trace[x].value);
        KeyThere(trace, x, w);
      }
    }
  }

  lemma {:induction false} KeyPlace(trace: Trace, m: nat, k: Key) returns (w: nat)
    requires m <= |trace| && k in Keys(trace, m)
    ensures w < m && trace[w].Some? && KeyOf(trace[w].value) == k
  {
    if trace[m - 1].Some? && KeyOf(trace[m - 1].value) == k {
      w := m - 1;
    } else {
      w := KeyPlace(trace, m - 1, k);
    }
  }

  lemma {:induction false} KeyThere(trace: Trace, m: nat, w: nat)
    requires w < m <= |trace| && trace[w].Some?
    ensures KeyOf(trace[w].value) in Keys(trace, m)
  {
    if w < m - 1 { KeyThere(trace, m - 1, w); }
  }

  lemma {:induction false} FirstsCount(trace: Trace, x: nat)
    requires x <= |trace|
    ensures |Firsts(Keys(trace, x))| == StartsBefore(trace, x)
  {
    if x > 0 {
      FirstsCount(trace, x - 1);
      if trace[x - 1].Some? {
        var a, k := Keys(trace, x - 1), KeyOf(trace[x - 1].value);
        NewIsNew(trace, x - 1);
        FirstsSeen(a, k);
        RankStep(a, k, k);
      } else {
        assert Keys(trace, x) == Keys(trace, x - 1);
      }
    }
  }

  /** The first packet of a flow: its rank in the whole trace. */
  lemma {:induction false} StartRank(trace: Trace, x: nat)
    requires NewFlow(trace, x)
    ensures Rank(AllKeys(trace), KeyOf(trace[x].value)) == StartsBefore(trace, x)
  {
    var a, b, k := Keys(trace, x), Keys(trace, x + 1), KeyOf(trace[x].value);
    NewIsNew(trace, x);
    FirstsSeen(a, k);
    RankStep(a, k, k);
    FirstsCount(trace, x);
    KeysPrefix(trace, x + 1);
    assert b[|b| - 1] == k;
    RankStays(AllKeys(trace), |b|, k);
  }

  lemma {:induction false} NoStarts(trace: Trace, x: nat, y: nat)
    requires x <= y && forall w :: x <= w < y ==> !NewFlow(trace, w)
    ensures StartsBefore(trace, y) == StartsBefore(trace, x)
    decreases y
  {
    if x < y { NoStarts(trace, x, y - 1); }
  }

  lemma {:induction false} NextFile(r: nat, n: nat)
    requires n > 0
    ensures (r + 1) % n == (r % n + 1) % n
  {
    var q, s := r / n, r % n;
    if s + 1 < n {
      StreamModel.DivUnique(r + 1, n, q, s + 1);
      StreamModel.DivUnique(s + 1, n, 0, s + 1);
    } else {
      StreamModel.DivUnique(r + 1, n, q + 1, 0);
      StreamModel.DivUnique(s + 1, n, 1, 0);
    }
  }

  /** The files of a run are dealt. */
  lemma {:induction false} SortedDealt(trace: Trace, m: nat, n: nat, files: seq<seq<nat>>)
    requires m <= |trace| && n > 0 && Sorted(trace, m, n, files)
    ensures Dealt(trace, m, n, files)
  {
    forall j | 0 <= j < n ensures Stored(trace, m, files[j]) {
      PickedAscends(trace, m, j, n);
      forall x | x in files[j] ensures x < m && trace[x].Some? { PickedExact(trace, m, j, n, x); }
    }
    AllStored(trace, m, n, files);
    SortedTogether(trace, m, n, files);
    SortedInFront(trace, m, n, files);
    SortedInTurn(trace, m, n, files);
  }

  lemma {:induction false} AllStored(trace: Trace, m: nat, n: nat, files: seq<seq<nat>>)
    requires m <= |trace| && n > 0 && Sorted(trace, m, n, files)
    ensures forall x: nat :: x < m && trace[x].Some? ==> exists j :: 0 <= j < n && x in files[j]
  {
    forall x: nat | x < m && trace[x].Some? ensures exists j :: 0 <= j < n && x in files[j] {
      var j := FileOf(trace, trace[x].value, n);
      PickedExact(trace, m, j, n, x);
      assert x in files[j];
    }
  }

  lemma {:induction false} SortedTogether(trace: Trace, m: nat, n: nat, files: seq<seq<nat>>)
    requires m <= |trace| && n > 0 && Sorted(trace, m, n, files)
    ensures OneFile(trace, files)
  {
    forall x, y, i, j | 0 <= i < n && 0 <= j < n && x in files[i] && y in files[j] && Together(trace, x, y) ensures i == j {
      PickedExact(trace, m, i, n, x);
      PickedExact(trace, m, j, n, y);
      KeyExact(trace[x].value, trace[y].value);
    }
  }

  lemma {:induction false} SortedInFront(trace: Trace, m: nat, n: nat, files: seq<seq<nat>>)
    requires m <= |trace| && n > 0 && Sorted(trace, m, n, files)
    ensures FirstInFront(trace, files)
  {
    forall x, j | 0 <= j < n && x in files[j] && FirstFlow(trace, x) ensures j == 0 {
      PickedExact(trace, m, j, n, x);
      FrontFile(trace, n, x);
    }
  }

  lemma {:induction false} SortedInTurn(trace: Trace, m: nat, n: nat, files: seq<seq<nat>>)
    requires m <= |trace| && n > 0 && Sorted(trace, m, n, files)
    ensures InTurn(trace, n, files)
  {
    forall x, y, i, j | 0 <= i < n && 0 <= j < n && x in files[i] && y in files[j] && NextFlow(trace, x, y) ensures j == (i + 1) % n {
      PickedExact(trace, m, i, n, x);
      PickedExact(trace, m, j, n, y);
      FileInTurn(trace, n, x, y);
    }
  }

  lemma {:induction false} FrontFile(trace: Trace, n: nat, x: nat)
    requires n > 0 && FirstFlow(trace, x)
    ensures FileOf(trace, trace[x].value, n) == 0
  {
    NoStarts(trace, 0, x);
    StartRank(trace, x);
    StreamModel.DivUnique(0, n, 0, 0);
  }

  lemma {:induction false} FileInTurn(trace: Trace, n: nat, x: nat, y: nat)
    requires n > 0 && NextFlow(trace, x, y)
    ensures FileOf(trace, trace[y].value, n) == (FileOf(trace, trace[x].value, n) + 1) % n
  {
    StartRank(trace, x);
    StartRank(trace, y);
    NoStarts(trace, x + 1, y);
    NextFile(StartsBefore(trace, x), n);
  }

  /** With no more flows than files, two packets share a file exactly if they belong to one flow. */
  lemma {:induction false} OneFlowEach(trace: Trace, m: nat, n: nat, files: seq<seq<nat>>, x: nat, y: nat)
    requires m <= |trace| && n > 0 && Sorted(trace, m, n, files) && StartsBefore(trace, |trace|) <= n
    requires x < m && y < m && trace[x].Some? && trace[y].Some?
    ensures (exists j :: 0 <= j < n && x in files[j] && y in files[j]) <==> SameFlow(trace[x].value, trace[y].value)
  {
    SortedDealt(trace, m, n, files);
    if SameFlow(trace[x].value, trace[y].value) {
      var j :| 0 <= j < n && x in files[j];
      assert Together(trace, x, y);
    } else if j :| 0 <= j < n && x in files[j] && y in files[j] {
      PickedExact(trace, m, j, n, x);
      PickedExact(trace, m, j, n, y);
      RankSmall(trace, x, n);
      RankSmall(trace, y, n);
      KeyExact(trace[x].value, trace[y].value);
    }
  }

  lemma {:induction false} RankSmall(trace: Trace, x: nat, n: nat)
    requires x < |trace| && trace[x].Some? && StartsBefore(trace, |trace|) <= n && n > 0
    ensures Rank(AllKeys(trace), KeyOf(trace[x].value)) < |Firsts(AllKeys(trace))| <= n
    ensures FileOf(trace, trace[x].value, n) == Rank(AllKeys(trace), KeyOf(trace[x].value))
    ensures Firsts(AllKeys(trace))[FileOf(trace, trace[x].value, n)] == KeyOf(trace[x].value)
  {
    FirstsCount(trace, |trace|);
    KeyThere(trace, |trace|, x);
    FirstsSeen(AllKeys(trace), KeyOf(trace[x].value));
    var r := Rank(AllKeys(trace), KeyOf(trace[x].value));
    StreamModel.DivUnique(r, n, 0, r);
  }

  /** As long as no packet is refused there are at most max flows. */
  lemma {:induction false} FewFlows(ks: seq<Key>, max: nat, k: Key)
    requires 1 <= max < IDS
    requires |Firsts(ks)| <= max && Rank(ks + [k], k) < max
    ensures |Firsts(ks + [k])| <= max
  {
    RankStep(ks, k, k);
  }

  /** flowsplit_packet: the id of the flow of a parsed packet, or no flow is left. */
  method Place(track: Tracks, p: Packet) returns (id: Option<nat>)
    requires track.Valid() && track.no_timeout
    modifies track, track.pool
    ensures track.Valid() && track.View() == After(old(track.View()), track.max, true, KeyOf(p))
    ensures id == IdOf(track.order, KeyOf(p))
  {
    var key := TrackKey(p);
    var flow := track.Acquire(Some(key));
    if flow == null {
      return None;
    }
    id := Some(flow.id);
  }

  /** Packet i is the first one of a flow when max flows are known already. */
  ghost predicate Overfull(trace: Trace, i: nat, max: nat)
    requires i < |trace|
  {
    && trace[i].Some? && |Firsts(Keys(trace, i))| == max
    && KeyOf(trace[i].value) !in Keys(trace, i)
  }

  ghost predicate Underway(track: Tracks, trace: Trace, i: nat)
    requires i <= |trace|
    reads track, track.tos
  {
    && track.Valid() && track.no_timeout && track.max < IDS
    && track.View() == Run(Keys(trace, i), track.max, true) && |Firsts(Keys(trace, i))| <= track.max
  }

  /** One round of the loop. */
  method Next(track: Tracks, trace: Trace, i: nat, n: nat, files: seq<seq<nat>>) returns (more: bool, r: seq<seq<nat>>)
    requires i < |trace| && n > 0 && Underway(track, trace, i) && Sorted(trace, i, n, files)
    modifies track, track.pool
    ensures more ==> Underway(track, trace, i + 1) && Sorted(trace, i + 1, n, r)
    ensures !more ==> |Firsts(AllKeys(trace))| > track.max && Overfull(trace, i, track.max) && r == files
  {
    if trace[i].None? {
      Skipped(trace, i, n);
      return true, files;
    }
    Assigned(trace, i, track.View(), track.max);
    var id := Place(track, trace[i].value);
    if id.None? {
      Refused(trace, i, track.max);
      return false, files;
    }
    Going(trace, i, track.max);
    r := Append(trace, i, n, files, id.value);
    more := true;
  }

  /** The loop of flowsplit: it finishes exactly if the trace has no more flows than the tracker
      takes, and then every file has its packets. */
  method Split(trace: Trace, flow_count: nat, file_count: nat) returns (out: Outcome)
    requires flow_count < 0x1_0000_0000 && file_count < 0x1_0000_0000
    ensures out.Done? <==> 1 <= flow_count && 1 <= file_count && |Firsts(AllKeys(trace))| <= flow_count
    ensures out.Panic? <==> flow_count == 0 || file_count == 0
    ensures out.Stopped? ==> out.at < |trace| && Overfull(trace, out.at, flow_count)
    ensures out.Stopped? ==> var n := if file_count < flow_count then file_count else flow_count;
      Sorted(trace, out.at, n, out.files) && Dealt(trace, out.at, n, out.files)
    ensures out.Done? ==> var n := if file_count < flow_count then file_count else flow_count;
      Sorted(trace, |trace|, n, out.files) && Dealt(trace, |trace|, n, out.files)
  {
    var track := Tracks.Init(flow_count, true);
    if track == null || file_count == 0 {
      return Panic;
    }
    var n := if file_count < flow_count then file_count else flow_count;
    var files: seq<seq<nat>> := seq(n, j => []);
    var i := 0;
    while i < |trace|
      invariant i <= |trace| && fresh(track) && fresh(track.pool)
      invariant Underway(track, trace, i) && track.max == flow_count
      invariant Sorted(trace, i, n, files)
    {
      var more;
      more, files := Next(track, trace, i, n, files);
      if !more {
        SortedDealt(trace, i, n, files);
        return Stopped(i, files);
      }
      i := i + 1;
    }
    SortedDealt(trace, |trace|, n, files);
    out := Done(files);
  }

  lemma {:induction false} Skipped(trace: Trace, i: nat, n: nat)
    requires i < |trace| && trace[i].None? && n > 0
    ensures Keys(trace, i + 1) == Keys(trace, i)
    ensures forall files :: Sorted(trace, i, n, files) ==> Sorted(trace, i + 1, n, files)
  {
    assert forall j :: Picked(trace, i + 1, j, n) == Picked(trace, i, j, n);
  }

  lemma {:induction false} Going(trace: Trace, i: nat, max: nat)
    requires i < |trace| && trace[i].Some? && 1 <= max < IDS && |Firsts(Keys(trace, i))| <= max
    requires Rank(AllKeys(trace), KeyOf(trace[i].value)) < max
    ensures |Firsts(Keys(trace, i + 1))| <= max
  {
    var k, b := KeyOf(trace[i].value), Keys(trace, i + 1);
    KeysPrefix(trace, i + 1);
    assert b[|b| - 1] == k;
    RankStays(AllKeys(trace), |b|, k);
    FewFlows(Keys(trace, i), max, k);
  }

  lemma {:induction false} Refused(trace: Trace, i: nat, max: nat)
    requires i < |trace| && trace[i].Some? && |Firsts(Keys(trace, i))| <= max
    requires Rank(AllKeys(trace), KeyOf(trace[i].value)) >= max
    ensures Overfull(trace, i, max)
  {
    var k, a, b := KeyOf(trace[i].value), Keys(trace, i), Keys(trace, i + 1);
    KeysPrefix(trace, i + 1);
    assert b == a + [k] && b[|b| - 1] == k;
    RankStays(AllKeys(trace), |b|, k);
    RankStep(a, k, k);
    FirstsSeen(a, k);
  }

  /** peak_store_packet into the file chosen by the id. */
  method Append(trace: Trace, i: nat, n: nat, files: seq<seq<nat>>, id: nat) returns (r: seq<seq<nat>>)
    requires i < |trace| && trace[i].Some? && n > 0 && Sorted(trace, i, n, files)
    requires id == Rank(AllKeys(trace), KeyOf(trace[i].value))
    ensures Sorted(trace, i + 1, n, r)
  {
    var f := id % n;
    r := files[f := files[f] + [i]];
  }
}
