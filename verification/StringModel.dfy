/**
  The values behind the string search of lib/peak_string.c: patterns as token strings, the table a
  search tree denotes, and the occurrences a search reports.
 */
module StringModel {

  type Byte = x: int | 0 <= x < 256
  type Text = seq<Byte>

  /** A token is a byte, WILDCARD, or one of the 26 letters without regard to case. */
  type Path = seq<int>

  const WILDCARD := 256
  const QUESTION: Byte := 63
  const BACKSLASH: Byte := 92

  const FLOATING := 0
  const LEFT := 1
  const RIGHT := 2
  const EXACT := 3

  /** The table string_nocase: zero for anything but a letter. */
  function NoCase(c: Byte): int {
    if 97 <= c <= 122 then 257 + (c - 97)
    else if 65 <= c <= 90 then 257 + (c - 65)
    else 0
  }

  function Lower(c: Byte): Byte {
    if 65 <= c <= 90 then c + 32 else c
  }

  // ---------------------------------------------------------------- patterns

  function Fold(c: Byte, nocase: bool): int {
    if nocase && NoCase(c) != 0 then NoCase(c) else c
  }

  predicate Escaped(buf: Text, i: nat)
    requires i < |buf|
  {
    buf[i] == BACKSLASH && i + 1 < |buf| && (buf[i + 1] == QUESTION || buf[i + 1] == BACKSLASH)
  }

  /** The tokens of a pattern from position i. */
  function Parse(buf: Text, i: nat, nocase: bool): Path
    decreases |buf| - i
  {
    if i >= |buf| then []
    else if buf[i] == QUESTION then [WILDCARD] + Parse(buf, i + 1, nocase)
    else if Escaped(buf, i) then [Fold(buf[i + 1], nocase)] + Parse(buf, i + 2, nocase)
    else [Fold(buf[i], nocase)] + Parse(buf, i + 1, nocase)
  }

  /** A pattern for a literal: every question mark and backslash is escaped. */
  function Escape(s: Text): Text {
    if s == [] then []
    else (if s[0] == QUESTION || s[0] == BACKSLASH then [BACKSLASH, s[0]] else [s[0]]) + Escape(s[1..])
  }

  function Folded(s: Text, nocase: bool): Path {
    if s == [] then [] else [Fold(s[0], nocase)] + Folded(s[1..], nocase)
  }

  /** Parsing depends on the rest of the buffer alone. */
  lemma {:induction false} ParseRest(a: Text, b: Text, i: nat, nocase: bool)
    ensures Parse(a + b, |a| + i, nocase) == Parse(b, i, nocase)
    decreases |b| - i
  {
    if i < |b| {
      ParseRest(a, b, i + 1, nocase);
      assert (a + b)[|a| + i] == b[i];
      if i + 1 < |b| {
        ParseRest(a, b, i + 2, nocase);
        assert (a + b)[|a| + (i + 1)] == b[i + 1];
      }
    }
  }

  /** Parsing undoes escaping, up to case folding. */
  lemma {:induction false} EscapeRoundTrip(s: Text, nocase: bool)
    ensures Parse(Escape(s), 0, nocase) == Folded(s, nocase)
  {
    if s != [] {
      EscapeRoundTrip(s[1..], nocase);
      var rest := Escape(s[1..]);
      var e := Escape(s);
      if s[0] == QUESTION || s[0] == BACKSLASH {
        assert e == [BACKSLASH, s[0]] + rest;
        ParseRest([BACKSLASH, s[0]], rest, 0, nocase);
        assert Escaped(e, 0);
      } else {
        assert e == [s[0]] + rest;
        ParseRest([s[0]], rest, 0, nocase);
      }
    }
  }

  /** A backslash escapes only a question mark or a backslash; before anything else, and at the end, it
      stands for itself. */
  lemma {:induction false} LoneBackslash(a: Text, b: Text, nocase: bool)
    requires b != [] ==> b[0] != QUESTION && b[0] != BACKSLASH
    ensures Parse(a + ([BACKSLASH] + b), |a|, nocase) == [BACKSLASH] + Parse(b, 0, nocase)
  {
    var c := [BACKSLASH] + b;
    ParseRest(a, c, 0, nocase);
    ParseRest([BACKSLASH], b, 0, nocase);
    assert c[0] == BACKSLASH && (b != [] ==> c[1] == b[0]);
    assert !Escaped(c, 0);
  }

  lemma {:induction false} Codes()
    ensures QUESTION == '?' as int && BACKSLASH == '\\' as int && WILDCARD == 256
  {
  }

  /** The table of letters: 26 tokens from 257 on, the same for both cases of a letter, none for others. */
  lemma {:induction false} NoCaseTable(c: Byte)
    ensures 'a' as int <= c <= 'z' as int ==> NoCase(c) == 257 + (c - 'a' as int) && Lower(c) == c
    ensures 'A' as int <= c <= 'Z' as int ==> NoCase(c) == 257 + (c - 'A' as int) && Lower(c) == c - 'A' as int + 'a' as int
    ensures !('a' as int <= c <= 'z' as int) && !('A' as int <= c <= 'Z' as int) ==> NoCase(c) == 0 && Lower(c) == c
  {
  }

  /** A pattern piece by piece: a wildcard or one byte. */
  datatype Piece = Any | One(c: Byte)

  function Render(ps: seq<Piece>): Text {
    if ps == [] then [] else Spelled(ps[0]) + Render(ps[1..])
  }

  function Spelled(p: Piece): Text {
    if p.Any? then [QUESTION]
    else if p.c == QUESTION || p.c == BACKSLASH then [BACKSLASH, p.c]
    else [p.c]
  }

  function Tokens(ps: seq<Piece>, nocase: bool): Path {
    if ps == [] then [] else [if ps[0].Any? then WILDCARD else Fold(ps[0].c, nocase)] + Tokens(ps[1..], nocase)
  }

  /** Every string of wildcards and bytes has a pattern that parses to it. */
  lemma {:induction false} RenderRoundTrip(ps: seq<Piece>, nocase: bool)
    ensures Parse(Render(ps), 0, nocase) == Tokens(ps, nocase)
  {
    if ps != [] {
      RenderRoundTrip(ps[1..], nocase);
      var h, t := Spelled(ps[0]), Render(ps[1..]);
      ParseRest(h, t, 0, nocase);
      assert (h + t)[0] == h[0];
      if |h| == 2 {
        assert (h + t)[1] == h[1] && Escaped(h + t, 0);
      }
    }
  }

  lemma {:induction false} FoldedAt(s: Text, nocase: bool, i: nat)
    ensures |Folded(s, nocase)| == |s|
    ensures i < |s| ==> Folded(s, nocase)[i] == Fold(s[i], nocase)
  {
    if s != [] {
      FoldedAt(s[1..], nocase, if i == 0 then 0 else i - 1);
    }
  }

  /** With case in mind, an escaped literal is read back as it was. */
  lemma {:induction false} LiteralRoundTrip(s: Text)
    ensures Parse(Escape(s), 0, false) == s
  {
    EscapeRoundTrip(s, false);
    FoldedAt(s, false, 0);
    forall i | 0 <= i < |s| ensures Folded(s, false)[i] == s[i] {
      FoldedAt(s, false, i);
    }
  }

  // ---------------------------------------------------------------- meaning of tokens

  /** The token k stands for the byte c. */
  predicate Fits(k: int, c: Byte) {
    || k == c
    || k == WILDCARD
    || (257 <= k <= 282 && (c == 97 + (k - 257) || c == 65 + (k - 257)))
  }

  /** The three lookups of the search, in order. */
  function Alternatives(c: Byte): seq<int> {
    [c, WILDCARD] + if NoCase(c) != 0 then [NoCase(c)] else []
  }

  lemma AlternativesFit(c: Byte, k: int)
    ensures k in Alternatives(c) <==> Fits(k, c)
  {
    var a := Alternatives(c);
    assert a[0] == c && a[1] == WILDCARD;
    if Fits(k, c) && k >= 257 {
      assert a[2] == k;
    }
  }

  /** A folded pattern byte fits exactly the bytes that are the same letter. */
  lemma FoldFits(x: Byte, c: Byte, nocase: bool)
    ensures Fits(Fold(x, nocase), c) <==> if nocase then Lower(x) == Lower(c) else x == c
  {
  }

  /** The pattern p stands for the bytes of the text from s on. */
  predicate Occurs(p: Path, text: Text, s: nat) {
    s + |p| <= |text| && forall i :: 0 <= i < |p| ==> Fits(p[i], text[s + i])
  }

  // ---------------------------------------------------------------- the table

  /** Four results for every node, zero for none. */
  type Table = map<Path, seq<nat>>

  function Parent(p: Path): Path {
    if p == [] then [] else p[..|p| - 1]
  }

  ghost predicate Rooted(t: Table) {
    && [] in t
    && (forall p {:trigger Parent(p)} :: p in t && p != [] ==> Parent(p) in t)
    && (forall p :: p in t ==> |t[p]| == 4)
  }

  ghost function Result(t: Table, p: Path, m: nat): nat {
    if p in t && m < |t[p]| then t[p][m] else 0
  }

  lemma {:induction false} PrefixIn(t: Table, p: Path, n: nat)
    requires Rooted(t) && p in t && n <= |p|
    ensures p[..n] in t
    decreases |p| - n
  {
    if n == |p| {
      assert p[..n] == p;
    } else {
      PrefixIn(t, p, n + 1);
      assert Parent(p[..n + 1]) == p[..n + 1][..n] == p[..n];
    }
  }

  // ---------------------------------------------------------------- what a search reports

  /** The pattern path with anchoring method m, found at position start. */
  datatype Event = Event(start: nat, path: Path, m: nat)

  predicate Anchored(m: nat, start: nat, p: Path, text: Text) {
    && (m == LEFT || m == EXACT ==> start == 0)
    && (m == RIGHT || m == EXACT ==> start + |p| == |text|)
  }

  /** peak_string_match */
  function Match(t: Table, text: Text, s: nat, p: Path): seq<Event>
    requires Rooted(t) && p in t
  {
    var open, closed := s == 0, s + |p| == |text|;
    MatchRow(t[p], s, p, open, closed)
  }

  function MatchRow(row: seq<nat>, s: nat, p: Path, open: bool, closed: bool): seq<Event>
    requires |row| == 4
  {
    When(row[FLOATING] != 0, Event(s, p, FLOATING))
    + When(row[LEFT] != 0 && open, Event(s, p, LEFT))
    + When(row[RIGHT] != 0 && closed, Event(s, p, RIGHT))
    + When(row[EXACT] != 0 && open && closed, Event(s, p, EXACT))
  }

  function When(c: bool, e: Event): seq<Event> {
    if c then [e] else []
  }

  /** One of the three lookups below the node p, and the search below what it finds. */
  function Branch(t: Table, text: Text, s: nat, p: Path, k: int): seq<Event>
    requires Rooted(t) && s + |p| < |text|
    decreases |text| - (s + |p|), 0
  {
    var q := p + [k];
    if q !in t then [] else
    Match(t, text, s, q) + if s + |q| == |text| then [] else Search(t, text, s, q)
  }

  /** The node p is one byte short of the end of the text and has a child for k. */
  predicate Stops(t: Table, text: Text, s: nat, p: Path, k: int) {
    s + |p| + 1 == |text| && p + [k] in t
  }

  /** The search below the node p: at the last byte the first lookup that finds a node is the last. */
  function Search(t: Table, text: Text, s: nat, p: Path): seq<Event>
    requires Rooted(t) && s + |p| < |text|
    decreases |text| - (s + |p|), 2
  {
    var c := text[s + |p|];
    Branch(t, text, s, p, c) + if Stops(t, text, s, p, c) then [] else Others(t, text, s, p)
  }

  /** The lookups after the literal one. */
  function Others(t: Table, text: Text, s: nat, p: Path): seq<Event>
    requires Rooted(t) && s + |p| < |text|
    decreases |text| - (s + |p|), 1
  {
    var c := text[s + |p|];
    Branch(t, text, s, p, WILDCARD)
    + if Stops(t, text, s, p, WILDCARD) || NoCase(c) == 0 then [] else Branch(t, text, s, p, NoCase(c))
  }

  /** The searches from the first n positions. */
  function Starts(t: Table, text: Text, n: nat): seq<Event>
    requires Rooted(t) && n <= |text|
  {
    if n == 0 then [] else Starts(t, text, n - 1) + Search(t, text, n - 1, [])
  }

  /** Everything a search finds, in order. */
  function All(t: Table, text: Text): seq<Event>
    requires Rooted(t)
  {
    Match(t, text, 0, []) + Starts(t, text, |text|)
  }

  /** k is the first lookup for c below p that finds a node. */
  ghost predicate First(t: Table, p: Path, k: int, c: Byte) {
    || k == c
    || (p + [c] !in t && (k == WILDCARD || p + [WILDCARD] !in t))
  }

  /** An occurrence that ends before the last byte, or whose last token is the first lookup. */
  ghost predicate Unshadowed(t: Table, text: Text, e: Event) {
    e.start + |e.path| == |text| && e.path != [] ==>
      First(t, e.path[..|e.path| - 1], e.path[|e.path| - 1], text[|text| - 1])
  }

  /** A pattern of the table occurs in the text where its anchoring wants it. */
  ghost predicate Genuine(t: Table, text: Text, e: Event)
    requires Rooted(t)
  {
    e.m < 4 && Result(t, e.path, e.m) != 0 && Occurs(e.path, text, e.start) && Anchored(e.m, e.start, e.path, text)
  }

  // ---- soundness and completeness

  lemma MatchExact(t: Table, text: Text, s: nat, p: Path, e: Event)
    requires Rooted(t) && p in t
    ensures e in Match(t, text, s, p) <==>
      e.start == s && e.path == p && e.m < 4 && t[p][e.m] != 0 && Anchored(e.m, s, p, text)
  {
    var open, closed := s == 0, s + |p| == |text|;
    var a := When(t[p][FLOATING] != 0, Event(s, p, FLOATING));
    var b := When(t[p][LEFT] != 0 && open, Event(s, p, LEFT));
    var c := When(t[p][RIGHT] != 0 && closed, Event(s, p, RIGHT));
    var d := When(t[p][EXACT] != 0 && open && closed, Event(s, p, EXACT));
    assert Match(t, text, s, p) == a + b + c + d;
    assert e in Match(t, text, s, p) <==> e in a || e in b || e in c || e in d;
  }

  predicate Extends(q: Path, p: Path) {
    |p| < |q| && q[..|p|] == p
  }

  /** What a search below p should find. */
  ghost predicate Wanted(t: Table, text: Text, s: nat, p: Path, e: Event)
    requires Rooted(t) && s + |p| < |text|
  {
    && e.start == s && Extends(e.path, p)
    && e.m < 4 && Result(t, e.path, e.m) != 0 && Anchored(e.m, s, e.path, text)
    && s + |e.path| <= |text| && (forall i :: |p| <= i < |e.path| ==> Fits(e.path[i], text[s + i]))
    && Unshadowed(t, text, e)
  }

  /** The lookups that are made. */
  ghost predicate Tried(t: Table, text: Text, s: nat, p: Path, k: int)
    requires s + |p| < |text|
  {
    Fits(k, text[s + |p|]) && (s + |p| + 1 == |text| ==> First(t, p, k, text[s + |p|]))
  }

  lemma {:induction false} BranchExact(t: Table, text: Text, s: nat, p: Path, k: int, e: Event)
    requires Rooted(t) && s + |p| < |text| && Tried(t, text, s, p, k)
    ensures e in Branch(t, text, s, p, k) <==> Wanted(t, text, s, p, e) && e.path[|p|] == k
    decreases |text| - (s + |p|), 0
  {
    var q := p + [k];
    if Extends(e.path, p) && e.path[|p|] == k {
      assert e.path[..|q|] == q;
      if e.path in t { PrefixIn(t, e.path, |q|); }
      if |e.path| == |q| { assert e.path == q; assert q[..|q| - 1] == p; }
    }
    if q in t {
      MatchExact(t, text, s, q, e);
      if s + |q| < |text| {
        SearchExact(t, text, s, q, e);
        BranchStep(t, text, s, p, k, e);
      } else {
        BranchLast(t, text, s, p, k, e);
      }
    }
  }

  lemma {:induction false} BranchStep(t: Table, text: Text, s: nat, p: Path, k: int, e: Event)
    requires Rooted(t) && s + |p| + 1 < |text| && Fits(k, text[s + |p|])
    ensures (Wanted(t, text, s, p, e) && e.path[|p|] == k) <==>
      || Wanted(t, text, s, p + [k], e)
      || (e.start == s && e.path == p + [k] && e.m < 4 && Result(t, e.path, e.m) != 0 && Anchored(e.m, s, e.path, text))
  {
    var q := p + [k];
    if Extends(e.path, q) {
      assert e.path[..|p|] == q[..|p|] == p && e.path[|p|] == q[|p|];
    }
    if Extends(e.path, p) && e.path[|p|] == k {
      assert e.path[..|q|] == q;
      if |e.path| == |q| { assert e.path == q; }
    }
  }

  lemma {:induction false} BranchLast(t: Table, text: Text, s: nat, p: Path, k: int, e: Event)
    requires Rooted(t) && s + |p| + 1 == |text| && Tried(t, text, s, p, k)
    ensures (Wanted(t, text, s, p, e) && e.path[|p|] == k) <==>
      e.start == s && e.path == p + [k] && e.m < 4 && Result(t, e.path, e.m) != 0 && Anchored(e.m, s, e.path, text)
  {
    var q := p + [k];
    assert q[..|p|] == p;
    if Extends(e.path, p) && s + |e.path| <= |text| && e.path[|p|] == k {
      assert e.path == e.path[..|p|] + [e.path[|p|]];
    }
  }

  lemma {:induction false} SearchExact(t: Table, text: Text, s: nat, p: Path, e: Event)
    requires Rooted(t) && s + |p| < |text|
    ensures e in Search(t, text, s, p) <==> Wanted(t, text, s, p, e)
    decreases |text| - (s + |p|), 1
  {
    var c := text[s + |p|];
    if !Stops(t, text, s, p, c) {
      if !Stops(t, text, s, p, WILDCARD) && NoCase(c) != 0 {
        BranchExact(t, text, s, p, NoCase(c), e);
      }
      BranchExact(t, text, s, p, WILDCARD, e);
    }
    BranchExact(t, text, s, p, c, e);
    SearchCases(t, text, s, p, e);
  }

  /** A wanted event goes through one of the lookups that are made. */
  lemma {:induction false} SearchCases(t: Table, text: Text, s: nat, p: Path, e: Event)
    requires Rooted(t) && s + |p| < |text|
    ensures Wanted(t, text, s, p, e) ==> Tried(t, text, s, p, e.path[|p|]) && p + [e.path[|p|]] in t
    ensures Wanted(t, text, s, p, e) ==> e.path[|p|] in Alternatives(text[s + |p|])
  {
    if Wanted(t, text, s, p, e) {
      var k := e.path[|p|];
      AlternativesFit(text[s + |p|], k);
      PrefixIn(t, e.path, |p| + 1);
      assert e.path[..|p| + 1] == p + [k];
      if s + |p| + 1 == |text| {
        assert e.path[..|e.path| - 1] == p;
      }
    }
  }

  lemma {:induction false} RootExact(t: Table, text: Text, s: nat, e: Event)
    requires Rooted(t) && s < |text|
    ensures e in Search(t, text, s, []) <==> e.start == s && FromRoot(t, text, e)
  {
    SearchExact(t, text, s, [], e);
  }

  /** What the search from its start should find. */
  ghost predicate FromRoot(t: Table, text: Text, e: Event)
    requires Rooted(t)
  {
    e.start < |text| && Wanted(t, text, e.start, [], e)
  }

  lemma {:induction false} StartsExact(t: Table, text: Text, n: nat, e: Event)
    requires Rooted(t) && n <= |text|
    ensures e in Starts(t, text, n) <==> e.start < n && FromRoot(t, text, e)
  {
    StartsMember(t, text, n, e);
    if e.start < n { RootExact(t, text, e.start, e); }
  }

  lemma {:induction false} StartsMember(t: Table, text: Text, n: nat, e: Event)
    requires Rooted(t) && n <= |text|
    ensures e in Starts(t, text, n) <==> e.start < n && e in Search(t, text, e.start, [])
  {
    if n > 0 {
      StartsStep(t, text, n, e);
      RootStart(t, text, n - 1, e);
      if e.start != n - 1 { StartsMember(t, text, n - 1, e); } else { StartsFrom(t, text, n - 1, e); }
    }
  }

  lemma {:induction false} StartsFrom(t: Table, text: Text, n: nat, e: Event)
    requires Rooted(t) && n <= |text|
    ensures e in Starts(t, text, n) ==> e.start < n
  {
    if n > 0 {
      StartsFrom(t, text, n - 1, e);
      StartsStep(t, text, n, e);
      RootStart(t, text, n - 1, e);
    }
  }

  lemma {:induction false} RootStart(t: Table, text: Text, s: nat, e: Event)
    requires Rooted(t) && s < |text|
    ensures e in Search(t, text, s, []) ==> e.start == s
  {
    SearchExact(t, text, s, [], e);
  }

  lemma {:induction false} StartsStep(t: Table, text: Text, n: nat, e: Event)
    requires Rooted(t) && 0 < n <= |text|
    ensures e in Starts(t, text, n) <==> e in Starts(t, text, n - 1) || e in Search(t, text, n - 1, [])
  {
  }

  /** What a search reports, exactly: the genuine occurrences, the empty pattern only at the start,
      and at the last byte only those through the first lookup that finds a node. */
  lemma {:induction false} AllExact(t: Table, text: Text, e: Event)
    requires Rooted(t)
    ensures e in All(t, text) <==>
      Genuine(t, text, e) && Unshadowed(t, text, e) && (e.path == [] ==> e.start == 0)
  {
    MatchExact(t, text, 0, [], e);
    StartsExact(t, text, |text|, e);
    if e.path != [] { assert e.path[..0] == []; }
  }

  // ---- consequences

  /** Every occurrence of a non-empty pattern that ends before the last byte is reported. */
  lemma {:induction false} InnerComplete(t: Table, text: Text, e: Event)
    requires Rooted(t) && e.path != [] && e.start + |e.path| < |text|
    ensures e in All(t, text) <==> Genuine(t, text, e)
  {
    AllExact(t, text, e);
  }

  /** No wildcards and no folded letters. */
  ghost predicate Plain(t: Table) {
    forall p :: p in t ==> PlainPath(p)
  }

  predicate PlainPath(p: Path) {
    forall i :: 0 <= i < |p| ==> 0 <= p[i] < 256
  }

  /** In a plain table every non-empty pattern is reported wherever the text has its bytes. */
  lemma {:induction false} PlainComplete(t: Table, text: Text, e: Event)
    requires Rooted(t) && Plain(t) && e.path != []
    ensures e in All(t, text) <==>
      && e.m < 4 && Result(t, e.path, e.m) != 0 && Anchored(e.m, e.start, e.path, text)
      && e.start + |e.path| <= |text| && text[e.start..e.start + |e.path|] == e.path
  {
    AllExact(t, text, e);
    if e.path in t {
      assert PlainPath(e.path);
      var w := e.start + |e.path|;
      if w <= |text| {
        forall i | 0 <= i < |e.path| ensures Fits(e.path[i], text[e.start + i]) <==> text[e.start..w][i] == e.path[i] {
        }
        if Occurs(e.path, text, e.start) {
          assert text[e.start..w] == e.path;
        }
        if text[e.start..w] == e.path {
          forall i | 0 <= i < |e.path| ensures Fits(e.path[i], text[e.start + i]) {
            assert text[e.start..w][i] == e.path[i];
          }
        }
      }
    }
  }

  // ---- once per position

  ghost predicate NoDup(s: seq<Event>) {
    forall i, j :: 0 <= i < j < |s| ==> s[i] != s[j]
  }

  lemma NoDupAppend(a: seq<Event>, b: seq<Event>)
    requires NoDup(a) && NoDup(b) && forall e :: e in a ==> e !in b
    ensures NoDup(a + b)
  {
    var s := a + b;
    forall i, j | 0 <= i < j < |s| ensures s[i] != s[j] {
      if i < |a| <= j {
        assert s[i] in a && s[j] in b;
      }
    }
  }

  lemma {:induction false} BranchOnce(t: Table, text: Text, s: nat, p: Path, k: int)
    requires Rooted(t) && s + |p| < |text|
    ensures NoDup(Branch(t, text, s, p, k))
    ensures forall e :: e in Branch(t, text, s, p, k) ==> e.start == s && Extends(e.path, p) && e.path[|p|] == k
    decreases |text| - (s + |p|), 0
  {
    var q := p + [k];
    if q in t {
      forall e | e in Match(t, text, s, q) ensures e.start == s && e.path == q && Extends(q, p) {
        MatchExact(t, text, s, q, e);
        assert q[..|p|] == p;
      }
      if s + |q| < |text| {
        SearchOnce(t, text, s, q);
        forall e | e in Search(t, text, s, q) ensures Extends(e.path, p) && e.path[|p|] == k {
          assert e.path[..|p|] == e.path[..|q|][..|p|] == p;
          assert e.path[|p|] == e.path[..|q|][|p|];
        }
        NoDupAppend(Match(t, text, s, q), Search(t, text, s, q));
      }
    }
  }

  lemma {:induction false} SearchOnce(t: Table, text: Text, s: nat, p: Path)
    requires Rooted(t) && s + |p| < |text|
    ensures NoDup(Search(t, text, s, p))
    ensures forall e :: e in Search(t, text, s, p) ==> e.start == s && Extends(e.path, p)
    decreases |text| - (s + |p|), 1
  {
    var c := text[s + |p|];
    BranchOnce(t, text, s, p, c);
    BranchOnce(t, text, s, p, WILDCARD);
    BranchOnce(t, text, s, p, NoCase(c));
    var x, y, z := Branch(t, text, s, p, c), Branch(t, text, s, p, WILDCARD), Branch(t, text, s, p, NoCase(c));
    if NoCase(c) != 0 {
      NoDupAppend(y, z);
    }
    NoDupAppend(x, Others(t, text, s, p));
  }

  lemma {:induction false} RootOnce(t: Table, text: Text, s: nat)
    requires Rooted(t) && s < |text|
    ensures NoDup(Search(t, text, s, [])) && forall e :: e in Search(t, text, s, []) ==> e.start == s && e.path != []
  {
    SearchOnce(t, text, s, []);
  }

  lemma {:induction false} StartsOnce(t: Table, text: Text, n: nat)
    requires Rooted(t) && n <= |text|
    ensures NoDup(Starts(t, text, n))
    ensures forall e :: e in Starts(t, text, n) ==> e.start < n && e.path != []
  {
    if n > 0 {
      StartsOnce(t, text, n - 1);
      RootOnce(t, text, n - 1);
      NoDupAppend(Starts(t, text, n - 1), Search(t, text, n - 1, []));
    }
  }

  /** Nothing is reported twice for the same position. */
  lemma {:induction false} AllOnce(t: Table, text: Text)
    requires Rooted(t)
    ensures NoDup(All(t, text))
  {
    StartsOnce(t, text, |text|);
    MatchOnce(t, text, 0, []);
    NoDupAppend(Match(t, text, 0, []), Starts(t, text, |text|));
  }

  lemma {:induction false} MatchOnce(t: Table, text: Text, s: nat, p: Path)
    requires Rooted(t) && p in t
    ensures NoDup(Match(t, text, s, p)) && forall e :: e in Match(t, text, s, p) ==> e.start == s && e.path == p
  {
    forall e | e in Match(t, text, s, p) ensures e.start == s && e.path == p { MatchExact(t, text, s, p, e); }
  }

  // ---- the order of the reports

  /** The lookups in the order they are made: the byte itself, the wildcard, the letter without case. */
  function Kind(k: int): nat {
    if k < WILDCARD then 0 else if k == WILDCARD then 1 else 2
  }

  /** p and q agree up to i, where p ends or takes the earlier lookup. */
  predicate PartAt(p: Path, q: Path, i: nat) {
    i <= |p| && i < |q| && p[..i] == q[..i] && (i < |p| ==> Kind(p[i]) < Kind(q[i]))
  }

  ghost predicate PathBefore(p: Path, q: Path) { exists i: nat :: PartAt(p, q, i) }

  /** Earlier start first; at one start a pattern before its extensions, and patterns that part in the
      order of the lookups; for one pattern by method. */
  ghost predicate Before(a: Event, b: Event) {
    a.start < b.start || (a.start == b.start && (PathBefore(a.path, b.path) || (a.path == b.path && a.m < b.m)))
  }

  lemma {:induction false} PathsDiffer(p: Path, q: Path)
    requires PathBefore(p, q)
    ensures p != q && !PathBefore(q, p)
  {
    var i: nat :| PartAt(p, q, i);
    Agreed(p, q, i);
    forall j: nat ensures !PartAt(q, p, j) { Agreed(q, p, j); }
  }

  lemma {:induction false} Agreed(p: Path, q: Path, i: nat)
    ensures i <= |p| && i <= |q| && p[..i] == q[..i] ==> forall x :: 0 <= x < i ==> p[x] == q[x]
  {
    if i <= |p| && i <= |q| && p[..i] == q[..i] {
      assert forall x :: 0 <= x < i ==> p[..i][x] == p[x] && q[..i][x] == q[x];
    }
  }

  /** It is a strict order. */
  lemma {:induction false} BeforeStrict(a: Event, b: Event)
    requires Before(a, b)
    ensures a != b && !Before(b, a)
  {
    if PathBefore(a.path, b.path) { PathsDiffer(a.path, b.path); }
    if PathBefore(b.path, a.path) { PathsDiffer(b.path, a.path); }
  }

  ghost predicate InOrder(s: seq<Event>) {
    forall i, j :: 0 <= i < j < |s| ==> Before(s[i], s[j])
  }

  ghost predicate AllBefore(a: seq<Event>, b: seq<Event>) {
    forall x, y :: x in a && y in b ==> Before(x, y)
  }

  lemma {:induction false} OrderAppend(a: seq<Event>, b: seq<Event>)
    requires InOrder(a) && InOrder(b) && AllBefore(a, b)
    ensures InOrder(a + b)
  {
    var s := a + b;
    forall i, j | 0 <= i < j < |s| ensures Before(s[i], s[j]) {
      if i < |a| <= j { assert s[i] in a && s[j] in b; }
    }
  }

  lemma {:induction false} Longer(p: Path, q: Path)
    requires Extends(q, p)
    ensures PathBefore(p, q)
  {
    assert p[..|p|] == p;
    assert PartAt(p, q, |p|);
  }

  lemma {:induction false} Parting(p: Path, a: Path, b: Path)
    requires Extends(a, p) && Extends(b, p) && Kind(a[|p|]) < Kind(b[|p|])
    ensures PathBefore(a, b)
  {
    assert PartAt(a, b, |p|);
  }

  lemma {:induction false} MatchOrder(t: Table, text: Text, s: nat, p: Path)
    requires Rooted(t) && p in t
    ensures InOrder(Match(t, text, s, p))
  {
    var open, closed := s == 0, s + |p| == |text|;
    var a := When(t[p][FLOATING] != 0, Event(s, p, FLOATING));
    var b := When(t[p][LEFT] != 0 && open, Event(s, p, LEFT));
    var c := When(t[p][RIGHT] != 0 && closed, Event(s, p, RIGHT));
    var d := When(t[p][EXACT] != 0 && open && closed, Event(s, p, EXACT));
    OrderAppend(a, b);
    OrderAppend(a + b, c);
    OrderAppend(a + b + c, d);
  }

  lemma {:induction false} BranchOrder(t: Table, text: Text, s: nat, p: Path, k: int)
    requires Rooted(t) && s + |p| < |text|
    ensures InOrder(Branch(t, text, s, p, k))
    decreases |text| - (s + |p|), 0
  {
    var q := p + [k];
    if q in t {
      MatchOrder(t, text, s, q);
      if s + |q| < |text| {
        SearchOrder(t, text, s, q);
        MatchThenSearch(t, text, s, q);
        OrderAppend(Match(t, text, s, q), Search(t, text, s, q));
      }
    }
  }

  lemma {:induction false} MatchThenSearch(t: Table, text: Text, s: nat, q: Path)
    requires Rooted(t) && q in t && s + |q| < |text|
    ensures AllBefore(Match(t, text, s, q), Search(t, text, s, q))
  {
    MatchOnce(t, text, s, q);
    SearchOnce(t, text, s, q);
    forall x, y | x in Match(t, text, s, q) && y in Search(t, text, s, q) ensures Before(x, y) {
      Longer(q, y.path);
    }
  }

  lemma {:induction false} SearchOrder(t: Table, text: Text, s: nat, p: Path)
    requires Rooted(t) && s + |p| < |text|
    ensures InOrder(Search(t, text, s, p))
    decreases |text| - (s + |p|), 1
  {
    var c := text[s + |p|];
    BranchOrder(t, text, s, p, c);
    BranchOrder(t, text, s, p, WILDCARD);
    BranchOrder(t, text, s, p, NoCase(c));
    BranchThenBranch(t, text, s, p, c, WILDCARD);
    if NoCase(c) != 0 {
      BranchThenBranch(t, text, s, p, WILDCARD, NoCase(c));
      BranchThenBranch(t, text, s, p, c, NoCase(c));
      OrderAppend(Branch(t, text, s, p, WILDCARD), Branch(t, text, s, p, NoCase(c)));
    }
    OrderAppend(Branch(t, text, s, p, c), Others(t, text, s, p));
  }

  lemma {:induction false} BranchThenBranch(t: Table, text: Text, s: nat, p: Path, k: int, l: int)
    requires Rooted(t) && s + |p| < |text| && Kind(k) < Kind(l)
    ensures AllBefore(Branch(t, text, s, p, k), Branch(t, text, s, p, l))
  {
    BranchOnce(t, text, s, p, k);
    BranchOnce(t, text, s, p, l);
    forall x, y | x in Branch(t, text, s, p, k) && y in Branch(t, text, s, p, l) ensures Before(x, y) {
      Parting(p, x.path, y.path);
    }
  }

  lemma {:induction false} StartsOrder(t: Table, text: Text, n: nat)
    requires Rooted(t) && n <= |text|
    ensures InOrder(Starts(t, text, n))
  {
    if n > 0 {
      StartsOrder(t, text, n - 1);
      RootOrder(t, text, n - 1);
      StartsOnce(t, text, n - 1);
      OrderAppend(Starts(t, text, n - 1), Search(t, text, n - 1, []));
    }
  }

  lemma {:induction false} RootOrder(t: Table, text: Text, s: nat)
    requires Rooted(t) && s < |text|
    ensures InOrder(Search(t, text, s, [])) && forall e :: e in Search(t, text, s, []) ==> e.start == s
  {
    SearchOrder(t, text, s, []);
    SearchOnce(t, text, s, []);
  }

  /** Occurrences are reported in order. */
  lemma {:induction false} AllOrder(t: Table, text: Text)
    requires Rooted(t)
    ensures InOrder(All(t, text))
  {
    MatchOrder(t, text, 0, []);
    MatchOnce(t, text, 0, []);
    StartsOrder(t, text, |text|);
    StartsOnce(t, text, |text|);
    forall x, y | x in Match(t, text, 0, []) && y in Starts(t, text, |text|) ensures Before(x, y) {
      assert y.path[..0] == [];
      Longer([], y.path);
    }
    OrderAppend(Match(t, text, 0, []), Starts(t, text, |text|));
  }

  /** There is one way to list events in order, so the reported events determine the reports. */
  lemma {:induction false} OneListing(a: seq<Event>, b: seq<Event>)
    requires InOrder(a) && InOrder(b) && forall e :: e in a <==> e in b
    ensures a == b
  {
    assert b != [] ==> b[0] in b;
    if a != [] {
      assert a[0] in b && b != [];
      assert b[0] in a;
      Least(a, b[0]);
      Least(b, a[0]);
      if a[0] != b[0] { BeforeStrict(a[0], b[0]); }
      forall e ensures e in a[1..] <==> e in b[1..] {
        InRest(a, e);
        InRest(b, e);
      }
      OneListing(a[1..], b[1..]);
      assert a == [a[0]] + a[1..] && b == [b[0]] + b[1..];
    }
  }

  lemma {:induction false} Least(a: seq<Event>, e: Event)
    requires InOrder(a) && e in a
    ensures e == a[0] || Before(a[0], e)
  {
    var i :| 0 <= i < |a| && a[i] == e;
  }

  lemma {:induction false} InRest(a: seq<Event>, e: Event)
    requires InOrder(a) && a != []
    ensures e in a[1..] <==> e in a && e != a[0]
  {
    assert a == [a[0]] + a[1..];
    if e in a[1..] {
      var i :| 0 <= i < |a| - 1 && a[1..][i] == e;
      assert a[i + 1] == e;
      BeforeStrict(a[0], e);
    }
  }

  // ---------------------------------------------------------------- the results of a search

  ghost function Values(t: Table, es: seq<Event>): seq<nat> {
    if es == [] then [] else Values(t, es[..|es| - 1]) + [Result(t, es[|es| - 1].path, es[|es| - 1].m)]
  }

  lemma {:induction false} ValuesAppend(t: Table, a: seq<Event>, b: seq<Event>)
    ensures Values(t, a + b) == Values(t, a) + Values(t, b)
  {
    if b == [] {
      assert a + b == a;
    } else {
      var n := |b| - 1;
      ValuesAppend(t, a, b[..n]);
      assert (a + b)[..|a + b| - 1] == a + b[..n];
    }
  }

  /** What a stash of size n keeps of the values pushed: the first n. */
  function Capped(s: seq<nat>, n: nat): seq<nat> {
    if |s| <= n then s else s[..n]
  }

  lemma CappedAppend(a: seq<nat>, b: seq<nat>, n: nat)
    ensures Capped(Capped(a, n) + b, n) == Capped(a + b, n)
  {
  }

  lemma {:induction false} ValuesPrefix(t: Table, es: seq<Event>, n: nat)
    requires n <= |es|
    ensures |Values(t, es)| == |es| && Values(t, es[..n]) == Values(t, es)[..n]
    decreases |es|
  {
    if es != [] {
      var m := |es| - 1;
      if n <= m {
        ValuesPrefix(t, es[..m], n);
        assert es[..m][..n] == es[..n];
      } else {
        ValuesPrefix(t, es[..m], m);
        assert es[..n] == es;
        assert es[..m][..m] == es[..m];
      }
    }
  }

  /** An empty stash of size n ends up with the results of the least n reported events. */
  lemma {:induction false} StashLeast(t: Table, text: Text, n: nat)
    requires Rooted(t)
    ensures var es := All(t, text); var k := if |es| < n then |es| else n;
      && Capped(Values(t, es), n) == Values(t, es[..k])
      && forall e, f :: e in es[..k] && f in es[k..] ==> Before(e, f)
  {
    var es := All(t, text);
    var k := if |es| < n then |es| else n;
    AllOrder(t, text);
    ValuesPrefix(t, es, k);
    assert es[..|es|] == es;
    CutInOrder(es, k);
  }

  lemma {:induction false} CutInOrder(es: seq<Event>, k: nat)
    requires InOrder(es) && k <= |es|
    ensures forall e, f :: e in es[..k] && f in es[k..] ==> Before(e, f)
  {
    forall e, f | e in es[..k] && f in es[k..] ensures Before(e, f) {
      var i :| 0 <= i < k && es[..k][i] == e;
      var j :| 0 <= j < |es| - k && es[k..][j] == f;
      assert es[i] == e && es[k + j] == f;
    }
  }
}
