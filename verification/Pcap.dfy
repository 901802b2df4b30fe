/**
  The PCAP writer of lib/peak_store.c against the PCAP reader of lib/peak_load.c, over files as byte
  sequences.  The host is little-endian; a file of a big-endian host is one with all header fields
  swapped.
 */
module Pcap {

  newtype byte = x: int | 0 <= x < 256
  type Bytes = seq<byte>

  const WORD: nat := 0x1_0000_0000
  const PCAP_MAGIC: nat := 0xA1B2C3D4
  const PCAP_SWAP_MAGIC: nat := 0xD4C3B2A1
  const LINKTYPE_ETHERNET: nat := 1
  const BUFFER: nat := 32 * 1024
  const FILE_HEADER: nat := 24
  const PACKET_HEADER: nat := 16

  // ---------------------------------------------------------------- words

  /** A number in two or four bytes, as the host stores it. */
  function Half(v: nat): Bytes
    requires v < 0x1_0000
  {
    [(v % 256) as byte, (v / 256) as byte]
  }

  function Word(v: nat): Bytes
    requires v < WORD
  {
    Half(v % 0x1_0000) + Half(v / 0x1_0000)
  }

  function HalfAt(b: Bytes, i: nat): nat
    requires i + 2 <= |b|
  {
    b[i] as nat + 256 * b[i + 1] as nat
  }

  function WordAt(b: Bytes, i: nat): nat
    requires i + 4 <= |b|
  {
    HalfAt(b, i) + 0x1_0000 * HalfAt(b, i + 2)
  }

  /** peak_bswap16 */
  function Bswap16(u: nat): (r: nat)
    requires u < 0x1_0000
    ensures r < 0x1_0000
  {
    u * 256 % 0x1_0000 + u / 256
  }

  /** peak_bswap32 */
  function Bswap32(u: nat): (r: nat)
    requires u < WORD
    ensures r < WORD
  {
    Bswap16(u % 0x1_0000) * 0x1_0000 + Bswap16(u / 0x1_0000)
  }

  lemma {:induction false} HalfRoundTrip(v: nat)
    requires v < 0x1_0000
    ensures HalfAt(Half(v), 0) == v
  {
  }

  lemma {:induction false} WordRoundTrip(v: nat)
    requires v < WORD
    ensures WordAt(Word(v), 0) == v
  {
    HalfRoundTrip(v % 0x1_0000);
    HalfRoundTrip(v / 0x1_0000);
  }

  lemma {:induction false} SwapHalf(a: nat, b: nat)
    requires a < 256 && b < 256
    ensures Bswap16(a + 256 * b) == b + 256 * a
  {
    var u := a + 256 * b;
    assert u / 256 == b;
    assert u * 256 == 256 * a + 0x1_0000 * b;
    assert u * 256 % 0x1_0000 == 256 * a;
  }

  /** Swapping reverses the bytes. */
  lemma {:induction false} SwapWord(a: byte, b: byte, c: byte, d: byte)
    ensures WordAt([a, b, c, d], 0) < WORD
    ensures Bswap32(WordAt([a, b, c, d], 0)) == WordAt([d, c, b, a], 0)
  {
    SwapHalf(a as nat, b as nat);
    SwapHalf(c as nat, d as nat);
    var u := WordAt([a, b, c, d], 0);
    assert u % 0x1_0000 == a as nat + 256 * b as nat;
    assert u / 0x1_0000 == c as nat + 256 * d as nat;
  }

  function Reversed(b: Bytes): Bytes {
    if b == [] then [] else Reversed(b[1..]) + [b[0]]
  }

  lemma {:induction false} ReversedFour(b: Bytes)
    requires |b| == 4
    ensures b == [b[0], b[1], b[2], b[3]] && Reversed(b) == [b[3], b[2], b[1], b[0]]
  {
    assert b[1..][1..] == b[2..] && b[2..][1..] == b[3..] && b[3..][1..] == [];
    assert Reversed(b[3..]) == [] + [b[3]];
    assert Reversed(b[2..]) == Reversed(b[3..]) + [b[2]];
    assert Reversed(b[1..]) == Reversed(b[2..]) + [b[1]];
  }

  /** A four-byte field of a file, swapped or not. */
  function Field(v: nat, swap: bool): Bytes
    requires v < WORD
  {
    if swap then Reversed(Word(v)) else Word(v)
  }

  /** A word as the reader takes it. */
  function Taken(w: nat, swap: bool): (r: nat)
    requires w < WORD
    ensures r < WORD
  {
    if swap then Bswap32(w) else w
  }

  lemma {:induction false} WordBound(b: Bytes, i: nat)
    requires i + 4 <= |b|
    ensures WordAt(b, i) < WORD
  {
  }

  /** A field is read back, whatever the byte order. */
  lemma {:induction false} FieldRoundTrip(v: nat, swap: bool)
    requires v < WORD
    ensures |Field(v, swap)| == 4 && WordAt(Field(v, swap), 0) < WORD
    ensures Taken(WordAt(Field(v, swap), 0), swap) == v
  {
    var b := Word(v);
    WordRoundTrip(v);
    if swap {
      ReversedFour(b);
      SwapWord(b[3], b[2], b[1], b[0]);
    }
  }

  lemma {:induction false} WordAtShift(a: Bytes, b: Bytes, c: Bytes)
    requires |b| == 4
    ensures WordAt(a + b + c, |a|) == WordAt(b, 0)
  {
    var s := a + b + c;
    assert s[|a|] == b[0] && s[|a| + 1] == b[1] && s[|a| + 2] == b[2] && s[|a| + 3] == b[3];
  }

  // ---------------------------------------------------------------- files

  datatype Packet = Packet(sec: int, usec: int, data: Bytes)

  function HalfField(v: nat, swap: bool): Bytes
    requires v < 0x1_0000
  {
    if swap then Reversed(Half(v)) else Half(v)
  }

  /** The file header: magic, version 2.4, no zone, no accuracy, snap length, link type. */
  function FileHeader(swap: bool): Bytes {
    Field(PCAP_MAGIC, swap) + HalfField(2, swap) + HalfField(4, swap) + Field(0, swap) + Field(0, swap)
    + Field(65535, swap) + Field(LINKTYPE_ETHERNET, swap)
  }

  /** The conversion to an unsigned 32-bit number. */
  function Low(v: int): (r: nat)
    ensures r < WORD && (0 <= v < WORD <==> r == v)
  {
    v % WORD
  }

  lemma {:induction false} LowAround(v: int)
    ensures Low(v + WORD) == Low(v)
  {
  }

  function PacketHeader(p: Packet, swap: bool): Bytes
    requires |p.data| < WORD
  {
    Field(Low(p.sec), swap) + Field(Low(p.usec), swap) + Field(|p.data|, swap) + Field(|p.data|, swap)
  }

  ghost predicate Storable(ps: seq<Packet>) {
    forall i :: 0 <= i < |ps| ==> |ps[i].data| < WORD
  }

  function Record(p: Packet, swap: bool): Bytes
    requires |p.data| < WORD
  {
    PacketHeader(p, swap) + p.data
  }

  function Body(ps: seq<Packet>, swap: bool): Bytes
    requires forall i :: 0 <= i < |ps| ==> |ps[i].data| < WORD
  {
    if ps == [] then [] else Record(ps[0], swap) + Body(ps[1..], swap)
  }

  function File(ps: seq<Packet>, swap: bool): Bytes
    requires forall i :: 0 <= i < |ps| ==> |ps[i].data| < WORD
  {
    FileHeader(swap) + Body(ps, swap)
  }

  lemma {:induction false} BodyAppend(ps: seq<Packet>, p: Packet, swap: bool)
    requires Storable(ps) && |p.data| < WORD
    ensures Storable(ps + [p]) && Body(ps + [p], swap) == Body(ps, swap) + Record(p, swap)
  {
    var qs := ps + [p];
    if ps == [] {
      assert qs == [p] && qs[1..] == [];
      Ends(Record(p, swap));
    } else {
      BodyAppend(ps[1..], p, swap);
      assert qs[1..] == ps[1..] + [p] && qs[0] == ps[0];
      Associate(Record(ps[0], swap), Body(ps[1..], swap), Record(p, swap));
    }
  }

  lemma {:induction false} FileAppend(ps: seq<Packet>, p: Packet, swap: bool)
    requires Storable(ps) && |p.data| < WORD
    ensures Storable(ps + [p]) && File(ps + [p], swap) == File(ps, swap) + PacketHeader(p, swap) + p.data
  {
    BodyAppend(ps, p, swap);
    Associate(FileHeader(swap), Body(ps, swap), Record(p, swap));
    Associate(File(ps, swap), PacketHeader(p, swap), p.data);
  }

  lemma {:induction false} Ends(x: Bytes)
    ensures x + [] == x && [] + x == x
  {
  }

  lemma {:induction false} Associate(x: Bytes, y: Bytes, z: Bytes)
    ensures x + (y + z) == (x + y) + z
  {
  }

  /** The offsets in a packet header. */
  lemma {:induction false} HeaderFields(p: Packet, swap: bool)
    requires |p.data| < WORD
    ensures var h := PacketHeader(p, swap);
      && |h| == PACKET_HEADER
      && WordAt(h, 0) < WORD && Taken(WordAt(h, 0), swap) == Low(p.sec)
      && WordAt(h, 4) < WORD && Taken(WordAt(h, 4), swap) == Low(p.usec)
      && WordAt(h, 8) < WORD && Taken(WordAt(h, 8), swap) == |p.data|
      && WordAt(h, 12) < WORD && Taken(WordAt(h, 12), swap) == |p.data|
  {
    FieldRoundTrip(Low(p.sec), swap);
    FieldRoundTrip(Low(p.usec), swap);
    FieldRoundTrip(|p.data|, swap);
    FourFields(Field(Low(p.sec), swap), Field(Low(p.usec), swap), Field(|p.data|, swap), Field(|p.data|, swap));
  }

  lemma {:induction false} FourFields(a: Bytes, b: Bytes, c: Bytes, d: Bytes)
    requires |a| == |b| == |c| == |d| == 4
    ensures var h := a + b + c + d;
      WordAt(h, 0) == WordAt(a, 0) && WordAt(h, 4) == WordAt(b, 0) && WordAt(h, 8) == WordAt(c, 0) && WordAt(h, 12) == WordAt(d, 0)
  {
    var h := a + b + c + d;
    assert h == [] + a + (b + c + d);
    WordAtShift([], a, b + c + d);
    assert h == a + b + (c + d);
    WordAtShift(a, b, c + d);
    assert h == (a + b) + c + d;
    WordAtShift(a + b, c, d);
    assert h == (a + b + c) + d + [];
    WordAtShift(a + b + c, d, []);
  }

  lemma {:induction false} FileFields(swap: bool)
    ensures var h := FileHeader(swap);
      && |h| == FILE_HEADER
      && WordAt(h, 0) == (if swap then PCAP_SWAP_MAGIC else PCAP_MAGIC)
      && WordAt(h, 20) < WORD && Taken(WordAt(h, 20), swap) == LINKTYPE_ETHERNET
  {
    FieldRoundTrip(PCAP_MAGIC, swap);
    FieldRoundTrip(0, swap);
    FieldRoundTrip(65535, swap);
    FieldRoundTrip(LINKTYPE_ETHERNET, swap);
    HalfLength(2, swap);
    HalfLength(4, swap);
    SevenFields(Field(PCAP_MAGIC, swap), HalfField(2, swap), HalfField(4, swap), Field(0, swap), Field(0, swap),
      Field(65535, swap), Field(LINKTYPE_ETHERNET, swap));
    Magic(swap);
  }

  /** The first and the last word of a file header. */
  lemma {:induction false} SevenFields(a: Bytes, b: Bytes, c: Bytes, d: Bytes, e: Bytes, f: Bytes, g: Bytes)
    requires |a| == |d| == |e| == |f| == |g| == 4 && |b| == |c| == 2
    ensures var h := a + b + c + d + e + f + g; |h| == FILE_HEADER && WordAt(h, 0) == WordAt(a, 0) && WordAt(h, 20) == WordAt(g, 0)
  {
    var h, v := a + b + c + d + e + f + g, b + c + d + e + f;
    assert h == [] + a + (v + g);
    WordAtShift([], a, v + g);
    assert h == (a + v) + g + [];
    WordAtShift(a + v, g, []);
  }

  /** The bytes of the file header: magic, version 2.4, two zero words, snap length 65535, Ethernet; on a
      big-endian host the bytes of every field are the other way round. */
  lemma {:induction false} FileHeaderBytes()
    ensures FileHeader(false) ==
      [0xD4, 0xC3, 0xB2, 0xA1, 2, 0, 4, 0, 0, 0, 0, 0, 0, 0, 0, 0, 0xFF, 0xFF, 0, 0, 1, 0, 0, 0]
    ensures FileHeader(true) ==
      [0xA1, 0xB2, 0xC3, 0xD4, 0, 2, 0, 4, 0, 0, 0, 0, 0, 0, 0, 0, 0, 0, 0xFF, 0xFF, 0, 0, 0, 1]
  {
    FieldBytes(PCAP_MAGIC, 0xD4, 0xC3, 0xB2, 0xA1);
    FieldBytes(0, 0, 0, 0, 0);
    FieldBytes(65535, 0xFF, 0xFF, 0, 0);
    FieldBytes(LINKTYPE_ETHERNET, 1, 0, 0, 0);
    HalfBytes(2, 2, 0);
    HalfBytes(4, 4, 0);
    Seven([0xD4, 0xC3, 0xB2, 0xA1], [2, 0], [4, 0], [0, 0, 0, 0], [0xFF, 0xFF, 0, 0], [1, 0, 0, 0]);
    Seven([0xA1, 0xB2, 0xC3, 0xD4], [0, 2], [0, 4], [0, 0, 0, 0], [0, 0, 0xFF, 0xFF], [0, 0, 0, 1]);
  }

  lemma {:induction false} Seven(a: Bytes, b: Bytes, c: Bytes, z: Bytes, f: Bytes, g: Bytes)
    requires |a| == |z| == |f| == |g| == 4 && |b| == |c| == 2
    ensures a + b + c + z + z + f + g ==
      [a[0], a[1], a[2], a[3], b[0], b[1], c[0], c[1], z[0], z[1], z[2], z[3], z[0], z[1], z[2], z[3],
       f[0], f[1], f[2], f[3], g[0], g[1], g[2], g[3]]
  {
  }

  lemma {:induction false} FieldBytes(v: nat, a: byte, b: byte, c: byte, d: byte)
    requires v < WORD && v == a as nat + 0x100 * b as nat + 0x1_0000 * c as nat + 0x100_0000 * d as nat
    ensures Field(v, false) == [a, b, c, d] && Field(v, true) == [d, c, b, a]
  {
    Halves(v, a as nat + 0x100 * b as nat, c as nat + 0x100 * d as nat);
    HalfBytes(a as nat + 0x100 * b as nat, a, b);
    HalfBytes(c as nat + 0x100 * d as nat, c, d);
    assert Word(v) == [a, b] + [c, d];
    ReversedFour(Word(v));
  }

  lemma {:induction false} Halves(v: nat, lo: nat, hi: nat)
    requires v == lo + 0x1_0000 * hi && lo < 0x1_0000
    ensures v % 0x1_0000 == lo && v / 0x1_0000 == hi
  {
  }

  lemma {:induction false} HalfBytes(v: nat, a: byte, b: byte)
    requires v < 0x1_0000 && v == a as nat + 0x100 * b as nat
    ensures HalfField(v, false) == [a, b] && HalfField(v, true) == [b, a]
  {
    var h := Half(v);
    assert h == [a, b];
    assert h[1..][1..] == [];
    assert Reversed(h[1..]) == Reversed([]) + [h[1]];
  }

  lemma {:induction false} HalfLength(v: nat, swap: bool)
    requires v < 0x1_0000
    ensures |HalfField(v, swap)| == 2
  {
    if swap {
      var b := Half(v);
      assert b[1..][1..] == [];
      assert Reversed(b[1..]) == Reversed([]) + [b[1]];
    }
  }

  lemma {:induction false} Magic(swap: bool)
    ensures |Field(PCAP_MAGIC, swap)| == 4
    ensures WordAt(Field(PCAP_MAGIC, swap), 0) == if swap then PCAP_SWAP_MAGIC else PCAP_MAGIC
  {
    FieldRoundTrip(PCAP_MAGIC, swap);
    if swap {
      var b := Word(PCAP_MAGIC);
      assert b == [0xD4, 0xC3, 0xB2, 0xA1];
      ReversedFour(b);
    }
  }

  // ---------------------------------------------------------------- writing

  class Store {
    var file: Bytes
    ghost var packets: seq<Packet>

    ghost predicate Valid() reads this {
      Storable(packets) && file == File(packets, false)
    }

    /** peak_store_init */
    constructor ()
      ensures Valid() && packets == []
    {
      file := FileHeader(false);
      packets := [];
    }

    /** peak_store_packet: header, then payload */
    method Put(p: Packet)
      requires Valid() && |p.data| < WORD
      modifies this
      ensures Valid() && packets == old(packets) + [p]
    {
      FileAppend(packets, p, false);
      file := file + PacketHeader(p, false);
      file := file + p.data;
      packets := packets + [p];
    }
  }

  // ---------------------------------------------------------------- reading

  datatype Option<T> = None | Some(value: T)

  /** One record at a position of a file: where reading stops, and the packet if there is one. */
  function RecordAt(file: Bytes, pos: nat, swap: bool): (nat, Option<Packet>)
    requires pos <= |file|
  {
    if |file| - pos < PACKET_HEADER then (|file|, None)
    else
      WordBound(file, pos);
      WordBound(file, pos + 4);
      WordBound(file, pos + 8);
      var sec, usec, len := Taken(WordAt(file, pos), swap), Taken(WordAt(file, pos + 4), swap), Taken(WordAt(file, pos + 8), swap);
      var at := pos + PACKET_HEADER;
      if BUFFER < len then (at, None)
      else if |file| - at < len then (|file|, None)
      else (at + len, Some(Packet(sec, usec, file[at..at + len])))
  }

  /** What a loop over peak_load_packet gets to see. */
  function PacketsFrom(file: Bytes, pos: nat, swap: bool): seq<Packet>
    requires pos <= |file|
    decreases |file| - pos
  {
    var (next, p) := RecordAt(file, pos, swap);
    if p.None? || p.value.data == [] then [] else [p.value] + PacketsFrom(file, next, swap)
  }

  /** The reader's state for a PCAP file. */
  class Load {
    const file: Bytes
    const swap: bool
    const ll: nat
    var pos: nat
    var sec: nat
    var usec: nat
    var len: nat
    const buf: array<byte>

    ghost predicate Valid() reads this { pos <= |file| && buf.Length == BUFFER }

    constructor (file: Bytes, swap: bool, ll: nat)
      requires |file| >= FILE_HEADER
      ensures Valid() && fresh(buf) && this.file == file && this.swap == swap && this.ll == ll && pos == FILE_HEADER
    {
      this.file, this.swap, this.ll := file, swap, ll;
      pos, sec, usec, len := FILE_HEADER, 0, 0, 0;
      buf := new byte[BUFFER](i => 0);
    }

    /** read(2) into the packet buffer */
    method ReadBuffer(n: nat) returns (got: nat)
      requires Valid() && n <= BUFFER
      modifies this`pos, buf
      ensures Valid() && got == (if |file| - old(pos) < n then |file| - old(pos) else n)
      ensures pos == old(pos) + got && buf[..got] == file[old(pos)..pos]
    {
      got := if |file| - pos < n then |file| - pos else n;
      for i := 0 to got
        invariant pos == old(pos) && buf[..i] == file[pos..pos + i]
      {
        buf[i] := file[pos + i];
        assert buf[..i + 1] == buf[..i] + [file[pos + i]];
        assert file[pos..pos + i + 1] == file[pos..pos + i] + [file[pos + i]];
      }
      pos := pos + got;
    }

    /** peak_load_packet and _peak_load_pcap */
    method Next() returns (r: nat)
      requires Valid()
      modifies this`pos, this`sec, this`usec, this`len, buf
      ensures Valid() && pos == RecordAt(file, old(pos), swap).0 && r == len <= BUFFER
      ensures RecordAt(file, old(pos), swap).1.None? ==> r == 0
      ensures RecordAt(file, old(pos), swap).1.Some? ==> RecordAt(file, old(pos), swap).1.value == Packet(sec, usec, buf[..r])
    {
      len := 0;
      if |file| - pos < PACKET_HEADER {
        pos := |file|;
        return 0;
      }
      WordBound(file, pos);
      WordBound(file, pos + 4);
      WordBound(file, pos + 8);
      var incl_len := Taken(WordAt(file, pos + 8), swap);
      var ts_usec, ts_sec := Taken(WordAt(file, pos + 4), swap), Taken(WordAt(file, pos), swap);
      pos := pos + PACKET_HEADER;
      if BUFFER < incl_len {
        return 0;
      }
      var got := ReadBuffer(incl_len);
      if got != incl_len {
        return 0;
      }
      usec, sec, len := ts_usec, ts_sec, incl_len;
      return len;
    }
  }

  /** peak_load_init for PCAP files: the byte order from the magic number, the link type from the
      header. */
  method Open(file: Bytes) returns (load: Load?)
    ensures load == null <==> |file| < FILE_HEADER || WordAt(file, 0) !in {PCAP_MAGIC, PCAP_SWAP_MAGIC}
    ensures load != null ==> fresh(load) && fresh(load.buf) && load.Valid() && load.file == file && load.pos == FILE_HEADER
    ensures load != null ==> WordAt(file, 20) < WORD
    ensures load != null ==> load.swap == (WordAt(file, 0) == PCAP_SWAP_MAGIC) && load.ll == Taken(WordAt(file, 20), load.swap)
  {
    if |file| < 4 {
      return null;
    }
    var magic := WordAt(file, 0);
    if (magic != PCAP_MAGIC && magic != PCAP_SWAP_MAGIC) || |file| < FILE_HEADER {
      return null;
    }
    WordBound(file, 20);
    var swap := magic == PCAP_SWAP_MAGIC;
    load := new Load(file, swap, Taken(WordAt(file, 20), swap));
  }

  // ---------------------------------------------------------------- writer against reader

  /** What the reader makes of packets: it stops at the first empty or oversized one, and knows
      timestamps modulo 2^32. */
  function Readable(ps: seq<Packet>): seq<Packet> {
    if ps == [] || !(1 <= |ps[0].data| <= BUFFER) then []
    else [Packet(Low(ps[0].sec), Low(ps[0].usec), ps[0].data)] + Readable(ps[1..])
  }

  /** The reader at a record. */
  lemma {:induction false} RecordRead(a: Bytes, p: Packet, z: Bytes, swap: bool)
    requires |p.data| < WORD
    ensures RecordAt(a + Record(p, swap) + z, |a|, swap) ==
      if |p.data| <= BUFFER
      then (|a + Record(p, swap)|, Some(Packet(Low(p.sec), Low(p.usec), p.data)))
      else (|a| + PACKET_HEADER, None)
  {
    HeaderFields(p, swap);
    RecordWords(a, PacketHeader(p, swap), p.data, z);
    Associate(a, PacketHeader(p, swap), p.data);
  }

  /** The words of a header and the bytes behind it. */
  lemma {:induction false} RecordWords(a: Bytes, h: Bytes, d: Bytes, z: Bytes)
    requires |h| == PACKET_HEADER
    ensures var f := a + (h + d) + z;
      && WordAt(f, |a|) == WordAt(h, 0) && WordAt(f, |a| + 4) == WordAt(h, 4) && WordAt(f, |a| + 8) == WordAt(h, 8)
      && f[|a| + PACKET_HEADER..|a| + PACKET_HEADER + |d|] == d
  {
    var f := a + (h + d) + z;
    assert f == a + h + (d + z);
    WordAtIn(a, h, 0, d + z);
    WordAtIn(a, h, 4, d + z);
    WordAtIn(a, h, 8, d + z);
  }

  lemma {:induction false} WordAtIn(a: Bytes, b: Bytes, i: nat, c: Bytes)
    requires i + 4 <= |b|
    ensures WordAt(a + b + c, |a| + i) == WordAt(b, i)
  {
    var s := a + b + c;
    assert s[|a| + i] == b[i] && s[|a| + i + 1] == b[i + 1] && s[|a| + i + 2] == b[i + 2] && s[|a| + i + 3] == b[i + 3];
  }

  lemma {:induction false} BodyRead(a: Bytes, ps: seq<Packet>, swap: bool)
    requires Storable(ps)
    ensures PacketsFrom(a + Body(ps, swap), |a|, swap) == Readable(ps)
    decreases |ps|
  {
    var f := a + Body(ps, swap);
    if ps == [] {
      assert f == a;
    } else {
      var r, z := Record(ps[0], swap), Body(ps[1..], swap);
      assert f == a + r + z;
      RecordRead(a, ps[0], z, swap);
      if 1 <= |ps[0].data| <= BUFFER {
        BodyRead(a + r, ps[1..], swap);
      }
    }
  }

  /** Reading a file of either byte order. */
  lemma {:induction false} FileRead(ps: seq<Packet>, swap: bool)
    requires Storable(ps)
    ensures |File(ps, swap)| >= FILE_HEADER && WordAt(File(ps, swap), 0) == (if swap then PCAP_SWAP_MAGIC else PCAP_MAGIC)
    ensures WordAt(File(ps, swap), 20) < WORD && Taken(WordAt(File(ps, swap), 20), swap) == LINKTYPE_ETHERNET
    ensures PacketsFrom(File(ps, swap), FILE_HEADER, swap) == Readable(ps)
  {
    FileFields(swap);
    WordAtFront(FileHeader(swap), 0, Body(ps, swap));
    WordAtFront(FileHeader(swap), 20, Body(ps, swap));
    BodyRead(FileHeader(swap), ps, swap);
  }

  lemma {:induction false} WordAtFront(a: Bytes, i: nat, b: Bytes)
    requires i + 4 <= |a|
    ensures WordAt(a + b, i) == WordAt(a, i)
  {
    assert [] + a + b == a + b;
    WordAtIn([], a, i, b);
  }

  /** A record cut off by the end of the file is no packet. */
  lemma {:induction false} CutOff(a: Bytes, p: Packet, k: nat, swap: bool)
    requires |p.data| < WORD && k < |Record(p, swap)|
    ensures var f := a + Record(p, swap)[..k];
      RecordAt(f, |a|, swap) == if |p.data| > BUFFER && k >= PACKET_HEADER then (|a| + PACKET_HEADER, None) else (|f|, None)
  {
    HeaderFields(p, swap);
    var h, f := PacketHeader(p, swap), a + Record(p, swap)[..k];
    if k >= PACKET_HEADER {
      var d := p.data[..k - PACKET_HEADER];
      assert Record(p, swap)[..k] == h + d;
      Associate(a, h, d);
      WordAtIn(a, h, 0, d);
      WordAtIn(a, h, 4, d);
      WordAtIn(a, h, 8, d);
    }
  }

  /** From a file whose last record is cut off the reader gets the packets before it, then the end. */
  lemma {:induction false} TruncatedRead(ps: seq<Packet>, p: Packet, k: nat, swap: bool)
    requires Storable(ps) && |p.data| < WORD && k < |Record(p, swap)|
    ensures |File(ps, swap)| >= FILE_HEADER
    ensures PacketsFrom(File(ps, swap) + Record(p, swap)[..k], FILE_HEADER, swap) == Readable(ps)
  {
    FileFields(swap);
    Associate(FileHeader(swap), Body(ps, swap), Record(p, swap)[..k]);
    TruncatedBody(FileHeader(swap), ps, p, k, swap);
  }

  lemma {:induction false} TruncatedBody(a: Bytes, ps: seq<Packet>, p: Packet, k: nat, swap: bool)
    requires Storable(ps) && |p.data| < WORD && k < |Record(p, swap)|
    ensures PacketsFrom(a + (Body(ps, swap) + Record(p, swap)[..k]), |a|, swap) == Readable(ps)
    decreases |ps|
  {
    var c := Record(p, swap)[..k];
    if ps == [] {
      Ends(c);
      CutOff(a, p, k, swap);
    } else {
      var r, z := Record(ps[0], swap), Body(ps[1..], swap);
      Associate(r, z, c);
      Associate(a, r, z + c);
      RecordRead(a, ps[0], z + c, swap);
      if 1 <= |ps[0].data| <= BUFFER {
        TruncatedBody(a + r, ps[1..], p, k, swap);
      }
    }
  }

  ghost predicate Plain(p: Packet) {
    1 <= |p.data| <= BUFFER && 0 <= p.sec < WORD && 0 <= p.usec < WORD
  }

  /** Packets survive the file exactly if they are not empty, fit the buffer and have 32-bit
      timestamps. */
  lemma {:induction false} RoundTrip(ps: seq<Packet>, swap: bool)
    requires Storable(ps)
    ensures |File(ps, swap)| >= FILE_HEADER
    ensures PacketsFrom(File(ps, swap), FILE_HEADER, swap) == ps <==> forall i :: 0 <= i < |ps| ==> Plain(ps[i])
  {
    FileRead(ps, swap);
    ReadableAll(ps);
  }

  lemma {:induction false} ReadableAll(ps: seq<Packet>)
    ensures Readable(ps) == ps <==> forall i :: 0 <= i < |ps| ==> Plain(ps[i])
  {
    if ps != [] {
      ReadableAll(ps[1..]);
      assert ps == [ps[0]] + ps[1..];
      if Readable(ps) == ps {
        assert Readable(ps)[0] == ps[0] && Readable(ps)[1..] == Readable(ps[1..]);
        assert Plain(ps[0]);
        forall i | 0 <= i < |ps| ensures Plain(ps[i]) {
          if i > 0 { assert ps[i] == ps[1..][i - 1]; }
        }
      } else if Plain(ps[0]) {
        var i :| 0 <= i < |ps[1..]| && !Plain(ps[1..][i]);
        assert ps[i + 1] == ps[1..][i];
      }
    }
  }

  /** The loop around peak_load_packet. */
  method ReadAll(file: Bytes) returns (ps: seq<Packet>)
    requires |file| >= FILE_HEADER && WordAt(file, 0) in {PCAP_MAGIC, PCAP_SWAP_MAGIC}
    ensures ps == PacketsFrom(file, FILE_HEADER, WordAt(file, 0) == PCAP_SWAP_MAGIC)
  {
    var load := Open(file);
    ghost var swap := load.swap;
    ghost var all := PacketsFrom(file, FILE_HEADER, swap);
    ps := [];
    var more := true;
    assert all == ps + all;
    while more
      invariant load.Valid() && fresh(load) && fresh(load.buf) && load.file == file && load.swap == swap
      invariant all == ps + if more then PacketsFrom(file, load.pos, swap) else []
      decreases more, |file| - load.pos
    {
      ReadOn(all, ps, file, load.pos, swap);
      var n := load.Next();
      if n == 0 {
        more := false;
      } else {
        ps := ps + [Packet(load.sec, load.usec, load.buf[..n])];
      }
    }
  }

  /** One record more, or the end. */
  lemma {:induction false} ReadOn(all: seq<Packet>, ps: seq<Packet>, file: Bytes, pos: nat, swap: bool)
    requires pos <= |file| && all == ps + PacketsFrom(file, pos, swap)
    ensures var (next, p) := RecordAt(file, pos, swap);
      && (p.None? || p.value.data == [] ==> all == ps + [])
      && (p.Some? && p.value.data != [] ==> pos < next <= |file| && all == (ps + [p.value]) + PacketsFrom(file, next, swap))
  {
  }

  /** Store, then load. */
  method StoreAndLoad(ps: seq<Packet>) returns (qs: seq<Packet>)
    requires Storable(ps)
    ensures qs == Readable(ps)
    ensures qs == ps <==> forall i :: 0 <= i < |ps| ==> Plain(ps[i])
  {
    var store := new Store();
    for i := 0 to |ps|
      invariant store.Valid() && fresh(store) && store.packets == ps[..i]
    {
      store.Put(ps[i]);
      assert ps[..i + 1] == ps[..i] + [ps[i]];
    }
    assert ps[..|ps|] == ps;
    FileRead(ps, false);
    ReadableAll(ps);
    qs := ReadAll(store.file);
  }
}
