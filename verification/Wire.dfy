/** The message of message.c: twelve header bytes and a payload, in a block of raw memory.
    A header field is read and written in the byte order of the host; on the wire it is big-endian. */
module Wire {
  import opened Seqs

  type byte = b: int | 0 <= b < 0x100
  type u16 = n: int | 0 <= n < 0x1_0000
  type u32 = n: int | 0 <= n < 0x1_0000_0000

  const HEADER_SIZE: nat := 12
  const INT_MAX: nat := 0x7FFF_FFFF

  datatype Endian = Little | Big

  datatype Header = Header(kind: u16, cmd: u16, index: u16, total: u16, length: u32)

  /** What a message means, apart from where and how it is stored. */
  datatype Packet = Packet(kind: u16, cmd: u16, index: u16, total: u16, payload: seq<byte>)

  type Msg = p: Packet | |p.payload| < 0x1_0000_0000 witness Packet(0, 0, 0, 0, [])

  /** Message_Size is a signed 32-bit int. */
  predicate Sendable(m: Msg) {
    HEADER_SIZE + |m.payload| <= INT_MAX
  }

  // ---------- one field in memory ----------

  function Load16(e: Endian, b0: byte, b1: byte): u16 {
    if e.Big? then b0 * 0x100 + b1 else b1 * 0x100 + b0
  }

  function Store16(e: Endian, n: u16): seq<byte> {
    if e.Big? then [n / 0x100, n % 0x100] else [n % 0x100, n / 0x100]
  }

  function Load32(e: Endian, b0: byte, b1: byte, b2: byte, b3: byte): u32 {
    if e.Big? then ((b0 * 0x100 + b1) * 0x100 + b2) * 0x100 + b3
    else ((b3 * 0x100 + b2) * 0x100 + b1) * 0x100 + b0
  }

  function Store32(e: Endian, n: u32): seq<byte> {
    var q1 := n / 0x100;
    var q2 := q1 / 0x100;
    var q3 := q2 / 0x100;
    if e.Big? then [q3, q2 % 0x100, q1 % 0x100, n % 0x100] else [n % 0x100, q1 % 0x100, q2 % 0x100, q3]
  }

  /** htons and ntohs: the identity on a big-endian host, a byte swap on a little-endian one. */
  function Flip16(e: Endian, n: u16): u16 {
    if e.Big? then n else n % 0x100 * 0x100 + n / 0x100
  }

  /** htonl and ntohl. */
  function Flip32(e: Endian, n: u32): u32 {
    if e.Big? then n
    else
      var q1 := n / 0x100;
      var q2 := q1 / 0x100;
      var q3 := q2 / 0x100;
      ((n % 0x100 * 0x100 + q1 % 0x100) * 0x100 + q2 % 0x100) * 0x100 + q3
  }

  // ---------- the header in memory ----------

  function Load(e: Endian, s: seq<byte>): Header
    requires HEADER_SIZE <= |s|
  {
    Header(Load16(e, s[0], s[1]), Load16(e, s[2], s[3]), Load16(e, s[4], s[5]), Load16(e, s[6], s[7]),
           Load32(e, s[8], s[9], s[10], s[11]))
  }

  function Image(e: Endian, h: Header): (s: seq<byte>)
    ensures |s| == HEADER_SIZE
  {
    Store16(e, h.kind) + Store16(e, h.cmd) + Store16(e, h.index) + Store16(e, h.total) + Store32(e, h.length)
  }

  /** Twelve header bytes with each field's bytes put in the other order on a little-endian host. */
  function Reordered(e: Endian, s: seq<byte>): seq<byte>
    requires HEADER_SIZE <= |s|
  {
    if e.Big? then s[..HEADER_SIZE]
    else [s[1], s[0], s[3], s[2], s[5], s[4], s[7], s[6], s[11], s[10], s[9], s[8]]
  }

  lemma Field16(e: Endian, n: u16)
    ensures var s := Store16(e, n); Load16(e, s[0], s[1]) == n
    ensures Store16(e, Flip16(e, n)) == Store16(Big, n)
  {
  }

  lemma PushByte(high: nat, low: byte)
    ensures (high * 0x100 + low) / 0x100 == high && (high * 0x100 + low) % 0x100 == low
  {
  }

  lemma Bytes32(e: Endian, b0: byte, b1: byte, b2: byte, b3: byte)
    ensures Store32(e, Load32(e, b0, b1, b2, b3)) == [b0, b1, b2, b3]
  {
    if e.Big? {
      PushByte(b0, b1);
      PushByte(b0 * 0x100 + b1, b2);
      PushByte((b0 * 0x100 + b1) * 0x100 + b2, b3);
    } else {
      PushByte(b3, b2);
      PushByte(b3 * 0x100 + b2, b1);
      PushByte((b3 * 0x100 + b2) * 0x100 + b1, b0);
    }
  }

  lemma Field32(e: Endian, n: u32)
    ensures var s := Store32(e, n); Load32(e, s[0], s[1], s[2], s[3]) == n
    ensures Store32(e, Flip32(e, n)) == Store32(Big, n)
  {
    var s := Store32(Big, n);
    Bytes32(e, s[0], s[1], s[2], s[3]);
  }

  /** Storing a header and loading it gives it back, in either byte order. */
  lemma LoadImage(e: Endian, h: Header, rest: seq<byte>)
    ensures Load(e, Image(e, h) + rest) == h
  {
    Field16(e, h.kind);
    Field16(e, h.cmd);
    Field16(e, h.index);
    Field16(e, h.total);
    Field32(e, h.length);
  }

  lemma Bytes16(e: Endian, b0: byte, b1: byte)
    ensures Store16(e, Load16(e, b0, b1)) == [b0, b1]
  {
  }

  /** Any twelve bytes are the image of the header they load as. */
  lemma ImageLoad(e: Endian, s: seq<byte>)
    requires HEADER_SIZE <= |s|
    ensures Image(e, Load(e, s)) == s[..HEADER_SIZE]
  {
    Bytes16(e, s[0], s[1]);
    Bytes16(e, s[2], s[3]);
    Bytes16(e, s[4], s[5]);
    Bytes16(e, s[6], s[7]);
    Bytes32(e, s[8], s[9], s[10], s[11]);
  }

  /** The fields, each written with its most significant byte first. */
  predicate BigEndian(s: seq<byte>, h: Header)
    requires 12 <= |s|
  {
    && h.kind == s[0] as int * 256 + s[1]
    && h.cmd == s[2] as int * 256 + s[3]
    && h.index == s[4] as int * 256 + s[5]
    && h.total == s[6] as int * 256 + s[7]
    && h.length == s[8] as int * 16777216 + s[9] as int * 65536 + s[10] as int * 256 + s[11]
  }

  /** The fields, each written with its least significant byte first. */
  predicate LittleEndian(s: seq<byte>, h: Header)
    requires 12 <= |s|
  {
    && h.kind == s[0] + s[1] as int * 256
    && h.cmd == s[2] + s[3] as int * 256
    && h.index == s[4] + s[5] as int * 256
    && h.total == s[6] + s[7] as int * 256
    && h.length == s[8] + s[9] as int * 256 + s[10] as int * 65536 + s[11] as int * 16777216
  }

  /** What a host reads in memory, and so what it has stored there. */
  lemma HostReads(s: seq<byte>, h: Header)
    requires 12 <= |s|
    ensures Load(Big, s) == h <==> BigEndian(s, h)
    ensures Load(Little, s) == h <==> LittleEndian(s, h)
  {
  }

  /** Reordering the bytes of a field takes the host's reading of memory to the network's, and back. */
  lemma ReorderedImage(e: Endian, s: seq<byte>)
    requires HEADER_SIZE <= |s|
    ensures Reordered(e, s) == Image(Big, Load(e, s)) == Image(e, Load(Big, s))
    ensures Reordered(e, Reordered(e, s)) == s[..HEADER_SIZE]
  {
    var r := Reordered(e, s);
    ImageLoad(Big, r);
    assert Load(Big, r) == Load(e, s);
    ImageLoad(e, r);
    assert Load(e, r) == Load(Big, s);
  }

  // ---------- the codec ----------

  function HeaderOf(m: Msg): Header
  {
    Header(m.kind, m.cmd, m.index, m.total, |m.payload|)
  }

  function Encode(m: Msg): (s: seq<byte>)
    ensures |s| == HEADER_SIZE + |m.payload|
  {
    Image(Big, HeaderOf(m)) + m.payload
  }

  /** The bytes on the wire: five numbers, each with its most significant byte first, and then the payload. */
  lemma EncodeBytes(m: Msg)
    ensures var s := Encode(m);
            && |s| == 12 + |m.payload| && s[12..] == m.payload
            && BigEndian(s, Header(m.kind, m.cmd, m.index, m.total, |m.payload|))
  {
    LoadImage(Big, HeaderOf(m), m.payload);
    HostReads(Encode(m), HeaderOf(m));
  }

  /** The payload length that twelve or more wire bytes announce. */
  function Announced(s: seq<byte>): u32
    requires HEADER_SIZE <= |s|
  {
    Load(Big, s).length
  }

  /** The message that a whole encoding stands for. */
  function Parse(s: seq<byte>): Msg
    requires HEADER_SIZE <= |s| == HEADER_SIZE + Announced(s)
  {
    var h := Load(Big, s);
    Packet(h.kind, h.cmd, h.index, h.total, s[HEADER_SIZE..])
  }

  /** The first message of a byte string, and what follows it. */
  function Decode(s: seq<byte>): Option<(Msg, seq<byte>)> {
    if |s| < HEADER_SIZE || |s| < HEADER_SIZE + Announced(s) then None
    else
      var size := HEADER_SIZE + Announced(s);
      AnnouncedPrefix(s[..size], s[size..]);
      assert s == s[..size] + s[size..];
      Some((Parse(s[..size]), s[size..]))
  }

  lemma AnnouncedPrefix(s: seq<byte>, rest: seq<byte>)
    requires HEADER_SIZE <= |s|
    ensures Announced(s + rest) == Announced(s)
  {
  }

  lemma DecodeEncode(m: Msg, rest: seq<byte>)
    ensures Decode(Encode(m) + rest) == Some((m, rest))
  {
    var s := Encode(m) + rest;
    LoadImage(Big, HeaderOf(m), m.payload + rest);
    assert s == Image(Big, HeaderOf(m)) + (m.payload + rest);
    assert s[..HEADER_SIZE + |m.payload|] == Encode(m);
    LoadImage(Big, HeaderOf(m), m.payload);
  }

  lemma EncodeDecode(s: seq<byte>)
    requires Decode(s).Some?
    ensures var (m, rest) := Decode(s).value;
            s == Encode(m) + rest
  {
    var (m, rest) := Decode(s).value;
    ImageLoad(Big, s);
    assert Image(Big, HeaderOf(m)) == s[..HEADER_SIZE];
  }

  /** No encoding is a proper prefix of another. */
  lemma PrefixFree(m1: Msg, m2: Msg, rest: seq<byte>)
    requires Encode(m1) + rest == Encode(m2)
    ensures m1 == m2 && rest == []
  {
    DecodeEncode(m1, rest);
    DecodeEncode(m2, []);
    assert Encode(m2) + [] == Encode(m2);
  }

  function Encodings(ms: seq<Msg>): (parts: seq<seq<byte>>)
    ensures |parts| == |ms|
    ensures forall i :: 0 <= i < |ms| ==> |parts[i]| == HEADER_SIZE + |ms[i].payload|
  {
    seq(|ms|, i requires 0 <= i < |ms| => Encode(ms[i]))
  }

  /** Messages written back to back. */
  function EncodeAll(ms: seq<Msg>): (s: seq<byte>)
    ensures ms != [] ==> |s| >= HEADER_SIZE
  {
    Concat(Encodings(ms))
  }

  lemma EncodeAllAppend(ms: seq<Msg>, ns: seq<Msg>)
    ensures EncodeAll(ms + ns) == EncodeAll(ms) + EncodeAll(ns)
  {
    hide Encode, Concat;
    ConcatAppend(Encodings(ms), Encodings(ns));
    assert Encodings(ms + ns) == Encodings(ms) + Encodings(ns);
  }

  lemma EncodeAllFirst(ms: seq<Msg>)
    requires ms != []
    ensures EncodeAll(ms) == Encode(ms[0]) + EncodeAll(ms[1..])
  {
    assert Encodings(ms)[1..] == Encodings(ms[1..]);
  }

  lemma DecodeFirst(ms: seq<Msg>, tail: seq<byte>)
    requires ms != []
    ensures Decode(EncodeAll(ms) + tail) == Some((ms[0], EncodeAll(ms[1..]) + tail))
  {
    EncodeAllFirst(ms);
    DecodeEncode(ms[0], EncodeAll(ms[1..]) + tail);
    Assoc(Encode(ms[0]), EncodeAll(ms[1..]), tail);
  }

  lemma NoEncodings()
    ensures EncodeAll([]) == []
  {
  }

  lemma SameFirst(ms: seq<Msg>, ns: seq<Msg>, tail: seq<byte>)
    requires ms != [] && ns != []
    requires EncodeAll(ms) == EncodeAll(ns) + tail
    ensures ms[0] == ns[0] && EncodeAll(ms[1..]) == EncodeAll(ns[1..]) + tail
  {
    DecodeFirst(ms, []);
    DecodeFirst(ns, tail);
    assert EncodeAll(ms) + [] == EncodeAll(ms);
    assert EncodeAll(ms[1..]) + [] == EncodeAll(ms[1..]);
  }

  /** A byte string that starts with whole messages, and ends in something no further message fits into,
      parses in only one way. */
  lemma {:induction false} UniqueParse(ms: seq<Msg>, ns: seq<Msg>, tail: seq<byte>)
    requires EncodeAll(ms) == EncodeAll(ns) + tail
    requires Decode(tail).None?
    ensures ms == ns && tail == []
  {
    hide EncodeAll;
    NoEncodings();
    if ns == [] {
      assert EncodeAll(ms) + [] == tail;
      if ms != [] {
        DecodeFirst(ms, []);
      }
    } else if ms != [] {
      SameFirst(ms, ns, tail);
      UniqueParse(ms[1..], ns[1..], tail);
      assert ms == [ms[0]] + ms[1..] && ns == [ns[0]] + ns[1..];
    }
  }

  lemma SameFields(e: Endian, s: seq<byte>, t: seq<byte>)
    requires HEADER_SIZE <= |s| && HEADER_SIZE <= |t| && s[..HEADER_SIZE] == t[..HEADER_SIZE]
    ensures Load(e, s) == Load(e, t)
  {
    assert forall i :: 0 <= i < HEADER_SIZE ==> s[i] == s[..HEADER_SIZE][i] == t[..HEADER_SIZE][i] == t[i];
  }

  // ---------- the message in memory ----------

  /** struct message: `mem` is the block that holds the fields and the payload after them. */
  class Message {
    const host: Endian
    const mem: array<byte>

    /** malloc: the contents are arbitrary. */
    constructor Alloc(host: Endian, size: nat)
      ensures this.host == host && mem.Length == size && fresh(mem)
    {
      this.host := host;
      mem := new byte[size];
    }

    /** Message_New. A missing payload leaves the payload bytes as malloc gave them. */
    constructor New(host: Endian, kind: u16, cmd: u16, index: u16, total: u16, payload: array?<byte>, length: u32)
      requires payload != null ==> length <= payload.Length
      ensures this.host == host && fresh(mem) && mem.Length == HEADER_SIZE + length
      ensures Fields() == Header(kind, cmd, index, total, length)
      ensures payload != null ==> Value() == Packet(kind, cmd, index, total, payload[..length])
    {
      this.host := host;
      mem := new byte[HEADER_SIZE + length];
      new;
      PutFields(Header(kind, cmd, index, total, length));
      if payload != null {
        ghost var before := mem[..];
        MemCpy(mem, HEADER_SIZE, payload, 0, length);
        assert mem[..HEADER_SIZE] == before[..HEADER_SIZE];
        SameFields(host, before, mem[..]);
        assert mem[HEADER_SIZE..] == payload[..length];
      }
    }

    /** The assignments to the five fields. */
    method PutFields(h: Header)
      requires HEADER_SIZE <= mem.Length
      modifies mem
      ensures Fields() == h
    {
      Put16(0, h.kind);
      Put16(2, h.cmd);
      Put16(4, h.index);
      Put16(6, h.total);
      Put32(8, h.length);
      Assemble(host, mem[..], h);
      LoadStored(host, mem[..], h);
    }

    ghost function Fields(): Header
      requires HEADER_SIZE <= mem.Length
      reads mem
    {
      Load(host, mem[..])
    }

    /** The block is exactly as long as its length field says. */
    ghost predicate Whole()
      reads mem
    {
      HEADER_SIZE <= mem.Length && mem.Length == HEADER_SIZE + Fields().length
    }

    ghost function Value(): (m: Msg)
      requires Whole()
      reads mem
      ensures |m.payload| == Fields().length
    {
      var h := Fields();
      Packet(h.kind, h.cmd, h.index, h.total, mem[HEADER_SIZE..])
    }

    method Get16(i: nat) returns (n: u16)
      requires i + 1 < mem.Length
      ensures n == Load16(host, mem[i], mem[i + 1])
    {
      n := Load16(host, mem[i], mem[i + 1]);
    }

    method Put16(i: nat, n: u16)
      requires i + 1 < mem.Length
      modifies mem
      ensures [mem[i], mem[i + 1]] == Store16(host, n)
      ensures forall k :: 0 <= k < mem.Length && !(i <= k < i + 2) ==> mem[k] == old(mem[k])
    {
      var s := Store16(host, n);
      mem[i], mem[i + 1] := s[0], s[1];
    }

    method Get32(i: nat) returns (n: u32)
      requires i + 3 < mem.Length
      ensures n == Load32(host, mem[i], mem[i + 1], mem[i + 2], mem[i + 3])
    {
      n := Load32(host, mem[i], mem[i + 1], mem[i + 2], mem[i + 3]);
    }

    method Put32(i: nat, n: u32)
      requires i + 3 < mem.Length
      modifies mem
      ensures [mem[i], mem[i + 1], mem[i + 2], mem[i + 3]] == Store32(host, n)
      ensures forall k :: 0 <= k < mem.Length && !(i <= k < i + 4) ==> mem[k] == old(mem[k])
    {
      var s := Store32(host, n);
      mem[i], mem[i + 1], mem[i + 2], mem[i + 3] := s[0], s[1], s[2], s[3];
    }

    /** Message_H2N: leaves the big-endian image of the fields in memory. */
    method H2N()
      requires HEADER_SIZE <= mem.Length
      modifies mem
      ensures mem[..HEADER_SIZE] == Image(Big, old(Fields()))
      ensures mem[HEADER_SIZE..] == old(mem[HEADER_SIZE..])
      ensures BigEndian(mem[..], old(Fields()))
    {
      FlipInPlace();
      ReorderedImage(host, old(mem[..]));
      LoadStored(Big, mem[..], old(Fields()));
      HostReads(mem[..], old(Fields()));
    }

    /** Message_N2H: the fields become what the bytes said in network order. */
    method N2H()
      requires HEADER_SIZE <= mem.Length
      modifies mem
      ensures Fields() == Load(Big, old(mem[..]))
      ensures mem[..HEADER_SIZE] == Image(host, Load(Big, old(mem[..])))
      ensures mem[HEADER_SIZE..] == old(mem[HEADER_SIZE..])
      ensures BigEndian(old(mem[..]), Fields())
    {
      FlipInPlace();
      ReorderedImage(host, old(mem[..]));
      LoadStored(host, mem[..], Load(Big, old(mem[..])));
      HostReads(old(mem[..]), Fields());
    }

    /** The five assignments that Message_H2N and Message_N2H both make. */
    method FlipInPlace()
      requires HEADER_SIZE <= mem.Length
      modifies mem
      ensures mem[..HEADER_SIZE] == Reordered(host, old(mem[..]))
      ensures mem[HEADER_SIZE..] == old(mem[HEADER_SIZE..])
    {
      FlipAt16(0);
      FlipAt16(2);
      FlipAt16(4);
      FlipAt16(6);
      FlipAt32(8);
    }

    /** field = htons(field), or ntohs. */
    method FlipAt16(i: nat)
      requires i + 1 < mem.Length
      modifies mem
      ensures [mem[i], mem[i + 1]] == old(if host.Big? then [mem[i], mem[i + 1]] else [mem[i + 1], mem[i]])
      ensures forall k :: 0 <= k < mem.Length && !(i <= k < i + 2) ==> mem[k] == old(mem[k])
    {
      var n := Get16(i);
      Put16(i, Flip16(host, n));
      Field16(host, n);
      Bytes16(host, old(mem[i]), old(mem[i + 1]));
    }

    /** field = htonl(field), or ntohl. */
    method FlipAt32(i: nat)
      requires i + 3 < mem.Length
      modifies mem
      ensures [mem[i], mem[i + 1], mem[i + 2], mem[i + 3]] ==
              old(if host.Big? then [mem[i], mem[i + 1], mem[i + 2], mem[i + 3]]
                  else [mem[i + 3], mem[i + 2], mem[i + 1], mem[i]])
      ensures forall k :: 0 <= k < mem.Length && !(i <= k < i + 4) ==> mem[k] == old(mem[k])
    {
      var n := Get32(i);
      Put32(i, Flip32(host, n));
      FlipBytes32(host, old(mem[i]), old(mem[i + 1]), old(mem[i + 2]), old(mem[i + 3]));
    }
  }

  lemma FlipBytes32(e: Endian, b0: byte, b1: byte, b2: byte, b3: byte)
    ensures Store32(e, Flip32(e, Load32(e, b0, b1, b2, b3))) ==
            if e.Big? then [b0, b1, b2, b3] else [b3, b2, b1, b0]
  {
    Field32(e, Load32(e, b0, b1, b2, b3));
    Bytes32(e, b0, b1, b2, b3);
  }

  lemma Assemble(e: Endian, s: seq<byte>, h: Header)
    requires HEADER_SIZE <= |s|
    requires [s[0], s[1]] == Store16(e, h.kind) && [s[2], s[3]] == Store16(e, h.cmd)
    requires [s[4], s[5]] == Store16(e, h.index) && [s[6], s[7]] == Store16(e, h.total)
    requires [s[8], s[9], s[10], s[11]] == Store32(e, h.length)
    ensures s[..HEADER_SIZE] == Image(e, h)
  {
    assert s[..HEADER_SIZE] == [s[0], s[1]] + [s[2], s[3]] + [s[4], s[5]] + [s[6], s[7]] + [s[8], s[9], s[10], s[11]];
  }

  lemma LoadStored(e: Endian, s: seq<byte>, h: Header)
    requires HEADER_SIZE <= |s| && s[..HEADER_SIZE] == Image(e, h)
    ensures Load(e, s) == h
  {
    LoadImage(e, h, s[HEADER_SIZE..]);
    assert s == Image(e, h) + s[HEADER_SIZE..];
  }

  /** Message_Size; a null message has size 0. */
  method MessageSize(m: Message?) returns (size: nat)
    requires m != null ==> m.Whole() && m.mem.Length <= INT_MAX
    ensures size == if m == null then 0 else m.mem.Length
    ensures size <= INT_MAX
  {
    size := 0;
    if m != null {
      var length := m.Get32(8);
      size := HEADER_SIZE + length;
    }
  }

  /** memcpy. */
  method MemCpy(dst: array<byte>, di: nat, src: array<byte>, si: nat, n: nat)
    requires dst != src && di + n <= dst.Length && si + n <= src.Length
    modifies dst
    ensures forall k :: di <= k < di + n ==> dst[k] == src[k - di + si]
    ensures forall k :: 0 <= k < dst.Length && !(di <= k < di + n) ==> dst[k] == old(dst[k])
  {
    for i := 0 to n
      invariant forall k :: di <= k < di + i ==> dst[k] == src[k - di + si]
      invariant forall k :: 0 <= k < dst.Length && !(di <= k < di + i) ==> dst[k] == old(dst[k])
    {
      dst[di + i] := src[si + i];
    }
  }
}
