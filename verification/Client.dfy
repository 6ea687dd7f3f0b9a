/** The two ends that send messages and receive them through a parser: tcp_client.c and udp_point.c. */
module Client {
  import opened Wire
  import opened Net
  import opened Receive
  import opened Parser

  /** In network order a whole message is its encoding. */
  lemma NetworkOrderIsEncoding(h: Header, before: seq<byte>, after: seq<byte>)
    requires HEADER_SIZE <= |before| == |after| == HEADER_SIZE + h.length
    requires after[..HEADER_SIZE] == Image(Big, h) && after[HEADER_SIZE..] == before[HEADER_SIZE..]
    ensures after == Encode(Packet(h.kind, h.cmd, h.index, h.total, before[HEADER_SIZE..]))
  {
    assert after == after[..HEADER_SIZE] + after[HEADER_SIZE..];
  }

  /** Turned to network order and back, the memory is as it was. */
  lemma FlippedBack(e: Endian, before: seq<byte>, flipped: seq<byte>, after: seq<byte>)
    requires HEADER_SIZE <= |before| == |flipped| == |after|
    requires flipped[..HEADER_SIZE] == Image(Big, Load(e, before))
    requires after[..HEADER_SIZE] == Image(e, Load(Big, flipped))
    requires after[HEADER_SIZE..] == flipped[HEADER_SIZE..] == before[HEADER_SIZE..]
    ensures after == before
  {
    LoadStored(Big, flipped, Load(e, before));
    ImageLoad(e, before);
    assert after == after[..HEADER_SIZE] + after[HEADER_SIZE..];
    assert before == before[..HEADER_SIZE] + before[HEADER_SIZE..];
  }

  class TcpClient {
    /** No descriptor (-1) is null. */
    var fd: Socket?
    const parser: MsgParser

    ghost predicate Valid()
      reads this, parser, parser.cache.mem, parser.Body()
    {
      parser.Valid() && Waiting(parser.Acc())
    }

    /** TcpClient_From. */
    constructor (fd: Socket?, host: Endian)
      ensures Valid() && this.fd == fd && parser.Acc() == [] && parser.cache.host == host
      ensures fresh(parser) && fresh(parser.cache.mem) && parser.Body() == {}
    {
      this.fd := fd;
      parser := new MsgParser(host);
    }

    /** TcpClient_SendMsg: one send of the whole encoding, with the result `sent`, is what the call reports on.
        The message itself is left as it was. */
    method SendMsg(msg: Message?) returns (ret: bool, ghost sent: int)
      requires msg != null ==> msg.Whole() && msg.mem.Length <= INT_MAX
      modifies fd, if msg == null then {} else {msg.mem}
      ensures msg != null ==> msg.mem[..] == old(msg.mem[..])
      ensures msg == null || fd == null ==> !ret
      ensures msg != null && fd != null ==>
                && -1 <= sent <= msg.mem.Length
                && fd.sends == old(fd.sends) + [SendCall(Encode(old(msg.Value())), sent)]
                && fd.outbox == old(fd.outbox) + SendCall(Encode(old(msg.Value())), sent).Accepted()
                && (ret <==> sent != -1)
      ensures msg == null && fd != null ==> fd.sends == old(fd.sends) && fd.outbox == old(fd.outbox)
      ensures fd != null ==> fd.inbox == old(fd.inbox) && fd.readLog == old(fd.readLog)
    {
      hide BigEndian, Load, Image, Encode, SendCall.Accepted;
      ret, sent := false, -1;
      if msg != null {
        ghost var before := msg.mem[..];
        var len := MessageSize(msg);
        msg.H2N();
        ghost var flipped := msg.mem[..];
        NetworkOrderIsEncoding(Load(msg.host, before), before, flipped);
        if fd != null {
          assert flipped[..len] == flipped;
          var r := fd.Send(msg.mem, len);
          ret, sent := r != -1, r;
        }
        msg.N2H();
        FlippedBack(msg.host, before, flipped, msg.mem[..]);
      }
    }

    /** TcpClient_SendRaw: the result of send. */
    method SendRaw(buf: array<byte>, length: nat) returns (ret: int)
      requires length <= buf.Length
      modifies fd
      ensures -1 <= ret <= length && (fd == null ==> ret == -1)
      ensures fd != null ==>
                && fd.sends == old(fd.sends) + [SendCall(buf[..length], ret)]
                && fd.outbox == old(fd.outbox) + SendCall(buf[..length], ret).Accepted()
                && fd.inbox == old(fd.inbox) && fd.readLog == old(fd.readLog)
    {
      ret := -1;
      if fd != null {
        ret := fd.Send(buf, length);
      }
    }

    /** TcpClient_RecvMsg; `rs` are the reads that the call makes. */
    method RecvMsg(ok: bool) returns (ret: Message?, ghost rs: seq<ReadCall>)
      requires Valid()
      modifies parser, parser.cache.mem, parser.Body(), fd
      ensures fd == null ==> Valid() && ret == null && parser.Acc() == old(parser.Acc())
      ensures fd != null ==>
                && fd.outbox == old(fd.outbox) && fd.sends == old(fd.sends)
                && fd.readLog == old(fd.readLog) + rs
                && Got(rs) <= |old(fd.inbox)| && fd.inbox == old(fd.inbox)[Got(rs)..]
                && parser.Reads(old(parser.Acc()), old(fd.inbox)[..Got(rs)], rs, ok, ret)
                && (Take(old(parser.Acc()), old(fd.inbox)[..Got(rs)], ok).Overrun? || Valid())
      ensures fresh(parser.Body() - old(parser.Body()))
    {
      hide Take, Surplus, CallReads, Got;
      ret, rs := parser.ReadFd(fd, ok);
    }

    /** TcpClient_Close: what was read of an unfinished message is forgotten. */
    method Close()
      requires Valid()
      modifies this`fd, parser
      ensures Valid() && fd == null && parser.Acc() == []
    {
      fd := null;
      parser.Reset();
    }
  }

  /** One call of recvfrom: the size of the buffer, whether it peeks, and the result. */
  datatype RecvCall = RecvCall(size: int, peek: bool, result: int)

  /** A socket on which whole datagrams arrive. */
  class DatagramSocket {
    var queue: seq<seq<byte>>
    /** The datagrams sent. */
    var sent: seq<seq<byte>>
    /** All recvfrom calls so far, and the results of all sendto calls. */
    ghost var readLog: seq<RecvCall>
    ghost var sendResults: seq<int>

    /** sendto: fails, or sends one datagram. */
    method SendTo(data: array<byte>, size: nat) returns (r: int)
      requires size <= data.Length
      modifies this`sent, this`sendResults
      ensures r == -1 || 0 <= r
      ensures sendResults == old(sendResults) + [r]
      ensures sent == if r == -1 then old(sent) else old(sent) + [data[..size]]
    {
      var works: bool := *;
      r := if works then size else -1;
      if works {
        sent := sent + [data[..size]];
      }
      sendResults := sendResults + [r];
    }

    /** recvfrom: fails, or gives the leading `size` bytes of the next datagram, which is gone then unless peeking. */
    method RecvFrom(buf: array?<byte>, size: int, peek: bool) returns (r: int)
      requires buf != null ==> size == buf.Length
      requires buf == null ==> size <= 0
      modifies this`queue, this`readLog, if buf == null then {} else {buf}
      ensures r >= -1 && readLog == old(readLog) + [RecvCall(size, peek, r)]
      ensures r == -1 ==> queue == old(queue)
      ensures r != -1 ==>
                && 0 <= size && old(queue) != []
                && r == (if |old(queue)[0]| < size then |old(queue)[0]| else size)
                && queue == (if peek then old(queue) else old(queue)[1..])
                && (buf != null ==> buf[..r] == old(queue)[0][..r])
    {
      r := -1;
      var works: bool := *;
      if queue != [] && 0 <= size && works {
        var d := queue[0];
        r := if |d| < size then |d| else size;
        if buf != null {
          for i := 0 to r
            invariant queue == old(queue) && readLog == old(readLog)
            invariant buf[..i] == d[..i]
          {
            buf[i] := d[i];
          }
        }
        queue := if peek then queue else queue[1..];
      }
      readLog := readLog + [RecvCall(size, peek, r)];
    }
  }

  /** The size of the buffer the next datagram is first peeked into. */
  const TEMP_SIZE: nat := 4096

  /** The part of a datagram that UdpPoint_RecvMsg passes on. */
  function Passed(d: seq<byte>): seq<byte> {
    if |d| < TEMP_SIZE then d else d[..TEMP_SIZE]
  }

  lemma TakeNothing(acc: seq<byte>, ok: bool)
    requires Waiting(acc)
    ensures Take(acc, [], ok) == More(acc)
  {
    assert acc + [] == acc;
  }

  class UdpPoint {
    const fd: DatagramSocket
    const parser: MsgParser

    ghost predicate Valid()
      reads this, parser, parser.cache.mem, parser.Body()
    {
      parser.Valid() && Waiting(parser.Acc())
    }

    /** UdpPoint_From. */
    constructor (fd: DatagramSocket, host: Endian)
      ensures Valid() && this.fd == fd && parser.Acc() == [] && parser.cache.host == host
      ensures fresh(parser) && fresh(parser.cache.mem) && parser.Body() == {}
    {
      this.fd := fd;
      parser := new MsgParser(host);
    }

    /** UdpPoint_SendMsg, to a remote that is not null: reports on one sendto, whose result is `r`. */
    method SendMsg(msg: Message?) returns (ret: bool, ghost r: int)
      requires msg != null ==> msg.Whole() && msg.mem.Length <= INT_MAX
      modifies fd`sent, fd`sendResults, if msg == null then {} else {msg.mem}
      ensures msg != null ==> msg.mem[..] == old(msg.mem[..])
      ensures msg == null ==> !ret && fd.sendResults == old(fd.sendResults)
      ensures msg != null ==> fd.sendResults == old(fd.sendResults) + [r] && (ret <==> r != -1)
      ensures fd.sent == old(fd.sent) + if ret then [Encode(old(msg.Value()))] else []
    {
      hide BigEndian, Load, Image, Encode;
      ret, r := false, -1;
      if msg != null {
        ghost var before := msg.mem[..];
        var len := MessageSize(msg);
        msg.H2N();
        ghost var flipped := msg.mem[..];
        NetworkOrderIsEncoding(Load(msg.host, before), before, flipped);
        assert flipped[..len] == flipped;
        var result := fd.SendTo(msg.mem, len);
        ret, r := result != -1, result;
        msg.N2H();
        FlippedBack(msg.host, before, flipped, msg.mem[..]);
      }
    }

    /** UdpPoint_RecvMsg: takes one datagram, unless one of its two recvfrom calls fails. The first peeks into a buffer
        of 4096 bytes, the second takes as many bytes as were peeked; their results are `peeked` and `r`. */
    method RecvMsg(ok: bool) returns (ret: Message?, ghost peeked: int, ghost r: int)
      requires Valid()
      modifies parser, parser.cache.mem, parser.Body(), fd`queue, fd`readLog
      ensures fd.readLog == old(fd.readLog) + [RecvCall(4096, true, peeked), RecvCall(peeked, false, r)]
      ensures r == -1 ==> fd.queue == old(fd.queue) && Valid() && ret == null && parser.Acc() == old(parser.Acc())
      ensures r != -1 ==>
                && peeked != -1 && old(fd.queue) != [] && fd.queue == old(fd.queue)[1..]
                && parser.Shows(Take(old(parser.Acc()), Passed(old(fd.queue)[0]), ok), ret)
                && (Take(old(parser.Acc()), Passed(old(fd.queue)[0]), ok).Overrun? || Valid())
      ensures fresh(parser.Body() - old(parser.Body()))
    {
      hide Take, Load, Image, Surplus, Parse;
      ret := null;
      var buf, length;
      buf, length, peeked := Fetch();
      r := length;
      TakeNothing(parser.Acc(), ok);
      if length > 0 {
        ret := parser.ReadMem(buf, 0, length, ok);
      }
    }

    /** The two recvfrom calls: one peeks for the size, the other takes the datagram. */
    method Fetch() returns (buf: array?<byte>, length: int, ghost peeked: int)
      modifies fd`queue, fd`readLog
      ensures -1 <= length <= TEMP_SIZE
      ensures fd.readLog == old(fd.readLog) + [RecvCall(TEMP_SIZE, true, peeked), RecvCall(peeked, false, length)]
      ensures length == -1 ==> fd.queue == old(fd.queue)
      ensures length != -1 ==>
                && peeked != -1 && old(fd.queue) != [] && fd.queue == old(fd.queue)[1..]
                && length == |Passed(old(fd.queue)[0])|
                && (length > 0 ==> buf != null && fresh(buf) && buf.Length == length
                                   && buf[0..length] == Passed(old(fd.queue)[0]))
    {
      var temp := new byte[TEMP_SIZE];
      length := fd.RecvFrom(temp, TEMP_SIZE, true);
      peeked := length;
      buf := null;
      if length > 0 {
        buf := new byte[length];
      }
      length := fd.RecvFrom(buf, length, false);
    }
  }
}
