/** The kernel's side of one socket: what read and send may do, and a record of what they did. */
module Net {
  import opened Wire

  /** One call of read: the number of bytes asked for, and the result. */
  datatype ReadCall = ReadCall(size: nat, result: int)

  /** One call of send: the bytes offered, and the result. */
  datatype SendCall = SendCall(data: seq<byte>, result: int)
  {
    /** The bytes the kernel took. */
    function Accepted(): seq<byte> {
      if 0 <= result <= |data| then data[..result] else []
    }
  }

  /** The bytes taken by several calls, one after the other. */
  function AllAccepted(calls: seq<SendCall>): seq<byte> {
    if calls == [] then [] else AllAccepted(calls[..|calls| - 1]) + calls[|calls| - 1].Accepted()
  }

  class Socket {
    /** Bytes that have arrived, or will arrive, and are not yet read. */
    var inbox: seq<byte>
    /** Bytes the kernel has accepted for sending. */
    var outbox: seq<byte>
    /** All reads so far. */
    ghost var readLog: seq<ReadCall>
    /** All sends so far. */
    ghost var sends: seq<SendCall>

    /** read(fd, buf + at, size): fails, or delivers any number of the next bytes, possibly none. */
    method Read(buf: array<byte>, at: nat, size: nat) returns (r: int)
      requires at + size <= buf.Length
      modifies this`inbox, this`readLog, buf
      ensures -1 <= r <= size && r <= |old(inbox)|
      ensures var n := if r < 0 then 0 else r;
              && inbox == old(inbox)[n..]
              && (forall k :: at <= k < at + n ==> buf[k] == old(inbox)[k - at])
              && forall k :: 0 <= k < buf.Length && !(at <= k < at + n) ==> buf[k] == old(buf[k])
      ensures readLog == old(readLog) + [ReadCall(size, r)]
    {
      r :| -1 <= r <= size && r <= |inbox|;
      var n := if r < 0 then 0 else r;
      for i := 0 to n
        invariant inbox == old(inbox) && readLog == old(readLog)
        invariant forall k :: at <= k < at + i ==> buf[k] == inbox[k - at]
        invariant forall k :: 0 <= k < buf.Length && !(at <= k < at + i) ==> buf[k] == old(buf[k])
      {
        buf[at + i] := inbox[i];
      }
      inbox := inbox[n..];
      readLog := readLog + [ReadCall(size, r)];
    }

    /** send(fd, data, size): fails, or accepts any number of the leading bytes. */
    method Send(data: array<byte>, size: nat) returns (r: int)
      requires size <= data.Length
      modifies this`outbox, this`sends
      ensures -1 <= r <= size
      ensures sends == old(sends) + [SendCall(data[..size], r)]
      ensures outbox == old(outbox) + SendCall(data[..size], r).Accepted()
    {
      r :| -1 <= r <= size;
      outbox := outbox + data[..if r < 0 then 0 else r];
      sends := sends + [SendCall(data[..size], r)];
      assert data[..size][..if r < 0 then 0 else r] == data[..if r < 0 then 0 else r];
    }
  }
}
