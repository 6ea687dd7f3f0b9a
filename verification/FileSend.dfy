/** Sending a file: FileReqHandler of response.c. */
module FileSend {
  import opened Wire
  import opened Net
  import opened Receive
  import opened Client

  const BUF_SIZE: nat := 1024

  /** An open file whose contents do not change. */
  class File {
    const content: seq<byte>
    var pos: nat
    /** All reads so far. */
    ghost var readLog: seq<ReadCall>

    /** read: fails, or delivers any number of the next bytes, possibly none. */
    method Read(buf: array<byte>, size: nat) returns (r: int)
      requires pos <= |content| && size <= buf.Length
      modifies this`pos, this`readLog, buf
      ensures -1 <= r <= size && readLog == old(readLog) + [ReadCall(size, r)]
      ensures r <= 0 ==> pos == old(pos)
      ensures r > 0 ==> pos == old(pos) + r <= |content| && buf[..r] == content[old(pos)..pos]
    {
      r :| -1 <= r <= size && r <= |content| - pos;
      if r > 0 {
        for i := 0 to r
          invariant pos == old(pos) && readLog == old(readLog) && buf[..i] == content[pos..pos + i]
        {
          buf[i] := content[pos + i];
        }
        pos := pos + r;
      }
      readLog := readLog + [ReadCall(size, r)];
    }
  }

  /** Each read `rs[k]` of the file was followed by one send of exactly the bytes it delivered. */
  predicate Forwards(content: seq<byte>, rs: seq<ReadCall>, body: seq<SendCall>) {
    if rs == [] || body == [] then rs == [] && body == []
    else
      var (most, last) := (rs[..|rs| - 1], body[|body| - 1]);
      && Forwards(content, most, body[..|body| - 1])
      && 0 < rs[|rs| - 1].result <= BUF_SIZE && Got(rs) <= |content|
      && last.data == content[Got(most)..Got(rs)] && -1 <= last.result <= |last.data|
  }

  /** The sum that the code keeps: it counts -1 for a send that fails. */
  function Sum(body: seq<SendCall>): int {
    if body == [] then 0 else Sum(body[..|body| - 1]) + body[|body| - 1].result
  }

  lemma GotNext(rs: seq<ReadCall>, r: ReadCall)
    requires 0 < r.result
    ensures Got(rs + [r]) == Got(rs) + r.result
  {
    assert (rs + [r])[..|rs|] == rs;
  }

  lemma OneMore(content: seq<byte>, rs: seq<ReadCall>, body: seq<SendCall>, r: ReadCall, call: SendCall)
    requires Forwards(content, rs, body) && 0 < r.result <= BUF_SIZE && Got(rs + [r]) <= |content|
    requires Got(rs) <= Got(rs + [r]) && call.data == content[Got(rs)..Got(rs + [r])]
    requires -1 <= call.result <= |call.data|
    ensures Forwards(content, rs + [r], body + [call])
  {
    hide Got, SendCall.Accepted;
    assert (rs + [r])[..|rs|] == rs && (body + [call])[..|body|] == body;
  }

  lemma TotalsNext(body: seq<SendCall>, call: SendCall)
    ensures Sum(body + [call]) == Sum(body) + call.result
    ensures AllAccepted(body + [call]) == AllAccepted(body) + call.Accepted()
  {
    hide SendCall.Accepted;
    assert (body + [call])[..|body|] == body;
  }

  lemma ForwardsNext(content: seq<byte>, rs: seq<ReadCall>, body: seq<SendCall>, r: ReadCall, n: int)
    requires Forwards(content, rs, body) && 0 < r.result <= BUF_SIZE && Got(rs) + r.result <= |content|
    requires -1 <= n <= r.result
    ensures var call := SendCall(content[Got(rs)..Got(rs) + r.result], n);
            && Got(rs + [r]) == Got(rs) + r.result
            && Forwards(content, rs + [r], body + [call])
            && Sum(body + [call]) == Sum(body) + n
            && AllAccepted(body + [call]) == AllAccepted(body) + call.Accepted()
  {
    hide Got, Forwards, Sum, AllAccepted, SendCall.Accepted;
    var call := SendCall(content[Got(rs)..Got(rs) + r.result], n);
    GotNext(rs, r);
    OneMore(content, rs, body, r, call);
    TotalsNext(body, call);
  }

  /** The sum never exceeds the bytes accepted, nor these the bytes read; and where all bytes read were accepted,
      the sum is their number and they are the file's, in order. */
  lemma {:induction false} SumCounts(content: seq<byte>, rs: seq<ReadCall>, body: seq<SendCall>)
    requires Forwards(content, rs, body)
    ensures Sum(body) <= |AllAccepted(body)| <= Got(rs) <= |content|
    ensures |AllAccepted(body)| == Got(rs) ==> Sum(body) == Got(rs) && AllAccepted(body) == content[..Got(rs)]
  {
    if body != [] {
      var (most, last) := (rs[..|rs| - 1], body[|body| - 1]);
      var before := body[..|body| - 1];
      SumCounts(content, most, before);
      PieceCounts(content, Got(most), Got(rs), AllAccepted(before), Sum(before), last);
    }
  }

  lemma PieceCounts(content: seq<byte>, a: nat, b: nat, most: seq<byte>, sum: int, last: SendCall)
    requires a < b <= |content| && last.data == content[a..b] && -1 <= last.result <= |last.data|
    requires sum <= |most| <= a && (|most| == a ==> sum == a && most == content[..a])
    ensures var all := most + last.Accepted();
            && sum + last.result <= |all| <= b
            && (|all| == b ==> sum + last.result == b && all == content[..b])
  {
    if |most + last.Accepted()| == b {
      assert last.Accepted() == last.data;
      assert content[..b] == content[..a] + content[a..b];
    }
  }

  /** So the sum is the length of the file exactly if the bytes accepted are the file. */
  lemma SumTells(content: seq<byte>, rs: seq<ReadCall>, body: seq<SendCall>)
    requires Forwards(content, rs, body)
    ensures Sum(body) == |content| <==> AllAccepted(body) == content
  {
    hide Forwards, Sum, AllAccepted, Got;
    SumCounts(content, rs, body);
    assert content[..|content|] == content;
  }

  /** Every read asks for a block. */
  predicate AsksBlocks(rs: seq<ReadCall>) {
    forall k :: 0 <= k < |rs| ==> rs[k].size == BUF_SIZE
  }

  lemma AsksBlocksNext(rs: seq<ReadCall>, r: int)
    ensures AsksBlocks([])
    ensures AsksBlocks(rs) ==> AsksBlocks(rs + [ReadCall(BUF_SIZE, r)])
  {
  }

  /** No read that asks for bytes brings none before the end of the file. */
  predicate ReadsOn(content: seq<byte>, rs: seq<ReadCall>) {
    forall k :: 0 <= k < |rs| && rs[k].size > 0 && Got(rs[..k]) < |content| ==> rs[k].result > 0
  }

  predicate TakesAll(body: seq<SendCall>) {
    forall k :: 0 <= k < |body| ==> body[k].result == |body[k].data|
  }

  lemma AllButLast(content: seq<byte>, rs: seq<ReadCall>)
    requires rs != [] && rs[|rs| - 1].size > 0 && rs[|rs| - 1].result <= 0 && ReadsOn(content, rs)
    ensures Got(rs[..|rs| - 1]) >= |content|
  {
    hide Got;
  }

  lemma {:induction false} AllTaken(content: seq<byte>, rs: seq<ReadCall>, body: seq<SendCall>)
    requires Forwards(content, rs, body)
    requires TakesAll(body)
    ensures |AllAccepted(body)| == Got(rs)
  {
    if body != [] {
      AllTaken(content, rs[..|rs| - 1], body[..|body| - 1]);
    }
  }

  /** If no read brings nothing before the end of the file, and every send takes all it is given, the whole file is
      accepted. */
  lemma WholeFile(content: seq<byte>, rs: seq<ReadCall>, body: seq<SendCall>)
    requires rs != [] && rs[|rs| - 1].size > 0 && rs[|rs| - 1].result <= 0
    requires Forwards(content, rs[..|rs| - 1], body)
    requires ReadsOn(content, rs) && TakesAll(body)
    ensures AllAccepted(body) == content
  {
    hide ReadsOn, TakesAll, Forwards, Got, AllAccepted, Sum;
    AllButLast(content, rs);
    var most := rs[..|rs| - 1];
    AllTaken(content, most, body);
    SumCounts(content, most, body);
    assert content[..|content|] == content;
  }

  /** The loop of FileReqHandler, entered with `len` positive. It ends with the first read that delivers nothing
      or fails. */
  method SendBody(client: TcpClient, fd: File, len: int)
    returns (sent: int, ghost rs: seq<ReadCall>, ghost body: seq<SendCall>)
    requires client.fd != null && fd.pos == 0 && len > 0
    modifies fd, client.fd
    ensures rs != [] && rs[|rs| - 1].result <= 0 && fd.readLog == old(fd.readLog) + rs
    ensures AsksBlocks(rs)
    ensures Forwards(fd.content, rs[..|rs| - 1], body)
    ensures client.fd.sends == old(client.fd.sends) + body
    ensures client.fd.outbox == old(client.fd.outbox) + AllAccepted(body)
    ensures sent == Sum(body)
  {
    hide Forwards, Sum, AllAccepted, Got, AsksBlocks, SendCall.Accepted;
    var buf, last := new byte[BUF_SIZE], len;
    sent, rs, body := 0, [], [];
    NothingSent(fd.content);
    AsksBlocksNext([], 0);
    while last > 0
      invariant fd.pos <= |fd.content| && fd.readLog == old(fd.readLog) + rs
      invariant AsksBlocks(rs)
      invariant last <= 0 ==> rs != [] && rs[|rs| - 1].result == last && Forwards(fd.content, rs[..|rs| - 1], body)
      invariant last > 0 ==> Forwards(fd.content, rs, body) && fd.pos == Got(rs)
      invariant client.fd.sends == old(client.fd.sends) + body
      invariant client.fd.outbox == old(client.fd.outbox) + AllAccepted(body)
      invariant sent == Sum(body)
      decreases |fd.content| - fd.pos, if last > 0 then 1 else 0
    {
      last := fd.Read(buf, BUF_SIZE);
      AsksBlocksNext(rs, last);
      if last > 0 {
        var n := client.SendRaw(buf, last);
        ForwardsNext(fd.content, rs, body, ReadCall(BUF_SIZE, last), n);
        sent := sent + n;
        body := body + [SendCall(buf[..last], n)];
      } else {
        assert (rs + [ReadCall(BUF_SIZE, last)])[..|rs|] == rs;
      }
      rs := rs + [ReadCall(BUF_SIZE, last)];
    }
  }

  lemma NothingSent(content: seq<byte>)
    ensures Forwards(content, [], []) && Sum([]) == 0 && AllAccepted([]) == [] && Got([]) == 0
  {
  }

  /** FileReqHandler, for a request whose file is open, or null; `head` is the text of the HTTP header. The header is
      sent once and, if any of it is accepted, the file as it is read: success means that what the socket accepted
      after the header is the whole file, in order. It does not mean that the whole header was accepted: some of it was
      if the file is not empty, and for an empty file none of it need be. */
  method FileReqHandler(client: TcpClient, head: array<byte>, fd: File?)
    returns (ret: bool, ghost headSent: int, ghost rs: seq<ReadCall>, ghost body: seq<SendCall>)
    requires fd != null ==> |fd.content| <= INT_MAX
    modifies fd, client.fd
    ensures fd == null ==> !ret
    ensures fd == null && client.fd != null ==>
              client.fd.sends == old(client.fd.sends) && client.fd.outbox == old(client.fd.outbox)
    ensures fd != null && client.fd == null ==> headSent == -1
    ensures fd != null && client.fd != null ==>
              && client.fd.sends == old(client.fd.sends) + [SendCall(head[..], headSent)] + body
              && client.fd.outbox == old(client.fd.outbox) + SendCall(head[..], headSent).Accepted() + AllAccepted(body)
    ensures fd != null ==>
              && fd.readLog == old(fd.readLog) + rs
              && (forall k :: 0 <= k < |rs| ==> rs[k].size == 1024)
              && (if headSent > 0 then
                    rs != [] && rs[|rs| - 1].result <= 0 && Forwards(fd.content, rs[..|rs| - 1], body)
                  else
                    rs == [] && body == [])
              && (ret <==> AllAccepted(body) == fd.content)
              && (ret && headSent <= 0 ==> fd.content == [])
              && (headSent > 0
                    && (forall k :: 0 <= k < |rs| && rs[k].size > 0 && Got(rs[..k]) < |fd.content| ==> rs[k].result > 0)
                    && (forall k :: 0 <= k < |body| ==> body[k].result == |body[k].data|) ==>
                    ret)
  {
    hide Forwards, Sum;
    ret, headSent, rs, body := false, -1, [], [];
    if fd != null {
      NothingSent(fd.content);
      var max := |fd.content|;
      var sent := 0;
      var len := client.SendRaw(head, head.Length);
      headSent := len;
      assert head[..head.Length] == head[..];
      fd.pos := 0;
      if len > 0 {
        sent, rs, body := SendBody(client, fd, len);
        SumTells(fd.content, rs[..|rs| - 1], body);
        if ReadsOn(fd.content, rs) && TakesAll(body) {
          WholeFile(fd.content, rs, body);
        }
      }
      ret := sent == max;
    }
  }
}
