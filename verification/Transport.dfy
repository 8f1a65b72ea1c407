/** The socket under an OCSP exchange: the partial-send loop and the doubling receive buffer. */
module Transport {
  import opened Bytes
  import opened Memory

  const SEND_CHUNK: nat := 8192      // TCN_BUFFER_SZ
  const BUFFER_SIZE: nat := 512
  const MAX_RESPONSE: nat := 65536   // OCSP_MAX_RESPONSE_SIZE

  /** One `apr_socket_send`: how many of the offered bytes it takes at most, and its status. */
  datatype SendResult = SendResult(capacity: nat, ok: bool)

  datatype RawRecv = Data(bytes: seq<byte>) | Stop(eof: bool, readlen: nat)

  /** One `apr_socket_recv` into 512 bytes: a successful read is never empty (APR reports end of file
      instead); any other status may still report bytes. */
  type Recv = r: RawRecv | r.Data? ==> 1 <= |r.bytes| <= BUFFER_SIZE witness Stop(true, 0)

  /** The answers of all reads to come. */
  type Feed = nat -> Recv

  class Socket {
    var sends: seq<SendResult>
    var delivered: seq<byte>
    const feed: Feed
    var receives: nat

    constructor (sends: seq<SendResult>, feed: Feed)
      ensures this.sends == sends && this.feed == feed && delivered == [] && receives == 0
    {
      this.sends, this.feed := sends, feed;
      delivered, receives := [], 0;
    }

    /** A send past the end of the script fails without taking anything. */
    method Send(data: seq<byte>) returns (ok: bool, wlen: nat)
      modifies this`sends, this`delivered
      ensures old(sends) == [] ==> !ok && wlen == 0 && sends == []
      ensures old(sends) != [] ==> ok == old(sends)[0].ok && wlen == Min(old(sends)[0].capacity, |data|)
                                   && sends == old(sends)[1..]
      ensures wlen <= |data| && delivered == old(delivered) + data[..wlen]
    {
      if sends == [] {
        return false, 0;
      }
      ok, wlen := sends[0].ok, Min(sends[0].capacity, |data|);
      delivered := delivered + data[..wlen];
      sends := sends[1..];
    }

    method Receive() returns (r: Recv)
      modifies this`receives
      ensures r == feed(old(receives)) && receives == old(receives) + 1
    {
      r := feed(receives);
      receives := receives + 1;
    }
  }

  // ---------------------------------------------------------------------------------------------
  // Sending
  // ---------------------------------------------------------------------------------------------

  /** The outcome of sending: success, bytes taken, results not used. */
  datatype Sent = Sent(ok: bool, bytes: nat, rest: seq<SendResult>)

  /** What every run of sends obeys. Success takes every byte and meets no failed send; a failure is
      the first failed send met, or the end of the script with bytes still to go. */
  ghost predicate Conserves(sends: seq<SendResult>, size: nat, s: Sent) {
    && |s.rest| <= |sends| && s.rest == sends[|sends| - |s.rest|..]
    && s.bytes <= size
    && var used := |sends| - |s.rest|;
    && (s.ok ==> s.bytes == size && forall i :: 0 <= i < used ==> sends[i].ok)
    && (!s.ok ==> forall i :: 0 <= i < used - 1 ==> sends[i].ok)
    && (!s.ok ==> (s.rest == [] && s.bytes < size) || (used > 0 && !sends[used - 1].ok))
  }

  /** The sends of one chunk: at least one, until it is taken whole or a send fails. */
  function ChunkRun(sends: seq<SendResult>, remain: nat): (s: Sent)
    ensures s.bytes <= remain && (s.ok ==> s.bytes == remain)
    decreases |sends|
  {
    if sends == [] then Sent(false, 0, [])
    else
      var n := Min(sends[0].capacity, remain);
      if !sends[0].ok then Sent(false, n, sends[1..])
      else if n == remain then Sent(true, n, sends[1..])
      else
        var s := ChunkRun(sends[1..], remain - n);
        s.(bytes := n + s.bytes)
  }

  function Transmission(sends: seq<SendResult>, size: nat): (s: Sent)
    ensures s.bytes <= size && (s.ok ==> s.bytes == size)
    decreases size
  {
    if size == 0 then Sent(true, 0, sends)
    else
      var len := Min(size, SEND_CHUNK);
      var c := ChunkRun(sends, len);
      if !c.ok then c
      else
        var s := Transmission(c.rest, size - len);
        s.(bytes := c.bytes + s.bytes)
  }

  /** A run continued by another: what the first leaves is what the second uses. */
  lemma ConservesTwice(sends: seq<SendResult>, c: Sent, s: Sent, first: nat, second: nat)
    requires Conserves(sends, first, c) && c.ok && Conserves(c.rest, second, s)
    ensures Conserves(sends, first + second, s.(bytes := c.bytes + s.bytes))
  {
    var k := |sends| - |c.rest|;
    assert forall i :: k <= i < |sends| ==> sends[i] == c.rest[i - k];
  }

  /** One send that fails, or that takes all there is. */
  lemma LastSend(sends: seq<SendResult>, n: nat, size: nat)
    requires sends != [] && n <= size && (sends[0].ok ==> n == size)
    ensures Conserves(sends, size, Sent(sends[0].ok, n, sends[1..]))
  {
  }

  lemma ScriptEnds(size: nat)
    requires size > 0
    ensures Conserves([], size, Sent(false, 0, []))
  {
  }

  lemma NothingToSend(sends: seq<SendResult>)
    ensures Conserves(sends, 0, Sent(true, 0, sends))
  {
  }

  lemma FailureOfMore(sends: seq<SendResult>, c: Sent, first: nat, size: nat)
    requires !c.ok && Conserves(sends, first, c) && first <= size
    ensures Conserves(sends, size, c)
  {
  }

  lemma {:induction false} ChunkConserves(sends: seq<SendResult>, remain: nat)
    requires remain > 0
    ensures Conserves(sends, remain, ChunkRun(sends, remain))
    decreases |sends|
  {
    hide Conserves;
    if sends == [] {
      ScriptEnds(remain);
    } else {
      var n := Min(sends[0].capacity, remain);
      if !sends[0].ok || n == remain {
        LastSend(sends, n, remain);
      } else {
        LastSend(sends, n, n);
        ChunkConserves(sends[1..], remain - n);
        ConservesTwice(sends, Sent(true, n, sends[1..]), ChunkRun(sends[1..], remain - n), n, remain - n);
      }
    }
  }

  /** Under any pattern of short sends and failures, across all chunks. */
  lemma {:induction false} TransmissionConserves(sends: seq<SendResult>, size: nat)
    ensures Conserves(sends, size, Transmission(sends, size))
    decreases size
  {
    hide Conserves, ChunkRun;
    if size == 0 {
      NothingToSend(sends);
    } else {
      var len := Min(size, SEND_CHUNK);
      var c := ChunkRun(sends, len);
      ChunkConserves(sends, len);
      if c.ok {
        TransmissionConserves(c.rest, size - len);
        ConservesTwice(sends, c, Transmission(c.rest, size - len), len, size - len);
      } else {
        FailureOfMore(sends, c, len, size);
      }
    }
  }

  // Which scripts carry a request

  function Capacity(sends: seq<SendResult>): nat {
    if sends == [] then 0 else sends[0].capacity + Capacity(sends[1..])
  }

  /** Sends that carry a chunk of `len` bytes: none fails, and the last is the one that completes it. */
  predicate CarriesChunk(part: seq<SendResult>, len: nat) {
    && part != [] && (forall s <- part :: s.ok)
    && Capacity(part[..|part| - 1]) < len <= Capacity(part)
  }

  /** The script opens with one part for each chunk of the request. */
  predicate Carries(parts: seq<seq<SendResult>>, sends: seq<SendResult>, size: nat)
    decreases size
  {
    if size == 0 then parts == []
    else
      var len := Min(size, SEND_CHUNK);
      && parts != [] && parts[0] <= sends && CarriesChunk(parts[0], len)
      && Carries(parts[1..], sends[|parts[0]|..], size - len)
  }

  lemma CapacityOfOne(s: SendResult)
    ensures Capacity([s]) == s.capacity
  {
    assert [s][1..] == [];
  }

  lemma CarriesMore(s: SendResult, part: seq<SendResult>, len: nat)
    requires part != []
    ensures CarriesChunk([s] + part, s.capacity + len) <==> s.ok && CarriesChunk(part, len)
  {
    var all := [s] + part;
    assert all[0] == s && all[1..] == part;
    assert all[..|all| - 1] == [s] + part[..|part| - 1];
    assert ([s] + part[..|part| - 1])[1..] == part[..|part| - 1];
    assert forall t <- part :: t in all;
    assert s in all;
  }

  lemma {:induction false} ChunkSucceeds(sends: seq<SendResult>, remain: nat) returns (part: seq<SendResult>)
    requires remain > 0 && ChunkRun(sends, remain).ok
    ensures part <= sends && CarriesChunk(part, remain) && ChunkRun(sends, remain).rest == sends[|part|..]
    decreases |sends|
  {
    var first := sends[0];
    if first.capacity >= remain {
      part := [first];
      CapacityOfOne(first);
      assert Capacity(part[..0]) == 0;
    } else {
      var more := ChunkSucceeds(sends[1..], remain - first.capacity);
      CarriesMore(first, more, remain - first.capacity);
      part := [first] + more;
    }
  }

  lemma {:induction false} ChunkCarried(sends: seq<SendResult>, part: seq<SendResult>, remain: nat)
    requires remain > 0 && part <= sends && CarriesChunk(part, remain)
    ensures ChunkRun(sends, remain) == Sent(true, remain, sends[|part|..])
    decreases |sends|
  {
    var first := part[0];
    assert first in part && sends[0] == first;
    CapacityOfOne(first);
    if |part| == 1 {
      assert part == [first];
    } else {
      var more := part[1..];
      assert part == [first] + more;
      assert part[..|part| - 1][0] == first;
      CarriesMore(first, more, remain - first.capacity);
      ChunkCarried(sends[1..], more, remain - first.capacity);
    }
  }

  lemma {:induction false} SplitOfSuccess(sends: seq<SendResult>, size: nat) returns (parts: seq<seq<SendResult>>)
    requires Transmission(sends, size).ok
    ensures Carries(parts, sends, size)
    decreases size
  {
    hide ChunkRun, CarriesChunk;
    parts := [];
    if size > 0 {
      var len := Min(size, SEND_CHUNK);
      var part := ChunkSucceeds(sends, len);
      var more := SplitOfSuccess(sends[|part|..], size - len);
      parts := [part] + more;
    }
  }

  lemma {:induction false} SplitSucceeds(sends: seq<SendResult>, size: nat, parts: seq<seq<SendResult>>)
    requires Carries(parts, sends, size)
    ensures Transmission(sends, size).ok
    decreases size
  {
    hide ChunkRun, CarriesChunk;
    if size > 0 {
      var len := Min(size, SEND_CHUNK);
      ChunkCarried(sends, parts[0], len);
      SplitSucceeds(sends[|parts[0]|..], size - len, parts[1..]);
    }
  }

  /** A request is sent exactly when the script opens with parts that carry its chunks, one by one. */
  lemma SucceedsExactly(sends: seq<SendResult>, size: nat)
    ensures Transmission(sends, size).ok <==> exists parts :: Carries(parts, sends, size)
  {
    if Transmission(sends, size).ok {
      var parts := SplitOfSuccess(sends, size);
    }
    if parts :| Carries(parts, sends, size) {
      SplitSucceeds(sends, size, parts);
    }
  }

  /** Full sends that do not fail: one for each 8192 bytes is what it takes. */
  lemma {:induction false} FullSendsSucceed(sends: seq<SendResult>, size: nat)
    requires forall s <- sends :: s.ok && s.capacity >= 8192
    ensures Transmission(sends, size).ok <==> size <= 8192 * |sends|
    decreases size
  {
    if size > 0 && sends != [] {
      assert sends[0] in sends;
      FullSendsSucceed(sends[1..], size - Min(size, SEND_CHUNK));
    }
  }

  /** One send that does not fail carries a request exactly up to what it takes, and one chunk. */
  lemma OneSend(capacity: nat, size: nat)
    ensures Transmission([SendResult(capacity, true)], size).ok <==> size <= capacity && size <= 8192
  {
    var sends := [SendResult(capacity, true)];
    assert sends[1..] == [];
    var len := Min(size, SEND_CHUNK);
    var c := ChunkRun(sends, len);
    assert !ChunkRun([], len - Min(capacity, len)).ok;
    assert c.ok <==> capacity >= len;
    assert Transmission([], size - len).ok <==> size == len;
  }

  lemma JoinPrefix(earlier: seq<byte>, s: seq<byte>, i: nat, j: nat, k: nat)
    requires i + k <= j <= |s|
    ensures earlier + s[..i] + s[i..j][..k] == earlier + s[..i + k]
  {
    assert s[..i] + s[i..j][..k] == s[..i + k];
  }

  /** The inner loop of `ocsp_send_req`. */
  method SendChunk(sock: Socket, buf: seq<byte>) returns (ok: bool)
    modifies sock`sends, sock`delivered
    ensures var s := ChunkRun(old(sock.sends), |buf|);
            ok == s.ok && sock.delivered == old(sock.delivered) + buf[..s.bytes] && sock.sends == s.rest
  {
    ghost var whole := ChunkRun(sock.sends, |buf|);
    var wbuf: nat, remain: nat := 0, |buf|;
    ok := true;
    while true
      invariant ok && wbuf + remain == |buf|
      invariant sock.delivered == old(sock.delivered) + buf[..wbuf]
      invariant var s := ChunkRun(sock.sends, remain); whole == s.(bytes := wbuf + s.bytes)
      decreases |sock.sends|
    {
      var exhausted := sock.sends == [];
      var wlen;
      ok, wlen := sock.Send(buf[wbuf..]);
      JoinPrefix(old(sock.delivered), buf, wbuf, |buf|, wlen);
      if exhausted {
        return;
      }
      wbuf := wbuf + wlen;
      remain := remain - wlen;
      if !ok || remain == 0 {
        return;
      }
    }
  }

  /** `ocsp_send_req`: the bytes the socket takes are a prefix of the request, all of it on success. */
  method SendRequest(sock: Socket, request: seq<byte>) returns (ok: bool)
    modifies sock`sends, sock`delivered
    ensures var s := Transmission(old(sock.sends), |request|);
            ok == s.ok && sock.delivered == old(sock.delivered) + request[..s.bytes] && sock.sends == s.rest
    ensures ok ==> sock.delivered == old(sock.delivered) + request
  {
    ghost var whole := Transmission(sock.sends, |request|);
    var read: nat := 0;
    while read < |request|
      invariant read <= |request|
      invariant sock.delivered == old(sock.delivered) + request[..read]
      invariant var s := Transmission(sock.sends, |request| - read); whole == s.(bytes := read + s.bytes)
    {
      var len := Min(|request| - read, SEND_CHUNK);
      ghost var c := ChunkRun(sock.sends, len);
      ok := SendChunk(sock, request[read..read + len]);
      JoinPrefix(old(sock.delivered), request, read, read + len, c.bytes);
      if !ok {
        return;
      }
      read := read + len;
    }
    assert request[..read] == request;
    return true;
  }

  // ---------------------------------------------------------------------------------------------
  // Receiving
  // ---------------------------------------------------------------------------------------------

  /** The response bytes collected from read `i` on, after `sofar`. */
  function Received(feed: Feed, i: nat, sofar: seq<byte>): Option<seq<byte>>
    requires |sofar| <= MAX_RESPONSE
    decreases MAX_RESPONSE - |sofar|
  {
    match feed(i)
    case Data(bytes) =>
      if |sofar| + |bytes| > MAX_RESPONSE then None else Received(feed, i + 1, sofar + bytes)
    case Stop(eof, readlen) =>
      if readlen == 0 && !eof then None else Some(sofar)
  }

  /** The read loop of `ocsp_get_resp`, over an unbounded feed. The result is the concatenation of the
      chunks; `buflen` is 512 doubled, at most 131072, always above `totalread`; all reallocations
      together copy `buflen - 512` bytes; at most 65537 reads are made. */
  method ReceiveAll(sock: Socket) returns (r: Option<seq<byte>>, buflen: nat, ghost copied: nat)
    modifies sock`receives
    ensures r == Received(sock.feed, old(sock.receives), [])
    ensures r.Some? ==> |r.value| < buflen
    ensures Reachable(512, buflen) && buflen <= 131072
    ensures copied + 512 == buflen
    ensures old(sock.receives) < sock.receives <= old(sock.receives) + 65537
  {
    buflen := BUFFER_SIZE;
    var buf := new byte[buflen];
    var totalread := 0;
    copied := 0;
    BaseReachable(BUFFER_SIZE);
    while true
      invariant fresh(buf) && buf.Length == buflen && Reachable(BUFFER_SIZE, buflen)
      invariant totalread < buflen && totalread <= MAX_RESPONSE && buflen <= 2 * MAX_RESPONSE
      invariant copied + BUFFER_SIZE == buflen
      invariant old(sock.receives) <= sock.receives <= old(sock.receives) + totalread
      invariant Received(sock.feed, sock.receives, buf[..totalread]) == Received(sock.feed, old(sock.receives), [])
      decreases MAX_RESPONSE - totalread
    {
      ghost var sofar := buf[..totalread];
      var rv := sock.Receive();
      match rv {
        case Data(tmpbuf) =>
          var readlen := |tmpbuf|;
          if totalread + readlen > MAX_RESPONSE {
            return None, buflen, copied;
          } else if totalread + readlen >= buflen {
            DoubleReachable(BUFFER_SIZE, buflen);
            ghost var before := buf[..buflen];
            assert before[..totalread] == sofar;
            buf := Realloc(buf, buflen, buflen * 2);
            assert buf[..totalread] == buf[..buflen][..totalread] == sofar;
            copied := copied + buflen;
            buflen := buflen * 2;
          }
          CopyInto(buf, totalread, tmpbuf);
          totalread := totalread + readlen;
        case Stop(eof, readlen) =>
          if readlen == 0 && !eof {
            return None, buflen, copied;
          }
          return Some(buf[..totalread]), buflen, copied;
      }
    }
  }

  /** The feed answers with exactly these chunks from read `i` on, and then stops. */
  ghost predicate Delivers(feed: Feed, i: nat, chunks: seq<seq<byte>>, stop: Recv) {
    && (forall j :: i <= j < i + |chunks| ==> feed(j) == Data(chunks[j - i]))
    && feed(i + |chunks|) == stop && stop.Stop?
  }

  /** What is received depends on the chunks only through their concatenation. */
  lemma {:induction false} ReceivedIsConcatenation(feed: Feed, i: nat, chunks: seq<seq<byte>>, stop: Recv,
                                                   sofar: seq<byte>)
    requires |sofar| <= MAX_RESPONSE && Delivers(feed, i, chunks, stop)
    ensures Received(feed, i, sofar) ==
            if |sofar| + |Flatten(chunks)| > 65536 || (stop.readlen == 0 && !stop.eof) then None
            else Some(sofar + Flatten(chunks))
    decreases |chunks|
  {
    if chunks == [] {
      assert sofar + [] == sofar;
    } else {
      if |sofar| + |chunks[0]| <= MAX_RESPONSE {
        ReceivedIsConcatenation(feed, i + 1, chunks[1..], stop, sofar + chunks[0]);
        assert sofar + chunks[0] + Flatten(chunks[1..]) == sofar + Flatten(chunks);
      }
    }
  }

  /** Two ways of cutting the same response into reads give the same bytes, up to the size limit. */
  lemma ChunkingIndependent(f: Feed, fs: seq<seq<byte>>, g: Feed, gs: seq<seq<byte>>, stop: Recv)
    requires Delivers(f, 0, fs, stop) && Delivers(g, 0, gs, stop)
    requires Flatten(fs) == Flatten(gs)
    ensures Received(f, 0, []) == Received(g, 0, [])
  {
    ReceivedIsConcatenation(f, 0, fs, stop, []);
    ReceivedIsConcatenation(g, 0, gs, stop, []);
  }
}
