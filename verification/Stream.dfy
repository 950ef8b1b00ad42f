/** Buffered handles: sends gathered in a buffer of 1024 bytes and written as packets, receives
served from whatever the transport delivers. */
module Stream {
  import opened Wrappers

  function Flatten(chunks: seq<seq<byte>>): seq<byte> {
    if chunks == [] then [] else chunks[0] + Flatten(chunks[1..])
  }

  lemma {:induction false} FlattenAppend(a: seq<seq<byte>>, b: seq<seq<byte>>)
    ensures Flatten(a + b) == Flatten(a) + Flatten(b)
  {
    if a == [] {
      assert a + b == b;
    } else {
      assert (a + b)[1..] == a[1..] + b;
      FlattenAppend(a[1..], b);
    }
  }

  lemma FlattenOne(a: seq<seq<byte>>, c: seq<byte>)
    ensures Flatten(a + [c]) == Flatten(a) + c
  {
    FlattenAppend(a, [c]);
    assert Flatten([c]) == c + [];
  }

  /** A packet or a successful read: not empty, no longer than the buffer. */
  predicate Chunks(chunks: seq<seq<byte>>) {
    forall k | 0 <= k < |chunks| :: 1 <= |chunks[k]| <= OMRPC_IO_BUF_SIZE
  }

  // ----- How a message is cut into packets -----

  /** The full packets of a message and what is left for the last one. */
  function Fulls(message: seq<byte>): seq<seq<byte>> {
    if |message| < OMRPC_IO_BUF_SIZE then []
    else [message[..OMRPC_IO_BUF_SIZE]] + Fulls(message[OMRPC_IO_BUF_SIZE..])
  }

  function Tail(message: seq<byte>): (tail: seq<byte>)
    ensures |tail| < OMRPC_IO_BUF_SIZE && |tail| <= |message|
  {
    if |message| < OMRPC_IO_BUF_SIZE then message else Tail(message[OMRPC_IO_BUF_SIZE..])
  }

  function Chop(message: seq<byte>): seq<seq<byte>> {
    if Tail(message) == [] then Fulls(message) else Fulls(message) + [Tail(message)]
  }

  /** The packets are the message, none is empty, and all but the last are full. */
  lemma {:induction false} ChopIsExact(message: seq<byte>)
    ensures Flatten(Fulls(message)) + Tail(message) == message && Flatten(Chop(message)) == message
    ensures Chunks(Chop(message)) && Chunks(Fulls(message))
    ensures forall k | 0 <= k < |Chop(message)| - 1 :: |Chop(message)[k]| == OMRPC_IO_BUF_SIZE
    ensures Chop(message) == [] <==> message == []
  {
    if |message| >= OMRPC_IO_BUF_SIZE {
      var rest := message[OMRPC_IO_BUF_SIZE..];
      ChopIsExact(rest);
      assert message == message[..OMRPC_IO_BUF_SIZE] + rest;
      assert Chop(message) == [message[..OMRPC_IO_BUF_SIZE]] + Chop(rest);
    }
    if Tail(message) == [] {
      assert Flatten(Fulls(message)) + [] == Flatten(Fulls(message));
    } else {
      FlattenOne(Fulls(message), Tail(message));
    }
  }

  /** More bytes extend the tail; when they fill it, it becomes a packet. */
  lemma {:induction false} FullsAppend(message: seq<byte>, more: seq<byte>)
    requires |Tail(message)| + |more| <= OMRPC_IO_BUF_SIZE
    ensures var t := Tail(message) + more;
            if |t| < OMRPC_IO_BUF_SIZE then Fulls(message + more) == Fulls(message) && Tail(message + more) == t
            else Fulls(message + more) == Fulls(message) + [t] && Tail(message + more) == []
    decreases |message|
  {
    if |message| >= OMRPC_IO_BUF_SIZE {
      var rest := message[OMRPC_IO_BUF_SIZE..];
      FullsAppend(rest, more);
      assert (message + more)[..OMRPC_IO_BUF_SIZE] == message[..OMRPC_IO_BUF_SIZE];
      assert (message + more)[OMRPC_IO_BUF_SIZE..] == rest + more;
    } else if |message + more| == OMRPC_IO_BUF_SIZE {
      assert (message + more)[..OMRPC_IO_BUF_SIZE] == message + more;
    }
  }

  // ----- The handle -----

  /** omrpc_io_handle_t with its port: one buffer and one position for both directions, the
      packets written so far, and the pieces that the next reads will deliver. */
  class Handle {
    const buf: array<byte>
    var pos: nat
    var ncount: nat
    var packets: seq<seq<byte>>
    var incoming: seq<seq<byte>>

    ghost predicate Valid()
      reads this
    {
      && buf.Length == OMRPC_IO_BUF_SIZE && pos <= buf.Length && ncount <= buf.Length && Chunks(incoming)
    }

    ghost predicate Idle()
      reads this
    {
      Valid() && pos == 0 && ncount == 0
    }

    ghost predicate Receiving()
      reads this
    {
      Valid() && pos <= ncount
    }

    /** `message` has been sent since `before` was all that had been written. */
    ghost predicate Sending(before: seq<seq<byte>>, message: seq<byte>)
      reads this, buf
    {
      Valid() && ncount == 0 && packets == before + Fulls(message) && buf[..pos] == Tail(message)
    }

    /** What is still to be received. */
    ghost function Pending(): seq<byte>
      requires Receiving()
      reads this, buf
    {
      buf[pos..ncount] + Flatten(incoming)
    }

    constructor ()
      ensures Idle() && packets == [] && incoming == [] && fresh(buf)
    {
      buf := new byte[OMRPC_IO_BUF_SIZE](i => 0);
      pos, ncount, packets, incoming := 0, 0, [], [];
    }

    /** omrpc_io_handle_flush: the header of an empty packet is not written, nor are its bytes. */
    method Flush()
      requires Valid()
      modifies this`pos, this`packets
      ensures Valid() && pos == 0
      ensures packets == if old(pos) == 0 then old(packets) else old(packets) + [old(buf[..pos])]
    {
      if pos != 0 {
        packets := packets + [buf[..pos]];
      }
      pos := 0;
    }

    /** One turn of the loop of omrpc_io_send; `n` bytes fit. */
    method Append(data: seq<byte>, ghost before: seq<seq<byte>>, ghost message: seq<byte>)
      requires Sending(before, message) && pos + |data| <= OMRPC_IO_BUF_SIZE
      modifies this`pos, this`packets, buf
      ensures Sending(before, message + data)
    {
      FullsAppend(message, data);
      forall k | 0 <= k < |data| {
        buf[pos + k] := data[k];
      }
      pos := pos + |data|;
      assert buf[..pos] == Tail(message) + data;
      if pos >= OMRPC_IO_BUF_SIZE {
        Flush();
        assert packets == before + (Fulls(message) + [Tail(message) + data]);
      }
    }

    /** omrpc_io_send. */
    method Send(data: seq<byte>, ghost before: seq<seq<byte>>, ghost message: seq<byte>)
      requires Sending(before, message)
      modifies this`pos, this`packets, buf
      ensures Sending(before, message + data)
    {
      var cp, nbyte := 0, |data|;
      assert message + data[..0] == message;
      while nbyte > 0
        invariant cp >= 0 && nbyte >= 0 && cp + nbyte == |data| && Sending(before, message + data[..cp])
        decreases nbyte
      {
        assert pos < OMRPC_IO_BUF_SIZE by {
          assert pos == |buf[..pos]| == |Tail(message + data[..cp])|;
        }
        var n := OMRPC_IO_BUF_SIZE - pos;
        if n > nbyte {
          n := nbyte;
        }
        Append(data[cp..cp + n], before, message + data[..cp]);
        assert message + data[..cp] + data[cp..cp + n] == message + data[..cp + n];
        nbyte := nbyte - n;
        cp := cp + n;
      }
      assert data[..cp] == data;
    }

    /** omrpc_send_done. */
    method SendDone(ghost before: seq<seq<byte>>, ghost message: seq<byte>)
      requires Sending(before, message)
      modifies this`pos, this`ncount, this`packets
      ensures Idle() && packets == before + Chop(message)
    {
      Flush();
      pos := 0;
      ncount := 0;
      assert packets == before + Chop(message);
    }

    /** omrpc_io_handle_fill: the next piece, or none at the end of the stream. */
    method Fill()
      requires Receiving() && pos == ncount
      modifies this`pos, this`ncount, this`incoming, buf
      ensures Receiving() && Pending() == old(Pending()) && pos == 0
      ensures ncount == 0 <==> old(incoming) == []
      ensures |incoming| == if old(incoming) == [] then 0 else |old(incoming)| - 1
    {
      pos, ncount := 0, 0;
      if incoming != [] {
        var piece := incoming[0];
        forall k | 0 <= k < |piece| {
          buf[k] := piece[k];
        }
        ncount := |piece|;
        incoming := incoming[1..];
        assert buf[..ncount] == piece;
      }
    }

    /** Copies the next `n` buffered bytes out. */
    method Take(n: nat) returns (piece: seq<byte>)
      requires Receiving() && n <= ncount - pos
      modifies this`pos
      ensures Receiving() && pos == old(pos) + n
      ensures |piece| == n && old(Pending()) == piece + Pending()
    {
      piece := buf[pos..pos + n];
      assert buf[pos..ncount] == piece + buf[pos + n..ncount];
      pos := pos + n;
    }

    /** omrpc_io_recv; `None` is the fatal "unexpected EOF". */
    method Recv(nbyte: nat) returns (r: Option<seq<byte>>)
      requires Receiving()
      modifies this`pos, this`ncount, this`incoming, buf
      ensures Receiving()
      ensures r.Some? <==> nbyte <= |old(Pending())|
      ensures r.Some? ==> |r.value| == nbyte && old(Pending()) == r.value + Pending()
    {
      ghost var all := Pending();
      var data: seq<byte>, left := [], nbyte;
      assert all == data + Pending();
      while left > 0
        invariant Receiving() && 0 <= left <= nbyte && |data| == nbyte - left && all == data + Pending()
        decreases left
      {
        if ncount <= pos {
          Fill();
          if ncount == 0 {
            assert Pending() == [];
            return None;
          }
        }
        var n := ncount - pos;
        if n > left {
          n := left;
        }
        ghost var was := Pending();
        var piece := Take(n);
        Associate(data, piece, Pending());
        data := data + piece;
        left := left - n;
      }
      r := Some(data);
    }

    /** omrpc_recv_cmd: outer `None` is the fatal "not send_done", inner `None` is EOF. */
    method RecvCmd() returns (r: Option<Option<byte>>)
      requires Receiving()
      modifies this`pos, this`ncount, this`incoming, buf
      ensures Receiving() && (r.None? <==> old(pos) != 0 || old(ncount) != 0)
      ensures r.Some? && r.value.None? ==> old(Pending()) == [] == Pending()
      ensures r.Some? && r.value.Some? ==> old(Pending()) == [r.value.value] + Pending()
    {
      if pos != 0 || ncount != 0 {
        return None;
      }
      Fill();
      if ncount == 0 {
        return Some(None);
      }
      ghost var was := Pending();
      var cmd := buf[pos];
      pos := pos + 1;
      assert was == [cmd] + Pending();
      r := Some(Some(cmd));
    }

    /** omrpc_recv_done0; what it drops is returned. */
    method RecvDone() returns (ghost dropped: seq<byte>)
      requires Receiving()
      modifies this`pos, this`ncount
      ensures Idle() && old(Pending()) == dropped + Flatten(incoming)
    {
      dropped := buf[pos..ncount];
      pos := 0;
      ncount := 0;
    }
  }

  // ----- A whole message -----

  function Sum(sizes: seq<nat>): nat {
    if sizes == [] then 0 else sizes[0] + Sum(sizes[1..])
  }

  /** `data` cut into pieces of the given sizes. */
  function Split(data: seq<byte>, sizes: seq<nat>): seq<seq<byte>>
    requires Sum(sizes) <= |data|
  {
    if sizes == [] then [] else [data[..sizes[0]]] + Split(data[sizes[0]..], sizes[1..])
  }

  function Sizes(pieces: seq<seq<byte>>): (sizes: seq<nat>) {
    if pieces == [] then [] else [|pieces[0]|] + Sizes(pieces[1..])
  }

  /** Receives of the sizes that were sent give back what was sent. */
  lemma {:induction false} SplitOfSent(sends: seq<seq<byte>>)
    ensures Sum(Sizes(sends)) == |Flatten(sends)| && Split(Flatten(sends), Sizes(sends)) == sends
  {
    if sends != [] {
      SplitOfSent(sends[1..]);
      assert Flatten(sends)[..|sends[0]|] == sends[0] && Flatten(sends)[|sends[0]|..] == Flatten(sends[1..]);
    }
  }

  /** Receives of other sizes give back the same bytes. */
  lemma {:induction false} SplitKeepsBytes(data: seq<byte>, sizes: seq<nat>)
    requires Sum(sizes) == |data|
    ensures Flatten(Split(data, sizes)) == data
  {
    if sizes != [] {
      SplitKeepsBytes(data[sizes[0]..], sizes[1..]);
    }
  }

  method SendAll(h: Handle, sends: seq<seq<byte>>)
    requires h.Idle()
    modifies h, h.buf
    ensures h.Idle() && h.incoming == old(h.incoming)
    ensures h.packets == old(h.packets) + Chop(Flatten(sends))
  {
    ghost var before := h.packets;
    assert h.Sending(before, Flatten(sends[..0]));
    for i := 0 to |sends|
      invariant h.Sending(before, Flatten(sends[..i])) && h.incoming == old(h.incoming)
    {
      h.Send(sends[i], before, Flatten(sends[..i]));
      FlattenOne(sends[..i], sends[i]);
      assert sends[..i + 1] == sends[..i] + [sends[i]];
    }
    assert sends[..|sends|] == sends;
    h.SendDone(before, Flatten(sends));
  }

  method RecvAll(h: Handle, sizes: seq<nat>) returns (got: seq<seq<byte>>)
    requires h.Receiving() && Sum(sizes) <= |h.Pending()|
    modifies h, h.buf
    ensures h.Receiving() && h.packets == old(h.packets)
    ensures got == Split(old(h.Pending()), sizes) && |h.Pending()| == |old(h.Pending())| - Sum(sizes)
  {
    got := [];
    ghost var all := h.Pending();
    for i := 0 to |sizes|
      invariant h.Receiving() && h.packets == old(h.packets)
      invariant Sum(sizes[i..]) <= |h.Pending()|
      invariant |h.Pending()| - Sum(sizes[i..]) == |all| - Sum(sizes)
      invariant Split(all, sizes) == got + Split(h.Pending(), sizes[i..])
    {
      assert sizes[i..][0] == sizes[i] && sizes[i..][1..] == sizes[i + 1..];
      ghost var here := h.Pending();
      var r := h.Recv(sizes[i]);
      assert Split(here, sizes[i..]) == [r.value] + Split(h.Pending(), sizes[i + 1..]);
      got := got + [r.value];
    }
  }

  /** One message from an idle handle to another, cut into packets by the sender and delivered
      in any non-empty pieces by the transport: the same bytes come out whatever the sizes of
      the receives, no packet is empty, and nothing is left behind on either side. */
  method Message(s: Handle, r: Handle, sends: seq<seq<byte>>, pieces: seq<seq<byte>>, sizes: seq<nat>)
    returns (got: seq<seq<byte>>, ghost dropped: seq<byte>)
    requires s != r && s.buf != r.buf && s.Idle() && r.Idle()
    requires Chunks(pieces) && Flatten(pieces) == Flatten(sends) && r.incoming == pieces
    requires Sum(sizes) == |Flatten(sends)|
    modifies s, s.buf, r, r.buf
    ensures s.Idle() && r.Idle() && r.incoming == [] && dropped == []
    ensures s.packets == old(s.packets) + Chop(Flatten(sends)) && Chunks(Chop(Flatten(sends)))
    ensures got == Split(Flatten(sends), sizes) && Flatten(got) == Flatten(sends)
    ensures sizes == Sizes(sends) ==> got == sends
  {
    SendAll(s, sends);
    ChopIsExact(Flatten(sends));
    assert r.Pending() == [] + Flatten(pieces) == Flatten(pieces);
    got := RecvAll(r, sizes);
    dropped := r.RecvDone();
    NothingLeft(r.incoming);
    SplitKeepsBytes(Flatten(sends), sizes);
    SplitOfSent(sends);
  }

  lemma {:induction false} NothingLeft(chunks: seq<seq<byte>>)
    requires Chunks(chunks)
    ensures |Flatten(chunks)| >= |chunks|
  {
    if chunks != [] {
      NothingLeft(chunks[1..]);
    }
  }
}
