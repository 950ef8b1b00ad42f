/** The packets of a multiplexed connection on the wire: a header of two shorts and the payload,
read back through a descriptor that delivers as few bytes at a time as it likes. */
module Frames {
  import opened Wrappers
  import opened ByteOrder

  datatype Packet = Packet(port: int, payload: seq<byte>)
  {
    predicate Valid() {
      0 <= port < 32768 && |payload| <= OMRPC_IO_BUF_SIZE
    }
  }

  predicate AllValid(ps: seq<Packet>) {
    ps == [] || (ps[0].Valid() && AllValid(ps[1..]))
  }

  predicate NoneEmpty(ps: seq<Packet>) {
    ps == [] || (ps[0].payload != [] && NoneEmpty(ps[1..]))
  }

  predicate ShortRange(v: int) { -32768 <= v < 32768 }

  lemma ShortFits(v: int)
    requires ShortRange(v)
    ensures Fits(v, 2)
  {
    assert Range(1) == 256 && Range(2) == 65536;
  }

  function Short(order: Order, v: int): (b: seq<byte>)
    requires ShortRange(v)
    ensures |b| == 2
  {
    ShortFits(v);
    Stored(order, v, 2)
  }

  /** omrpc_write_mxio_header and the write of the payload: nothing at all for an empty packet. */
  function Frame(order: Order, p: Packet): seq<byte>
    requires p.Valid()
  {
    if p.payload == [] then [] else Short(order, p.port) + Short(order, |p.payload|) + p.payload
  }

  /** The header byte by byte: the port, then the length. */
  lemma HeaderBytes(p: Packet)
    requires p.Valid() && p.payload != []
    ensures Frame(Big, p) == [p.port / 256, p.port % 256, |p.payload| / 256, |p.payload| % 256] + p.payload
    ensures Frame(Little, p) == [p.port % 256, p.port / 256, |p.payload| % 256, |p.payload| / 256] + p.payload
  {
    ShortBytes(p.port);
    ShortBytes(|p.payload|);
  }

  lemma ShortBytes(v: int)
    requires 0 <= v < 32768
    ensures Short(Little, v) == [v % 256, v / 256] && Short(Big, v) == [v / 256, v % 256]
  {
    assert Digits(v / 256, 1) == [v / 256 % 256] + Digits(v / 256 / 256, 0);
  }

  function Wire(order: Order, ps: seq<Packet>): seq<byte>
    requires AllValid(ps)
  {
    if ps == [] then [] else Frame(order, ps[0]) + Wire(order, ps[1..])
  }

  /** The packets that reach the wire. */
  function NonEmpty(ps: seq<Packet>): seq<Packet> {
    if ps == [] then []
    else if ps[0].payload == [] then NonEmpty(ps[1..])
    else [ps[0]] + NonEmpty(ps[1..])
  }

  lemma {:induction false} WireSkipsEmpty(order: Order, ps: seq<Packet>)
    requires AllValid(ps)
    ensures AllValid(NonEmpty(ps)) && NoneEmpty(NonEmpty(ps))
    ensures Wire(order, NonEmpty(ps)) == Wire(order, ps)
  {
    if ps != [] {
      WireSkipsEmpty(order, ps[1..]);
    }
  }

  lemma {:induction false} WireIsLong(order: Order, ps: seq<Packet>)
    requires AllValid(ps) && NoneEmpty(ps)
    ensures |Wire(order, ps)| >= |ps|
  {
    if ps != [] {
      WireIsLong(order, ps[1..]);
    }
  }

  class Descriptor {
    var bytes: seq<byte>

    constructor (bytes: seq<byte>)
      ensures this.bytes == bytes
    {
      this.bytes := bytes;
    }

    /** read(2): at least one byte unless at the end, at most `n`; how many is up to the
        transport. */
    method Read(n: nat) returns (got: seq<byte>)
      requires n > 0
      modifies this
      ensures old(bytes) == got + bytes && |got| <= n && (got == [] <==> old(bytes) == [])
    {
      if bytes == [] {
        return [];
      }
      var r: nat :| 1 <= r <= n && r <= |bytes|;
      got := bytes[..r];
      bytes := bytes[r..];
    }

    /** omrpc_read_nbytes; `None` when the stream ends first. */
    method ReadNbytes(nbytes: nat) returns (r: Option<seq<byte>>)
      modifies this
      ensures r.Some? <==> nbytes <= |old(bytes)|
      ensures r.Some? ==> |r.value| == nbytes && old(bytes) == r.value + bytes
      ensures r.None? ==> bytes == []
    {
      var data: seq<byte>, n := [], nbytes;
      ghost var all := bytes;
      assert all == data + bytes;
      while n > 0
        invariant 0 <= n <= nbytes && |data| == nbytes - n && all == data + bytes
        decreases n
      {
        ghost var was := bytes;
        var got := Read(n);
        if got == [] {
          return None;
        }
        assert data + was == (data + got) + bytes;
        data := data + got;
        n := n - |got|;
      }
      r := Some(data);
    }

    /** omrpc_read_mxio_header and the read of the payload.  At the end of the stream the
        header reads as port 0 and no bytes; `None` is the fatal "mxio error". */
    method ReadPacket(mine: Order, swapFlag: bool, ghost sender: Order, ghost next: Packet, ghost rest: seq<byte>)
      returns (r: Option<Packet>)
      requires swapFlag == (mine != sender)
      modifies this
      ensures old(bytes) == [] ==> r == Some(Packet(0, [])) && bytes == []
      ensures next.Valid() && next.payload != [] && old(bytes) == Frame(sender, next) + rest ==>
                r == Some(next) && bytes == rest
    {
      ghost var framed := next.Valid() && next.payload != [] && bytes == Frame(sender, next) + rest;
      var b := ReadNbytes(4);
      if framed {
        FrameBytes(sender, next, rest);
        SamePrefix(b.value, bytes, Short(sender, next.port) + Short(sender, |next.payload|), next.payload + rest);
        assert b.value[..2] == Short(sender, next.port) && b.value[2..] == Short(sender, |next.payload|);
        ShortArrives(mine, sender, next.port);
        ShortArrives(mine, sender, |next.payload|);
      }
      if b.None? {
        return Some(Packet(0, []));
      }
      var portN := Loaded(mine, if swapFlag then Reverse(b.value[..2]) else b.value[..2]);
      var nbytes := Loaded(mine, if swapFlag then Reverse(b.value[2..]) else b.value[2..]);
      if nbytes < 0 {
        return None;
      }
      var payload := ReadNbytes(nbytes);
      if framed {
        SamePrefix(payload.value, bytes, next.payload, rest);
      }
      if payload.None? {
        return None;
      }
      r := Some(Packet(portN, payload.value));
    }
  }

  lemma FrameBytes(sender: Order, p: Packet, rest: seq<byte>)
    requires p.Valid() && p.payload != []
    ensures Frame(sender, p) + rest == (Short(sender, p.port) + Short(sender, |p.payload|)) + (p.payload + rest)
  {
  }

  lemma ShortArrives(mine: Order, sender: Order, v: int)
    requires ShortRange(v)
    ensures mine != sender ==> Loaded(mine, Reverse(Short(sender, v))) == v
    ensures mine == sender ==> Loaded(mine, Short(sender, v)) == v
  {
    ShortFits(v);
    LoadedStored(mine, v, 2);
    if mine != sender {
      OrdersAreReversed(mine, sender, v, 2);
    }
  }

  /** Whatever the reads deliver, the packets that were not empty come back, in order and whole. */
  method ReadAll(fd: Descriptor, mine: Order, swapFlag: bool, ghost sender: Order, ghost sent: seq<Packet>)
    returns (got: seq<Packet>)
    requires swapFlag == (mine != sender) && AllValid(sent)
    requires fd.bytes == Wire(sender, sent)
    modifies fd
    ensures got == NonEmpty(sent) && fd.bytes == []
  {
    WireSkipsEmpty(sender, sent);
    ghost var goal := NonEmpty(sent);
    ghost var left := goal;
    got := [];
    while fd.bytes != []
      invariant AllValid(left) && NoneEmpty(left)
      invariant fd.bytes == Wire(sender, left) && got + left == goal
      decreases |left|
    {
      var p := ReadNext(fd, mine, swapFlag, sender, left);
      Shift(got, left);
      got := got + [p];
      left := left[1..];
    }
    WireIsLong(sender, left);
    Finished(got, left);
  }

  method ReadNext(fd: Descriptor, mine: Order, swapFlag: bool, ghost sender: Order, ghost left: seq<Packet>)
    returns (p: Packet)
    requires swapFlag == (mine != sender) && AllValid(left) && NoneEmpty(left)
    requires fd.bytes == Wire(sender, left) != []
    modifies fd
    ensures left != [] && p == left[0] && fd.bytes == Wire(sender, left[1..])
    ensures AllValid(left[1..]) && NoneEmpty(left[1..])
  {
    var r := fd.ReadPacket(mine, swapFlag, sender, left[0], Wire(sender, left[1..]));
    p := r.value;
  }
}
