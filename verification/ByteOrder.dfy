/** Integers in memory, the byte swapping of a receiver whose order differs, and the handshake
that finds out whether it does. */
module ByteOrder {
  import opened Wrappers

  datatype Order = Little | Big

  function Range(width: nat): (r: nat)
    ensures r >= 1
  {
    if width == 0 then 1 else 256 * Range(width - 1)
  }

  function Digits(v: nat, width: nat): (b: seq<byte>)
    ensures |b| == width
  {
    if width == 0 then [] else [v % 256] + Digits(v / 256, width - 1)
  }

  function Number(b: seq<byte>): nat {
    if b == [] then 0 else b[0] + 256 * Number(b[1..])
  }

  lemma {:induction false} NumberOfDigits(v: nat, width: nat)
    requires v < Range(width)
    ensures Number(Digits(v, width)) == v
  {
    if width > 0 {
      NumberOfDigits(v / 256, width - 1);
      assert Digits(v, width)[1..] == Digits(v / 256, width - 1);
    }
  }

  function Reverse(b: seq<byte>): (r: seq<byte>)
    ensures |r| == |b| && forall k | 0 <= k < |b| :: r[k] == b[|b| - 1 - k]
  {
    seq(|b|, k requires 0 <= k < |b| => b[|b| - 1 - k])
  }

  /** A value of a signed type of that many bytes. */
  predicate Fits(v: int, width: nat) {
    0 - Range(width) <= 2 * v < Range(width)
  }

  /** The bytes of a two's complement integer. */
  function Stored(order: Order, v: int, width: nat): (b: seq<byte>)
    requires Fits(v, width)
    ensures |b| == width
  {
    var digits := Digits(if v < 0 then v + Range(width) else v, width);
    if order == Little then digits else Reverse(digits)
  }

  function Loaded(order: Order, b: seq<byte>): int {
    var u := Number(if order == Little then b else Reverse(b));
    if 2 * u >= Range(|b|) then u - Range(|b|) else u
  }

  lemma LoadedStored(order: Order, v: int, width: nat)
    requires Fits(v, width)
    ensures Loaded(order, Stored(order, v, width)) == v
  {
    var u := if v < 0 then v + Range(width) else v;
    NumberOfDigits(u, width);
    assert Reverse(Reverse(Digits(u, width))) == Digits(u, width);
  }

  /** Which order is which: the lowest byte is the first of a little-endian number. */
  lemma {:induction false} LowByteFirst(v: int, width: nat)
    requires Fits(v, width) && width > 0
    ensures Stored(Little, v, width)[0] == v % 256 == Stored(Big, v, width)[width - 1]
  {
    var u := if v < 0 then v + Range(width) else v;
    SameLowByte(v, Range(width - 1));
    assert Digits(u, width)[0] == u % 256;
  }

  lemma SameLowByte(v: int, q: nat)
    ensures (v + 256 * q) % 256 == v % 256
  {
  }

  lemma OrdersAreReversed(mine: Order, other: Order, v: int, width: nat)
    requires Fits(v, width) && mine != other
    ensures Reverse(Stored(other, v, width)) == Stored(mine, v, width)
  {
    var u := if v < 0 then v + Range(width) else v;
    assert Reverse(Reverse(Digits(u, width))) == Digits(u, width);
  }

  // ----- omrpc_swap_short, omrpc_swap_int, omrpc_swap_double -----

  /** Items of `width` bytes, each with its bytes reversed. */
  function SwapItems(b: seq<byte>, width: nat): seq<byte>
    requires width > 0
  {
    if |b| < width then b else Reverse(b[..width]) + SwapItems(b[width..], width)
  }

  /** The values of consecutive items. */
  function LoadedItems(order: Order, b: seq<byte>, width: nat): seq<int>
    requires width > 0
  {
    if |b| < width then [] else [Loaded(order, b[..width])] + LoadedItems(order, b[width..], width)
  }

  lemma ReversedItem(mine: Order, other: Order, item: seq<byte>)
    requires mine != other
    ensures Loaded(mine, Reverse(item)) == Loaded(other, item)
  {
    assert Reverse(Reverse(item)) == item;
  }

  /** Swapping makes every item mean to one machine what it meant to the other. */
  lemma {:induction false} SwapConverts(mine: Order, other: Order, b: seq<byte>, width: nat)
    requires mine != other && width > 0
    ensures LoadedItems(mine, SwapItems(b, width), width) == LoadedItems(other, b, width)
  {
    if |b| >= width {
      var first, rest := Reverse(b[..width]), SwapItems(b[width..], width);
      SwapConverts(mine, other, b[width..], width);
      ReversedItem(mine, other, b[..width]);
      assert (first + rest)[..width] == first && (first + rest)[width..] == rest;
    }
  }

  /** `now` is `was` with the bytes `lo` to `hi - 1` of the item at `at` mirrored with their
      counterparts. */
  predicate Mirrored(was: seq<byte>, now: seq<byte>, at: nat, width: nat, done: nat)
    requires at + width <= |was| == |now| && 2 * done <= width
  {
    forall k {:trigger now[k]} | 0 <= k < |was| ::
      now[k] == if at <= k < at + done || at + width - done <= k < at + width then was[2 * at + width - 1 - k]
                else was[k]
  }

  /** `c = p[k]; p[k] = p[width - 1 - k]; p[width - 1 - k] = c;` on the item at `at`. */
  method Exchange(p: array<byte>, at: nat, width: nat, k: nat, ghost was: seq<byte>)
    requires at + width <= p.Length == |was| && 2 * (k + 1) <= width
    requires Mirrored(was, p[..], at, width, k)
    modifies p
    ensures Mirrored(was, p[..], at, width, k + 1)
  {
    var c := p[at + k];
    assert c == p[..][at + k] == was[at + k];
    assert p[at + (width - 1 - k)] == p[..][at + (width - 1 - k)] == was[at + (width - 1 - k)];
    p[at + k] := p[at + (width - 1 - k)];
    p[at + (width - 1 - k)] := c;
  }

  lemma MirroredItem(was: seq<byte>, now: seq<byte>, at: nat, width: nat)
    requires at + width <= |was| == |now| && width % 2 == 0 && Mirrored(was, now, at, width, width / 2)
    ensures now == was[..at] + Reverse(was[at..at + width]) + was[at + width..]
  {
  }

  /** The exchanges of one item of omrpc_swap_short (width 2), omrpc_swap_int and
      omrpc_swap_float (4), omrpc_swap_double and omrpc_swap_long_long (8). */
  method SwapItem(p: array<byte>, at: nat, width: nat)
    requires at + width <= p.Length && width in {2, 4, 8}
    modifies p
    ensures p[..] == old(p[..])[..at] + Reverse(old(p[..])[at..at + width]) + old(p[..])[at + width..]
  {
    ghost var was := p[..];
    Exchange(p, at, width, 0, was);
    if width >= 4 {
      Exchange(p, at, width, 1, was);
    }
    if width == 8 {
      Exchange(p, at, width, 2, was);
      Exchange(p, at, width, 3, was);
    }
    MirroredItem(was, p[..], at, width);
  }

  lemma SwapFirst(item: seq<byte>, rest: seq<byte>, width: nat)
    requires width == |item| > 0
    ensures SwapItems(item + rest, width) == Reverse(item) + SwapItems(rest, width)
  {
    var b := item + rest;
    assert b[..width] == item && b[width..] == rest;
  }

  /** With the items below `i` swapped, swapping the others gives `goal`. */
  predicate SwappedBelow(goal: seq<byte>, now: seq<byte>, i: nat, width: nat)
    requires width > 0
  {
    i <= |now| && goal == now[..i] + SwapItems(now[i..], width)
  }

  lemma SwapStep(goal: seq<byte>, now: seq<byte>, next: seq<byte>, i: nat, width: nat)
    requires width > 0 && i + width <= |now| && SwappedBelow(goal, now, i, width)
    requires next == now[..i] + Reverse(now[i..i + width]) + now[i + width..]
    ensures SwappedBelow(goal, next, i + width, width)
  {
    var item, rest := now[i..i + width], now[i + width..];
    assert now[i..] == item + rest;
    SwapFirst(item, rest, width);
    assert next[..i + width] == now[..i] + Reverse(item) && next[i + width..] == rest;
  }

  /** The loop over `n` items. */
  method Swap(p: array<byte>, width: nat)
    requires width in {2, 4, 8}
    modifies p
    ensures p[..] == SwapItems(old(p[..]), width)
  {
    ghost var goal, now := SwapItems(p[..], width), p[..];
    var i := 0;
    assert now[0..] == now;
    while p.Length - i >= width
      invariant 0 <= i <= p.Length && now == p[..] && SwappedBelow(goal, now, i, width)
      decreases p.Length - i
    {
      SwapItem(p, i, width);
      SwapStep(goal, now, p[..], i, width);
      now := p[..];
      i := i + width;
    }
    assert now == now[..i] + now[i..];
  }

  // ----- omrpc_io_handle_byte_order -----

  /** One end of a connection: its byte order, its swap flag and the bytes on the way to it. */
  class Peer {
    const order: Order
    var swapFlag: bool
    var inbox: seq<byte>

    constructor (order: Order)
      ensures this.order == order && !swapFlag && inbox == []
    {
      this.order := order;
      swapFlag, inbox := false, [];
    }

    method SendShort(to: Peer, s: int)
      requires to != this && Fits(s, 2)
      modifies to`inbox
      ensures to.inbox == old(to.inbox) + Stored(order, s, 2)
    {
      to.inbox := to.inbox + Stored(order, s, 2);
    }

    /** omrpc_recv_short. */
    method RecvShort() returns (s: int)
      requires |inbox| >= 2
      modifies this`inbox
      ensures inbox == old(inbox)[2..]
      ensures s == Loaded(order, if swapFlag then Reverse(old(inbox)[..2]) else old(inbox)[..2])
    {
      s := Loaded(order, if swapFlag then Reverse(inbox[..2]) else inbox[..2]);
      inbox := inbox[2..];
    }
  }

  lemma OneIsOne(mine: Order, other: Order)
    ensures Fits(1, 2)
    ensures Loaded(mine, Stored(other, 1, 2)) == 1 <==> mine == other
  {
    assert Range(1) == 256 && Range(2) == 65536;
    LoadedStored(other, 1, 2);
    assert Digits(1, 2) == [1, 0];
    assert Number([0]) == 0 && Number([1]) == 1;
    assert [0, 1][1..] == [1];
    assert Number([0, 1]) == 256;
    assert Reverse([1, 0]) == [0, 1] && Reverse([0, 1]) == [1, 0];
  }

  /** Each side sends a short 1, the server first; a side that reads anything else sets its
      flag.  The flags are set exactly when the orders differ. */
  method Handshake(client: Peer, server: Peer)
    requires client != server && client.inbox == [] && server.inbox == []
    requires !client.swapFlag && !server.swapFlag
    modifies client, server
    ensures client.inbox == [] && server.inbox == []
    ensures client.swapFlag == (client.order != server.order) == server.swapFlag
  {
    OneIsOne(client.order, server.order);
    OneIsOne(server.order, client.order);
    server.SendShort(client, 1);
    assert client.inbox[..2] == Stored(server.order, 1, 2);
    var s := client.RecvShort();
    if s != 1 {
      client.swapFlag := true;
    }
    client.SendShort(server, 1);
    assert server.inbox[..2] == Stored(client.order, 1, 2);
    s := server.RecvShort();
    if s != 1 {
      server.swapFlag := true;
    }
  }
}
