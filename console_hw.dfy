/** Stand-in for the console hardware (`axhal::console`), whose internals are
    not part of this model. The receive side is a FIFO of bytes already
    received plus a finite schedule of bursts still to arrive; one burst lands
    just before each hardware read. The transmit side is a log. */
module ConsoleHw {
  import opened Common

  datatype Uart = Uart(rx: seq<byte>, arrivals: seq<seq<byte>>)

  /** What one hardware read hands back, and the UART after it. */
  datatype Chunk = Chunk(bytes: seq<byte>, rest: Uart)

  function Flatten(ss: seq<seq<byte>>): (flat: seq<byte>)
  {
    if ss == [] then [] else ss[0] + Flatten(ss[1..])
  }

  /** Every byte the UART holds or will receive, in arrival order. */
  function Stream(u: Uart): (s: seq<byte>)
  {
    u.rx + Flatten(u.arrivals)
  }

  /** The next scheduled burst lands in the receive FIFO. */
  function Landed(u: Uart): (l: Uart)
  {
    if u.arrivals == [] then u else Uart(u.rx + u.arrivals[0], u.arrivals[1..])
  }

  /** `axhal::console::read_bytes` on a buffer of `n` bytes: it takes received
      bytes one at a time until the buffer is full or the FIFO is empty. */
  function HwRead(u: Uart, n: nat): (c: Chunk)
    ensures |c.bytes| <= n
  {
    var l := Landed(u);
    if n < |l.rx| then Chunk(l.rx[..n], Uart(l.rx[n..], l.arrivals))
    else Chunk(l.rx, Uart([], l.arrivals))
  }

  /** A hardware read loses no byte and invents none: what it returns, followed
      by everything still to come, is everything that was to come. */
  lemma HwReadStream(u: Uart, n: nat)
    ensures Stream(u) == HwRead(u, n).bytes + Stream(HwRead(u, n).rest)
  {
    var l := Landed(u);
    if u.arrivals != [] {
      assert Flatten(u.arrivals) == u.arrivals[0] + Flatten(u.arrivals[1..]);
    }
    assert Stream(l) == Stream(u);
    if n < |l.rx| {
      assert l.rx == l.rx[..n] + l.rx[n..];
    }
  }

  /** A read that does not fill the buffer has emptied the FIFO; every read
      consumes one scheduled burst, if any is left. */
  lemma HwReadShort(u: Uart, n: nat)
    ensures |HwRead(u, n).bytes| < n ==> HwRead(u, n).rest.rx == []
    ensures |HwRead(u, n).rest.arrivals| == if u.arrivals == [] then 0 else |u.arrivals| - 1
  {
  }

  /** A read finds nothing exactly when nothing has been received or lands now. */
  lemma HwReadEmpty(u: Uart, n: nat)
    requires n > 0
    ensures HwRead(u, n).bytes == [] <==> u.rx == [] && (u.arrivals == [] || u.arrivals[0] == [])
  {
  }

  class Console {
    var input: Uart
    var output: seq<byte>

    constructor (input: Uart)
      ensures this.input == input && output == []
    {
      this.input := input;
      output := [];
    }

    /** `axhal::console::read_bytes` */
    method ReadBytes(n: nat) returns (bytes: seq<byte>)
      modifies this
      ensures bytes == HwRead(old(input), n).bytes
      ensures input == HwRead(old(input), n).rest
      ensures output == old(output)
    {
      var c := HwRead(input, n);
      bytes := c.bytes;
      input := c.rest;
    }

    /** `axhal::console::write_bytes` */
    method WriteBytes(bytes: seq<byte>)
      modifies this
      ensures output == old(output) + bytes
      ensures input == old(input)
    {
      output := output + bytes;
    }
  }
}
