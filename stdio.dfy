/** The console adapters behind descriptors 0, 1 and 2: carriage-return
    normalisation of console input, the draining raw reader, the blocking
    `Stdin` reader with its one-byte lookahead filled by `poll`, and `Stdout`. */
module Stdio {
  import opened Common
  import opened ConsoleHw

  const CR: byte := 13  // b'\r'
  const LF: byte := 10  // b'\n'

  function Normalize(c: byte): (d: byte)
  {
    if c == CR then LF else c
  }

  /** Input bytes as readers see them: every `\r` replaced by `\n`. */
  function CrToLf(s: seq<byte>): (r: seq<byte>)
    ensures |r| == |s|
  {
    if s == [] then [] else [Normalize(s[0])] + CrToLf(s[1..])
  }

  lemma {:induction false} CrToLfAt(s: seq<byte>, i: nat)
    requires i < |s|
    ensures CrToLf(s)[i] == Normalize(s[i])
  {
    if i > 0 {
      CrToLfAt(s[1..], i - 1);
    }
  }

  /** Each byte is rewritten on its own, so normalising a stream chunk by chunk
      gives the same bytes as normalising it whole. */
  lemma {:induction false} CrToLfAppend(a: seq<byte>, b: seq<byte>)
    ensures CrToLf(a + b) == CrToLf(a) + CrToLf(b)
  {
    if a == [] {
      assert a + b == b;
    } else {
      assert (a + b)[1..] == a[1..] + b;
      CrToLfAppend(a[1..], b);
    }
  }

  /** No carriage return survives, a carriage return becomes a line feed, and
      every other byte is kept. */
  lemma CrToLfSpec(s: seq<byte>)
    ensures forall i :: 0 <= i < |s| ==> CrToLf(s)[i] != CR
    ensures forall i :: 0 <= i < |s| && s[i] == CR ==> CrToLf(s)[i] == LF
    ensures forall i :: 0 <= i < |s| && s[i] != CR ==> CrToLf(s)[i] == s[i]
  {
    forall i | 0 <= i < |s| ensures CrToLf(s)[i] == Normalize(s[i]) {
      CrToLfAt(s, i);
    }
  }

  lemma CrToLfIdempotent(s: seq<byte>)
    ensures CrToLf(CrToLf(s)) == CrToLf(s)
  {
    forall i | 0 <= i < |s| ensures CrToLf(CrToLf(s))[i] == CrToLf(s)[i] {
      CrToLfAt(s, i);
      CrToLfAt(CrToLf(s), i);
    }
  }

  /** `StdinRaw::read` as a function of the UART: repeated hardware reads into
      what is left of an `n`-byte buffer, stopping at the first empty chunk. */
  function RawRead(u: Uart, n: nat): (c: Chunk)
    decreases n
    ensures |c.bytes| <= n
  {
    if n == 0 then Chunk([], u)
    else
      var c := HwRead(u, n);
      if c.bytes == [] then c
      else
        var more := RawRead(c.rest, n - |c.bytes|);
        Chunk(c.bytes + more.bytes, more.rest)
  }

  lemma AppendAssoc(a: seq<byte>, b: seq<byte>, c: seq<byte>)
    ensures a + (b + c) == (a + b) + c
  {
  }

  /** The raw reader hands over a prefix of the input stream and keeps the rest. */
  lemma {:induction false} RawReadStream(u: Uart, n: nat)
    ensures Stream(u) == RawRead(u, n).bytes + Stream(RawRead(u, n).rest)
    decreases n
  {
    if n > 0 {
      var c := HwRead(u, n);
      HwReadStream(u, n);
      if c.bytes != [] {
        var more := RawRead(c.rest, n - |c.bytes|);
        RawReadStream(c.rest, n - |c.bytes|);
        assert RawRead(u, n) == Chunk(c.bytes + more.bytes, more.rest);
        AppendAssoc(c.bytes, more.bytes, Stream(more.rest));
      }
    }
  }

  /** A raw read that leaves part of the buffer unfilled stopped because the
      FIFO ran dry; it never adds to the schedule of bursts still to arrive,
      and consumes at least one of them when any is left. */
  lemma {:induction false} RawReadShort(u: Uart, n: nat)
    ensures |RawRead(u, n).bytes| < n ==> RawRead(u, n).rest.rx == []
    ensures |RawRead(u, n).rest.arrivals| <= |u.arrivals|
    ensures n > 0 && u.arrivals != [] ==> |RawRead(u, n).rest.arrivals| < |u.arrivals|
    decreases n
  {
    if n > 0 {
      var c := HwRead(u, n);
      HwReadShort(u, n);
      if c.bytes != [] {
        RawReadShort(c.rest, n - |c.bytes|);
      }
    }
  }

  /** A one-byte raw read finds a byte exactly when one is already received or
      lands now, and that byte is the next one of the stream. */
  lemma RawReadOne(u: Uart)
    ensures |RawRead(u, 1).bytes| <= 1
    ensures RawRead(u, 1).bytes != [] <==> u.rx != [] || (u.arrivals != [] && u.arrivals[0] != [])
    ensures RawRead(u, 1).bytes != [] ==> RawRead(u, 1).bytes[0] == Stream(u)[0]
  {
    HwReadEmpty(u, 1);
    RawReadStream(u, 1);
  }

  /** The blocking loop of `read_blocked`: raw reads are retried until one
      yields a byte. `None`: none ever does, because nothing is left to
      arrive, and the source spins forever. */
  function Retry(u: Uart, n: nat): (r: Option<Chunk>)
    requires n > 0
    decreases |u.arrivals|
    ensures r.Some? ==> 1 <= |r.value.bytes| <= n
  {
    var c := RawRead(u, n);
    if c.bytes != [] then Some(c)
    else if c.rest.arrivals == [] then None
    else
      RawReadShort(u, n);
      Retry(c.rest, n)
  }

  /** The retry loop ends exactly when some byte is still to come, and then it
      delivers between 1 and `n` bytes from the front of the stream. */
  lemma {:induction false} RetrySpec(u: Uart, n: nat)
    requires n > 0
    ensures Retry(u, n).None? <==> Stream(u) == []
    ensures Retry(u, n).Some? ==>
      1 <= |Retry(u, n).value.bytes| <= n &&
      Stream(u) == Retry(u, n).value.bytes + Stream(Retry(u, n).value.rest)
    decreases |u.arrivals|
  {
    var c := RawRead(u, n);
    RawReadStream(u, n);
    RawReadShort(u, n);
    if c.bytes == [] {
      assert Stream(c.rest) == Stream(u);
      if c.rest.arrivals == [] {
        assert Stream(c.rest) == [];
      } else {
        RetrySpec(c.rest, n);
      }
    }
  }

  /** What `read_blocked` hands over and the UART after it. */
  datatype Delivery = Delivery(out: seq<byte>, rest: Uart)

  /** `read_blocked` on an `n`-byte buffer, given the lookahead byte if one is
      held: an empty request is answered at once; a held byte goes first and the
      rest of the buffer gets one raw read; otherwise raw reads are retried
      until one yields. All bytes are as readers see them (normalised). */
  function BlockedRead(lookahead: Option<byte>, u: Uart, n: nat): (r: Option<Delivery>)
    ensures r.Some? ==> |r.value.out| <= n
  {
    if n == 0 then Some(Delivery([], u))
    else if lookahead.Some? then
      var c := RawRead(u, n - 1);
      Some(Delivery([lookahead.value] + CrToLf(c.bytes), c.rest))
    else
      match Retry(u, n)
      case None => None
      case Some(c) => Some(Delivery(CrToLf(c.bytes), c.rest))
  }

  /** What readers of a `Stdin` handle will receive next, in order: the held
      lookahead byte, if any, then the normalised console stream. */
  function Pending(lookahead: Option<byte>, u: Uart): (p: seq<byte>)
  {
    (if lookahead.Some? then [lookahead.value] else []) + CrToLf(Stream(u))
  }

  /** The blocking read never loses, reorders or invents input: it hands over
      a prefix of what is pending, at least one byte for a non-empty buffer, the
      held byte first; it blocks forever exactly when nothing is pending. An
      empty buffer is answered at once and leaves everything, the held byte
      included, in place. */
  lemma BlockedReadSpec(lookahead: Option<byte>, u: Uart, n: nat)
    ensures n > 0 ==> (BlockedRead(lookahead, u, n).None? <==> Pending(lookahead, u) == [])
    ensures n == 0 ==> BlockedRead(lookahead, u, n) == Some(Delivery([], u))
    ensures n > 0 && BlockedRead(lookahead, u, n).Some? ==>
      var d := BlockedRead(lookahead, u, n).value;
      1 <= |d.out| <= n && Pending(lookahead, u) == d.out + Pending(None, d.rest)
    ensures n > 0 && lookahead.Some? ==> BlockedRead(lookahead, u, n).value.out[0] == lookahead.value
  {
    if n > 0 {
      var tail := CrToLf(Stream(u));
      assert Pending(lookahead, u) == (if lookahead.Some? then [lookahead.value] else []) + tail;
      if lookahead.Some? {
        var c := RawRead(u, n - 1);
        RawReadStream(u, n - 1);
        CrToLfAppend(c.bytes, Stream(c.rest));
        assert Pending(None, c.rest) == CrToLf(Stream(c.rest));
        AppendAssoc([lookahead.value], CrToLf(c.bytes), CrToLf(Stream(c.rest)));
      } else {
        RetrySpec(u, n);
        if Retry(u, n).Some? {
          var c := Retry(u, n).value;
          CrToLfAppend(c.bytes, Stream(c.rest));
          assert Pending(None, c.rest) == CrToLf(Stream(c.rest));
          assert Pending(None, u) == tail;
        }
      }
    }
  }

  /** The result of `poll`'s one-byte probe: whether a byte came, the lookahead
      afterwards, and the UART. */
  datatype Probed = Probed(readable: bool, lookahead: Option<byte>, rest: Uart)

  /** `poll` on the input side: a probed byte replaces whatever was held. */
  function PollProbe(lookahead: Option<byte>, u: Uart): (p: Probed)
  {
    var c := RawRead(u, 1);
    if c.bytes != [] then Probed(true, Some(Normalize(c.bytes[0])), c.rest)
    else Probed(false, lookahead, c.rest)
  }

  /** `poll` reports readable exactly when a byte is received or lands now.
      Without a held byte it loses nothing: the probed byte moves from the
      stream into the lookahead. A byte already held is overwritten and lost. */
  lemma PollProbeSpec(lookahead: Option<byte>, u: Uart)
    ensures PollProbe(lookahead, u).readable <==> u.rx != [] || (u.arrivals != [] && u.arrivals[0] != [])
    ensures PollProbe(lookahead, u).readable ==> PollProbe(lookahead, u).lookahead == Some(Normalize(Stream(u)[0]))
    ensures lookahead.None? ==> Pending(PollProbe(lookahead, u).lookahead, PollProbe(lookahead, u).rest) == Pending(lookahead, u)
    ensures lookahead.Some? && PollProbe(lookahead, u).readable ==>
      Pending(PollProbe(lookahead, u).lookahead, PollProbe(lookahead, u).rest) == Pending(lookahead, u)[1..]
    ensures !PollProbe(lookahead, u).readable ==> PollProbe(lookahead, u).lookahead == lookahead
  {
    var c := RawRead(u, 1);
    RawReadOne(u);
    RawReadStream(u, 1);
    CrToLfAppend(c.bytes, Stream(c.rest));
    if c.bytes != [] {
      assert c.bytes == [c.bytes[0]];
    }
  }

  /** The lookahead invariant: a byte that `poll` reports is the first byte the
      next read of a non-empty buffer delivers. */
  lemma PollThenRead(lookahead: Option<byte>, u: Uart, n: nat)
    requires n > 0
    ensures var p := PollProbe(lookahead, u);
      p.readable ==>
        Stream(u) != [] &&
        BlockedRead(p.lookahead, p.rest, n).Some? &&
        BlockedRead(p.lookahead, p.rest, n).value.out[0] == Normalize(Stream(u)[0])
  {
    PollProbeSpec(lookahead, u);
    BlockedReadSpec(PollProbe(lookahead, u).lookahead, PollProbe(lookahead, u).rest, n);
  }

  /** As written, a second `poll` before any read overwrites the byte the first
      one took: on input "AB" two polls leave 'B' held and nothing else pending,
      so 'A' never reaches a reader. */
  lemma PollTwiceLosesByte()
    ensures var u := Uart([65, 66], []);
      var p1 := PollProbe(None, u);
      var p2 := PollProbe(p1.lookahead, p1.rest);
      Pending(None, u) == [65, 66] && p1.readable && p2.readable &&
      Pending(p2.lookahead, p2.rest) == [66]
  {
    var u := Uart([65, 66], []);
    assert HwRead(u, 1) == Chunk([65], Uart([66], []));
    assert RawRead(u, 1) == Chunk([65], Uart([66], []));
    var u1 := Uart([66], []);
    assert HwRead(u1, 1) == Chunk([66], Uart([], []));
    assert RawRead(u1, 1) == Chunk([66], Uart([], []));
    assert Flatten([]) == [];
    assert CrToLf([66]) == [66];
    assert CrToLf([65, 66]) == [65] + CrToLf([66]);
  }

  /** `poll` as evidently intended: a held byte already makes the handle
      readable, and no further byte is taken from the console. */
  function PollProbeHeld(lookahead: Option<byte>, u: Uart): (p: Probed)
  {
    if lookahead.Some? then Probed(true, lookahead, u) else PollProbe(None, u)
  }

  /** The intended `poll` never loses input, whatever is held, and reports
      readable exactly when a byte is held, received or landing now. */
  lemma PollProbeHeldKeepsPending(lookahead: Option<byte>, u: Uart)
    ensures Pending(PollProbeHeld(lookahead, u).lookahead, PollProbeHeld(lookahead, u).rest) == Pending(lookahead, u)
    ensures PollProbeHeld(lookahead, u).readable <==>
      lookahead.Some? || u.rx != [] || (u.arrivals != [] && u.arrivals[0] != [])
    ensures lookahead.Some? ==> PollProbeHeld(lookahead, u).lookahead == lookahead
  {
    if lookahead.None? {
      PollProbeSpec(None, u);
    }
  }

  function Zeros(k: nat): (z: seq<byte>)
    ensures |z| == k && forall i :: 0 <= i < k ==> z[i] == 0
  {
    seq(k, _ => 0)
  }

  /** A buffer after a read into its slice `[lo..]`: the part before `lo` is
      kept, `data` follows, and the rest of the slice is zeroed. */
  function Filled(s: seq<byte>, lo: nat, data: seq<byte>): (r: seq<byte>)
    requires lo + |data| <= |s|
    ensures |r| == |s|
  {
    s[..lo] + data + Zeros(|s| - lo - |data|)
  }

  lemma FilledConsecutive(s: seq<byte>, lo: nat, a: seq<byte>, b: seq<byte>)
    requires lo + |a| + |b| <= |s|
    ensures Filled(Filled(s, lo, a), lo + |a|, b) == Filled(s, lo, a + b)
  {
    var t := Filled(s, lo, a);
    assert t[..lo + |a|] == s[..lo] + a;
  }

  /** Two raw reads into consecutive slices fill the buffer as one read of
      their concatenation would. */
  lemma FilledTwice(s: seq<byte>, lo: nat, a: seq<byte>, b: seq<byte>)
    requires lo + |a| + |b| <= |s|
    ensures Filled(Filled(s, lo, CrToLf(a)), lo + |a|, CrToLf(b)) == Filled(s, lo, CrToLf(a + b))
  {
    CrToLfAppend(a, b);
    FilledConsecutive(s, lo, CrToLf(a), CrToLf(b));
  }

  /** The buffer after one more raw read: before the first read it is as the
      caller passed it, afterwards it holds every chunk read so far. */
  lemma FilledStep(start: seq<byte>, lo: nat, raw: seq<byte>, chunk: seq<byte>, prev: seq<byte>)
    requires lo + |raw| + |chunk| <= |start|
    requires raw == [] ==> prev == start
    requires raw != [] ==> prev == Filled(start, lo, CrToLf(raw))
    ensures Filled(prev, lo + |raw|, CrToLf(chunk)) == Filled(start, lo, CrToLf(raw + chunk))
  {
    if raw == [] {
      assert raw + chunk == chunk;
    } else {
      FilledTwice(start, lo, raw, chunk);
    }
  }

  /** A read into an empty slice leaves the buffer as it was. */
  lemma FilledNothing(s: seq<byte>)
    ensures Filled(s, |s|, CrToLf([])) == s
  {
  }

  /** A read into the whole buffer does not depend on what it held. */
  lemma FilledWhole(s: seq<byte>, t: seq<byte>, data: seq<byte>)
    requires |s| == |t| && |data| <= |s|
    ensures Filled(s, 0, data) == Filled(t, 0, data)
  {
  }

  /** A byte stored at the front followed by a read behind it. */
  lemma FilledAfterFirst(s: seq<byte>, b: byte, data: seq<byte>)
    requires 1 + |data| <= |s|
    ensures Filled(s[0 := b], 1, data) == Filled(s, 0, [b] + data)
  {
    assert s[0 := b][..1] == [b];
  }

  /** Rewrites every `\r` in `buf[lo..hi]` to `\n` in place. */
  method CrToLfInPlace(buf: array<byte>, lo: nat, hi: nat)
    requires lo <= hi <= buf.Length
    modifies buf
    ensures forall i :: 0 <= i < buf.Length ==>
      buf[i] == if lo <= i < hi then Normalize(old(buf[i])) else old(buf[i])
  {
    var j := lo;
    while j < hi
      invariant lo <= j <= hi
      invariant forall i :: 0 <= i < buf.Length ==>
        buf[i] == if lo <= i < j then Normalize(old(buf[i])) else old(buf[i])
    {
      if buf[j] == CR {
        buf[j] := LF;
      }
      j := j + 1;
    }
  }

  lemma FilledAt(s: seq<byte>, lo: nat, data: seq<byte>, k: nat)
    requires lo + |data| <= |s| && k < |s|
    ensures Filled(s, lo, data)[k] == if k < lo then s[k] else if k < lo + |data| then data[k - lo] else 0
  {
  }

  /** A buffer that agrees with `Filled` byte by byte is `Filled`. */
  lemma FilledPointwise(s: seq<byte>, lo: nat, data: seq<byte>, cur: seq<byte>)
    requires lo + |data| <= |s| == |cur|
    requires forall i :: 0 <= i < |cur| ==>
      cur[i] == if i < lo then s[i] else if i < lo + |data| then data[i - lo] else 0
    ensures cur == Filled(s, lo, data)
  {
    var want := Filled(s, lo, data);
    forall k | 0 <= k < |cur| ensures cur[k] == want[k] {
      FilledAt(s, lo, data, k);
    }
  }

  /** Normalising byte by byte is `CrToLf`. */
  lemma CrToLfPointwise(raw: seq<byte>, out: seq<byte>)
    requires |out| == |raw|
    requires forall i :: 0 <= i < |raw| ==> out[i] == Normalize(raw[i])
    ensures out == CrToLf(raw)
  {
    forall i | 0 <= i < |raw| ensures out[i] == CrToLf(raw)[i] {
      CrToLfAt(raw, i);
    }
  }

  /** `console_read_bytes` on the slice `buf[lo..]`. The hardware fills a
      zero-initialised kernel buffer that is copied back whole, so the bytes past
      the count become 0; then `\r` is rewritten to `\n` in the received prefix. */
  method ConsoleReadBytes(con: Console, buf: array<byte>, lo: nat) returns (len: nat)
    requires lo <= buf.Length
    modifies con, buf
    ensures len == |HwRead(old(con.input), buf.Length - lo).bytes|
    ensures con.input == HwRead(old(con.input), buf.Length - lo).rest
    ensures con.output == old(con.output)
    ensures lo + len <= buf.Length
    ensures buf[..] == Filled(old(buf[..]), lo, CrToLf(HwRead(old(con.input), buf.Length - lo).bytes))
  {
    var kernelBuf := con.ReadBytes(buf.Length - lo);
    len := |kernelBuf|;
    forall i | lo <= i < buf.Length {
      buf[i] := if i - lo < len then kernelBuf[i - lo] else 0;
    }
    CrToLfInPlace(buf, lo, lo + len);
    CrToLfPointwise(kernelBuf, buf[lo..lo + len]);
    FilledPointwise(old(buf[..]), lo, buf[lo..lo + len], buf[..]);
  }

  /** `console_write_bytes`: the bytes go to the console unmodified. */
  method ConsoleWriteBytes(con: Console, buf: seq<byte>) returns (n: nat)
    modifies con
    ensures n == |buf|
    ensures con.output == old(con.output) + buf
    ensures con.input == old(con.input)
  {
    con.WriteBytes(buf);
    n := |buf|;
  }

  /** `raw` read earlier, followed by what a later read `c` returns. */
  function Prepend(raw: seq<byte>, c: Chunk): (c2: Chunk)
  {
    Chunk(raw + c.bytes, c.rest)
  }

  /** One pass of the raw read loop, seen from the whole read: the chunk just
      read either ends the read or is followed by what the rest of the loop reads. */
  lemma RawReadProgress(c0: Chunk, raw: seq<byte>, u: Uart, rem: nat)
    requires rem > 0
    requires c0 == Prepend(raw, RawRead(u, rem))
    ensures HwRead(u, rem).bytes == [] ==> c0 == Chunk(raw, HwRead(u, rem).rest)
    ensures HwRead(u, rem).bytes != [] ==>
      c0 == Prepend(raw + HwRead(u, rem).bytes, RawRead(HwRead(u, rem).rest, rem - |HwRead(u, rem).bytes|))
  {
    var h := HwRead(u, rem);
    if h.bytes != [] {
      var more := RawRead(h.rest, rem - |h.bytes|);
      assert RawRead(u, rem).bytes == h.bytes + more.bytes;
      assert raw + (h.bytes + more.bytes) == (raw + h.bytes) + more.bytes;
    } else {
      assert raw + [] == raw;
    }
  }

  /** One pass of the `StdinRaw::read` loop: a hardware read into
      `buf[lo + readLen..]`, seen against the whole read `c0` begun with the
      buffer `start`. */
  method RawReadPass(con: Console, buf: array<byte>, lo: nat, readLen: nat,
                     ghost c0: Chunk, ghost start: seq<byte>, ghost raw: seq<byte>, ghost left: nat)
      returns (len: nat, ghost raw2: seq<byte>, ghost left2: nat)
    requires lo + readLen < buf.Length && |raw| == readLen && |start| == buf.Length
    requires left == buf.Length - (lo + readLen)
    requires c0 == Prepend(raw, RawRead(con.input, left))
    requires raw != [] ==> buf[..] == Filled(start, lo, CrToLf(raw))
    requires raw == [] ==> buf[..] == start
    modifies con, buf
    ensures con.output == old(con.output)
    ensures len == |HwRead(old(con.input), left).bytes|
    ensures len == 0 ==> c0 == Chunk(raw, con.input) && buf[..] == Filled(start, lo, CrToLf(raw))
    ensures len > 0 ==>
      lo + (readLen + len) <= buf.Length && |raw2| == readLen + len &&
      left2 == buf.Length - (lo + (readLen + len)) &&
      c0 == Prepend(raw2, RawRead(con.input, left2)) &&
      raw2 != [] && buf[..] == Filled(start, lo, CrToLf(raw2))
  {
    ghost var before := con.input;
    ghost var prev := buf[..];
    RawReadProgress(c0, raw, before, left);
    len := ConsoleReadBytes(con, buf, lo + readLen);
    ghost var chunk := HwRead(before, left).bytes;
    FilledStep(start, lo, raw, chunk, prev);
    raw2 := raw + chunk;
    left2 := left - len;
    if len == 0 {
      assert raw + chunk == raw;
    }
  }

  /** `StdinRaw::read` on the slice `buf[lo..]`: read until the slice is full
      or a hardware read comes back empty. */
  method StdinRawRead(con: Console, buf: array<byte>, lo: nat) returns (readLen: nat)
    requires lo <= buf.Length
    modifies con, buf
    ensures readLen == |RawRead(old(con.input), buf.Length - lo).bytes|
    ensures con.input == RawRead(old(con.input), buf.Length - lo).rest
    ensures con.output == old(con.output)
    ensures lo + readLen <= buf.Length
    ensures buf[..] == Filled(old(buf[..]), lo, CrToLf(RawRead(old(con.input), buf.Length - lo).bytes))
  {
    ghost var c0 := RawRead(con.input, buf.Length - lo);
    ghost var start := buf[..];
    ghost var raw: seq<byte> := [];
    ghost var left: nat := buf.Length - lo;
    readLen := 0;
    if buf.Length == lo {
      FilledNothing(start);
      return;
    }
    assert raw + c0.bytes == c0.bytes;
    while readLen < buf.Length - lo
      invariant lo + readLen <= buf.Length && |raw| == readLen
      invariant left == buf.Length - (lo + readLen)
      invariant c0 == Prepend(raw, RawRead(con.input, left))
      invariant con.output == old(con.output)
      invariant raw != [] ==> buf[..] == Filled(start, lo, CrToLf(raw))
      invariant raw == [] ==> buf[..] == start
    {
      var len;
      ghost var raw2, left2;
      len, raw2, left2 := RawReadPass(con, buf, lo, readLen, c0, start, raw, left);
      if len == 0 {
        break;
      }
      raw, left := raw2, left2;
      readLen := readLen + len;
    }
    if readLen == buf.Length - lo {
      assert RawRead(con.input, 0) == Chunk([], con.input);
      assert raw + [] == raw;
    }
  }

  datatype PollState = PollState(readable: bool, writable: bool)

  /** The parts of `struct stat` these adapters fill in; the rest are zero. */
  datatype FileStat = FileStat(ino: nat, nlink: nat, mode: nat)

  const S_IFCHR: nat := 0x2000   // 0o020000

  datatype Permission =
    | OwnerRead | OwnerWrite | OwnerExec
    | GroupRead | GroupWrite | GroupExec
    | OtherRead | OtherWrite | OtherExec

  /** The file-type field of a mode (the bits of `S_IFMT`, 0o170000). */
  function FileType(mode: nat): (ty: nat)
  {
    (mode / 0x1000) % 0x10 * 0x1000
  }

  function HasBit(mode: nat, bit: nat): (on: bool)
    requires bit > 0
  {
    (mode / bit) % 2 == 1
  }

  /** The nine Unix permission bits of a mode, by name. */
  function Permissions(mode: nat): (perms: set<Permission>)
  {
    (if HasBit(mode, 256) then {OwnerRead} else {}) +
    (if HasBit(mode, 128) then {OwnerWrite} else {}) +
    (if HasBit(mode, 64) then {OwnerExec} else {}) +
    (if HasBit(mode, 32) then {GroupRead} else {}) +
    (if HasBit(mode, 16) then {GroupWrite} else {}) +
    (if HasBit(mode, 8) then {GroupExec} else {}) +
    (if HasBit(mode, 4) then {OtherRead} else {}) +
    (if HasBit(mode, 2) then {OtherWrite} else {}) +
    (if HasBit(mode, 1) then {OtherExec} else {})
  }

  class Stdin {
    /** the static `Mutex<BufReader<StdinRaw>>`: the console it reads */
    const inner: Console
    /** `StdinBuffer.buffer[0]` */
    var buffer: byte
    /** `StdinBuffer.available` */
    var available: bool

    /** The lookahead byte, when one is held. */
    function Lookahead(): (la: Option<byte>)
      reads this
    {
      if available then Some(buffer) else None
    }

    /** `stdin()`: a handle on the shared console reader with a default (empty) lookahead. */
    constructor (console: Console)
      ensures inner == console && Lookahead() == None
    {
      inner := console;
      buffer := 0;
      available := false;
    }

    /** `read_blocked` (also what `Read::read` and `FileLike::read` forward to).
        `None` stands for the source looping forever. */
    method ReadBlocked(buf: array<byte>) returns (r: Option<nat>)
      modifies this, inner, buf
      ensures inner.output == old(inner.output)
      ensures var d := BlockedRead(old(Lookahead()), old(inner.input), buf.Length);
        (r.None? <==> d.None?) &&
        (d.Some? ==> r.value == |d.value.out| && inner.input == d.value.rest &&
                     buf[..] == Filled(old(buf[..]), 0, d.value.out))
      ensures buf.Length == 0 ==> Lookahead() == old(Lookahead())
      ensures buf.Length > 0 && r.Some? ==> Lookahead() == None
    {
      if buf.Length == 0 {
        return Some(0);
      }
      if available {
        var n := ReadHeld(buf);
        return Some(n);
      }
      r := ReadFresh(buf);
    }

    /** `read_blocked` with a byte held: the byte goes to `buf[0]`, the lookahead
        is emptied, and one raw read fills what it can of `buf[1..]`. */
    method ReadHeld(buf: array<byte>) returns (n: nat)
      requires available && buf.Length > 0
      modifies this, inner, buf
      ensures !available && inner.output == old(inner.output)
      ensures var c := RawRead(old(inner.input), buf.Length - 1);
        n == 1 + |c.bytes| && inner.input == c.rest &&
        buf[..] == Filled(old(buf[..]), 0, [old(buffer)] + CrToLf(c.bytes))
    {
      ghost var b0 := buf[..];
      ghost var u0 := inner.input;
      buf[0] := buffer;
      available := false;
      ghost var b1 := buf[..];
      assert b1 == b0[0 := buffer];
      var len := StdinRawRead(inner, buf, 1);
      FilledAfterFirst(b0, buffer, CrToLf(RawRead(u0, buf.Length - 1).bytes));
      n := 1 + len;
    }

    /** `read_blocked` with nothing held: raw reads of the whole buffer until
        one yields a byte (`sys_sched_yield` between tries has no effect here). */
    method ReadFresh(buf: array<byte>) returns (r: Option<nat>)
      requires !available && buf.Length > 0
      modifies inner, buf
      ensures inner.output == old(inner.output)
      ensures var o := Retry(old(inner.input), buf.Length);
        (r.None? <==> o.None?) &&
        (o.Some? ==> r.value == |o.value.bytes| && inner.input == o.value.rest &&
                     buf[..] == Filled(old(buf[..]), 0, CrToLf(o.value.bytes)))
    {
      ghost var b0 := buf[..];
      ghost var u0 := inner.input;
      var readLen := StdinRawRead(inner, buf, 0);
      if readLen > 0 {
        return Some(readLen);
      }
      if inner.input.arrivals == [] {
        return None;  // nothing is left to arrive: the source spins forever
      }
      RawReadShort(u0, buf.Length);
      while true
        invariant Retry(inner.input, buf.Length) == Retry(u0, buf.Length)
        invariant inner.input.arrivals != []
        invariant inner.output == old(inner.output)
        decreases |inner.input.arrivals|
      {
        var m := RetryPass(buf, u0, b0);
        if m > 0 {
          return Some(m);
        }
        if inner.input.arrivals == [] {
          return None;  // nothing is left to arrive: the source spins forever
        }
      }
    }

    /** One pass of the retry loop of `read_blocked`: a raw read of the whole
        buffer, seen against the whole retry begun on the UART `u0` and the
        buffer `b0`. */
    method RetryPass(buf: array<byte>, ghost u0: Uart, ghost b0: seq<byte>) returns (m: nat)
      requires buf.Length > 0 && |b0| == buf.Length
      requires Retry(inner.input, buf.Length) == Retry(u0, buf.Length)
      requires inner.input.arrivals != []
      modifies inner, buf
      ensures inner.output == old(inner.output)
      ensures |inner.input.arrivals| < old(|inner.input.arrivals|)
      ensures m > 0 ==> var o := Retry(u0, buf.Length);
        o.Some? && m == |o.value.bytes| && inner.input == o.value.rest &&
        buf[..] == Filled(b0, 0, CrToLf(o.value.bytes))
      ensures m == 0 && inner.input.arrivals != [] ==> Retry(inner.input, buf.Length) == Retry(u0, buf.Length)
      ensures m == 0 && inner.input.arrivals == [] ==> Retry(u0, buf.Length).None?
    {
      ghost var before := inner.input;
      ghost var prev := buf[..];
      m := StdinRawRead(inner, buf, 0);
      RawReadShort(before, buf.Length);
      if m > 0 {
        FilledWhole(prev, b0, CrToLf(RawRead(before, buf.Length).bytes));
      }
    }

    /** `FileLike::poll`: a one-byte probe read whose byte, if any, replaces the lookahead. */
    method Poll() returns (r: PollState)
      modifies this, inner
      ensures r.writable
      ensures inner.output == old(inner.output)
      ensures var p := PollProbe(old(Lookahead()), old(inner.input));
        r.readable == p.readable && Lookahead() == p.lookahead && inner.input == p.rest
    {
      ghost var u0 := inner.input;
      var probe := new byte[1](_ => 0);
      var readLen := StdinRawRead(inner, probe, 0);
      var readable := readLen > 0;
      if readable {
        CrToLfAt(RawRead(u0, 1).bytes, 0);
        buffer := probe[0];
        available := true;
      }
      r := PollState(readable, true);
    }

    /** `FileLike::write`: standard input cannot be written. */
    function Write(buf: seq<byte>): (r: Result<nat>)
      ensures r == Err(EPERM)
    {
      Err(EPERM)
    }

    /** `FileLike::stat`: a character device readable by owner and group only. */
    function Stat(): (r: FileStat)
      ensures r.ino == 1 && r.nlink == 1
      ensures FileType(r.mode) == S_IFCHR
      ensures r.mode < 0x10000 && (r.mode / 0x200) % 8 == 0  // no setuid, setgid or sticky bit, nothing above S_IFMT
      ensures Permissions(r.mode) == {OwnerRead, GroupRead}
    {
      FileStat(1, 1, S_IFCHR + 0x120)  // S_IFCHR | 0o440
    }

    /** `FileLike::set_nonblocking`: accepted and ignored. */
    function SetNonblocking(nonblocking: bool): (r: Result<()>)
      ensures r.Ok?
    {
      Ok(())
    }
  }

  class Stdout {
    /** the static `Mutex<StdoutRaw>`: the console it writes */
    const inner: Console

    /** `stdout()` */
    constructor (console: Console)
      ensures inner == console
    {
      inner := console;
    }

    /** `Write::write` and `FileLike::write`: every byte reaches the console
        unmodified and the whole length is reported. */
    method Write(buf: seq<byte>) returns (r: Result<nat>)
      modifies inner
      ensures r == Ok(|buf|)
      ensures inner.output == old(inner.output) + buf
      ensures inner.input == old(inner.input)
    {
      var n := ConsoleWriteBytes(inner, buf);
      r := Ok(n);
    }

    /** `FileLike::read`: standard output cannot be read. */
    function Read(): (r: Result<nat>)
      ensures r == Err(EPERM)
    {
      Err(EPERM)
    }

    /** `FileLike::stat`: a character device writable by owner and group only. */
    function Stat(): (r: FileStat)
      ensures r.ino == 1 && r.nlink == 1
      ensures FileType(r.mode) == S_IFCHR
      ensures r.mode < 0x10000 && (r.mode / 0x200) % 8 == 0  // no setuid, setgid or sticky bit, nothing above S_IFMT
      ensures Permissions(r.mode) == {OwnerWrite, GroupWrite}
    {
      FileStat(1, 1, S_IFCHR + 0x90)  // S_IFCHR | 0o220
    }

    /** `FileLike::poll`: never readable, always writable. */
    function Poll(): (r: PollState)
      ensures !r.readable && r.writable
    {
      PollState(false, true)
    }

    /** `FileLike::set_nonblocking`: accepted and ignored. */
    function SetNonblocking(nonblocking: bool): (r: Result<()>)
      ensures r.Ok?
    {
      Ok(())
    }
  }
}
