/** The POSIX `read`/`write` entry points of the build without the descriptor
    table: a null-buffer check, routing of descriptors 0, 1 and 2 to the
    console adapters, and the vectored `readv`/`writev` loops. */
module Io {
  import opened Common
  import opened ConsoleHw
  import opened Stdio

  /** The adapter a descriptor reaches. */
  datatype Endpoint = ToStdin | ToStdout

  /** The guard and `match fd` of `sys_read`. */
  function ReadRoute(fd: int, isNull: bool): (r: Result<Endpoint>)
  {
    if isNull then Err(EFAULT)
    else if fd == 0 then Ok(ToStdin)
    else if fd == 1 || fd == 2 then Err(EPERM)
    else Err(EBADF)
  }

  /** The guard and `match fd` of `write_impl`. */
  function WriteRoute(fd: int, isNull: bool): (r: Result<Endpoint>)
  {
    if isNull then Err(EFAULT)
    else if fd == 0 then Err(EPERM)
    else if fd == 1 || fd == 2 then Ok(ToStdout)
    else Err(EBADF)
  }

  /** A null buffer is refused with EFAULT whatever the descriptor; otherwise
      only descriptor 0 is readable and only 1 and 2 are writable, the wrong
      direction on a standard descriptor is EPERM and any other descriptor is
      EBADF. */
  lemma RouteSpec(fd: int, isNull: bool)
    ensures isNull ==> ReadRoute(fd, isNull) == Err(EFAULT) && WriteRoute(fd, isNull) == Err(EFAULT)
    ensures ReadRoute(fd, isNull) == Ok(ToStdin) <==> !isNull && fd == 0
    ensures WriteRoute(fd, isNull) == Ok(ToStdout) <==> !isNull && (fd == 1 || fd == 2)
    ensures ReadRoute(fd, isNull).Ok? || WriteRoute(fd, isNull).Ok? || isNull || fd !in {0, 1, 2}
    ensures !isNull && fd in {0, 1, 2} ==> ReadRoute(fd, isNull) == Err(EPERM) || WriteRoute(fd, isNull) == Err(EPERM)
    ensures !isNull && fd !in {0, 1, 2} ==> ReadRoute(fd, isNull) == Err(EBADF) && WriteRoute(fd, isNull) == Err(EBADF)
  {
  }

  /** What one `sys_read` does: its return value, the UART after it and the
      bytes it stores at the front of the buffer. */
  datatype ReadStep = ReadStep(ret: int, rest: Uart, data: seq<byte>)

  /** `sys_read` on a buffer of `n` bytes. Each call builds a fresh `Stdin`
      handle, so no lookahead byte is ever held. `None`: it blocks forever. */
  function ReadOutcome(fd: int, isNull: bool, u: Uart, n: nat): (o: Option<ReadStep>)
  {
    match ReadRoute(fd, isNull)
    case Err(e) => Some(ReadStep(SyscallRet(Err(e)), u, []))
    case Ok(_) =>
      match BlockedRead(None, u, n)
      case None => None
      case Some(d) => Some(ReadStep(|d.out|, d.rest, d.out))
  }

  /** `sys_read`: an error leaves the console alone and returns the negated
      errno; a read of stdin returns how many bytes it delivered, and the
      bytes it delivered are the next ones of the input. */
  lemma ReadOutcomeSpec(fd: int, isNull: bool, u: Uart, n: nat)
    ensures ReadRoute(fd, isNull).Err? ==>
      ReadOutcome(fd, isNull, u, n) == Some(ReadStep(-(Errno(ReadRoute(fd, isNull).error) as int), u, []))
    ensures ReadOutcome(fd, isNull, u, n).Some? ==>
      var s := ReadOutcome(fd, isNull, u, n).value;
      (ReadRoute(fd, isNull).Ok? ==> s.ret == |s.data|) &&
      |s.data| <= n && Pending(None, u) == s.data + Pending(None, s.rest)
    ensures ReadRoute(fd, isNull).Ok? && n > 0 ==>
      (ReadOutcome(fd, isNull, u, n).None? <==> Stream(u) == []) &&
      (ReadOutcome(fd, isNull, u, n).Some? ==> ReadOutcome(fd, isNull, u, n).value.ret >= 1)
  {
    BlockedReadSpec(None, u, n);
    if ReadRoute(fd, isNull).Ok? && n > 0 {
      assert Pending(None, u) == CrToLf(Stream(u));
    }
  }

  /** `sys_read`. The buffer of `count` bytes is the array `buf` (null when the
      caller passes a null pointer). `None` stands for the source blocking
      forever. */
  method SysRead(con: Console, fd: int, buf: array?<byte>) returns (r: Option<int>)
    modifies con, buf
    ensures con.output == old(con.output)
    ensures var o := ReadOutcome(fd, buf == null, old(con.input), if buf == null then 0 else buf.Length);
      (r.None? <==> o.None?) &&
      (o.Some? ==> r.value == o.value.ret && con.input == o.value.rest)
    ensures buf != null && fd == 0 ==>
      var d := BlockedRead(None, old(con.input), buf.Length);
      d.Some? ==> buf[..] == Filled(old(buf[..]), 0, d.value.out)
    ensures buf != null && fd != 0 ==> buf[..] == old(buf[..])
  {
    if buf == null {
      return Some(SyscallRet(Err(EFAULT)));
    }
    if fd == 0 {
      var stdin := new Stdin(con);
      var n := stdin.ReadBlocked(buf);
      if n.None? {
        return None;
      }
      return Some(n.value);
    } else if fd == 1 || fd == 2 {
      return Some(SyscallRet(Err(EPERM)));
    } else {
      return Some(SyscallRet(Err(EBADF)));
    }
  }

  /** What `write_impl` returns for a buffer (`None`: a null pointer). */
  function WriteResult(fd: int, buf: Option<seq<byte>>): (r: Result<int>)
  {
    match WriteRoute(fd, buf.None?)
    case Err(e) => Err(e)
    case Ok(_) => Ok(|buf.value|)
  }

  /** What `write_impl` puts on the console. */
  function Written(fd: int, buf: Option<seq<byte>>): (w: seq<byte>)
  {
    if WriteRoute(fd, buf.None?).Ok? then buf.value else []
  }

  /** A write is all or nothing: on success every byte reached the console and
      the count says so; on an error nothing did. */
  lemma WriteAllOrNothing(fd: int, buf: Option<seq<byte>>)
    ensures WriteResult(fd, buf).Ok? <==> buf.Some? && (fd == 1 || fd == 2)
    ensures WriteResult(fd, buf).Ok? ==> Written(fd, buf) == buf.value && WriteResult(fd, buf).value == |Written(fd, buf)|
    ensures WriteResult(fd, buf).Err? ==> Written(fd, buf) == [] && WriteResult(fd, buf).error == WriteRoute(fd, buf.None?).error
  {
  }

  /** `write_impl`: each call builds a fresh `Stdout` handle. */
  method WriteImpl(con: Console, fd: int, buf: Option<seq<byte>>) returns (r: Result<int>)
    modifies con
    ensures r == WriteResult(fd, buf)
    ensures con.output == old(con.output) + Written(fd, buf)
    ensures con.input == old(con.input)
  {
    if buf.None? {
      return Err(EFAULT);
    }
    if fd == 0 {
      r := Err(EPERM);
    } else if fd == 1 || fd == 2 {
      var stdout := new Stdout(con);
      var w := stdout.Write(buf.value);
      r := Ok(w.value);
    } else {
      r := Err(EBADF);
    }
  }

  /** `sys_write` */
  method SysWrite(con: Console, fd: int, buf: Option<seq<byte>>) returns (ret: int)
    modifies con
    ensures ret == SyscallRet(WriteResult(fd, buf))
    ensures con.output == old(con.output) + Written(fd, buf)
    ensures con.input == old(con.input)
  {
    var r := WriteImpl(con, fd, buf);
    ret := SyscallRet(r);
  }

  /** The `iocnt` bound shared by `readv` and `writev`. */
  const IOV_MAX: int := 1024

  /** A `struct iovec` whose bytes are read (`writev`); `None` is a null base. */
  datatype ConstIoVec = ConstIoVec(base: Option<seq<byte>>, len: usize)

  /** `from_raw_parts` requires the slice it builds to fit in `isize::MAX` bytes. */
  predicate ValidConst(v: ConstIoVec)
  {
    v.base.Some? ==> |v.base.value| == v.len <= ISIZE_MAX
  }

  /** What `writev` returns and what it puts on the console. */
  datatype VecOutcome = VecOutcome(ret: Result<int>, written: seq<byte>)

  /** Earlier passes of the loop that added `k` to the total and wrote `w`,
      followed by the passes of `o`. */
  function Shift(k: int, w: seq<byte>, o: VecOutcome): (o2: VecOutcome)
  {
    VecOutcome(if o.ret.Ok? then Ok(k + o.ret.value) else o.ret, w + o.written)
  }

  /** The loop of `sys_writev` over its elements, in order: an element error
      ends it as the whole result, a short element ends it after being counted. */
  function Writev(fd: int, vs: seq<ConstIoVec>): (o: VecOutcome)
  {
    if vs == [] then VecOutcome(Ok(0), [])
    else
      match WriteResult(fd, vs[0].base)
      case Err(e) => VecOutcome(Err(e), [])
      case Ok(n) =>
        if n < AsIsize(vs[0].len) then VecOutcome(Ok(n), Written(fd, vs[0].base))
        else Shift(n, Written(fd, vs[0].base), Writev(fd, vs[1..]))
  }

  /** The bytes of the elements before the first null base, concatenated. */
  function Gathered(vs: seq<ConstIoVec>): (g: seq<byte>)
  {
    if vs == [] || vs[0].base.None? then [] else vs[0].base.value + Gathered(vs[1..])
  }

  predicate AllPresent(vs: seq<ConstIoVec>)
  {
    forall i :: 0 <= i < |vs| ==> vs[i].base.Some?
  }

  /** `writev` on standard output writes the elements one after the other up to
      the first null base; it returns their total length when there is none
      and EFAULT otherwise, though the bytes before it stay written. */
  lemma {:induction false} WritevStdout(fd: int, vs: seq<ConstIoVec>)
    requires fd == 1 || fd == 2
    requires forall i :: 0 <= i < |vs| ==> ValidConst(vs[i])
    ensures Writev(fd, vs).written == Gathered(vs)
    ensures Writev(fd, vs).ret == if AllPresent(vs) then Ok(|Gathered(vs)|) else Err(EFAULT)
  {
    if vs != [] && vs[0].base.Some? {
      WritevStdout(fd, vs[1..]);
      assert AllPresent(vs) <==> AllPresent(vs[1..]) by {
        if AllPresent(vs[1..]) {
          forall i | 0 <= i < |vs| ensures vs[i].base.Some? {
            if i > 0 {
              assert vs[i] == vs[1..][i - 1];
            }
          }
        }
      }
    } else if vs != [] {
      assert !AllPresent(vs);
    }
  }

  /** On any descriptor other than standard output, `writev` fails on its first
      element with that element's error and writes nothing. */
  lemma WritevElsewhere(fd: int, vs: seq<ConstIoVec>)
    requires fd != 1 && fd != 2 && vs != []
    ensures Writev(fd, vs) == VecOutcome(Err(WriteRoute(fd, vs[0].base.None?).error), [])
  {
  }

  /** Adding no element leaves the loop's results as they are. */
  lemma ShiftNothing(o: VecOutcome)
    ensures Shift(0, [], o) == o
  {
    assert [] + o.written == o.written;
  }

  /** One pass of the `writev` loop, seen from the whole loop: element `i`
      wrote `n` bytes in full or ended the loop short; `k2`, `w2` and `i2` are
      the total, the bytes written and the position after it. */
  lemma WritevPass(fd: int, vs: seq<ConstIoVec>, i: nat, k: int, w: seq<byte>, n: int,
                   k2: int, w2: seq<byte>, i2: nat)
    requires i < |vs| && WriteResult(fd, vs[i].base) == Ok(n)
    requires k2 == k + n && w2 == w + Written(fd, vs[i].base) && i2 == i + 1
    ensures n < AsIsize(vs[i].len) ==>
      Shift(k, w, Writev(fd, vs[i..])) == VecOutcome(Ok(k2), w2)
    ensures !(n < AsIsize(vs[i].len)) ==>
      Shift(k, w, Writev(fd, vs[i..])) == Shift(k2, w2, Writev(fd, vs[i2..]))
  {
    assert vs[i..][0] == vs[i];
    assert vs[i..][1..] == vs[i2..];
    var t := Writev(fd, vs[i2..]);
    assert w + (Written(fd, vs[i].base) + t.written) == w2 + t.written;
    if t.ret.Ok? {
      assert k + (n + t.ret.value) == k2 + t.ret.value;
    }
  }

  /** The body of the `sys_writev` loop for element `i`: write it and add the
      result to the running total. `whole` is what the whole loop amounts to,
      `before` the console output when the loop began. */
  method WritevElement(con: Console, fd: int, iovs: seq<ConstIoVec>, i: nat, total: int,
                       ghost written: seq<byte>, ghost whole: VecOutcome, ghost before: seq<byte>)
      returns (result: Result<int>, total2: int, ghost written2: seq<byte>)
    requires i < |iovs| && whole == Shift(total, written, Writev(fd, iovs[i..]))
    requires con.output == before + written
    modifies con
    ensures con.input == old(con.input) && con.output == before + written2
    ensures result.Err? ==> whole == VecOutcome(Err(result.error), written2)
    ensures result.Ok? && result.value < AsIsize(iovs[i].len) ==> whole == VecOutcome(Ok(total2), written2)
    ensures result.Ok? && !(result.value < AsIsize(iovs[i].len)) ==>
      whole == Shift(total2, written2, Writev(fd, iovs[i + 1..]))
  {
    result := WriteImpl(con, fd, iovs[i].base);
    if result.Err? {
      assert iovs[i..][0] == iovs[i];
      assert written + [] == written;
      return result, total, written;
    }
    total2 := total + result.value;
    written2 := written + Written(fd, iovs[i].base);
    WritevPass(fd, iovs, i, total, written, result.value, total2, written2, i + 1);
  }

  /** `sys_writev`: `iocnt` elements of `iov` are the request. */
  method SysWritev(con: Console, fd: int, iov: seq<ConstIoVec>, iocnt: int) returns (ret: int)
    requires 0 <= iocnt <= IOV_MAX ==> iocnt <= |iov|
    requires forall i :: 0 <= i < |iov| ==> ValidConst(iov[i])
    modifies con
    ensures !(0 <= iocnt <= IOV_MAX) ==> ret == SyscallRet(Err(EINVAL)) && con.output == old(con.output)
    ensures 0 <= iocnt <= IOV_MAX ==>
      ret == SyscallRet(Writev(fd, iov[..iocnt]).ret) &&
      con.output == old(con.output) + Writev(fd, iov[..iocnt]).written
    ensures con.input == old(con.input)
  {
    if !(0 <= iocnt <= IOV_MAX) {
      return SyscallRet(Err(EINVAL));
    }
    var iovs := iov[..iocnt];
    ghost var whole := Writev(fd, iovs);
    var total := 0;
    ghost var written: seq<byte> := [];
    ShiftNothing(whole);
    assert old(con.output) + [] == old(con.output);
    var i := 0;
    while i < |iovs|
      invariant 0 <= i <= |iovs|
      invariant whole == Shift(total, written, Writev(fd, iovs[i..]))
      invariant con.output == old(con.output) + written
      invariant con.input == old(con.input)
    {
      var result;
      ghost var written2;
      result, total, written2 := WritevElement(con, fd, iovs, i, total, written, whole, old(con.output));
      written := written2;
      if result.Err? {
        return SyscallRet(Err(result.error));
      }
      if result.value < AsIsize(iovs[i].len) {
        return SyscallRet(Ok(total));
      }
      i := i + 1;
    }
    assert iovs[i..] == [];
    assert written + [] == written;
    ret := SyscallRet(Ok(total));
  }

  /** A `struct iovec` that receives bytes (`readv`); a null `base` is a null pointer. */
  datatype IoVec = IoVec(base: array?<byte>, len: usize)

  predicate ValidVec(v: IoVec)
  {
    v.base != null ==> v.base.Length == v.len <= ISIZE_MAX
  }

  /** Earlier passes that added `k` to the total and delivered `w`, followed by `o`. */
  function Then(k: int, w: seq<byte>, o: Option<ReadStep>): (o2: Option<ReadStep>)
  {
    match o
    case None => None
    case Some(s) => Some(ReadStep(k + s.ret, s.rest, w + s.data))
  }

  /** The loop of `sys_readv`: every `sys_read` return value, an error code
      included, is added to the total, and the loop stops after the first
      element whose result is below its length (as an `isize`). */
  function Readv(fd: int, vs: seq<IoVec>, u: Uart): (o: Option<ReadStep>)
  {
    if vs == [] then Some(ReadStep(0, u, []))
    else
      match ReadOutcome(fd, vs[0].base == null, u, vs[0].len)
      case None => None
      case Some(s) =>
        if s.ret < AsIsize(vs[0].len) then Some(s)
        else Then(s.ret, s.data, Readv(fd, vs[1..], s.rest))
  }

  /** An element that fails (a null base, or any element on a descriptor other
      than 0) ends `readv` at once with that error as the whole result, unless
      its length, as an `isize`, is at or below the negated errno, in which case
      the error is added to the total and the loop goes on. */
  lemma ReadvFails(fd: int, vs: seq<IoVec>, u: Uart)
    requires vs != [] && ReadRoute(fd, vs[0].base == null).Err?
    ensures SyscallRet(Err(ReadRoute(fd, vs[0].base == null).error)) < AsIsize(vs[0].len) ==>
      Readv(fd, vs, u) == Some(ReadStep(SyscallRet(Err(ReadRoute(fd, vs[0].base == null).error)), u, []))
    ensures AsIsize(vs[0].len) <= SyscallRet(Err(ReadRoute(fd, vs[0].base == null).error)) ==>
      Readv(fd, vs, u) == Then(SyscallRet(Err(ReadRoute(fd, vs[0].base == null).error)), [], Readv(fd, vs[1..], u))
  {
  }

  /** `readv` of stdin delivers the input in order: the bytes it stores, element
      after element, are the next ones pending, and on success it counts them
      all. */
  lemma {:induction false} ReadvStdin(vs: seq<IoVec>, u: Uart)
    requires forall i :: 0 <= i < |vs| ==> vs[i].base != null && ValidVec(vs[i])
    ensures Readv(0, vs, u).Some? ==>
      var s := Readv(0, vs, u).value;
      s.ret == |s.data| && Pending(None, u) == s.data + Pending(None, s.rest)
  {
    if vs != [] {
      ReadOutcomeSpec(0, false, u, vs[0].len);
      var o := ReadOutcome(0, false, u, vs[0].len);
      if o.Some? && !(o.value.ret < AsIsize(vs[0].len)) {
        var s := o.value;
        ReadvStdin(vs[1..], s.rest);
        if Readv(0, vs[1..], s.rest).Some? {
          var t := Readv(0, vs[1..], s.rest).value;
          assert Pending(None, u) == s.data + (t.data + Pending(None, t.rest));
          AppendAssoc(s.data, t.data, Pending(None, t.rest));
        }
      }
    } else {
      assert Pending(None, u) == [] + Pending(None, u);
    }
  }

  /** One pass of the `readv` loop, seen from the whole loop. */
  lemma ReadvPass(fd: int, vs: seq<IoVec>, i: nat, k: int, w: seq<byte>, u: Uart)
    requires i < |vs|
    ensures ReadOutcome(fd, vs[i].base == null, u, vs[i].len).None? ==> Then(k, w, Readv(fd, vs[i..], u)).None?
    ensures ReadOutcome(fd, vs[i].base == null, u, vs[i].len).Some? ==>
      var s := ReadOutcome(fd, vs[i].base == null, u, vs[i].len).value;
      if s.ret < AsIsize(vs[i].len) then
        Then(k, w, Readv(fd, vs[i..], u)) == Some(ReadStep(k + s.ret, s.rest, w + s.data))
      else
        Then(k, w, Readv(fd, vs[i..], u)) == Then(k + s.ret, w + s.data, Readv(fd, vs[i + 1..], s.rest))
  {
    assert vs[i..][0] == vs[i];
    assert vs[i..][1..] == vs[i + 1..];
    var o := ReadOutcome(fd, vs[i].base == null, u, vs[i].len);
    if o.Some? {
      var s := o.value;
      var t := Readv(fd, vs[i + 1..], s.rest);
      if t.Some? {
        assert w + (s.data + t.value.data) == (w + s.data) + t.value.data;
        assert k + (s.ret + t.value.ret) == (k + s.ret) + t.value.ret;
      }
    }
  }

  lemma ThenNothing(o: Option<ReadStep>)
    ensures Then(0, [], o) == o
  {
    if o.Some? {
      assert [] + o.value.data == o.value.data;
    }
  }

  /** An empty vector reads and writes nothing and returns 0, on any descriptor. */
  lemma VectoredEmpty(fd: int, u: Uart)
    ensures Writev(fd, []) == VecOutcome(Ok(0), [])
    ensures Readv(fd, [], u) == Some(ReadStep(0, u, []))
  {
  }

  /** The buffers `readv` may store into. */
  function Buffers(iov: seq<IoVec>): (bufs: set<array<byte>>)
  {
    set i | 0 <= i < |iov| && iov[i].base != null :: iov[i].base
  }

  /** The body of the `sys_readv` loop for element `i`: read into it and add
      the raw result to the running total. `whole` is what the whole loop
      amounts to, from the UART it began with. */
  method ReadvElement(con: Console, fd: int, iovs: seq<IoVec>, i: nat, total: int,
                      ghost data: seq<byte>, ghost whole: Option<ReadStep>)
      returns (result: Option<int>, total2: int, ghost data2: seq<byte>)
    requires i < |iovs| && ValidVec(iovs[i])
    requires whole == Then(total, data, Readv(fd, iovs[i..], con.input))
    modifies con, iovs[i].base
    ensures con.output == old(con.output)
    ensures result.None? ==> whole.None?
    ensures result.Some? && result.value < AsIsize(iovs[i].len) ==>
      whole == Some(ReadStep(total2, con.input, data2))
    ensures result.Some? && !(result.value < AsIsize(iovs[i].len)) ==>
      whole == Then(total2, data2, Readv(fd, iovs[i + 1..], con.input))
  {
    ghost var before := con.input;
    ReadvPass(fd, iovs, i, total, data, before);
    result := SysRead(con, fd, iovs[i].base);
    if result.None? {
      return None, total, data;
    }
    ghost var s := ReadOutcome(fd, iovs[i].base == null, before, iovs[i].len);
    total2 := total + result.value;
    data2 := data + s.value.data;
  }

  /** `sys_readv`: `iocnt` elements of `iov` are the request; `None` stands for
      the source blocking forever. */
  method SysReadv(con: Console, fd: int, iov: seq<IoVec>, iocnt: int) returns (r: Option<int>)
    requires 0 <= iocnt <= IOV_MAX ==> iocnt <= |iov|
    requires forall i :: 0 <= i < |iov| ==> ValidVec(iov[i])
    modifies con, Buffers(iov)
    ensures con.output == old(con.output)
    ensures !(0 <= iocnt <= IOV_MAX) ==> r == Some(SyscallRet(Err(EINVAL))) && con.input == old(con.input)
    ensures !(0 <= iocnt <= IOV_MAX) ==> unchanged(Buffers(iov))
    ensures 0 <= iocnt <= IOV_MAX ==>
      var o := Readv(fd, iov[..iocnt], old(con.input));
      (r.None? <==> o.None?) && (o.Some? ==> r.value == o.value.ret && con.input == o.value.rest)
  {
    if !(0 <= iocnt <= IOV_MAX) {
      return Some(SyscallRet(Err(EINVAL)));
    }
    var iovs := iov[..iocnt];
    ghost var whole := Readv(fd, iovs, con.input);
    var total := 0;
    ghost var data: seq<byte> := [];
    ThenNothing(whole);
    var i := 0;
    while i < |iovs|
      invariant 0 <= i <= |iovs|
      invariant whole == Then(total, data, Readv(fd, iovs[i..], con.input))
      invariant con.output == old(con.output)
    {
      assert iovs[i] == iov[i];
      var result;
      result, total, data := ReadvElement(con, fd, iovs, i, total, data, whole);
      if result.None? {
        return None;
      }
      if result.value < AsIsize(iovs[i].len) {
        return Some(total);
      }
      i := i + 1;
    }
    assert iovs[i..] == [];
    r := Some(total);
  }
}
