/** `cxxtools::tcp::streambuf`: the buffer between iostream code and a
    `Stream`. One array `m_buffer` of `m_bufsize` bytes holds both the put
    area `[pbase, pptr)` of bytes waiting to be written (room up to `epptr`)
    and the get area `[gptr, egptr)` of bytes read but not yet consumed.
 */
module TcpStreamBuf {
  import opened Posix
  import opened TcpSocket
  import opened TcpStream

  /** `traits_type::eof()`. */
  const EOF: int := -1

  /** `(char_type)c`: the low octet of `c`. */
  function ToChar(c: int): (b: byte)
    ensures 0 <= c < 256 ==> b as int == c
  {
    (c % 256) as byte
  }

  /** The put area as the caller of `sputc` sees it: the bytes waiting to be
      written, and how many bytes fit before `overflow` is needed. */
  datatype PutArea = PutArea(pending: seq<byte>, capacity: nat)

  /** One call of `overflow` or `sync`: what it returned or threw, the bytes
      it handed to `Stream::Write` (none when it did not write), and the put
      area afterwards. */
  datatype PutStep = PutStep(result: Result<int>, handed: seq<byte>, area: PutArea)

  /** The C range of `Stream::size_type`, which `Stream::Write` returns. */
  predicate InSizeRange(written: Result<int>)
  {
    written.Ok? ==> -0x8000_0000_0000_0000 <= written.value < 0x8000_0000_0000_0000
  }

  /** `streambuf::overflow(c)` on put area `area`, when `Stream::Write` of
      the pending bytes produces `written`. */
  function OverflowStep(area: PutArea, bufsize: nat, c: int, written: Result<int>): (s: PutStep)
    requires InSizeRange(written)
    // it writes exactly the pending bytes, and nothing when there are none
    ensures s.handed == area.pending
    // a write exception propagates and a count that is not positive as an
    // `int` gives eof; both leave the put area as it was
    ensures s.result.Raise? <==> area.pending != [] && written.Raise?
    ensures s.result.Raise? ==> s.result == written
    ensures s.result == Ok(EOF) <==> area.pending != [] && written.Ok? && ToInt32(written.value) <= 0
    ensures s.result != Ok(0) ==> s.area == area
    // otherwise it returns 0, the put area is the whole buffer again and c,
    // unless it is eof, is its only byte
    ensures s.result.Ok? ==> s.result.value in {0, EOF}
    ensures s.result == Ok(0) ==> s.area == PutArea(if c == EOF then [] else [ToChar(c)], bufsize)
  {
    var reset := PutStep(Ok(0), area.pending, PutArea(if c == EOF then [] else [ToChar(c)], bufsize));
    if area.pending != [] then
      match written
      case Raise(e) => PutStep(Raise(e), area.pending, area)
      case Ok(n) => if ToInt32(n) <= 0 then PutStep(Ok(EOF), area.pending, area) else reset
    else
      reset
  }

  /** `overflow(c)` over the intended `Stream::Write`, when the `write()` a
      non-empty put area causes answers `reply`. */
  function OverflowSpec(area: PutArea, bufsize: nat, c: int, reply: WriteReply): (s: PutStep)
    requires reply.Accepted? ==> reply.count <= |area.pending| <= bufsize < 0x1_0000_0000
    ensures s.handed == area.pending
    // a failed write raises; a count that wraps to a non-positive `int`
    // gives eof; both leave the put area as it was
    ensures s.result.Raise? <==> area.pending != [] && reply.Value() <= 0
    ensures s.result.Raise? ==> s.result.error == Exception(OpWrite)
    ensures s.result == Ok(EOF) <==>
              area.pending != [] && reply.Value() > 0 && ToInt32(reply.Value()) <= 0
    ensures s.result != Ok(0) ==> s.area == area
    ensures s.result.Ok? ==> s.result.value in {0, EOF}
    ensures s.result == Ok(0) ==> s.area == PutArea(if c == EOF then [] else [ToChar(c)], bufsize)
  {
    OverflowStep(area, bufsize, c, WriteSpec(reply))
  }

  /** `overflow(c)` over `Stream::Write` as written: a failed `write()`
      comes back as the count -1, which `overflow` reports as eof. */
  function OverflowAsWritten(area: PutArea, bufsize: nat, c: int, reply: WriteReply): (s: PutStep)
    requires reply.Accepted? ==> reply.count <= |area.pending| <= bufsize < 0x1_0000_0000
    ensures s.handed == area.pending
    ensures s.result.Raise? <==> area.pending != [] && reply.Value() == 0
    ensures s.result == Ok(EOF) <==>
              area.pending != [] && reply.Value() != 0 && ToInt32(reply.Value()) <= 0
    ensures area.pending != [] && reply.WriteFailed? ==> s == PutStep(Ok(EOF), area.pending, area)
    ensures s.result == Ok(0) ==> s.area == PutArea(if c == EOF then [] else [ToChar(c)], bufsize)
  {
    OverflowStep(area, bufsize, c, WriteAsWritten(reply))
  }

  /** `streambuf::sync()` on put area `area`, when `Stream::Write` of the
      pending bytes produces `written`. */
  function SyncStep(area: PutArea, bufsize: nat, written: Result<int>): (s: PutStep)
    requires InSizeRange(written)
    ensures s.handed == area.pending
    // with nothing pending it succeeds without writing
    ensures area.pending == [] ==> s == PutStep(Ok(0), [], area)
    // on a failed write the pending bytes stay pending
    ensures s.result.Raise? <==> area.pending != [] && written.Raise?
    ensures s.result.Raise? ==> s.result == written
    ensures s.result == Ok(-1) <==> area.pending != [] && written.Ok? && ToInt32(written.value) <= 0
    ensures s.result != Ok(0) ==> s.area == area
    // a successful flush empties the put area
    ensures s.result.Ok? ==> s.result.value in {0, -1}
    ensures s.result == Ok(0) && area.pending != [] ==> s.area == PutArea([], bufsize)
  {
    if area.pending != [] then
      match written
      case Raise(e) => PutStep(Raise(e), area.pending, area)
      case Ok(n) =>
        if ToInt32(n) <= 0 then PutStep(Ok(-1), area.pending, area)
        else PutStep(Ok(0), area.pending, PutArea([], bufsize))
    else
      PutStep(Ok(0), [], area)
  }

  /** `sync()` over the intended `Stream::Write`, when the `write()` a
      non-empty put area causes answers `reply`. */
  function SyncSpec(area: PutArea, bufsize: nat, reply: WriteReply): (s: PutStep)
    requires reply.Accepted? ==> reply.count <= |area.pending| <= bufsize < 0x1_0000_0000
    ensures s.handed == area.pending
    ensures area.pending == [] ==> s == PutStep(Ok(0), [], area)
    ensures s.result.Raise? <==> area.pending != [] && reply.Value() <= 0
    ensures s.result.Raise? ==> s.result.error == Exception(OpWrite)
    ensures s.result == Ok(-1) <==>
              area.pending != [] && reply.Value() > 0 && ToInt32(reply.Value()) <= 0
    ensures s.result != Ok(0) ==> s.area == area
    ensures s.result.Ok? ==> s.result.value in {0, -1}
    ensures s.result == Ok(0) && area.pending != [] ==> s.area == PutArea([], bufsize)
  {
    SyncStep(area, bufsize, WriteSpec(reply))
  }

  /** `sync()` over `Stream::Write` as written: a failed `write()` comes
      back as the count -1, which `sync` reports as -1. */
  function SyncAsWritten(area: PutArea, bufsize: nat, reply: WriteReply): (s: PutStep)
    requires reply.Accepted? ==> reply.count <= |area.pending| <= bufsize < 0x1_0000_0000
    ensures s.handed == area.pending
    ensures s.result.Raise? <==> area.pending != [] && reply.Value() == 0
    ensures s.result == Ok(-1) <==>
              area.pending != [] && reply.Value() != 0 && ToInt32(reply.Value()) <= 0
    ensures area.pending != [] && reply.WriteFailed? ==> s == PutStep(Ok(-1), area.pending, area)
    ensures s.result == Ok(0) && area.pending != [] ==> s.area == PutArea([], bufsize)
  {
    SyncStep(area, bufsize, WriteAsWritten(reply))
  }

  /** Where the two versions of `Stream::Write` part at the buffer: a failed
      `write()` of pending bytes raises `Exception` from `overflow` and
      `sync` as intended, but is reported as eof and -1 as written. */
  lemma FailedFlushVersions(area: PutArea, bufsize: nat, c: int, e: Errno)
    requires area.pending != []
    ensures OverflowSpec(area, bufsize, c, WriteFailed(e)).result == Raise(Exception(OpWrite))
    ensures OverflowAsWritten(area, bufsize, c, WriteFailed(e)).result == Ok(EOF)
    ensures SyncSpec(area, bufsize, WriteFailed(e)).result == Raise(Exception(OpWrite))
    ensures SyncAsWritten(area, bufsize, WriteFailed(e)).result == Ok(-1)
  {
  }

  /** One call of `underflow`: what it returned or threw, and the new get
      area (`None` when the get area was left alone). */
  datatype GetStep = GetStep(result: Result<int>, area: Option<seq<byte>>)
  datatype Option<T> = None | Some(value: T)

  /** `streambuf::underflow()` given the run of `Stream::Read` it made. */
  function UnderflowSpec(read: ReadRun): (g: GetStep)
    requires read.result.Ok? && read.result.value > 0 ==> |read.filled| == read.result.value
    // exceptions of the read propagate
    ensures g.result.Raise? <==> read.result.Raise?
    ensures g.result.Raise? ==> g.result == read.result
    // a read of zero bytes (end of input) or of -1 gives eof
    ensures g.result == Ok(EOF) <==> read.result.Ok? && read.result.value <= 0
    ensures g.area.Some? <==> read.result.Ok? && read.result.value > 0
    // otherwise the get area is exactly the bytes read, and the first of them
    // is returned as an unsigned char
    ensures g.area.Some? ==> |g.area.value| > 0 && g.area.value == read.filled
                             && g.result == Ok(read.filled[0] as int)
    ensures g.result.Ok? ==> -1 <= g.result.value < 256
  {
    match read.result
    case Raise(e) => GetStep(Raise(e), None)
    case Ok(n) => if n <= 0 then GetStep(Ok(EOF), None) else GetStep(Ok(read.filled[0] as int), Some(read.filled))
  }

  /** `underflow` composed with `Stream::Read`: the get area becomes what
      the kernel delivered. */
  lemma UnderflowDelivers(timeout: int, fd: int, bufsize: nat, first: ReadReply, polled: int, retry: ReadReply)
    requires first.Received? && |first.data| > 0
    ensures UnderflowSpec(ReadSpec(timeout, fd, bufsize, first, polled, retry)) ==
              GetStep(Ok(first.data[0] as int), Some(first.data))
  {
  }

  // The caller's side of the put area: `std::basic_streambuf::sputc`, which
  // stores a byte while there is room and calls `overflow` when it is full.
  // Every `write()` here takes all the bytes it is offered.

  /** `sputc(c)`: the new put area and the bytes written to the kernel. */
  function PutOne(area: PutArea, bufsize: nat, c: byte): (PutArea, seq<byte>)
    requires |area.pending| <= bufsize < 0x1_0000_0000
  {
    if |area.pending| < area.capacity then
      (PutArea(area.pending + [c], area.capacity), [])
    else
      var s := OverflowSpec(area, bufsize, c as int, Accepted(|area.pending|));
      (s.area, if s.result == Ok(0) then s.handed else [])
  }

  /** `sputc` of every byte of `bytes`, in order. */
  function PutAll(area: PutArea, bufsize: nat, bytes: seq<byte>): (r: (PutArea, seq<byte>))
    requires 0 < bufsize < 0x8000_0000 && |area.pending| <= area.capacity <= bufsize
    ensures |r.0.pending| <= r.0.capacity <= bufsize
    decreases |bytes|
  {
    if bytes == [] then (area, [])
    else
      var one := PutOne(area, bufsize, bytes[0]);
      PutOneKeepsBounds(area, bufsize, bytes[0]);
      var rest := PutAll(one.0, bufsize, bytes[1..]);
      (rest.0, one.1 + rest.1)
  }

  lemma PutOneKeepsBounds(area: PutArea, bufsize: nat, c: byte)
    requires 0 < bufsize < 0x8000_0000 && |area.pending| <= area.capacity <= bufsize
    ensures |PutOne(area, bufsize, c).0.pending| <= PutOne(area, bufsize, c).0.capacity <= bufsize
    ensures PutOne(area, bufsize, c).1 + PutOne(area, bufsize, c).0.pending == area.pending + [c]
  {
    if |area.pending| >= area.capacity && area.pending != [] {
      assert ToInt32(|area.pending|) == |area.pending|;
    }
  }

  /** Nothing is lost or reordered by the put area while `write()` takes
      whole chunks: the bytes written so far followed by those still pending
      are the bytes that were pending followed by the bytes put. */
  lemma {:induction false} PutAllKeepsOrder(area: PutArea, bufsize: nat, bytes: seq<byte>)
    requires 0 < bufsize < 0x8000_0000 && |area.pending| <= area.capacity <= bufsize
    ensures PutAll(area, bufsize, bytes).1 + PutAll(area, bufsize, bytes).0.pending == area.pending + bytes
    decreases |bytes|
  {
    if bytes != [] {
      var one := PutOne(area, bufsize, bytes[0]);
      PutOneKeepsBounds(area, bufsize, bytes[0]);
      var rest := PutAll(one.0, bufsize, bytes[1..]);
      PutAllKeepsOrder(one.0, bufsize, bytes[1..]);
      assert PutAll(area, bufsize, bytes) == (rest.0, one.1 + rest.1);
      ConcatSteps(one.1, one.0.pending, rest.1, rest.0.pending, area.pending, bytes);
    }
  }

  /** Two steps that each keep "written then pending" chain into one. */
  lemma ConcatSteps(s1: seq<byte>, p1: seq<byte>, s2: seq<byte>, p2: seq<byte>, before: seq<byte>, bytes: seq<byte>)
    requires bytes != []
    requires s1 + p1 == before + [bytes[0]]
    requires s2 + p2 == p1 + bytes[1..]
    ensures (s1 + s2) + p2 == before + bytes
  {
    assert [bytes[0]] + bytes[1..] == bytes;
    calc {
      (s1 + s2) + p2;
      s1 + (p1 + bytes[1..]);
      (before + [bytes[0]]) + bytes[1..];
      before + bytes;
    }
  }

  /** The round trip: bytes put into a fresh stream buffer and then flushed
      with `sync` reach the kernel as they were put, in order, and the put
      area is left empty. */
  lemma FlushDeliversAll(bufsize: nat, bytes: seq<byte>)
    requires 0 < bufsize < 0x8000_0000
    ensures var (a, sent) := PutAll(PutArea([], 0), bufsize, bytes);
            var s := SyncSpec(a, bufsize, Accepted(|a.pending|));
            s.result == Ok(0) && sent + s.handed == bytes && s.area.pending == []
  {
    PutAllKeepsOrder(PutArea([], 0), bufsize, bytes);
    var (a, sent) := PutAll(PutArea([], 0), bufsize, bytes);
    assert ToInt32(|a.pending|) == |a.pending|;
  }

  /** A partial write is not retried: `overflow` still clears the put area,
      so the bytes the kernel did not take are neither written nor pending. */
  lemma OverflowDropsUnwrittenBytes(area: PutArea, bufsize: nat, k: nat)
    requires 0 < k < |area.pending| <= bufsize < 0x8000_0000
    ensures var s := OverflowSpec(area, bufsize, EOF, Accepted(k));
            s.result == Ok(0) && s.area.pending == [] && area.pending[k..] != []
  {
  }

  class StreamBuf {
    const stream: Stream
    /** `m_bufsize`. */
    const bufsize: nat
    /** `m_buffer`. */
    const buffer: array<byte>
    // put area: [pbase, pptr) pending, up to epptr
    var pbase: nat
    var pptr: nat
    var epptr: nat
    // get area: eback <= gptr <= egptr
    var eback: nat
    var gptr: nat
    var egptr: nat

    ghost predicate Valid()
      reads this
    {
      && buffer.Length == bufsize
      && 0 < bufsize < 0x1_0000_0000
      && pbase <= pptr <= epptr <= bufsize
      && eback <= gptr <= egptr <= bufsize
    }

    /** The put area: the pending bytes and the room from `pbase` to `epptr`. */
    ghost function Put(): (p: PutArea)
      reads this, buffer
      requires Valid()
      ensures |p.pending| <= p.capacity <= bufsize
    {
      PutArea(buffer[pbase..pptr], epptr - pbase)
    }

    /** The bytes read but not yet consumed. */
    ghost function Get(): seq<byte>
      reads this, buffer
      requires Valid()
    {
      buffer[gptr..egptr]
    }

    /** `streambuf(stream, bufsize, timeout)`: allocates the buffer, with
        empty put and get areas, and sets the stream's timeout. A zero
        `bufsize` is excluded: `overflow` stores a byte in `m_buffer[0]`. */
    constructor (stream: Stream, bufsize: nat, timeout: int)
      requires 0 < bufsize < 0x1_0000_0000
      modifies stream`timeout, stream.sock`nonblocking, stream.sock`trace
      ensures Valid() && fresh(buffer)
      ensures this.stream == stream && this.bufsize == bufsize
      ensures Put() == PutArea([], 0) && Get() == []
      ensures stream.timeout == timeout
      ensures stream.sock.fd >= 0 ==>
                (stream.sock.nonblocking == (timeout >= 0)
                 && stream.sock.trace == old(stream.sock.trace) + [SetFlagsCall(stream.sock.fd, FlagsFor(timeout))])
      ensures stream.sock.fd < 0 ==>
                stream.sock.nonblocking == old(stream.sock.nonblocking) && stream.sock.trace == old(stream.sock.trace)
    {
      this.stream := stream;
      this.bufsize := bufsize;
      buffer := new byte[bufsize];
      pbase, pptr, epptr := 0, 0, 0;
      eback, gptr, egptr := 0, 0, 0;
      new;
      stream.SetTimeout(timeout);
    }

    /** `streambuf::overflow(c)`. The put area and the get area share the
        buffer: staging `c` overwrites `m_buffer[0]`. */
    method Overflow(c: int, reply: WriteReply) returns (r: Result<int>)
      requires Valid()
      requires reply.Accepted? ==> reply.count <= pptr - pbase
      modifies this`pbase, this`pptr, this`epptr, buffer, stream.sock`trace
      ensures Valid()
      ensures var s := OverflowSpec(old(Put()), bufsize, c, reply);
              r == s.result && Put() == s.area
              && stream.sock.trace == old(stream.sock.trace)
                                      + (if s.handed == [] then [] else [WriteCall(stream.sock.fd, s.handed)])
      ensures buffer[..] == if r == Ok(0) && c != EOF then old(buffer[..])[0 := ToChar(c)] else old(buffer[..])
    {
      if pptr != pbase {
        var n := stream.Write(buffer[pbase..pptr], reply);
        if n.Raise? {
          return Raise(n.error);
        }
        if ToInt32(n.value) <= 0 {
          return Ok(EOF);
        }
      }
      pbase, pptr, epptr := 0, 0, bufsize;
      if c != EOF {
        buffer[pptr] := ToChar(c);
        pptr := pptr + 1;
      }
      r := Ok(0);
    }

    /** `streambuf::underflow()`: one `Stream::Read` of the whole buffer. */
    method Underflow(first: ReadReply, polled: int, retry: ReadReply) returns (r: Result<int>)
      requires Valid()
      requires first.Received? ==> |first.data| <= bufsize
      requires retry.Received? ==> |retry.data| <= bufsize
      modifies this`eback, this`gptr, this`egptr, buffer, stream.sock`trace
      ensures Valid()
      ensures var run := ReadSpec(stream.timeout, stream.sock.fd, bufsize, first, polled, retry);
              var g := UnderflowSpec(run);
              r == g.result && stream.sock.trace == old(stream.sock.trace) + run.calls
              && buffer[..] == Overlay(run.filled, old(buffer[..]))
              && (g.area.Some? ==> eback == gptr == 0 && Get() == g.area.value)
              && (g.area.None? ==> eback == old(eback) && gptr == old(gptr) && egptr == old(egptr))
    {
      var n := stream.Read(buffer, bufsize, first, polled, retry);
      if n.Raise? {
        return n;
      }
      if n.value <= 0 {
        return Ok(EOF);
      }
      eback, gptr, egptr := 0, 0, n.value;
      r := Ok(buffer[0] as int);
    }

    /** `streambuf::sync()`. */
    method Sync(reply: WriteReply) returns (r: Result<int>)
      requires Valid()
      requires reply.Accepted? ==> reply.count <= pptr - pbase
      modifies this`pbase, this`pptr, this`epptr, stream.sock`trace
      ensures Valid()
      ensures var s := SyncSpec(old(Put()), bufsize, reply);
              r == s.result && Put() == s.area
              && stream.sock.trace == old(stream.sock.trace)
                                      + (if s.handed == [] then [] else [WriteCall(stream.sock.fd, s.handed)])
    {
      if pptr != pbase {
        var n := stream.Write(buffer[pbase..pptr], reply);
        if n.Raise? {
          return Raise(n.error);
        }
        if ToInt32(n.value) <= 0 {
          return Ok(-1);
        }
        pbase, pptr, epptr := 0, 0, bufsize;
      }
      r := Ok(0);
    }
  }
}
