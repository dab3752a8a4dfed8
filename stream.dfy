/** `cxxtools::tcp::Stream`: a connected socket with a read timeout.

    The timeout is in milliseconds: a negative value reads blocking, 0 makes
    a read fail at once when no data is waiting, a positive value waits up
    to that long for data. Setting it switches the descriptor's blocking
    mode as a side effect.
 */
module TcpStream {
  import opened Posix
  import opened TcpSocket

  /** The flag word `setTimeout` installs with `fcntl(F_SETFL)`:
      non-blocking exactly for a non-negative timeout. */
  function FlagsFor(t: int): (word: int)
    ensures word >= 0
    ensures NonblockingBit(word) <==> t >= 0
  {
    if t >= 0 then O_NONBLOCK else 0
  }

  /** How many of `calls` are reads. */
  function Reads(calls: seq<Call>): nat
  {
    if calls == [] then 0 else (if calls[0].ReadCall? then 1 else 0) + Reads(calls[1..])
  }

  /** `b` with its first `|d|` elements replaced by `d`: what a `read()`
      that copied `d` leaves in a buffer that held `b`. */
  function Overlay(d: seq<byte>, b: seq<byte>): (r: seq<byte>)
    requires |d| <= |b|
    ensures |r| == |b| && r[..|d|] == d && r[|d|..] == b[|d|..]
  {
    d + b[|d|..]
  }

  /** One run of `Stream::Read`: what it returned or threw, the system calls
      it made, and the bytes the read it returned left in the buffer. */
  datatype ReadRun = ReadRun(result: Result<int>, calls: seq<Call>, filled: seq<byte>)

  /** `Stream::Read` on descriptor `fd` with timeout `timeout`, when the
      first `read()` answers `first`, `poll()` answers `polled` and a read
      after the poll answers `retry`. */
  function ReadSpec(timeout: int, fd: int, bufsize: nat, first: ReadReply, polled: int, retry: ReadReply): (run: ReadRun)
    // every run starts by reading the whole buffer
    ensures 1 <= |run.calls| <= 3 && run.calls[0] == ReadCall(fd, bufsize)
    // it polls only when bounded by a positive timeout and no data was waiting
    ensures PollCall(fd, POLLIN, timeout) in run.calls <==> timeout > 0 && first == ReadFailed(EAgain)
    // it reads a second time only when the poll reported readiness
    ensures Reads(run.calls) == (if timeout > 0 && first == ReadFailed(EAgain) && polled > 0 then 2 else 1)
    // Timeout is thrown only by a bounded read that found no data in time
    ensures run.result == Raise(Timeout) <==>
              timeout >= 0 && first == ReadFailed(EAgain) && (timeout == 0 || polled == 0)
    // every other failure is an Exception: a failed read, or a failed poll
    ensures run.result.Raise? && run.result.error != Timeout ==>
              run.result.error == (if timeout > 0 && first == ReadFailed(EAgain) then Exception(OpPoll)
                                   else Exception(OpRead))
    // it returns (with the value of the last read) exactly when the first read
    // delivered, or the poll reported readiness
    ensures run.result.Ok? <==> first.Received? || (timeout > 0 && first == ReadFailed(EAgain) && polled > 0)
    ensures run.result.Ok? ==> run.result.value == (if first.Received? then first.Value() else retry.Value())
    // the bytes in the buffer are those of the read whose count is returned
    ensures run.result.Ok? ==> run.filled == (if first.Received? then first.Copied() else retry.Copied())
    ensures run.result.Raise? ==> run.filled == []
  {
    var firstRead := [ReadCall(fd, bufsize)];
    if timeout < 0 then
      // blocking read
      if first.Value() < 0 then ReadRun(Raise(Exception(OpRead)), firstRead, [])
      else ReadRun(Ok(first.Value()), firstRead, first.Copied())
    else if first.Value() >= 0 then
      ReadRun(Ok(first.Value()), firstRead, first.Copied())
    else if first.errno != EAgain then
      ReadRun(Raise(Exception(OpRead)), firstRead, [])
    else if timeout == 0 then
      ReadRun(Raise(Timeout), firstRead, [])
    else
      var polling := firstRead + [PollCall(fd, POLLIN, timeout)];
      assert Reads(polling) == 1 by {
        assert polling[1..] == [PollCall(fd, POLLIN, timeout)];
        assert polling[1..][1..] == [];
      }
      assert Reads(polling + [ReadCall(fd, bufsize)]) == 2 by {
        var p := polling + [ReadCall(fd, bufsize)];
        assert p[1..] == [PollCall(fd, POLLIN, timeout), ReadCall(fd, bufsize)];
        assert p[1..][1..] == [ReadCall(fd, bufsize)];
        assert p[1..][1..][1..] == [];
      }
      if polled < 0 then ReadRun(Raise(Exception(OpPoll)), polling, [])
      else if polled == 0 then ReadRun(Raise(Timeout), polling, [])
      else ReadRun(Ok(retry.Value()), polling + [ReadCall(fd, bufsize)], retry.Copied())
  }

  /** `Stream::Write` as intended: one `write()` and no retry; a result
      that is zero or negative raises `Exception`, any other is returned. */
  function WriteSpec(reply: WriteReply): (r: Result<int>)
    ensures r.Raise? <==> reply.Value() <= 0
    ensures r.Raise? ==> r.error == Exception(OpWrite)
    ensures r.Ok? ==> r.value == reply.Value() && r.value > 0
  {
    if reply.Value() <= 0 then Raise(Exception(OpWrite)) else Ok(reply.Value())
  }

  /** `Stream::Write` as written: the `ssize_t` result of `write()` is kept
      in a `size_t`, so the test `n <= 0` only catches 0; `return n` turns
      it back into the signed `size_type`. */
  function WriteAsWritten(reply: WriteReply): (r: Result<int>)
    requires reply.Value() < 0x8000_0000_0000_0000
    ensures r.Raise? <==> reply.Value() == 0
    ensures r.Raise? ==> r.error == Exception(OpWrite)
    // whatever else `write()` answered, failure included, is returned
    ensures r.Ok? ==> r.value == reply.Value()
  {
    var n := ToSizeT(reply.Value());
    if n <= 0 then Raise(Exception(OpWrite)) else Ok(ToSSizeT(n))
  }

  /** A failed `write()` does not raise as written: its -1 comes back as
      the number of bytes written, where the intended version raises. */
  lemma WriteFailureReturnsMinusOne(e: Errno)
    ensures WriteAsWritten(WriteFailed(e)) == Ok(-1)
    ensures WriteSpec(WriteFailed(e)) == Raise(Exception(OpWrite))
  {
  }

  /** The two versions agree on every reply except a failed one. */
  lemma WriteVersionsAgreeOnCounts(reply: WriteReply)
    requires reply.Value() < 0x8000_0000_0000_0000
    ensures WriteAsWritten(reply) == WriteSpec(reply) <==> reply.Accepted?
  {
  }

  /** One run of `Stream::Accept` or `Stream::Connect`: the outcome, the
      system calls made, and the descriptor the socket holds afterwards. */
  datatype SetupRun = SetupRun(outcome: Outcome, calls: seq<Call>, fd: int)

  /** `Stream::Accept` on a stream holding `fd`, from the listening
      descriptor `listenFd`, when `accept()` answers `accepted`. */
  function AcceptSpec(fd: int, timeout: int, listenFd: int, accepted: DescriptorReply): (run: SetupRun)
    ensures |run.calls| >= 1
    // the previous connection is closed before accepting
    ensures fd >= 0 ==> |run.calls| >= 2 && run.calls[0] == CloseCall(fd) && run.calls[1] == AcceptCall(listenFd)
    ensures fd < 0 ==> run.calls[0] == AcceptCall(listenFd)
    ensures run.fd == accepted.Value()
    ensures run.outcome.Success? <==> accepted.NewDescriptor?
    ensures run.outcome.Failure? ==> run.outcome.error == Exception(OpAccept)
    // after success, and only then, the stored timeout is applied to the new descriptor
    ensures run.outcome.Success? <==> run.calls[|run.calls| - 1] == SetFlagsCall(run.fd, FlagsFor(timeout))
  {
    var closing := if fd >= 0 then [CloseCall(fd)] else [];
    if accepted.DescriptorFailed? then
      SetupRun(Failure(Exception(OpAccept)), closing + [AcceptCall(listenFd)], -1)
    else
      SetupRun(Success, closing + [AcceptCall(listenFd), SetFlagsCall(accepted.fd, FlagsFor(timeout))], accepted.fd)
  }

  /** `Stream::Connect` on a stream holding `fd` to `host`:`port`, when
      `socket()` answers `created`, the name lookup `resolved` and
      `connect()` `connected`. */
  function ConnectSpec(fd: int, timeout: int, host: string, port: int,
                       created: DescriptorReply, resolved: CallStatus, connected: CallStatus): (run: SetupRun)
    ensures |run.calls| >= 1
    // a held descriptor is reused; otherwise a new AF_INET stream socket is made first
    ensures fd >= 0 ==> run.calls[0] == ResolveCall(host)
    ensures fd < 0 ==> run.calls[0] == SocketCall(AF_INET, SOCK_STREAM, 0)
                       && run.fd == created.Value()
    ensures fd >= 0 ==> run.fd == fd
    // success exactly when every step succeeded; connect is attempted only on
    // a descriptor and only with a resolved address
    ensures run.outcome.Success? <==>
              (fd >= 0 || created.NewDescriptor?) && resolved.Succeeded? && connected.Succeeded?
    ensures ConnectCall(run.fd, host, port) in run.calls ==>
              run.fd >= 0 && resolved.Succeeded?
    ensures run.outcome.Failure? ==> run.outcome.error.Exception?
    // after success, and only then, the stored timeout is applied
    ensures run.outcome.Success? <==> run.calls[|run.calls| - 1] == SetFlagsCall(run.fd, FlagsFor(timeout))
  {
    if fd < 0 && created.DescriptorFailed? then
      SetupRun(Failure(Exception(OpSocket)), [SocketCall(AF_INET, SOCK_STREAM, 0)], -1)
    else
      var sfd := if fd < 0 then created.fd else fd;
      var creating := if fd < 0 then [SocketCall(AF_INET, SOCK_STREAM, 0)] else [];
      var resolving := creating + [ResolveCall(host)];
      if resolved.CallFailed? then
        SetupRun(Failure(Exception(OpResolve)), resolving, sfd)
      else
        var connecting := resolving + [ConnectCall(sfd, host, port)];
        if connected.CallFailed? then
          SetupRun(Failure(Exception(OpConnect)), connecting, sfd)
        else
          SetupRun(Success, connecting + [SetFlagsCall(sfd, FlagsFor(timeout))], sfd)
  }

  class Stream {
    /** The `Socket` base-class part. */
    const sock: Socket
    /** The read timeout in milliseconds. */
    var timeout: int

    /** `Stream()`: not connected, blocking reads. */
    constructor ()
      ensures fresh(sock) && sock.fd == -1 && !sock.nonblocking && sock.trace == []
      ensures timeout == -1
    {
      sock := new Socket();
      timeout := -1;
    }

    /** `Stream::setTimeout`: always stores `t`; on an open descriptor it
        also makes the descriptor non-blocking exactly when `t >= 0`. */
    method SetTimeout(t: int)
      modifies this`timeout, sock`nonblocking, sock`trace
      ensures timeout == t
      ensures sock.fd >= 0 ==> sock.nonblocking == (t >= 0)
                               && sock.trace == old(sock.trace) + [SetFlagsCall(sock.fd, FlagsFor(t))]
      ensures sock.fd < 0 ==> sock.nonblocking == old(sock.nonblocking) && sock.trace == old(sock.trace)
    {
      timeout := t;
      if sock.fd >= 0 {
        var a := FlagsFor(timeout);
        sock.trace := sock.trace + [SetFlagsCall(sock.fd, a)];
        sock.nonblocking := NonblockingBit(a);
      }
    }

    /** `Stream::Accept`: closes the previous connection, accepts a new one
        and applies the stored timeout to it. */
    method Accept(listenFd: int, accepted: DescriptorReply) returns (r: Outcome)
      modifies this`timeout, sock`fd, sock`nonblocking, sock`trace
      ensures var run := AcceptSpec(old(sock.fd), old(timeout), listenFd, accepted);
              r == run.outcome && sock.fd == run.fd && sock.trace == old(sock.trace) + run.calls
      ensures timeout == old(timeout)
      ensures r.Success? ==> sock.nonblocking == (timeout >= 0)
    {
      sock.Close();
      sock.trace := sock.trace + [AcceptCall(listenFd)];
      sock.fd := accepted.Value();
      if sock.fd < 0 {
        return Failure(Exception(OpAccept));
      }
      sock.nonblocking := false;
      SetTimeout(timeout);
      r := Success;
    }

    /** `Stream::Connect`: makes a socket if none is held, resolves the
        host, connects, and applies the stored timeout. */
    method Connect(host: string, port: int, created: DescriptorReply, resolved: CallStatus,
                   connected: CallStatus) returns (r: Outcome)
      modifies this`timeout, sock`fd, sock`nonblocking, sock`trace
      ensures var run := ConnectSpec(old(sock.fd), old(timeout), host, port, created, resolved, connected);
              r == run.outcome && sock.fd == run.fd && sock.trace == old(sock.trace) + run.calls
      ensures timeout == old(timeout)
      ensures r.Success? ==> sock.nonblocking == (timeout >= 0)
      // a failure leaves the descriptor it made blocking and a reused one in
      // its mode, whatever the timeout says
      ensures r.Failure? ==>
                sock.nonblocking == (if old(sock.fd) < 0 && created.NewDescriptor? then false else old(sock.nonblocking))
    {
      if sock.fd < 0 {
        var made := sock.Create(AF_INET, SOCK_STREAM, 0, created);
        if made.Failure? {
          return made;
        }
      }
      sock.trace := sock.trace + [ResolveCall(host)];
      if resolved.CallFailed? {
        return Failure(Exception(OpResolve));
      }
      sock.trace := sock.trace + [ConnectCall(sock.fd, host, port)];
      if connected.CallFailed? {
        return Failure(Exception(OpConnect));
      }
      SetTimeout(timeout);
      r := Success;
    }

    /** `::read(getFd(), buffer, bufsize)`: the kernel copies what it
        received to the start of the buffer and returns the count, or -1. */
    method SysRead(buffer: array<byte>, bufsize: nat, reply: ReadReply) returns (n: int)
      requires bufsize <= buffer.Length
      requires reply.Received? ==> |reply.data| <= bufsize
      modifies buffer, sock`trace
      ensures n == reply.Value()
      ensures sock.trace == old(sock.trace) + [ReadCall(sock.fd, bufsize)]
      ensures buffer[..] == Overlay(reply.Copied(), old(buffer[..]))
    {
      sock.trace := sock.trace + [ReadCall(sock.fd, bufsize)];
      var d := reply.Copied();
      forall i | 0 <= i < |d| {
        buffer[i] := d[i];
      }
      n := reply.Value();
    }

    /** `Stream::Read` into `buffer[0..bufsize)`. */
    method Read(buffer: array<byte>, bufsize: nat, first: ReadReply, polled: int, retry: ReadReply)
      returns (r: Result<int>)
      requires bufsize <= buffer.Length
      requires first.Received? ==> |first.data| <= bufsize
      requires retry.Received? ==> |retry.data| <= bufsize
      modifies buffer, sock`trace
      ensures var run := ReadSpec(timeout, sock.fd, bufsize, first, polled, retry);
              r == run.result && sock.trace == old(sock.trace) + run.calls
              && buffer[..] == Overlay(run.filled, old(buffer[..]))
    {
      if timeout < 0 {
        // blocking read
        var n := SysRead(buffer, bufsize, first);
        if n < 0 {
          return Raise(Exception(OpRead));
        }
        return Ok(n);
      } else {
        // try reading without waiting first
        var n := SysRead(buffer, bufsize, first);
        if n < 0 {
          if first.errno == EAgain {
            if timeout == 0 {
              return Raise(Timeout);
            }
            sock.trace := sock.trace + [PollCall(sock.fd, POLLIN, timeout)];
            var p := polled;
            if p < 0 {
              return Raise(Exception(OpPoll));
            } else if p == 0 {
              return Raise(Timeout);
            }
            n := SysRead(buffer, bufsize, retry);
          } else {
            return Raise(Exception(OpRead));
          }
        }
        return Ok(n);
      }
    }

    /** `Stream::Write` (as intended, see `WriteAsWritten`): one `write()`
        of `data`, no retry of a partial write. */
    method Write(data: seq<byte>, reply: WriteReply) returns (r: Result<int>)
      requires reply.Accepted? ==> reply.count <= |data|
      modifies sock`trace
      ensures r == WriteSpec(reply)
      ensures r.Ok? ==> r.value <= |data|
      ensures sock.trace == old(sock.trace) + [WriteCall(sock.fd, data)]
    {
      sock.trace := sock.trace + [WriteCall(sock.fd, data)];
      var n := reply.Value();
      if n <= 0 {
        return Raise(Exception(OpWrite));
      }
      r := Ok(n);
    }
  }
}
