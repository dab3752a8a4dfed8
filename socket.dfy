/** `cxxtools::tcp::Socket`: ownership of one socket descriptor, and the
    scoped saver of its file-status flags (`Socket::saveflags`). */
module TcpSocket {
  import opened Posix

  /** The calls whose failure raises `tcp::Exception`. */
  datatype Op = OpSocket | OpGetFlags | OpAccept | OpResolve | OpConnect | OpRead | OpPoll | OpWrite

  /** `tcp::Exception` (the failed operation; the errno text is not kept)
      and `tcp::Timeout`. */
  datatype TcpError = Exception(op: Op) | Timeout

  /** A value, or the exception that was thrown instead. */
  datatype Result<T> = Ok(value: T) | Raise(error: TcpError)

  /** Normal completion, or the exception that was thrown. */
  datatype Outcome = Success | Failure(error: TcpError)

  class Socket {
    /** `m_sockFd`: the owned descriptor, -1 when closed. */
    var fd: int
    /** The `O_NONBLOCK` status flag of the descriptor, as the kernel holds it. */
    var nonblocking: bool
    /** Every system call made on behalf of this socket, oldest first. */
    ghost var trace: seq<Call>

    /** The default constructor: no descriptor. */
    constructor ()
      ensures fd == -1 && !nonblocking && trace == []
    {
      fd := -1;
      nonblocking := false;
      trace := [];
    }

    /** `Socket::close`: releases the descriptor if one is held; otherwise
        does nothing (so a second close is a no-op); never fails. */
    method Close()
      modifies this`fd, this`trace
      ensures old(fd) >= 0 ==> fd == -1 && trace == old(trace) + [CloseCall(old(fd))]
      ensures old(fd) < 0 ==> fd == old(fd) && trace == old(trace)
    {
      if fd >= 0 {
        trace := trace + [CloseCall(fd)];
        fd := -1;
      }
    }

    /** `Socket::create`: closes any held descriptor first, then asks for a
        new one; the reply is stored in `m_sockFd` even when it is -1, and
        a failure raises `Exception`. A new descriptor starts blocking. */
    method Create(domain: int, kind: int, protocol: int, reply: DescriptorReply) returns (r: Outcome)
      modifies this`fd, this`nonblocking, this`trace
      ensures trace == old(trace) + (if old(fd) >= 0 then [CloseCall(old(fd))] else [])
                                   + [SocketCall(domain, kind, protocol)]
      ensures fd == reply.Value()
      ensures r.Success? <==> reply.NewDescriptor?
      ensures r.Failure? ==> r.error == Exception(OpSocket) && nonblocking == old(nonblocking)
      ensures r.Success? ==> !nonblocking
    {
      Close();
      trace := trace + [SocketCall(domain, kind, protocol)];
      fd := reply.Value();
      if fd < 0 {
        return Failure(Exception(OpSocket));
      }
      nonblocking := false;
      r := Success;
    }
  }

  /** `Socket::saveflags`: remembers the file-status flags of one descriptor
      and puts them back when it goes out of scope. */
  class SaveFlags {
    const sock: Socket
    const fd: int
    const flags: int

    constructor (sock: Socket, fd: int, flags: int)
      ensures this.sock == sock && this.fd == fd && this.flags == flags
    {
      this.sock := sock;
      this.fd := fd;
      this.flags := flags;
    }

    /** The constructor: reads the flags with `fcntl(F_GETFL)`, whose reply
        is `getfl`; a negative reply raises `Exception`. The kernel's reply
        reports the descriptor's real `O_NONBLOCK` flag. */
    static method Save(sock: Socket, getfl: int) returns (r: Result<SaveFlags>)
      requires getfl >= 0 ==> (NonblockingBit(getfl) <==> sock.nonblocking)
      modifies sock`trace
      ensures sock.trace == old(sock.trace) + [GetFlagsCall(sock.fd)]
      ensures r.Raise? <==> getfl < 0
      ensures r.Raise? ==> r.error == Exception(OpGetFlags)
      ensures r.Ok? ==> fresh(r.value) && r.value.sock == sock && r.value.fd == sock.fd
                        && r.value.flags == getfl
                        && (NonblockingBit(r.value.flags) <==> sock.nonblocking)
    {
      sock.trace := sock.trace + [GetFlagsCall(sock.fd)];
      if getfl < 0 {
        return Raise(Exception(OpGetFlags));
      }
      var saved := new SaveFlags(sock, sock.fd, getfl);
      r := Ok(saved);
    }

    /** The destructor: `fcntl(F_SETFL)` with the saved word. When the
        socket still holds the saved descriptor, its blocking mode is again
        the one captured by `Save`. */
    method Restore()
      modifies sock`nonblocking, sock`trace
      ensures flags >= 0 ==> sock.trace == old(sock.trace) + [SetFlagsCall(fd, flags)]
      ensures flags >= 0 && sock.fd == fd ==> (sock.nonblocking <==> NonblockingBit(flags))
      ensures flags < 0 || sock.fd != fd ==> sock.nonblocking == old(sock.nonblocking)
      ensures flags < 0 ==> sock.trace == old(sock.trace)
    {
      if flags >= 0 {
        sock.trace := sock.trace + [SetFlagsCall(fd, flags)];
        if sock.fd == fd {
          sock.nonblocking := NonblockingBit(flags);
        }
      }
    }
  }

  /** The use `saveflags` exists for: whatever is done to the blocking mode
      between `Save` and `Restore`, the descriptor's mode afterwards is the
      one it had before. */
  method ScopedFlags(sock: Socket, getfl: int, forceNonblocking: bool) returns (r: Outcome)
    requires getfl >= 0 ==> (NonblockingBit(getfl) <==> sock.nonblocking)
    modifies sock`nonblocking, sock`trace
    ensures sock.nonblocking == old(sock.nonblocking)
    ensures r.Failure? <==> getfl < 0
  {
    var saved := SaveFlags.Save(sock, getfl);
    if saved.Raise? {
      return Failure(saved.error);
    }
    var guard := saved.value;
    if sock.fd >= 0 {
      sock.trace := sock.trace + [SetFlagsCall(sock.fd, if forceNonblocking then O_NONBLOCK else 0)];
      sock.nonblocking := forceNonblocking;
    }
    guard.Restore();
    r := Success;
  }
}
