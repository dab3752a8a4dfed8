/** The operating-system interface the TCP transport is written against.

    The kernel is not modelled: every system call the transport makes is
    answered by a reply value supplied from outside (an oracle), and every
    call the transport makes is recorded as a `Call`, so that contracts can
    say which calls were made, with which arguments and in which order.
 */
module Posix {

  /** One octet of a `char` buffer. */
  newtype byte = x: int | 0 <= x < 256

  // Constants of the Linux system interface used by the transport.
  const AF_INET: int := 2
  const SOCK_STREAM: int := 1
  const POLLIN: int := 1
  const O_NONBLOCK: nat := 0x800

  /** Largest value of the 64-bit `size_t`. */
  const SIZE_MAX: nat := 0xFFFF_FFFF_FFFF_FFFF

  /** The errno values the transport tells apart: only `EAGAIN` is special. */
  datatype Errno = EAgain | OtherErrno(code: int)

  /** What `socket()` or `accept()` answers: a new descriptor, or -1 and errno. */
  datatype DescriptorReply = NewDescriptor(fd: nat) | DescriptorFailed(errno: Errno)
  {
    /** The C return value. */
    function Value(): (v: int)
      ensures v < 0 <==> DescriptorFailed?
      ensures DescriptorFailed? ==> v == -1
    {
      if NewDescriptor? then fd else -1
    }
  }

  /** What `read()` answers: the bytes it copied into the buffer, or -1 and errno. */
  datatype ReadReply = Received(data: seq<byte>) | ReadFailed(errno: Errno)
  {
    function Value(): (v: int)
      ensures v < 0 <==> ReadFailed?
      ensures Received? ==> v == |data|
    {
      if Received? then |data| else -1
    }

    /** The bytes the call left at the start of the caller's buffer. */
    function Copied(): (d: seq<byte>)
      ensures ReadFailed? ==> d == []
      ensures Received? ==> |d| == Value()
    {
      if Received? then data else []
    }
  }

  /** What `write()` answers: how many bytes it took, or -1 and errno. */
  datatype WriteReply = Accepted(count: nat) | WriteFailed(errno: Errno)
  {
    function Value(): (v: int)
      ensures v < 0 <==> WriteFailed?
      ensures Accepted? ==> v == count
    {
      if Accepted? then count else -1
    }
  }

  /** What a call that only succeeds or fails answers (`connect()`, and the
      name lookup `gethostbyname()`, whose failure is a null result). */
  datatype CallStatus = Succeeded | CallFailed

  /** A system call as the transport issued it. */
  datatype Call =
    | SocketCall(domain: int, kind: int, protocol: int)
    | CloseCall(fd: int)
    | GetFlagsCall(fd: int)
    | SetFlagsCall(fd: int, flags: int)
    | AcceptCall(listenFd: int)
    | ResolveCall(host: string)
    | ConnectCall(fd: int, host: string, port: int)
    | ReadCall(fd: int, len: nat)
    | PollCall(fd: int, events: int, timeout: int)
    | WriteCall(fd: int, data: seq<byte>)

  /** The C conversion of a 64-bit `ssize_t` to the unsigned 64-bit `size_t`. */
  function ToSizeT(v: int): (n: nat)
    requires -0x8000_0000_0000_0000 <= v < 0x8000_0000_0000_0000
    ensures n <= SIZE_MAX
    ensures v >= 0 ==> n == v
    ensures v < 0 ==> n == v + SIZE_MAX + 1
  {
    v % (SIZE_MAX + 1)
  }

  /** The C conversion of a `size_t` back to the signed 64-bit `ssize_t`
      (two's complement wrap-around, as the compilers the library targets do
      it). */
  function ToSSizeT(n: nat): (v: int)
    requires n <= SIZE_MAX
    ensures -0x8000_0000_0000_0000 <= v < 0x8000_0000_0000_0000
    ensures n < 0x8000_0000_0000_0000 ==> v == n
    ensures n >= 0x8000_0000_0000_0000 ==> v == n - (SIZE_MAX + 1)
  {
    if n < 0x8000_0000_0000_0000 then n else n - (SIZE_MAX + 1)
  }

  /** The conversion of a signed 64-bit count to a 32-bit `int` (two's
      complement wrap-around). */
  function ToInt32(v: int): (i: int)
    requires -0x8000_0000_0000_0000 <= v < 0x8000_0000_0000_0000
    ensures -0x8000_0000 <= i < 0x8000_0000
    ensures -0x8000_0000 <= v < 0x8000_0000 ==> i == v
    ensures 0x8000_0000 <= v < 0x1_0000_0000 ==> i == v - 0x1_0000_0000
  {
    var m := v % 0x1_0000_0000;
    if m < 0x8000_0000 then m else m - 0x1_0000_0000
  }

  /** Whether a file-status flag word has `O_NONBLOCK` set. */
  predicate NonblockingBit(word: int)
    requires word >= 0
  {
    (word / O_NONBLOCK) % 2 == 1
  }
}
