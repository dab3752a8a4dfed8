# cxxtools TCP transport and level logger, modelled in Dafny

This project models two parts of cxxtools:

- **The TCP transport** (`cxxtools/src/tcpstream.cpp`). `tcp::Socket` owns one descriptor. `tcp::Stream` adds a read timeout. Setting the timeout switches the descriptor between blocking and non-blocking mode. `Stream::Read` reads at once and, when the bound is positive and no data is waiting, waits in `poll()` and reads one more time. With a bound of 0 it raises `Timeout` without polling. `tcp::streambuf` is the buffer that iostream code reads and writes through. Its `overflow`, `underflow` and `sync` move a put area and a get area over one array `m_buffer` and call `Stream::Write` and `Stream::Read`.
- **The logger** (`include/cxxtools/log/cxxtools.h`). A `Logger` has a category and a level. `isEnabled(l)` holds when the logger's level is at least `l`. The logging macros make a message only through a logger that exists and is enabled. `log_define` looks the logger up once and caches it.

The operating system is not modelled. Each system call is answered by a reply value that the caller of the model passes in: a descriptor or failure, the bytes `read()` copied or an errno, a `write()` count or an errno, a `poll()` count. Every call the transport makes is appended to the socket's ghost `trace`. So the contracts can say which calls were made, with which arguments, in which order, and which were not made.

Files and modules:

- `posix.dfy` (`Posix`): bytes, errno, system-call replies, the `Call` record, and explicit C conversions (`ssize_t` to `size_t` and back, a 64-bit count to a 32-bit `int`).
- `socket.dfy` (`TcpSocket`): `Socket` (`create`, `close`), `SaveFlags` (`saveflags`), and the exception types (`tcp::Exception` and `tcp::Timeout` as the `TcpError` datatype, with `Result`/`Outcome` in place of throwing).
- `stream.dfy` (`TcpStream`): `Stream` (constructor, `setTimeout`, `Accept`, `Connect`, `Read`, `Write`). `Accept`, `Connect`, `Read` and `Write` are proved against pure specification functions: `AcceptSpec`, `ConnectSpec`, `ReadSpec`, `WriteSpec`. The constructor and `setTimeout` state their new state directly.
- `streambuf.dfy` (`TcpStreamBuf`): `StreamBuf` over an `array<byte>` with the six area pointers as indices. It is proved against `OverflowSpec`, `UnderflowSpec` and `SyncSpec`. The logic of `overflow` and `sync` is defined once, in `OverflowStep` and `SyncStep`, over whatever `Stream::Write` produced. It is then composed both with the intended `Stream::Write` and with the one as written. A round-trip lemma shows that bytes put through the buffer and flushed reach `write()` unchanged and in order.
- `logger.dfy` (`CxxLog`): `Level`, `Logger`, the gating of `_cxxtools_log`/`_cxxtools_log_if`/`_cxxtools_log_enabled`, and the cached lookup of `log_define`.

Behaviour of the code that a reader might not expect, modelled as the code has it:

- The read after a successful `poll()` returns its result unchecked (`tcpstream.cpp:289-299`). A failed retry therefore returns -1 instead of raising `Exception`. `streambuf::underflow` turns that -1 into eof.
- `tcp::streambuf` keeps its put area and its get area in one array (`m_buffer`), so each can overwrite the other. `StreamBuf.Overflow` states that staging a byte overwrites `m_buffer[0]`, even when that byte is unread input in the get area. In the other direction, `StreamBuf.Underflow` states that the read overlays the start of the buffer. Pending output in `[pbase, pptr)` that lies there is replaced by the bytes read, and `Put()` then reports those bytes as pending.
- `overflow` resets the put area after any write count that is positive as an `int`. A count of 2^31 or more wraps to a negative `int` and gives eof. Bytes that a partial write did not take are dropped (`OverflowDropsUnwrittenBytes`).
- `Stream::Write` only catches a zero result, so a failed `write()` comes back as the count -1. See Findings.
- `setTimeout` and the `saveflags` destructor ignore the result of `fcntl(F_SETFL)` (`tcpstream.cpp:322`, `:76`).

`Stream::size_type` is declared in `tcpstream.h`, which is not part of this model. The model reads it as a signed 64-bit type, for both `Read` and `Write`. Under that reading, the tests `n < 0` (`tcpstream.cpp:242`) and `n <= 0` (`:356`) catch a -1 from `read()`. It also means that `return n` at `:311` turns the `size_t` value of a failed `write()` back into -1.

## Model

| member | source | states |
|---|---|---|
| `TcpSocket.Socket.constructor` | cxxtools/src/tcpstream.cpp:173-175 | The `Socket` base that `Stream()` constructs by default holds no descriptor (-1) and has made no system call. Its definition is in `tcpstream.h`, which is not part of this model (see Left out). |
| `TcpSocket.Socket.Close` | cxxtools/src/tcpstream.cpp:102-109 | An open descriptor is handed to `close()` and the field becomes -1. On a closed socket, nothing is called and nothing changes, so a second close is a no-op and never fails. |
| `TcpSocket.Socket.Create` | cxxtools/src/tcpstream.cpp:94-100 | Any held descriptor is closed before `socket()` is called. The reply is stored even when it is -1. It fails with `Exception` exactly when `socket()` failed. A new descriptor is blocking. |
| `TcpSocket.SaveFlags.Save` | cxxtools/src/tcpstream.cpp:62-71 | Calls `fcntl(F_GETFL)` once. A negative reply raises `Exception`. Otherwise it remembers the descriptor and the flag word, whose `O_NONBLOCK` bit is the socket's mode at that moment. |
| `TcpSocket.SaveFlags.Restore` | cxxtools/src/tcpstream.cpp:73-77 | Calls `fcntl(F_SETFL)` with the saved word when it is non-negative. If the socket still holds the saved descriptor, it is then in the blocking mode that was captured. |
| `TcpSocket.ScopedFlags` | cxxtools/src/tcpstream.cpp:62-77 | Whatever mode is forced between save and restore, the descriptor's mode afterwards is the one it had before. |
| `TcpStream.FlagsFor` | cxxtools/src/tcpstream.cpp:320 | The word `setTimeout` installs has `O_NONBLOCK` exactly when the timeout is non-negative. |
| `TcpStream.Stream.constructor` | cxxtools/src/tcpstream.cpp:173-175 | A new stream has no descriptor and timeout -1, so its reads block. |
| `TcpStream.Stream.SetTimeout` | cxxtools/src/tcpstream.cpp:314-324 | The timeout is always stored. On an open descriptor, one `F_SETFL` call makes the descriptor non-blocking exactly when `t >= 0`. On a closed one, no call is made and the mode does not change. |
| `TcpStream.AcceptSpec` | cxxtools/src/tcpstream.cpp:197-208 | An open previous connection is closed before `accept()`. The socket holds what `accept()` returned. Failure raises `Exception`. The stored timeout is applied to the new descriptor after success, and only then. |
| `TcpStream.Stream.Accept` | cxxtools/src/tcpstream.cpp:197-208 | Does exactly what `AcceptSpec` describes, keeps the timeout, and after success the mode matches the timeout. |
| `TcpStream.ConnectSpec` | cxxtools/src/tcpstream.cpp:210-230 | A held descriptor is reused. Otherwise an `AF_INET`/`SOCK_STREAM` socket is created first. It succeeds exactly when creation, name lookup and `connect()` all succeed. `connect()` is attempted only on a descriptor with a resolved address. Failures are `Exception`, never `Timeout`. The stored timeout is applied after success, and only then. |
| `TcpStream.Stream.Connect` | cxxtools/src/tcpstream.cpp:210-230 | Does exactly what `ConnectSpec` describes and keeps the timeout. After success the mode matches the timeout. After a failure, a descriptor it made stays open and blocking and a reused one keeps its mode, so the mode can disagree with the timeout. |
| `TcpStream.ReadSpec` | cxxtools/src/tcpstream.cpp:234-301 | Every read starts with one `read()` of the whole buffer. It polls only when the timeout is positive and the first read said `EAGAIN`. It reads a second time only when the poll reported readiness. `Timeout` is raised exactly when a bounded read found no data and either the timeout is 0 or the poll expired. So a blocking read never times out. Every other failure is `Exception`. A returned count is the last read's, and the buffer holds those bytes. |
| `TcpStream.Stream.Read` | cxxtools/src/tcpstream.cpp:234-301 | Returns what `ReadSpec` returns and makes exactly its calls. The buffer's prefix becomes the bytes of the read whose count is returned, and the rest is unchanged. |
| `TcpStream.WriteSpec` | cxxtools/src/tcpstream.cpp:303-312 | A write raises `Exception` exactly when `write()` returned zero or a negative value. Otherwise it returns the positive count. |
| `TcpStream.Stream.Write` | cxxtools/src/tcpstream.cpp:303-312 | One `write()` of the given bytes with no retry. The result is `WriteSpec`'s and never exceeds the number of bytes offered. |
| `TcpStream.WriteAsWritten` | cxxtools/src/tcpstream.cpp:306-311 | As written, only a zero result raises, because the result is held in a `size_t`. Every other answer of `write()`, failure included, is returned unchanged as the signed `size_type`. |
| `TcpStream.WriteFailureReturnsMinusOne` | cxxtools/src/tcpstream.cpp:306-311 | A failed `write()` makes the code as written return -1 as the byte count, where the intended version raises. |
| `TcpStream.WriteVersionsAgreeOnCounts` | cxxtools/src/tcpstream.cpp:306-311 | The written and the intended version agree exactly on the replies where `write()` did not fail. |
| `Posix.ToSizeT` | cxxtools/src/tcpstream.cpp:306 | Converting `ssize_t` to `size_t` keeps non-negative values and wraps negative ones by 2^64. |
| `Posix.ToSSizeT` | cxxtools/src/tcpstream.cpp:311 | Converting `size_t` back to a signed 64-bit value keeps values below 2^63 and maps larger ones to negative ones, so `SIZE_MAX` becomes -1. |
| `Posix.ToInt32` | cxxtools/src/tcpstream.cpp:338 | Converting a signed 64-bit count to `int` keeps values in the `int` range and wraps values from 2^31 up to 2^32 into negative ones. |
| `TcpStreamBuf.ToChar` | cxxtools/src/tcpstream.cpp:346 | `(char_type)c` keeps every value of a byte. |
| `TcpStreamBuf.StreamBuf.constructor` | cxxtools/src/tcpstream.cpp:326-332 | Allocates a buffer of `bufsize` bytes with empty put and get areas, stores the timeout in the stream and passes it on as `setTimeout` does. On an open stream, one `F_SETFL` call sets the mode to match. On a closed one, no call is made and the mode stays. |
| `TcpStreamBuf.OverflowStep` | cxxtools/src/tcpstream.cpp:334-351 | For any result of `Stream::Write`: the pending bytes are handed to `Write`, and nothing is written when none are pending. A write exception propagates, and a count that is not positive as an `int` returns eof. Both leave the put area untouched. Otherwise it returns 0, the put area is the whole buffer, and `c` (unless eof) is its only pending byte. |
| `TcpStreamBuf.OverflowSpec` | cxxtools/src/tcpstream.cpp:334-351 | Over the intended `Stream::Write`: a failed or empty write raises `Exception` and keeps the put area. A count that wraps to a non-positive `int` returns eof. Otherwise the area is reset as in `OverflowStep`. |
| `TcpStreamBuf.OverflowAsWritten` | cxxtools/src/tcpstream.cpp:334-351 | Over `Stream::Write` as written: only an empty write raises. A failed `write()` returns eof with the put area and its pending bytes kept. |
| `TcpStreamBuf.StreamBuf.Overflow` | cxxtools/src/tcpstream.cpp:334-351 | Returns what `OverflowSpec` returns. The put area becomes its new area, and exactly the one write it describes is made. |
| `TcpStreamBuf.UnderflowSpec` | cxxtools/src/tcpstream.cpp:353-361 | A read exception propagates. A count of zero or less gives eof and leaves the get area. Otherwise the get area is exactly the bytes read, and the first of them is returned as an unsigned char. |
| `TcpStreamBuf.StreamBuf.Underflow` | cxxtools/src/tcpstream.cpp:353-361 | One `Stream::Read` of the whole buffer. Returns `UnderflowSpec`'s result. On success the get area is `m_buffer[0..n)` holding the bytes delivered. Otherwise the get pointers are unchanged. |
| `TcpStreamBuf.UnderflowDelivers` | cxxtools/src/tcpstream.cpp:353-361 | When the first read delivers bytes, `underflow` exposes exactly those bytes and returns the first, whatever the timeout. |
| `TcpStreamBuf.SyncStep` | cxxtools/src/tcpstream.cpp:363-374 | For any result of `Stream::Write`: with nothing pending it returns 0 and does not write. A write exception propagates and a count that is not positive as an `int` returns -1; in both cases the pending bytes stay. Otherwise the put area is emptied and it returns 0. |
| `TcpStreamBuf.SyncSpec` | cxxtools/src/tcpstream.cpp:363-374 | Over the intended `Stream::Write`: a failed or empty write raises `Exception` and keeps the pending bytes. A count that wraps to a non-positive `int` returns -1. A successful write empties the put area and returns 0. |
| `TcpStreamBuf.SyncAsWritten` | cxxtools/src/tcpstream.cpp:363-374 | Over `Stream::Write` as written: only an empty write raises. A failed `write()` returns -1 with the pending bytes kept. |
| `TcpStreamBuf.FailedFlushVersions` | cxxtools/src/tcpstream.cpp:306-311 | With bytes pending, a failed `write()` makes `overflow` and `sync` raise as intended. As written, they return eof and -1 instead. |
| `TcpStreamBuf.StreamBuf.Sync` | cxxtools/src/tcpstream.cpp:363-374 | Returns what `SyncSpec` returns, with the put area and the write it describes. |
| `TcpStreamBuf.PutAll` | cxxtools/src/tcpstream.cpp:343-347 | Putting bytes one by one through `overflow` keeps the put area within the buffer. |
| `TcpStreamBuf.PutOneKeepsBounds` | cxxtools/src/tcpstream.cpp:334-351 | One put keeps the put area within the buffer and loses no byte while writes are whole. |
| `TcpStreamBuf.PutAllKeepsOrder` | cxxtools/src/tcpstream.cpp:334-351 | While writes take whole chunks, the bytes written followed by the bytes pending are the earlier pending bytes followed by the bytes put. |
| `TcpStreamBuf.FlushDeliversAll` | cxxtools/src/tcpstream.cpp:334-374 | Round trip: bytes put into a fresh stream buffer and flushed with `sync` reach `write()` exactly as put and in order, and the put area ends empty. |
| `TcpStreamBuf.OverflowDropsUnwrittenBytes` | cxxtools/src/tcpstream.cpp:336-343 | After a partial write, `overflow` still clears the put area, so the bytes not taken are lost. |
| `CxxLog.Logger.constructor` | include/cxxtools/log/cxxtools.h:131-133 | The getters return exactly the category and level given. |
| `CxxLog.Logger.GetCategory` | include/cxxtools/log/cxxtools.h:137-138 | Returns the category fixed at construction. |
| `CxxLog.Logger.GetLogLevel` | include/cxxtools/log/cxxtools.h:139-140 | The level reported is the threshold of `isEnabled`: the logger lets through its own level and exactly the levels up to it. |
| `CxxLog.Logger.IsEnabled` | include/cxxtools/log/cxxtools.h:135-136 | `level >= l` on the enumerator values agrees with an independent table of the levels each level lets through. |
| `CxxLog.Logger.SetLogLevel` | include/cxxtools/log/cxxtools.h:141-142 | Only the level changes, to the given value. |
| `CxxLog.EnabledIsMonotone` | include/cxxtools/log/cxxtools.h:114-136 | A logger enabled for a level is enabled for every numerically lower level. |
| `CxxLog.FatalAlwaysEnabled` | include/cxxtools/log/cxxtools.h:114-136 | `FATAL` (0) is enabled at every level. |
| `CxxLog.LogEnabled` | include/cxxtools/log/cxxtools.h:35-36 | True exactly when the logger exists and its level lets the level through. |
| `CxxLog.Log` | include/cxxtools/log/cxxtools.h:38-47 | Exactly one message (the logger's category, the level's name and `expr`'s text) when the logger exists and is enabled. Otherwise none is made, and `expr` is evaluated only in the first case. |
| `CxxLog.LogIf` | include/cxxtools/log/cxxtools.h:49-58 | As `Log`, with `cond` also required. `cond` is evaluated only after the logger was found and is enabled. |
| `CxxLog.LogSite.constructor` | include/cxxtools/log/cxxtools.h:94 | The cached logger starts null. |
| `CxxLog.LogSite.GetLogger` | include/cxxtools/log/cxxtools.h:91-100 | Returns null with no lookup while the log manager is disabled. Otherwise it returns the cached logger. Only while nothing is cached does it look the category up and cache the answer, even a null one. |
| `CxxLog.LookupHappensOnce` | include/cxxtools/log/cxxtools.h:91-100 | Once a lookup found a logger, later calls return it with no further lookup. |

## Left out

- `Server` (`tcpstream.cpp:125-168`): name lookup, `setsockopt(SO_REUSEADDR)`, `bind` and `listen` are calls into the operating system. `Accept` takes the listening descriptor as a number.
- `Socket::getSockAddr` (`tcpstream.cpp:111-120`): `getsockname` is an operating-system query.
- The peer address (`peeraddr`, `htons`, copying the resolved address): only the host and port handed to `connect()` are recorded.
- `Socket(domain, type, protocol)` (`tcpstream.cpp:79-83`) throws from a constructor. It is modelled as the default constructor followed by `Create`, which matches because closing a socket that holds -1 does nothing. `Stream(server)` and `Stream(host, port)` are likewise `Stream()` followed by `Accept` or `Connect`.
- `~Socket` (`tcpstream.cpp:85-92`): Dafny has no destructors. It closes like `Close` and also prints a message to stderr when `close()` fails.
- Exception texts and the stored errno (`tcpstream.cpp:49-57`): `strerror` is a foreign call. An `Exception` carries only the operation that failed.
- `TcpStreamBuf.OverflowSpec`, `TcpStreamBuf.StreamBuf.Overflow`: these use the corrected `Stream::Write`, so a failed `write()` raises `Exception`. The code as written returns eof instead. That behaviour is `OverflowAsWritten`, and `FailedFlushVersions` contrasts the two.
- `TcpStreamBuf.SyncSpec`, `TcpStreamBuf.StreamBuf.Sync`: these use the corrected `Stream::Write`, so a failed `write()` raises `Exception`. The code as written returns -1 instead, which is `SyncAsWritten`.
- `TcpStream.Stream.SetTimeout`, `TcpSocket.SaveFlags.Restore`: the model assumes `fcntl(F_SETFL)` succeeds. The source ignores its result (`tcpstream.cpp:322`, `:76`), and a failed call would leave the mode unchanged, which is not modelled.
- `tcpstream.h` is not part of this model. The model assumes: the default `Socket` constructor holds -1, `bad()` means a negative descriptor, `setFd` stores the descriptor, `streambuf::setTimeout` forwards to the stream, and `Stream::size_type` is a signed 64-bit type.
- Wall-clock time: `poll()` is a reply; how long it waited is not modelled.
- `TcpSocket.SaveFlags.Restore`: of the restored flag word, only the `O_NONBLOCK` bit is tracked. Likewise, `setTimeout` overwrites the whole flag word, but only the resulting `O_NONBLOCK` bit is modelled.
- `StreamBuf` requires a positive buffer size. With a zero size, `overflow` would store a byte at `m_buffer[0]` of an empty buffer.
- The put protocol of `std::basic_streambuf::sputc` belongs to the C++ library. It appears only as the pure driver `PutOne`/`PutAll` of the round-trip lemma.
- `LogManager`, `LogMessage`, `LogConfiguration` and `log_init` are declarations only. The manager's enabled flag and its answer to a lookup are inputs, and a finished message is a record appended to a sink.
- `log_trace` and `LogTracer` (`cxxtools.h:79-89`): the tracer's enter/exit behaviour is not shown. Its gate is the `TRACE` case of `LogEnabled`.
- A log level is one of the six enumerators. Other integer values cast to the enum are not modelled. The evaluation of `expr` and `cond` is recorded as ghost flags, and their other side effects are not modelled.
- `include/cxxtools/http/client.h`, `cxxtools/include/cxxtools/base64stream.h`, `cxxtools/include/cxxtools/xml/enddocument.h` and `cxxtools/include/cxxtools/log.h` are declarations or wrappers over other libraries.

## Findings

| source | as written | input that shows it | evidently intended | confidence | as-written member | corrected member |
|---|---|---|---|---|---|---|
| cxxtools/src/tcpstream.cpp:306-309 | The `ssize_t` result of `write()` is stored in a `size_t`, so `n <= 0` only catches 0. A failed write is not caught. `return n` turns it back into the signed `size_type`, so -1 is returned as the byte count instead of raising. | `write()` fails and returns -1, for example because the peer closed the connection. | Raise `Exception("tcp::Stream: error in write")` for every result of zero or less. | high, not executed | `TcpStream.WriteAsWritten` (`TcpStream.WriteFailureReturnsMinusOne`) | `TcpStream.WriteSpec` (used by `TcpStream.Stream.Write`) |

As written, `streambuf::overflow` and `sync` therefore report the failure as eof and -1 (`OverflowAsWritten`, `SyncAsWritten`) rather than raising. Other callers of `Stream::Write` receive -1 as a byte count.
