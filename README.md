# TcpToPipe in Dafny

TcpToPipe relays bytes between a local named-pipe server and a remote TCP
server. This project models the two parts of `TcpToPipe/Program.cs` that are
not I/O, and proves properties of them:

- **Start-up configuration** (`config.dfy`, `int_parse.dfy`). The optional
  `--remote` and `--pipe` values become a host, a port and a pipe name. The
  defaults are `localhost`, `3333` and `windbg`. The remote is split at its
  last `:`. The suffix is parsed with `int.TryParse`. An empty host prefix
  falls back to `localhost`. A C# `null` option value is `None`.
- **The shared byte channel** (`channel.dfy`). `ByteChannel` is a class whose
  fields are the `MemoryStream`'s contents and position and the
  `SemaphoreSlim`'s count. Ghost fields record every chunk appended and every
  chunk drained. The producer's lock block is `Append`. The consumer's
  `WaitAsync` is `Wait`, and its lock block is `Take`. `Drain` does both in one
  step. The relay uses two channels, one per direction, in the same way.

The channel invariant `ByteChannel.Valid` says four things:

- every write lands at the end of the stream;
- the semaphore count never exceeds 1;
- the drained chunks followed by the current buffer equal the appended chunks,
  in order, so nothing is lost, duplicated or reordered;
- buffered bytes always have a pending wake-up: either the flag is up or the
  consumer has already woken.

Two behaviours of the code are worth stating on their own:

- A remote with a colon whose suffix does not parse gets port **0**, not
  3333. `out port` is written even when `TryParse` fails
  (`TcpToPipe/Program.cs:28-29`).
- The code does not check `readCount`. A zero-byte read, which on a socket
  means the peer closed, appends nothing and still raises the flag
  (`TcpToPipe/Program.cs:88-95`). An append that lands between the
  consumer's `WaitAsync` and its lock has the same effect on the next turn
  (see `EmptyDrainAfterRace`). So the flag can be up with nothing buffered,
  and the invariant does not claim otherwise.

## Model

| member | source | states |
|---|---|---|
| Config.Resolve | TcpToPipe/Program.cs:19-46 | the resolved host and pipe name are never empty, and the port is a 32-bit value |
| Config.ResolveRemote | TcpToPipe/Program.cs:21-41 | the host comes from the remote alone; it is non-empty and the port fits in 32 bits |
| Config.SplitAt | TcpToPipe/Program.cs:28-40 | when the remote has a colon, the host is non-empty and the port is in the 32-bit range, including the 0 a failed parse writes |
| Config.LastIndexOf | TcpToPipe/Program.cs:27 | the result is -1 exactly when the character is absent; otherwise it is at that index and nowhere after it |
| Config.LastColonBeforeSuffix | TcpToPipe/Program.cs:27 | the split is at the last colon: in `h + ":" + p` with no colon in `p`, the index found is `|h|` |
| Config.ResolveWithoutRemote | TcpToPipe/Program.cs:21-25 | a null or empty remote gives host `localhost` and port 3333 |
| Config.ResolveWithoutColon | TcpToPipe/Program.cs:27-40 | a remote with no colon is all host and keeps port 3333, because `&&` skips the parse |
| Config.ResolveParsedPort | TcpToPipe/Program.cs:27-35 | when the text after the last colon parses, the host is the text before it (or `localhost` if that is empty) and the port is the parsed value |
| Config.ResolveUnparsedPort | TcpToPipe/Program.cs:28-40 | when the text after the last colon does not parse, the host is the whole remote and the port is 0 |
| Config.ResolvePipeName | TcpToPipe/Program.cs:23-46 | the pipe is the `--pipe` value when it is non-empty, otherwise `windbg` |
| Config.ResolveIndependent | TcpToPipe/Program.cs:21-46 | host and port depend only on the remote, and the pipe only on the name |
| Config.ResolveSplitsAtLastColon | TcpToPipe/Program.cs:27-31 | `"a:b:80"` gives host `a:b` and port 80 |
| Config.ResolveEmptyHost | TcpToPipe/Program.cs:31-35 | `":9999"` gives host `localhost` and port 9999 |
| Config.ResolveBadPortIsZero | TcpToPipe/Program.cs:28-40 | `"myhost:abc"` gives host `myhost:abc` and port 0 |
| Config.ResolveOverflowIsZero | TcpToPipe/Program.cs:28-40 | for every prefix, when the text after the colon is an optional sign and digits whose value is past the 32-bit range, the host is the whole remote and the port is 0 |
| IntParse.TryParseInt | TcpToPipe/Program.cs:29 | a successful parse always yields a 32-bit value |
| IntParse.ParseAccepts | TcpToPipe/Program.cs:29 | white space, an optional `+` or `-`, one or more digits (leading zeros allowed) and white space parse to the signed value when it fits in 32 bits, and fail otherwise |
| IntParse.ParseAcceptsOnly | TcpToPipe/Program.cs:29 | every successful parse splits its input into white space, an optional sign, one or more digits and white space, and its value is what the sign and digits denote |
| IntParse.ParseExamplesAccepted | TcpToPipe/Program.cs:29 | `"+80"` and `" 0080\t"` parse to 80, and `"-0"` parses to 0 |
| IntParse.ParseExamplesRejected | TcpToPipe/Program.cs:29 | `""`, `"+"`, `"5-"`, `"--5"` and `"1 2"` fail to parse |
| IntParse.ParseShowInt | TcpToPipe/Program.cs:29 | every integer's decimal text parses back to that integer exactly when it fits in 32 bits, and fails otherwise |
| IntParse.ParseIgnoresWhite | TcpToPipe/Program.cs:29 | leading and trailing white space do not change the parse |
| IntParse.ParseRejectsForeign | TcpToPipe/Program.cs:29 | a character that is not white space, a digit or a sign makes the parse fail |
| Channel.ByteChannel.constructor | TcpToPipe/Program.cs:55-58 | a new channel is empty, its flag is down, and it satisfies the invariant |
| Channel.ByteChannel.Append | TcpToPipe/Program.cs:89-96 | the stream becomes the old stream followed by the first `readCount` bytes, the count is exactly 1 whether it was 0 or 1, and the chunk is recorded as appended |
| Channel.ByteChannel.Wait | TcpToPipe/Program.cs:104 | needs the flag up, lowers it by one, and leaves the stream untouched |
| Channel.ByteChannel.Take | TcpToPipe/Program.cs:106-111 | returns exactly the buffered bytes, leaves the stream empty at position 0, and records the chunk as drained |
| Channel.ByteChannel.Drain | TcpToPipe/Program.cs:104-111 | with the flag up, returns exactly the buffered bytes, empties the buffer and lowers the count by one, keeping the invariant |
| Channel.ReadLoop | TcpToPipe/Program.cs:86-97 | after a run of reads, the stream has gained their bytes in arrival order and the flag is up if there was any read |
| Channel.ReadThenDrain | TcpToPipe/Program.cs:86-111 | a non-empty run of reads followed by one consumer turn delivers exactly the bytes read, in order, and leaves the flag down |
| Channel.CoalescedAppends | TcpToPipe/Program.cs:89-111 | two appends before one drain give a single drain of their concatenation, and the flag is then down |
| Channel.EmptyDrainAfterRace | TcpToPipe/Program.cs:104-111 | an append between the consumer's wake-up and its lock goes out with that turn, and the next turn drains nothing |
| Channel.FlattenConcat | TcpToPipe/Program.cs:86-97 | the bytes of two histories joined are the bytes of each, in order |
| Channel.WriteAt | TcpToPipe/Program.cs:91 | `MemoryStream.Write` at a position overwrites from there and grows the stream as needed, keeping what is before the position |
| Channel.WriteAtEnd | TcpToPipe/Program.cs:91 | a write at the end of the stream appends the chunk |

The pipe side's lock blocks (`TcpToPipe/Program.cs:155-162` and 170-176) are
the same operations on the other channel, so `Append` and `Drain` model them
too.

## Left out

- The TCP connect and reconnect loop and the named-pipe accept and disconnect
  loop (lines 62-125 and 127-190): these are network and pipe I/O. Their
  failures come from transport exceptions.
- The writer loops' `WriteAsync` calls: these are I/O. A write loop is a
  repetition of `Drain`, and every `Drain` needs the flag up, which only the
  producer can bring about.
- Task concurrency (`Task.WhenAll`, `Task.WhenAny`). Each lock block is one
  atomic step and `WaitAsync` completing is another. Any interleaving of these
  steps that respects their preconditions keeps `Valid`.
- Console logging and `consoleLock`: output only.
- The System.CommandLine option and handler wiring (lines 5-17, 49, 51): a
  library wrapper. `Resolve` takes the two option values directly.
- TryParseInt: approximates `int.TryParse`. It uses the invariant culture's
  signs `+` and `-`, the white space U+0009 to U+000D and U+0020, and ASCII
  digits. It does not model culture-specific sign strings or the trailing NUL
  characters that .NET also accepts.
- Append: the stream is an unbounded sequence. A real `MemoryStream` throws
  once its length would pass the `int` range (about 2 GiB), so a stalled
  consumer eventually makes the read loop throw; that error path is not
  modelled. Also, when the consumer is already suspended in `WaitAsync`,
  `SemaphoreSlim.Release` hands the count straight to it, so `CurrentCount`
  is 0 when the lock is released, not 1. The model reaches that state as
  `Append` followed at once by `Wait`.
- Strings: a C# string is a sequence of UTF-16 code units, while a Dafny
  `string` is a sequence of Unicode scalar values. On text with
  supplementary characters the index `LastIndexOf` returns differs, though
  the host and port text it splits off are the same. A C# string holding a
  lone surrogate has no counterpart in the model.
- LastIndexOf: `string.LastIndexOf(":")` is culture-sensitive in .NET. It is
  modelled as an ordinal search for the character `:`.
- ReadLoop: models a finite run of reads given as input. The real loop runs
  forever and gets each chunk from `ReadAsync`. The 4096-byte buffer only
  bounds the chunk sizes.
