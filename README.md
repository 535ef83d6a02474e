# Helper command list of the process runner tests

The process runner's tests drive a helper child process by writing commands
to its standard input. The tests build these commands with `HelperCommands`
(`service/testing/runner_test.cc`). It is a `vector<string>` of encoded
records with a read cursor `active_`.

Each record starts with a three-byte tag:

- `"out"` or `"err"`, then the payload length as a native 4-byte `int`, then
  the payload. The helper echoes the payload on stdout or stderr.
- `"xit"`, then the exit code as a native `int`. The helper exits with that
  code.
- `"abt"` alone. The helper aborts.

Output and exit records are assembled with `sprintf`/`memcpy` in a fixed
`char cmdBuffer[1024]` and then appended. `nextCommand` hands records out in
insertion order and then returns the empty string forever. `reset` rewinds
the cursor.

The model has three modules:

- `Int32Bytes` (`int32_bytes.dfy`): bytes, the 32-bit `int` of the x86_64
  target, and its memory image. `sizeof(int)` is 4, the byte order is little
  endian, and negative values use two's complement. Encoding and decoding are
  proved inverse both ways.
- `CommandCodec` (`command_codec.dfy`): the `Command` datatype, the byte
  layout of a record (`Encode`) and of records written back to back
  (`EncodeAll`, the `Concat` of the per-command `Records`). It also has a reader for one record
  (`DecodeNext`, `Decode`) and one for a stream of back-to-back records
  (`DecodeStream`). Each reader is proved to accept exactly the encoder's
  output and to give back the encoded commands.
- `HelperCommandList` (`helper_commands.dfy`):
  - The record builders. They work on a 1024-element array, as the source
    does, with `memcpy` modelled by `CopyInto`. They also write the NUL byte
    that `sprintf` puts after the tag. The `memcpy` that follows overwrites
    it, so it never reaches a record.
  - The class `HelperCommands`. Its field `commands: seq<seq<byte>>` is the
    vector and `active` is the cursor. A ghost `Sent` holds the commands that
    the records encode.
  - `Valid()` keeps `0 <= active <= |commands|`, and keeps each stored record
    equal to the encoding of its command.
  - `ClientInOrder` replays the cleanup test's list (one output record, then
    an exit record) and checks the order in which `NextCommand` hands the
    records out, before and after `Reset`.
  - `ClientStream` replays the callback test's list and checks that the
    records, written back to back, read back as the four commands.

## Model

| member | source | states |
|---|---|---|
| `Int32Bytes.EncodeInt32` | service/testing/runner_test.cc:58 | the memory image of a native `int` is exactly four bytes (`sizeof(int)`) |
| `Int32Bytes.FromLittleEndianOfLittleEndian` | service/testing/runner_test.cc:58 | reading back the `n` little-endian bytes of a value below 256^n gives that value |
| `Int32Bytes.LittleEndianOfFromLittleEndian` | service/testing/runner_test.cc:58 | every byte sequence is the little-endian image of the value it reads as |
| `Int32Bytes.Int32RoundTrip` | service/testing/runner_test.cc:58 | decoding the four bytes `memcpy` copies out of an `int` returns that `int`, negative values included |
| `Int32Bytes.Int32BytesRoundTrip` | service/testing/runner_test.cc:68 | any four bytes are the memory image of the `int` they decode to |
| `Int32Bytes.EncodeInt32Injective` | service/testing/runner_test.cc:68 | two `int`s have the same memory image if and only if they are equal |
| `CommandCodec.Encode` | service/testing/runner_test.cc:52-75 | a record starts with its command's tag; an output record is `3 + 4 + data.size()` bytes long, an exit record 7 and an abort record 3 |
| `CommandCodec.DecodeNext` | service/testing/runner_test.cc:52-75 | reader written as the partner of the encoder at these lines (no reader exists there): whatever the reader takes from the front of a stream is at least a tag long and is exactly the record of the command it returns; truncated input, negative lengths and unknown tags are errors |
| `CommandCodec.DecodeOutput` | service/testing/runner_test.cc:57-59 | partner of the output-record encoder at these lines: after an `"out"`/`"err"` tag, the reader takes the length field and that many payload bytes; what it accepts is exactly the record of an output command to the stream the tag names |
| `CommandCodec.DecodeExit` | service/testing/runner_test.cc:67-68 | partner of the exit-record encoder at these lines: after an `"xit"` tag, the reader takes the 4-byte code; what it accepts is exactly the record of an exit command |
| `CommandCodec.Decode` | service/testing/runner_test.cc:52-75 | partner of the encoder at these lines: a byte string accepted as one record is exactly the record of the command returned |
| `CommandCodec.DecodeNextOfEncode` | service/testing/runner_test.cc:52-75 | a record followed by any bytes is read back as its command and consumes exactly the record |
| `CommandCodec.DecodeEncode` | service/testing/runner_test.cc:57-59 | decoding a record returns its command: the tag, the length or exit code, and the payload verbatim |
| `CommandCodec.EncodeInjective` | service/testing/runner_test.cc:52-75 | two commands have the same record if and only if they are equal |
| `CommandCodec.DecodeStream` | service/testing/runner_test.cc:126-130 | partner of the loop at these lines that writes the records to the helper's stdin back to back (the reader itself is not there): a stream accepted by the reader is exactly the concatenation of the records of the commands it returns |
| `CommandCodec.DecodeStreamEncodeAll` | service/testing/runner_test.cc:126-130 | about the stream the loop at these lines writes, read by the partner reader: the back-to-back records of any command sequence read back as that sequence, in order |
| `HelperCommandList.CopyInto` | service/testing/runner_test.cc:58-59 | `memcpy` puts the source bytes at the offset and leaves the rest of the buffer unchanged |
| `HelperCommandList.BuildOutputRecord` | service/testing/runner_test.cc:54-60 | built in the 1024-byte buffer, which must hold `data.size() + 7` bytes: the record is `"out"`/`"err"`, then the 4-byte length, then `data`, and it equals `Encode` |
| `HelperCommandList.BuildExitRecord` | service/testing/runner_test.cc:65-69 | the record built in the buffer is `"xit"` followed by the 4 bytes of the code, and it equals `Encode` |
| `HelperCommandList.ConcatDecodes` | service/testing/runner_test.cc:126-130 | about the stream the loop at these lines writes, read by the partner reader: the list's records, written to stdin back to back, read back as the commands sent, in insertion order |
| `HelperCommandList.HelperCommands.constructor` | service/testing/runner_test.cc:33-36 | a new list holds no commands and its cursor is 0 |
| `HelperCommandList.HelperCommands.Reset` | service/testing/runner_test.cc:38 | the cursor becomes 0; the records are untouched |
| `HelperCommandList.HelperCommands.NextCommand` | service/testing/runner_test.cc:40-50 | below the end, it returns the record at the cursor (which decodes to that command) and advances the cursor by one. At the end, it returns `""` and leaves the cursor. `""` is returned exactly when the list is exhausted. `0 <= active <= size` is kept |
| `HelperCommandList.HelperCommands.SendOutput` | service/testing/runner_test.cc:52-61 | for a payload that fits the buffer, it appends exactly one record of `data.size() + 7` bytes encoding the output command; earlier records and the cursor are unchanged |
| `HelperCommandList.HelperCommands.SendExit` | service/testing/runner_test.cc:63-70 | appends exactly one 7-byte record encoding the exit command; earlier records and the cursor are unchanged |
| `HelperCommandList.HelperCommands.SendAbort` | service/testing/runner_test.cc:72-75 | appends exactly the 3-byte record `"abt"`; nothing else changes |

## Left out

- Everything in `runner_test.cc` except `HelperCommands` is left out. That covers the test cases, the runner, the message loop, the sinks, `execute`, process spawning, pipes, signals, `waitpid`, threads, futexes and sleeps. They are OS and concurrency plumbing around types that are not part of this model.
- The helper child program that reads the records is not part of this model. `CommandCodec.DecodeNext`, `DecodeOutput`, `DecodeExit`, `Decode` and `DecodeStream` are a reader written as the partner of the encoder, not a model of that program.
- The expected helper output strings, `bytesSent()` and `hexify_string` belong to code that is not part of this model.
- `HelperCommandList.HelperCommands.SendOutput`: the payload must fit the 1024-byte buffer (`data.size() + 7 <= 1024`). Longer payloads overflow the stack buffer in the source and are outside the model. Under this bound, the conversion of `data.size()` to `int` never truncates, so that truncation is not modelled.
- The `vector<string>` base class lets callers push or iterate records directly, and the tests iterate the vector with a range-`for` rather than with `nextCommand`. Only the struct's own operations are modelled; that iteration reads the `commands` field.
- `HelperCommandList.HelperCommands.NextCommand`: `active_` is a C `int` that could in principle overflow past 2^31 records. The model uses an unbounded integer.
