# deno_ipc: local-socket handles for Deno, modelled in Dafny

deno_ipc is a Deno plugin that lets a script open local sockets (Unix-domain
sockets or named pipes) by path. Scripts then read, write and close them
through integer handles. The model covers both halves of the bridge.

- **The plugin (`src/lib.rs`, module `Ipc`).** A registry maps `u32` handles
  to open connections (`Ipc.Registry`, a class over a `map<nat, Conn>`). The
  allocator hands out the smallest unused handle (`NextId`, a counting loop).
  There are five operations: `op_ipc_new`, `op_ipc_close`, `op_ipc_write_all`,
  `op_ipc_read_bytes` and `op_ipc_read_string`. Each one takes the raw byte
  arguments it is dispatched with and answers with one `Response`. A
  `Response` is either `op(text)` or `err(message)`, and `Encode` writes it as
  the tagged buffer `ipc_err::<message>`. A malformed argument makes the plugin
  panic, and the model shows that as `Abort`. The pure functions `Open` and
  `Close` state the two changes to the registry. The lemmas about several calls
  in a row are proved about them.
- **The script side (`mod.ts`, module `Bindings`).** `dispatch` writes each
  argument as a buffer (`EncodeArg`; numbers become `String(n)`). It then
  decodes the reply (`DecodeResponse`): a reply that starts with
  `ERROR_PREFIX` is thrown, with the rest of it trimmed. The `op_ipc_*`
  wrappers and the `IPC` class are methods that call the registry's methods,
  so their contracts say what a script observes from end to end.
- **Shared helpers (module `Text`).** Decimal text (`to_string` / `String`),
  Rust's unsigned `from_str`, and JavaScript's `trim`, all on bytes.

The operating system appears only as outcomes that the caller passes in:

- a connect result (`Connected(stream)` or `ConnectFailed(reason)`);
- a write result;
- the bytes one `read` delivered, or its error;
- for `read_string`, the sequence of one-byte reads (`ReadByte`, `ReadEof`,
  `ReadErr`).

Two behaviours of the plugin differ from what a caller might expect; the model
follows the code:

- **`read_bytes` returns the whole buffer.** The buffer has `len` bytes and is
  pre-filled with the byte 1, so a short read comes back padded with 1s. It
  does not come back shortened.
- **Malformed arguments abort the call.** A missing argument, or text that is
  not a `u32` or `usize`, makes the plugin panic. It never produces an error
  reply.

## Model

| member | source | states |
|---|---|---|
| `Text.DecimalText` | src/lib.rs:68 | the text of a handle is one or more decimal digits, with no leading zero unless the handle is 0 |
| `Text.DecimalTextValue` | src/lib.rs:68 | the digits of `to_string(n)` denote `n` |
| `Text.ParseUnsigned` | src/lib.rs:78 | any value `from_str` yields is below the type's limit |
| `Text.PlusAccepted` | src/lib.rs:78 | a `+` in front of the digits is accepted: `+5` reads as 5 |
| `Text.LeadingZeroAccepted` | src/lib.rs:78 | a leading zero is accepted: `07` reads as 7 |
| `Text.NonNumericRefused` | src/lib.rs:78 | empty text, a lone `+`, and text with any byte other than a digit (outside one leading `+`), such as `-1`, `12a` or ` 1`, are refused, which makes the plugin panic |
| `Text.ParseDecimalText` | src/lib.rs:78 | `from_str` reads back the decimal text of any in-range number as that number |
| `Text.ParseDecimalTextTooLarge` | src/lib.rs:78 | the decimal text of a number at or above the limit is refused |
| `Text.TrimStart` | mod.ts:25 | the result is a suffix of the input, everything dropped is whitespace, and the result does not start with whitespace |
| `Text.TrimEnd` | mod.ts:25 | the result is a prefix of the input, everything dropped is whitespace, and the result does not end with whitespace |
| `Text.Trim` | mod.ts:25 | a trimmed message is no longer than the original and neither starts nor ends with whitespace; text that is all whitespace trims to nothing |
| `Text.TrimStartPadded` | mod.ts:25 | leading whitespace in front of text that does not start with whitespace is removed, and the text is kept |
| `Text.TrimEndPadded` | mod.ts:25 | trailing whitespace after text that does not end with whitespace is removed, and the text is kept |
| `Text.TrimPadded` | mod.ts:25 | `trim` removes exactly the whitespace before and after a message and keeps the message, e.g. an OS error text ending in a newline |
| `Text.TrimUnpadded` | mod.ts:25 | text without surrounding whitespace is left unchanged by `trim` |
| `Text.TrimIdempotent` | mod.ts:25 | trimming twice is the same as trimming once |
| `Ipc.U32Arg` | src/lib.rs:78 | a handle argument parses to a `u32` or the call panics |
| `Ipc.UsizeArg` | src/lib.rs:118 | a length argument parses to a `usize` or the call panics |
| `Ipc.Encode` | src/lib.rs:23-29 | `op(text)` is the text as is; `err(message)` is the tag `ipc_err::` followed by the message, which can be read back after the tag |
| `Ipc.UsedPrefixFits` | src/lib.rs:42-48 | if every id below `n` is in use, at least `n` ids are in use, so the upward scan stops |
| `Ipc.SmallestFreeFrom` | src/lib.rs:42-48 | scanning upward from a used prefix finds an unused id with every smaller id in use, and it is at most the number of open handles |
| `Ipc.SmallestFree` | src/lib.rs:42-48 | the allocator's choice is unused, every smaller id is in use, and it does not exceed the registry size |
| `Ipc.SmallestFreeUnique` | src/lib.rs:42-48 | those two properties determine the allocated id |
| `Ipc.FreeAfterRemove` | src/lib.rs:83 | after a close, the next id is the closed handle if it lies below the previous choice, and otherwise the previous choice |
| `Ipc.SmallestFreeOfBelow` | src/lib.rs:42-48 | with exactly handles 0..n-1 open, the next id is n |
| `Ipc.Open` | src/lib.rs:54-71 | `exists` is never answered; on connect failure the registry is unchanged and the OS reason is reported; on success exactly `id -> conn` is added for the smallest free id, and its decimal text is returned |
| `Ipc.Close` | src/lib.rs:80-88 | only the given key is removed and the other entries keep their connections; the answer is `done` exactly when the key was present, and not-found otherwise |
| `Ipc.CloseTwice` | src/lib.rs:82-87 | closing the same handle twice answers `done` and then not-found |
| `Ipc.OpenEachFromBelow` | src/lib.rs:42-48 | with exactly handles 0..n-1 open and no closes, successive successful opens return n, n+1, … in order, and afterwards exactly 0..n+k-1 are open |
| `Ipc.OpenEachFromEmpty` | src/lib.rs:67-68 | from an empty registry, N successful opens return the handles 0..N-1 in order |
| `Ipc.ReissueAfterClose` | src/lib.rs:42-48 | closing a handle whose predecessors are all open, and then opening again, re-issues that handle |
| `Ipc.ReceivedIsByteRun` | src/lib.rs:149-160 | the bytes `read_string` collects (`Received`) are those of the run of one-byte reads at the front of the stream, and the read after that run is not a byte |
| `Ipc.ReadStringResponse` | src/lib.rs:162-167 | the reply is the error only when the stopping read failed and no byte came before it; otherwise it is exactly the bytes received |
| `Ipc.FirstStop` | src/lib.rs:152-156 | the read that ends `read_string` is an end of stream or an error |
| `Ipc.ReadStringOfStream` | src/lib.rs:146-167 | a peer that sends bytes B and then stops is read back as exactly B, whatever follows the stop; an error is reported only if B is empty |
| `Ipc.Registry.constructor` | src/lib.rs:10-12 | a fresh registry is empty |
| `Ipc.Registry.NextId` | src/lib.rs:42-48 | `get_next_id` returns an unused `u32` whose predecessors are all in use, provided fewer than 2^32 handles are open, and it leaves the registry unchanged |
| `Ipc.Registry.OpIpcNew` | src/lib.rs:50-72 | with no arguments the call aborts and the registry is unchanged; otherwise the registry and reply are those of `Open`; all keys stay `u32` |
| `Ipc.Registry.OpIpcClose` | src/lib.rs:74-89 | an unparsable handle aborts with the registry unchanged; otherwise the registry and reply are those of `Close` |
| `Ipc.Registry.OpIpcWriteAll` | src/lib.rs:91-111 | the call aborts exactly when the handle does not parse or the payload is missing; an absent handle gives not-found; a present one gives `done` or the write error; the registry is never modified |
| `Ipc.Registry.OpIpcReadBytes` | src/lib.rs:113-135 | the call aborts exactly when the handle or length does not parse, or the handle is open and the length exceeds `isize::MAX` so that `vec!` panics; an absent handle gives not-found; a read error gives that error; otherwise exactly `len` bytes are returned: the n bytes read, then `len - n` bytes of value 1 |
| `Ipc.Registry.OpIpcReadString` | src/lib.rs:137-172 | the call aborts exactly when the handle does not parse; an absent handle gives not-found; otherwise the bytes before the first end-of-stream or error are returned, and the error only if no byte came first |
| `Ipc.EchoSession` | src/lib.rs:50-135 | against an echo peer: open returns `0`, writing `ping` returns `done`, reading 4 bytes returns `ping`, close returns `done`, and a later read returns not-found |
| `Bindings.EncodeArg` | mod.ts:14-19 | a number is sent as decimal digits that denote it; a string or a `Uint8Array` is sent as its bytes |
| `Bindings.EncodeArgs` | mod.ts:14-19 | one buffer per argument, in the order given |
| `Bindings.DecodeResponse` | mod.ts:24-29 | the reply is thrown exactly when it starts with the prefix, and the thrown message is the trimmed rest, with no surrounding whitespace; any other reply is returned unchanged |
| `Bindings.DecodeFailure` | mod.ts:24-27 | an `err(m)` reply is thrown with message `trim(m)` |
| `Bindings.DecodeSuccess` | mod.ts:24-29 | an `op(s)` reply is returned unchanged exactly when `s` does not start with the prefix |
| `Bindings.TaggedSuccessCollides` | mod.ts:24 | success text that begins with the prefix is the same buffer as an error reply, and it is thrown |
| `Bindings.ReadStringCollision` | mod.ts:24-27 | a peer that sends `ipc_err::m` and then closes makes the script's read throw `trim(m)` |
| `Bindings.DecodeReadString` | mod.ts:41-43 | decoding a `read_string` reply gives `ScriptRead`: the early error thrown, or the bytes, or a throw when the bytes begin with the prefix |
| `Bindings.NotFoundThrownVerbatim` | mod.ts:25 | the not-found error reaches the script unchanged |
| `Bindings.UntaggedReplies` | mod.ts:24 | neither a decimal handle nor `done` is mistaken for an error |
| `Bindings.HandleArgRoundTrip` | mod.ts:19 | a handle sent as `String(id)` is parsed by the plugin as the same `u32` |
| `Bindings.OutOfRangeHandleAborts` | mod.ts:19 | a number outside `u32` range is refused by the plugin's parse, which then panics |
| `Bindings.NumberOf` | mod.ts:34 | blank text reads as 0, and a string of decimal digits reads as the number it denotes |
| `Bindings.NumberOfDecimalText` | mod.ts:33-34 | `Number` of a handle's decimal text is that handle |
| `Bindings.OpIpcNew` | mod.ts:32-35 | on connect success the script receives the allocated handle as a number; on failure it throws the trimmed OS reason; the registry changes as `Open` says |
| `Bindings.OpIpcClose` | mod.ts:37-39 | closing an open handle returns normally and removes it; closing an unknown handle throws not-found |
| `Bindings.OpIpcReadString` | mod.ts:41-43 | an unknown handle throws not-found; otherwise the script gets `ScriptRead` of the stream: the bytes read, or the early error thrown, or a throw when the bytes begin with the prefix |
| `Bindings.OpIpcWriteAll` | mod.ts:45-47 | an unknown handle throws not-found; otherwise the call returns normally or throws the trimmed write error |
| `Bindings.IPC.Wrap` | mod.ts:52-56 | the object keeps the handle it was given |
| `Bindings.IPC.Create` | mod.ts:54-57 | `new IPC(path)` throws the trimmed connect error, or yields a fresh object whose fixed handle is the allocated one, now open |
| `Bindings.IPC.Read` | mod.ts:60-62 | `read()` is `op_ipc_read_string` on the object's own fixed handle |
| `Bindings.IPC.Write` | mod.ts:65-67 | `write()` is `op_ipc_write_all` on the object's own fixed handle |
| `Bindings.IPC.Close` | mod.ts:70-72 | `close()` leaves the registry as `Close` of the object's own handle: that handle is removed and every other handle keeps its connection; it throws not-found if the handle is already gone |
| `Bindings.CloseThenUse` | mod.ts:52-72 | after `close()`, a second `close()` and a `read()` on the same object both throw not-found |

## Left out

- Socket I/O. `LocalSocketStream::connect`, `read` and `write_all` are OS calls. They become outcomes the caller passes in. The bytes that `write_all` sends are not recorded, and dropping a connection does not release any modelled OS resource.
- Host plumbing. `deno_plugin_init`, `Deno.openPlugin`, `core.ops()` and `core.dispatch` connect the script to the plugin. The `Bindings` wrappers call the `Registry` methods directly instead.
- `thread_local!` and `RefCell`. There is one explicit `Registry` object, and calls on it do not run concurrently.
- UTF-8. Text is modelled as bytes. The panics of `from_utf8(..).unwrap()` on a non-UTF-8 path or read payload are not modelled. `TextEncoder` and `TextDecoder` become the identity on bytes.
- `JSON.stringify` for object arguments to `dispatch`. The bindings pass no object other than a `Uint8Array`, which is sent as is.
- test.ts. It is a manual script against a live Discord pipe and contains no logic.
- Ipc.Registry.OpIpcReadString: requires the sequence of reads to end in an end of stream or an error. A peer that never closes would block the call forever, and that case is not modelled.
- Ipc.Registry.OpIpcReadBytes: a buffer of at most `isize::MAX` bytes is assumed to be allocated. An allocation the system cannot satisfy aborts the process in Rust, but the model replies.
- Ipc.Registry.NextId: requires fewer than 2^32 open handles. With every `u32` in use, the increment would overflow.
- Ipc.Registry.OpIpcNew: requires fewer than 2^32 open handles, for the same reason.
- Bindings.NumberOf: follows `Number` only for blank text (0) and decimal digits (their value). Every other text maps to NaN, although JavaScript also reads signs, fractions, exponents, `0x` prefixes and `Infinity`. Rounding above 2^53 is not modelled.
- Text.TrimStart: removes only ASCII whitespace (tab, line feed, vertical tab, form feed, carriage return, space) from the front. JavaScript's `trim` also removes non-ASCII spaces and line terminators.
- Text.TrimEnd: removes only the same ASCII whitespace from the end, not JavaScript's non-ASCII spaces and line terminators.
- Text.Trim: built from `Text.TrimStart` and `Text.TrimEnd`, so it also removes only ASCII whitespace.
- Bindings.OpIpcClose: takes the handle as a `u32`. Other JavaScript numbers (NaN, negative, fractional, or 2^32 and above) would make the plugin panic; `Bindings.OutOfRangeHandleAborts` shows this for large integers. `IPC` only ever passes a handle the plugin issued.
- Bindings.OpIpcReadString: takes the handle as a `u32`, for the same reason; other JavaScript numbers would make the plugin panic.
- Bindings.OpIpcWriteAll: takes the handle as a `u32`, for the same reason; other JavaScript numbers would make the plugin panic.
- mod.ts has no wrapper for `op_ipc_read_bytes`, so only the plugin side of it is modelled.
