/**
  The native side of the local-socket bridge (src/lib.rs): a registry that maps
  integer handles to open connections, the allocator that picks the smallest
  unused handle, the five operations `op_ipc_new`, `op_ipc_close`,
  `op_ipc_write_all`, `op_ipc_read_bytes` and `op_ipc_read_string`, and the
  `op` / `err` encoding of their results as one byte buffer.

  The operating system is not modelled: each call to `connect`, `write_all` or
  `read` is replaced by an outcome the caller passes in, so every operation is
  a deterministic transition of the registry plus one reply.
 */
module Ipc {
  import opened Wrappers
  import opened Text

  /** Handles are Rust `u32`s; read lengths are `usize`s on a 64-bit target. */
  const U32_LIMIT: nat := 0x1_0000_0000
  const USIZE_LIMIT: nat := 0x1_0000_0000_0000_0000

  /** `isize::MAX`: `vec!` refuses (panics on) a byte buffer longer than this. */
  const ISIZE_MAX: nat := 0x7FFF_FFFF_FFFF_FFFF

  type Handle = n: nat | n < U32_LIMIT

  /** The tag `err` puts in front of every error message. */
  const ErrTag: seq<byte> := Ascii("ipc_err::")
  const DoneText: seq<byte> := Ascii("done")
  const ExistsText: seq<byte> := Ascii("exists")
  const NotFoundMessage: seq<byte> := Ascii("local socket connection not found")

  // ---------------------------------------------------------------------------
  // Results and their encoding

  /** What an operation decided to report: `op(text)` or `err(message)`. */
  datatype Response = Success(text: seq<byte>) | Failure(message: seq<byte>)

  /** The byte buffer handed back to the host: `op` passes the text through, `err` tags it. */
  function Encode(r: Response): (e: seq<byte>)
    ensures r.Success? ==> e == r.text
    ensures r.Failure? ==> StartsWith(e, ErrTag) && e[|ErrTag|..] == r.message
  {
    match r
    case Success(text) => text
    case Failure(message) => ErrTag + message
  }

  /** One call of an operation either replies or panics on a malformed argument. */
  datatype Outcome = Reply(response: Response) | Abort

  // ---------------------------------------------------------------------------
  // The operating system, as outcomes supplied by the caller

  /** An open stream: the endpoint it was opened on and the OS resource behind it. */
  datatype Conn = Conn(endpoint: seq<byte>, stream: nat)

  datatype ConnectOutcome = Connected(stream: nat) | ConnectFailed(reason: seq<byte>)
  datatype WriteOutcome = WriteOk | WriteFailed(reason: seq<byte>)

  /** One `read` into a buffer: the bytes it delivered, or an error. */
  datatype ReadOutcome = ReadOk(data: seq<byte>) | ReadFailed(reason: seq<byte>)

  /** One `read` into a one-byte buffer: a byte, end of stream (0 bytes), or an error. */
  datatype ReadEvent = ReadByte(value: byte) | ReadEof | ReadErr(reason: seq<byte>)

  // ---------------------------------------------------------------------------
  // Arguments

  /** Argument `i` parsed as a `u32`; `None` where `get(i).unwrap()` or `from_str(..).unwrap()` panics. */
  function U32Arg(args: seq<seq<byte>>, i: nat): (r: Option<nat>)
    ensures r.Some? ==> r.value < U32_LIMIT
  {
    if i < |args| then ParseUnsigned(args[i], U32_LIMIT) else None
  }

  /** Argument `i` parsed as a `usize`, likewise. */
  function UsizeArg(args: seq<seq<byte>>, i: nat): (r: Option<nat>)
    ensures r.Some? ==> r.value < USIZE_LIMIT
  {
    if i < |args| then ParseUnsigned(args[i], USIZE_LIMIT) else None
  }

  // ---------------------------------------------------------------------------
  // Handle allocation

  /** If every number below `n` is a key, there are at least `n` keys. */
  lemma {:induction false} UsedPrefixFits(keys: set<nat>, n: nat)
    requires forall k: nat :: k < n ==> k in keys
    ensures n <= |keys|
  {
    if n > 0 {
      var rest := keys - {n - 1};
      assert keys == rest + {n - 1};
      UsedPrefixFits(rest, n - 1);
    }
  }

  /** The smallest number at or above `start` that is not a key, given that all below `start` are. */
  function SmallestFreeFrom(keys: set<nat>, start: nat): (id: nat)
    requires forall k: nat :: k < start ==> k in keys
    ensures start <= id <= |keys|
    ensures id !in keys
    ensures forall k: nat :: k < id ==> k in keys
    decreases |keys| - start
  {
    UsedPrefixFits(keys, start);
    if start in keys then
      UsedPrefixFits(keys, start + 1);
      SmallestFreeFrom(keys, start + 1)
    else
      start
  }

  /** The handle the allocator must pick: the least number not in use. */
  function SmallestFree(keys: set<nat>): (id: nat)
    ensures id !in keys && id <= |keys|
    ensures forall k: nat :: k < id ==> k in keys
  {
    SmallestFreeFrom(keys, 0)
  }

  /** The two properties of `SmallestFree` pin it down. */
  lemma SmallestFreeUnique(keys: set<nat>, id: nat)
    requires id !in keys
    requires forall k: nat :: k < id ==> k in keys
    ensures SmallestFree(keys) == id
  {
  }

  /** Freeing a handle makes it the next pick exactly when it is below the current pick. */
  lemma FreeAfterRemove(keys: set<nat>, h: nat)
    requires h in keys
    ensures SmallestFree(keys - {h}) == if h < SmallestFree(keys) then h else SmallestFree(keys)
  {
    var f := SmallestFree(keys);
    if h < f {
      SmallestFreeUnique(keys - {h}, h);
    } else {
      SmallestFreeUnique(keys - {h}, f);
    }
  }

  /** The keys are exactly 0 .. n-1. */
  ghost predicate ExactlyBelow(keys: set<nat>, n: nat)
  {
    forall k: nat :: k in keys <==> k < n
  }

  /** With handles 0 .. n-1 in use, the next one is n. */
  lemma SmallestFreeOfBelow(keys: set<nat>, n: nat)
    requires ExactlyBelow(keys, n)
    ensures SmallestFree(keys) == n
  {
    SmallestFreeUnique(keys, n);
  }

  // ---------------------------------------------------------------------------
  // The registry transitions, as functions of the map of open connections

  /**
    `op_ipc_new` after a successful path extraction: pick the smallest free
    handle, then connect. The `exists` branch of the source is kept and shown
    never to be taken.
   */
  function Open(sockets: map<nat, Conn>, path: seq<byte>, connect: ConnectOutcome): (r: (map<nat, Conn>, Response))
    ensures r.1 != Success(ExistsText)
    ensures connect.ConnectFailed? ==> r == (sockets, Failure(connect.reason))
    ensures connect.Connected? ==>
              var id := SmallestFree(sockets.Keys);
              && id !in sockets
              && r.0 == sockets[id := Conn(path, connect.stream)]
              && r.1 == Success(DecimalText(id))
  {
    var id := SmallestFree(sockets.Keys);
    if id in sockets then
      (sockets, Success(ExistsText))
    else
      match connect
      case ConnectFailed(reason) => (sockets, Failure(reason))
      case Connected(stream) =>
        assert !IsDigit(ExistsText[0]);
        (sockets[id := Conn(path, stream)], Success(DecimalText(id)))
  }

  /** `op_ipc_close` on a parsed handle: drop that entry, or report it missing. */
  function Close(sockets: map<nat, Conn>, id: nat): (r: (map<nat, Conn>, Response))
    ensures r.0.Keys == sockets.Keys - {id}
    ensures forall k | k in r.0 :: r.0[k] == sockets[k]
    ensures r.1 == Success(DoneText) <==> id in sockets
    ensures id !in sockets ==> r.1 == Failure(NotFoundMessage)
  {
    if id in sockets then (sockets - {id}, Success(DoneText))
    else (sockets, Failure(NotFoundMessage))
  }

  /** Closing twice reports `done`, then that the connection is not found. */
  lemma CloseTwice(sockets: map<nat, Conn>, id: nat)
    requires id in sockets
    ensures Close(sockets, id).1 == Success(DoneText)
    ensures Close(Close(sockets, id).0, id).1 == Failure(NotFoundMessage)
  {
  }

  /** A sequence of successful opens on one path, the replies in call order. */
  ghost function OpenEach(sockets: map<nat, Conn>, path: seq<byte>, streams: seq<nat>): (map<nat, Conn>, seq<Response>)
    decreases |streams|
  {
    if streams == [] then (sockets, [])
    else
      var (next, reply) := Open(sockets, path, Connected(streams[0]));
      var (last, replies) := OpenEach(next, path, streams[1..]);
      (last, [reply] + replies)
  }

  /**
    With handles 0 .. n-1 in use and no closes in between, successive
    successful opens are handed n, n+1, ... in order.
   */
  lemma {:induction false} OpenEachFromBelow(sockets: map<nat, Conn>, n: nat, path: seq<byte>, streams: seq<nat>)
    requires ExactlyBelow(sockets.Keys, n)
    ensures ExactlyBelow(OpenEach(sockets, path, streams).0.Keys, n + |streams|)
    ensures |OpenEach(sockets, path, streams).1| == |streams|
    ensures forall i | 0 <= i < |streams| :: OpenEach(sockets, path, streams).1[i] == Success(DecimalText(n + i))
    decreases |streams|
  {
    if streams != [] {
      SmallestFreeOfBelow(sockets.Keys, n);
      var next := sockets[n := Conn(path, streams[0])];
      OpenEachFromBelow(next, n + 1, path, streams[1..]);
    }
  }

  /** From an empty registry, N successful opens are handed 0 .. N-1 in order. */
  lemma OpenEachFromEmpty(path: seq<byte>, streams: seq<nat>)
    ensures ExactlyBelow(OpenEach(map[], path, streams).0.Keys, |streams|)
    ensures |OpenEach(map[], path, streams).1| == |streams|
    ensures forall i | 0 <= i < |streams| :: OpenEach(map[], path, streams).1[i] == Success(DecimalText(i))
  {
    var empty: map<nat, Conn> := map[];
    OpenEachFromBelow(empty, 0, path, streams);
  }

  /**
    Closing a handle all of whose predecessors are in use, then opening again,
    hands out that same handle.
   */
  lemma ReissueAfterClose(sockets: map<nat, Conn>, h: nat, path: seq<byte>, stream: nat)
    requires h in sockets
    requires forall k: nat :: k < h ==> k in sockets
    ensures Open(Close(sockets, h).0, path, Connected(stream)).1 == Success(DecimalText(h))
  {
    FreeAfterRemove(sockets.Keys, h);
  }

  // ---------------------------------------------------------------------------
  // read_string: the bytes delivered before the stream stops

  /** The events run until a read that is not a byte: the peer closes or the read fails. */
  predicate EndsWithStop(events: seq<ReadEvent>)
  {
    |events| > 0 && !events[|events| - 1].ReadByte?
  }

  /** The bytes delivered before the first event that is not a byte. */
  function Received(events: seq<ReadEvent>): seq<byte>
    decreases |events|
  {
    if events == [] || !events[0].ReadByte? then []
    else [events[0].value] + Received(events[1..])
  }

  /**
    `Received` is the longest run of byte events at the front: those events
    deliver exactly its bytes, and the event after them, if any, is not a byte.
   */
  lemma {:induction false} ReceivedIsByteRun(events: seq<ReadEvent>)
    ensures |Received(events)| <= |events|
    ensures forall i | 0 <= i < |Received(events)| :: events[i] == ReadByte(Received(events)[i])
    ensures |Received(events)| < |events| ==> !events[|Received(events)|].ReadByte?
    decreases |events|
  {
    if events != [] && events[0].ReadByte? {
      ReceivedIsByteRun(events[1..]);
    }
  }

  /** The first event that is not a byte. */
  function FirstStop(events: seq<ReadEvent>): (e: ReadEvent)
    requires EndsWithStop(events)
    ensures !e.ReadByte?
    decreases |events|
  {
    if !events[0].ReadByte? then events[0] else FirstStop(events[1..])
  }

  /** What `op_ipc_read_string` reports for a connection that delivers `events`. */
  function ReadStringResponse(events: seq<ReadEvent>): (r: Response)
    requires EndsWithStop(events)
    ensures r.Success? ==> r.text == Received(events)
    ensures r.Failure? <==> Received(events) == [] && FirstStop(events).ReadErr?
    ensures r.Failure? ==> r.message == FirstStop(events).reason
  {
    var stop := FirstStop(events);
    if stop.ReadErr? && Received(events) == [] then Failure(stop.reason)
    else Success(Received(events))
  }

  function ByteEvents(data: seq<byte>): (r: seq<ReadEvent>)
    ensures |r| == |data| && forall i | 0 <= i < |data| :: r[i] == ReadByte(data[i])
  {
    seq(|data|, i requires 0 <= i < |data| => ReadByte(data[i]))
  }

  /**
    A peer that sends `data` and then stops (closes, or fails) is read back as
    exactly `data`, whatever follows the stop; an error is reported only when
    no byte came before it.
   */
  lemma {:induction false} ReadStringOfStream(data: seq<byte>, stop: ReadEvent, rest: seq<ReadEvent>)
    requires !stop.ReadByte?
    requires rest == [] || EndsWithStop(rest)
    ensures EndsWithStop(ByteEvents(data) + [stop] + rest)
    ensures Received(ByteEvents(data) + [stop] + rest) == data
    ensures FirstStop(ByteEvents(data) + [stop] + rest) == stop
    ensures ReadStringResponse(ByteEvents(data) + [stop] + rest)
            == if stop.ReadErr? && data == [] then Failure(stop.reason) else Success(data)
    decreases |data|
  {
    var events := ByteEvents(data) + [stop] + rest;
    if data != [] {
      assert events[1..] == ByteEvents(data[1..]) + [stop] + rest;
      ReadStringOfStream(data[1..], stop, rest);
    } else {
      assert events[0] == stop;
    }
  }

  // ---------------------------------------------------------------------------
  // The registry

  /** The per-thread `SOCKETS` map and the five operations on it. */
  class Registry {
    var sockets: map<nat, Conn>

    /** Every key is a `u32`. */
    ghost predicate Valid()
      reads this
    {
      forall id | id in sockets :: id < U32_LIMIT
    }

    constructor ()
      ensures Valid() && sockets == map[]
    {
      sockets := map[];
    }

    /**
      `get_next_id`: count up from 0 while the handle is in use. Provided not
      every `u32` is taken, the result is the least unused handle and a `u32`.
     */
    method NextId() returns (id: Handle)
      requires |sockets| < U32_LIMIT
      ensures id !in sockets
      ensures forall k: nat :: k < id ==> k in sockets
    {
      var n: nat := 0;
      while n in sockets
        invariant forall k: nat :: k < n ==> k in sockets
        decreases |sockets.Keys| - n
      {
        UsedPrefixFits(sockets.Keys, n + 1);
        n := n + 1;
      }
      UsedPrefixFits(sockets.Keys, n);
      id := n;
    }

    /** `op_ipc_new`: the handle is chosen before the path argument is read. */
    method OpIpcNew(args: seq<seq<byte>>, connect: ConnectOutcome) returns (out: Outcome)
      requires Valid() && |sockets| < U32_LIMIT
      modifies this
      ensures Valid()
      ensures |args| == 0 ==> out == Abort && sockets == old(sockets)
      ensures |args| > 0 ==>
                var (after, response) := Open(old(sockets), args[0], connect);
                sockets == after && out == Reply(response)
    {
      var id := NextId();
      SmallestFreeUnique(sockets.Keys, id);
      if |args| == 0 {
        return Abort;
      }
      var path := args[0];
      if id in sockets {
        out := Reply(Success(ExistsText));
      } else {
        match connect
        case ConnectFailed(reason) =>
          out := Reply(Failure(reason));
        case Connected(stream) =>
          sockets := sockets[id := Conn(path, stream)];
          out := Reply(Success(DecimalText(id)));
      }
    }

    /** `op_ipc_close`. */
    method OpIpcClose(args: seq<seq<byte>>) returns (out: Outcome)
      requires Valid()
      modifies this
      ensures Valid()
      ensures U32Arg(args, 0).None? ==> out == Abort && sockets == old(sockets)
      ensures U32Arg(args, 0).Some? ==>
                var (after, response) := Close(old(sockets), U32Arg(args, 0).value);
                sockets == after && out == Reply(response)
    {
      var arg := U32Arg(args, 0);
      if arg.None? {
        return Abort;
      }
      var id := arg.value;
      if id in sockets {
        sockets := sockets - {id};
        out := Reply(Success(DoneText));
      } else {
        out := Reply(Failure(NotFoundMessage));
      }
    }

    /** `op_ipc_write_all`: the registry is only read. */
    method OpIpcWriteAll(args: seq<seq<byte>>, write: WriteOutcome) returns (out: Outcome)
      ensures out == Abort <==> U32Arg(args, 0).None? || |args| < 2
      ensures out.Reply? && U32Arg(args, 0).value !in sockets ==>
                out.response == Failure(NotFoundMessage)
      ensures out.Reply? && U32Arg(args, 0).value in sockets ==>
                out.response == if write.WriteOk? then Success(DoneText) else Failure(write.reason)
    {
      var arg := U32Arg(args, 0);
      if arg.None? || |args| < 2 {
        return Abort;
      }
      var id := arg.value;
      if id in sockets {
        match write
        case WriteFailed(reason) => out := Reply(Failure(reason));
        case WriteOk => out := Reply(Success(DoneText));
      } else {
        out := Reply(Failure(NotFoundMessage));
      }
    }

    /**
      `op_ipc_read_bytes`: one read into a buffer of `len` bytes that starts out
      filled with 1s; the whole buffer is returned, not only what was read.
      The buffer is allocated only for an open handle, and a length above
      `isize::MAX` makes that allocation panic.
     */
    method OpIpcReadBytes(args: seq<seq<byte>>, read: ReadOutcome) returns (out: Outcome)
      requires read.ReadOk? && UsizeArg(args, 1).Some? ==> |read.data| <= UsizeArg(args, 1).value
      ensures out == Abort <==>
                (|| U32Arg(args, 0).None?
                 || UsizeArg(args, 1).None?
                 || (U32Arg(args, 0).value in sockets && UsizeArg(args, 1).value > ISIZE_MAX))
      ensures out.Reply? && U32Arg(args, 0).value !in sockets ==>
                out.response == Failure(NotFoundMessage)
      ensures out.Reply? && U32Arg(args, 0).value in sockets && read.ReadFailed? ==>
                out.response == Failure(read.reason)
      ensures out.Reply? && U32Arg(args, 0).value in sockets && read.ReadOk? ==>
                var len, n := UsizeArg(args, 1).value, |read.data|;
                && out.response.Success?
                && |out.response.text| == len
                && out.response.text[..n] == read.data
                && forall i | n <= i < len :: out.response.text[i] == 1
    {
      var arg := U32Arg(args, 0);
      if arg.None? {
        return Abort;
      }
      var lenArg := UsizeArg(args, 1);
      if lenArg.None? {
        return Abort;
      }
      var id, len := arg.value, lenArg.value;
      if id in sockets {
        if len > ISIZE_MAX {
          return Abort;
        }
        var slice := new byte[len](_ => 1);
        match read
        case ReadFailed(reason) =>
          out := Reply(Failure(reason));
        case ReadOk(data) =>
          forall i | 0 <= i < |data| {
            slice[i] := data[i];
          }
          out := Reply(Success(slice[..]));
      } else {
        out := Reply(Failure(NotFoundMessage));
      }
    }

    /**
      `op_ipc_read_string`: read one byte at a time until a read delivers
      nothing or fails; a failure counts only if no byte was read before it.
     */
    method OpIpcReadString(args: seq<seq<byte>>, events: seq<ReadEvent>) returns (out: Outcome)
      requires EndsWithStop(events)
      ensures out == Abort <==> U32Arg(args, 0).None?
      ensures out.Reply? && U32Arg(args, 0).value !in sockets ==>
                out.response == Failure(NotFoundMessage)
      ensures out.Reply? && U32Arg(args, 0).value in sockets ==>
                out.response == ReadStringResponse(events)
    {
      var arg := U32Arg(args, 0);
      if arg.None? {
        return Abort;
      }
      var id := arg.value;
      if id !in sockets {
        return Reply(Failure(NotFoundMessage));
      }
      var vec: seq<byte> := [];
      var left := true;
      var isErr: Option<seq<byte>> := None;
      var i := 0;
      while left
        invariant 0 <= i <= |events|
        invariant left ==> i < |events| && EndsWithStop(events[i..])
        invariant left ==> isErr == None && FirstStop(events[i..]) == FirstStop(events)
        invariant left ==> vec + Received(events[i..]) == Received(events)
        invariant !left ==> vec == Received(events)
        invariant !left ==> isErr == if FirstStop(events).ReadErr? then Some(FirstStop(events).reason) else None
        decreases |events| - i
      {
        assert events[i..][1..] == events[i + 1..];
        match events[i] {
          case ReadErr(reason) =>
            isErr := Some(reason);
            left := false;
          case ReadEof =>
            left := false;
          case ReadByte(b) =>
            vec := vec + [b];
        }
        i := i + 1;
      }
      if isErr.Some? && |vec| == 0 {
        out := Reply(Failure(isErr.value));
      } else {
        out := Reply(Success(vec));
      }
    }
  }

  /**
    A session against an echo server: open, write "ping", read 4 bytes back,
    close, then read again on the closed handle.
   */
  method EchoSession(stream: nat) returns (open: Outcome, wrote: Outcome, echoed: Outcome, closed: Outcome, stale: Outcome)
    ensures open == Reply(Success(Ascii("0")))
    ensures wrote == Reply(Success(DoneText))
    ensures echoed == Reply(Success(Ascii("ping")))
    ensures closed == Reply(Success(DoneText))
    ensures stale == Reply(Failure(NotFoundMessage))
  {
    var registry := new Registry();
    var zero, four, ping := Ascii("0"), Ascii("4"), Ascii("ping");
    assert zero == DecimalText(0) && four == DecimalText(4);
    ParseDecimalText(0, U32_LIMIT);
    ParseDecimalText(4, USIZE_LIMIT);
    SmallestFreeOfBelow(registry.sockets.Keys, 0);
    open := registry.OpIpcNew([Ascii("/tmp/test.sock")], Connected(stream));
    wrote := registry.OpIpcWriteAll([zero, ping], WriteOk);
    echoed := registry.OpIpcReadBytes([zero, four], ReadOk(ping));
    closed := registry.OpIpcClose([zero]);
    stale := registry.OpIpcReadBytes([zero, four], ReadOk(ping));
  }
}
