/**
  The scripting side of the bridge (mod.ts): `dispatch` turns its arguments
  into byte buffers, calls one native operation, and turns a reply that starts
  with the error prefix into a thrown error; the `op_ipc_*` wrappers and the
  `IPC` class sit on top of it.

  The native operation a wrapper dispatches to is the matching method of
  `Ipc.Registry`, so these methods state, end to end, what a script observes.
 */
module Bindings {
  import opened Wrappers
  import opened Text
  import opened Ipc

  /** `ERROR_PREFIX`: the script's own copy of the tag the plugin writes. */
  const ErrorPrefix: seq<byte> := Ascii("ipc_err::")

  // ---------------------------------------------------------------------------
  // dispatch: arguments out, reply back

  /** A JavaScript number that is a non-negative safe integer. */
  type SafeInteger = n: nat | n < 0x20_0000_0000_0000

  /** A `dispatch` argument: a number, a string, or a `Uint8Array`. */
  datatype Arg = Num(n: SafeInteger) | Str(s: seq<byte>) | Bytes(b: seq<byte>)

  /** How `dispatch` turns one argument into a buffer: `String(n)` for numbers, the bytes otherwise. */
  function EncodeArg(a: Arg): (r: seq<byte>)
    ensures a.Num? ==> r != [] && AllDigits(r) && DigitsValue(r) == a.n
    ensures a.Str? ==> r == a.s
    ensures a.Bytes? ==> r == a.b
  {
    match a
    case Num(n) => DecimalTextValue(n); DecimalText(n)
    case Str(s) => s
    case Bytes(b) => b
  }

  /** One buffer per argument, in order. */
  function EncodeArgs(args: seq<Arg>): (r: seq<seq<byte>>)
    ensures |r| == |args|
    ensures forall i | 0 <= i < |args| :: r[i] == EncodeArg(args[i])
  {
    seq(|args|, i requires 0 <= i < |args| => EncodeArg(args[i]))
  }

  /** What a call returns to script code, or the message of the `Error` it throws. */
  datatype JsResult<T> = Returned(value: T) | Threw(message: seq<byte>)

  /** The end of `dispatch`: a tagged reply is thrown with the rest of it, trimmed. */
  function DecodeResponse(res: seq<byte>): (r: JsResult<seq<byte>>)
    ensures r.Threw? <==> StartsWith(res, ErrorPrefix)
    ensures r.Returned? ==> r.value == res
    ensures r.Threw? ==> |r.message| <= |res| - |ErrorPrefix|
    ensures r.Threw? && r.message != [] ==> !IsSpace(r.message[0]) && !IsSpace(r.message[|r.message| - 1])
  {
    if StartsWith(res, ErrorPrefix) then Threw(Trim(res[|ErrorPrefix|..]))
    else Returned(res)
  }

  /** An error reply is thrown with its message, trimmed. */
  lemma DecodeFailure(message: seq<byte>)
    ensures DecodeResponse(Encode(Failure(message))) == Threw(Trim(message))
  {
    assert (ErrTag + message)[|ErrorPrefix|..] == message;
  }

  /** A success reply comes back unchanged exactly when it does not start with the prefix. */
  lemma DecodeSuccess(text: seq<byte>)
    ensures DecodeResponse(Encode(Success(text))) == Returned(text) <==> !StartsWith(text, ErrorPrefix)
  {
  }

  /**
    The two kinds of reply collide: success text that begins with the prefix is
    the very same buffer as an error reply, and the script throws it.
   */
  lemma TaggedSuccessCollides(message: seq<byte>)
    ensures Encode(Success(ErrorPrefix + message)) == Encode(Failure(message))
    ensures DecodeResponse(Encode(Success(ErrorPrefix + message))) == Threw(Trim(message))
  {
    DecodeFailure(message);
  }

  /** A peer that sends the prefix and then closes makes `read_string` look like a failure. */
  lemma ReadStringCollision(message: seq<byte>)
    ensures EndsWithStop(ByteEvents(ErrorPrefix + message) + [ReadEof])
    ensures DecodeResponse(Encode(ReadStringResponse(ByteEvents(ErrorPrefix + message) + [ReadEof])))
            == Threw(Trim(message))
  {
    ReadStringOfStream(ErrorPrefix + message, ReadEof, []);
    assert ByteEvents(ErrorPrefix + message) + [ReadEof] + [] == ByteEvents(ErrorPrefix + message) + [ReadEof];
    TaggedSuccessCollides(message);
  }

  /**
    What a script sees when it reads a stream that delivers `events`: the
    error, when the stream failed before any byte; otherwise the bytes, unless
    they begin with the prefix, in which case the rest of them is thrown.
   */
  ghost function ScriptRead(events: seq<ReadEvent>): JsResult<seq<byte>>
    requires EndsWithStop(events)
  {
    var stop, data := FirstStop(events), Received(events);
    if stop.ReadErr? && data == [] then Threw(Trim(stop.reason))
    else if StartsWith(data, ErrorPrefix) then Threw(Trim(data[|ErrorPrefix|..]))
    else Returned(data)
  }

  /** Encoding a `read_string` reply and decoding it in `dispatch` gives what `ScriptRead` says. */
  lemma DecodeReadString(events: seq<ReadEvent>)
    requires EndsWithStop(events)
    ensures DecodeResponse(Encode(ReadStringResponse(events))) == ScriptRead(events)
  {
    var stop, data := FirstStop(events), Received(events);
    if stop.ReadErr? && data == [] {
      DecodeFailure(stop.reason);
    }
  }

  /** The not-found message has no surrounding whitespace, so it is thrown verbatim. */
  lemma NotFoundThrownVerbatim()
    ensures DecodeResponse(Encode(Failure(NotFoundMessage))) == Threw(NotFoundMessage)
  {
    var m := NotFoundMessage;
    assert |m| == 33 && m[0] == 108 && m[32] == 100;
    TrimUnpadded(m);
    DecodeFailure(m);
  }

  /** Neither a decimal handle nor `done` can be mistaken for an error reply. */
  lemma UntaggedReplies(n: nat)
    ensures !StartsWith(DecimalText(n), ErrorPrefix)
    ensures !StartsWith(DoneText, ErrorPrefix)
  {
    assert !IsDigit(ErrorPrefix[0]);
    assert DoneText[0] != ErrorPrefix[0];
  }

  // ---------------------------------------------------------------------------
  // Handles as numbers

  /** A handle sent as `String(id)` is read back by `u32::from_str` as the same handle. */
  lemma HandleArgRoundTrip(id: Handle, rest: seq<Arg>)
    ensures U32Arg(EncodeArgs([Num(id)] + rest), 0) == Some(id)
  {
    ParseDecimalText(id, U32_LIMIT);
  }

  /** A number outside `u32` range makes the plugin panic instead of reporting an error. */
  lemma OutOfRangeHandleAborts(n: SafeInteger, rest: seq<Arg>)
    requires U32_LIMIT <= n
    ensures U32Arg(EncodeArgs([Num(n)] + rest), 0) == None
  {
    ParseDecimalTextTooLarge(n, U32_LIMIT);
  }

  /** A JavaScript number, as far as `Number(text)` is needed here. */
  datatype JsNumber = Finite(value: nat) | NaN

  /** `Number(text)`: blank text is 0, decimal digits are their value, anything else NaN here. */
  function NumberOf(text: seq<byte>): (r: JsNumber)
    ensures (forall i | 0 <= i < |text| :: IsSpace(text[i])) ==> r == Finite(0)
    ensures text != [] && AllDigits(text) ==> r == Finite(DigitsValue(text))
    ensures r.Finite? ==> AllDigits(Trim(text))
  {
    var t := Trim(text);
    assert text != [] && AllDigits(text) ==> t == text by {
      if text != [] && AllDigits(text) {
        assert !IsSpace(text[0]) && !IsSpace(text[|text| - 1]);
        TrimUnpadded(text);
      }
    }
    if t == [] then Finite(0)
    else if AllDigits(t) then Finite(DigitsValue(t))
    else NaN
  }

  /** `Number` reads back the decimal text of a handle as that handle. */
  lemma NumberOfDecimalText(n: nat)
    ensures NumberOf(DecimalText(n)) == Finite(n)
  {
    DecimalTextValue(n);
  }

  // ---------------------------------------------------------------------------
  // The op_ipc_* wrappers

  /** `op_ipc_new(path)`: the handle the plugin picked, as a number. */
  method OpIpcNew(registry: Registry, path: seq<byte>, connect: ConnectOutcome) returns (r: JsResult<JsNumber>)
    requires registry.Valid() && |registry.sockets| < U32_LIMIT
    modifies registry
    ensures registry.Valid()
    ensures registry.sockets == Open(old(registry.sockets), path, connect).0
    ensures connect.Connected? ==> r == Returned(Finite(SmallestFree(old(registry.sockets).Keys)))
    ensures connect.ConnectFailed? ==> r == Threw(Trim(connect.reason))
  {
    ghost var id := SmallestFree(registry.sockets.Keys);
    var out := registry.OpIpcNew(EncodeArgs([Str(path)]), connect);
    UntaggedReplies(id);
    NumberOfDecimalText(id);
    DecodeFailure(if connect.ConnectFailed? then connect.reason else []);
    match DecodeResponse(Encode(out.response)) {
      case Threw(message) =>
        r := Threw(message);
      case Returned(text) =>
        r := Returned(NumberOf(text));
    }
  }

  /** `op_ipc_close(id)`: nothing on success, a thrown not-found error otherwise. */
  method OpIpcClose(registry: Registry, id: Handle) returns (r: JsResult<()>)
    requires registry.Valid()
    modifies registry
    ensures registry.Valid()
    ensures registry.sockets == Close(old(registry.sockets), id).0
    ensures r == if id in old(registry.sockets) then Returned(()) else Threw(NotFoundMessage)
  {
    HandleArgRoundTrip(id, []);
    var out := registry.OpIpcClose(EncodeArgs([Num(id)]));
    UntaggedReplies(0);
    NotFoundThrownVerbatim();
    match DecodeResponse(Encode(out.response)) {
      case Threw(message) =>
        r := Threw(message);
      case Returned(_) =>
        r := Returned(());
    }
  }

  /**
    `op_ipc_read_string(id)`: the bytes the peer sent before it stopped; an
    error thrown only when nothing came first, or when the bytes themselves
    begin with the error prefix.
   */
  method OpIpcReadString(registry: Registry, id: Handle, events: seq<ReadEvent>) returns (r: JsResult<seq<byte>>)
    requires EndsWithStop(events)
    ensures id !in registry.sockets ==> r == Threw(NotFoundMessage)
    ensures id in registry.sockets ==> r == ScriptRead(events)
  {
    HandleArgRoundTrip(id, []);
    var out := registry.OpIpcReadString(EncodeArgs([Num(id)]), events);
    NotFoundThrownVerbatim();
    DecodeReadString(events);
    r := DecodeResponse(Encode(out.response));
  }

  /** `op_ipc_write_all(id, data)`: nothing on success, the write error or not-found thrown. */
  method OpIpcWriteAll(registry: Registry, id: Handle, data: Arg, write: WriteOutcome) returns (r: JsResult<()>)
    ensures id !in registry.sockets ==> r == Threw(NotFoundMessage)
    ensures id in registry.sockets ==>
              r == if write.WriteOk? then Returned(()) else Threw(Trim(write.reason))
  {
    HandleArgRoundTrip(id, [data]);
    var out := registry.OpIpcWriteAll(EncodeArgs([Num(id), data]), write);
    UntaggedReplies(0);
    NotFoundThrownVerbatim();
    DecodeFailure(if write.WriteFailed? then write.reason else []);
    match DecodeResponse(Encode(out.response)) {
      case Threw(message) =>
        r := Threw(message);
      case Returned(_) =>
        r := Returned(());
    }
  }

  // ---------------------------------------------------------------------------
  // The IPC class

  /** A script-level connection: the handle is fixed when the object is made. */
  class IPC {
    /** `#id` */
    const id: Handle
    /** The plugin's registry this object's handle lives in. */
    const registry: Registry

    constructor Wrap(registry: Registry, id: Handle)
      ensures this.registry == registry && this.id == id
    {
      this.registry := registry;
      this.id := id;
    }

    /** `new IPC(path)`: either an object holding the new handle, or the open error thrown. */
    static method Create(registry: Registry, path: seq<byte>, connect: ConnectOutcome) returns (r: JsResult<IPC>)
      requires registry.Valid() && |registry.sockets| < U32_LIMIT
      modifies registry
      ensures registry.Valid()
      ensures registry.sockets == Open(old(registry.sockets), path, connect).0
      ensures connect.ConnectFailed? ==> r == Threw(Trim(connect.reason))
      ensures connect.Connected? ==>
                && r.Returned? && fresh(r.value) && r.value.registry == registry
                && r.value.id == SmallestFree(old(registry.sockets).Keys)
                && r.value.id in registry.sockets
    {
      var n := OpIpcNew(registry, path, connect);
      if n.Threw? {
        r := Threw(n.message);
      } else {
        var ipc := new IPC.Wrap(registry, n.value.value);
        r := Returned(ipc);
      }
    }

    /** `read()`: `op_ipc_read_string` on this object's handle. */
    method Read(events: seq<ReadEvent>) returns (r: JsResult<seq<byte>>)
      requires EndsWithStop(events)
      ensures id !in registry.sockets ==> r == Threw(NotFoundMessage)
      ensures id in registry.sockets ==> r == ScriptRead(events)
    {
      r := OpIpcReadString(registry, id, events);
    }

    /** `write(data)`: `op_ipc_write_all` on this object's handle. */
    method Write(data: Arg, write: WriteOutcome) returns (r: JsResult<()>)
      ensures id !in registry.sockets ==> r == Threw(NotFoundMessage)
      ensures id in registry.sockets ==>
                r == if write.WriteOk? then Returned(()) else Threw(Trim(write.reason))
    {
      r := OpIpcWriteAll(registry, id, data, write);
    }

    /** `close()`: `op_ipc_close` on this object's handle. */
    method Close() returns (r: JsResult<()>)
      requires registry.Valid()
      modifies registry
      ensures registry.Valid()
      ensures registry.sockets == Ipc.Close(old(registry.sockets), id).0
      ensures r == if id in old(registry.sockets) then Returned(()) else Threw(NotFoundMessage)
    {
      r := OpIpcClose(registry, id);
    }
  }

  /**
    An object outlives its connection: after `close()`, a second `close()` and
    any `read()` throw the not-found error.
   */
  method CloseThenUse(registry: Registry, path: seq<byte>, stream: nat, events: seq<ReadEvent>)
    returns (first: JsResult<()>, second: JsResult<()>, afterwards: JsResult<seq<byte>>)
    requires registry.Valid() && |registry.sockets| < U32_LIMIT
    requires EndsWithStop(events)
    modifies registry
    ensures first == Returned(())
    ensures second == Threw(NotFoundMessage)
    ensures afterwards == Threw(NotFoundMessage)
  {
    var made := IPC.Create(registry, path, Connected(stream));
    var ipc := made.value;
    first := ipc.Close();
    second := ipc.Close();
    afterwards := ipc.Read(events);
  }
}
