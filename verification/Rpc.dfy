/** Remote calls: request and response headers inside the framed messages, the client's
    blocking connection, and the way of a call to the server and back. */
module Rpc {
  import opened Bytes
  import opened Seqs
  import opened Framing

  const RPC_MAGIC: nat := 0x7472
  const RPC_VERSION: nat := 1
  const REQUEST_HEADER: nat := 16
  const RESPONSE_HEADER: nat := 17
  const OK: byte := 0

  // --------------------------------------------------------------------- headers

  /** A request header; a response header is a status byte followed by the same fields. */
  datatype RpcHeader = RpcHeader(magic: nat, version: nat, service: nat, opcode: nat, rev: bytes)
  {
    predicate Valid() { magic < 0x1_0000 && version < 0x1_0000 && service < 0x1_0000 && opcode < 0x1_0000 && |rev| == 8 }
  }

  function EncodeRpc(h: RpcHeader): (s: bytes)
    requires h.Valid()
    ensures |s| == REQUEST_HEADER
  {
    Widths();
    ToBE(2, h.magic) + ToBE(2, h.version) + ToBE(2, h.service) + ToBE(2, h.opcode) + h.rev
  }

  function DecodeRpc(s: bytes): (h: RpcHeader)
    requires |s| == REQUEST_HEADER
    ensures h.Valid()
  {
    Widths();
    RpcHeader(FromBE(s[..2]), FromBE(s[2..4]), FromBE(s[4..6]), FromBE(s[6..8]), s[8..])
  }

  lemma RpcHeaderRoundTrip(h: RpcHeader)
    requires h.Valid()
    ensures DecodeRpc(EncodeRpc(h)) == h
  {
    var s := EncodeRpc(h);
    Widths();
    hide ToBE; hide FromBE;
    assert s[..2] == ToBE(2, h.magic) && s[2..4] == ToBE(2, h.version) && s[4..6] == ToBE(2, h.service);
    assert s[6..8] == ToBE(2, h.opcode) && s[8..] == h.rev;
    FromToBE(2, h.magic);
    FromToBE(2, h.version);
    FromToBE(2, h.service);
    FromToBE(2, h.opcode);
  }

  lemma RpcHeaderBytes(s: bytes)
    requires |s| == REQUEST_HEADER
    ensures EncodeRpc(DecodeRpc(s)) == s
  {
    Widths();
    hide ToBE; hide FromBE;
    ToFromBE(s[..2]);
    ToFromBE(s[2..4]);
    ToFromBE(s[4..6]);
    ToFromBE(s[6..8]);
    assert s == s[..2] + s[2..4] + s[4..6] + s[6..8] + s[8..];
  }

  /** Where each field of the header lies. */
  lemma RpcHeaderAt(s: bytes)
    requires |s| == REQUEST_HEADER
    ensures DecodeRpc(s) == RpcHeader(Be16(s, 0), Be16(s, 2), Be16(s, 4), Be16(s, 6), s[8..])
  {
    FromBEWords(s, 0);
    FromBEWords(s, 2);
    FromBEWords(s, 4);
    FromBEWords(s, 6);
    assert s[..2] == s[0..2];
  }

  function CallHeader(service: nat, opcode: nat): RpcHeader { RpcHeader(RPC_MAGIC, RPC_VERSION, service, opcode, RESERVED) }

  function RequestStr(service: nat, opcode: nat, payload: bytes): bytes
    requires service < 0x1_0000 && opcode < 0x1_0000
  {
    EncodeRpc(CallHeader(service, opcode)) + payload
  }

  function ResponseStr(status: byte, service: nat, opcode: nat, payload: bytes): bytes
    requires service < 0x1_0000 && opcode < 0x1_0000
  {
    [status] + EncodeRpc(CallHeader(service, opcode)) + payload
  }

  datatype Call = Call(service: nat, opcode: nat, payload: bytes)

  /** What the server takes a request for. */
  function Validated(str: bytes): Option<Call> {
    if |str| <= REQUEST_HEADER then None
    else
      var h := DecodeRpc(str[..REQUEST_HEADER]);
      if h.magic == RPC_MAGIC && h.version == RPC_VERSION then Some(Call(h.service, h.opcode, str[REQUEST_HEADER..])) else None
  }

  /** What a call comes to: a reply, a failure on the way, a message that is no answer to this
      call, or a status of the service. */
  datatype Outcome = Reply(payload: bytes) | SendError | RecvError | FormatError | Status(code: byte)

  /** What the client takes a response for. */
  function Judge(str: bytes, service: nat, opcode: nat): Outcome {
    if |str| < RESPONSE_HEADER then FormatError
    else
      var h := DecodeRpc(str[1..RESPONSE_HEADER]);
      if h.magic != RPC_MAGIC || h.service != service || h.opcode != opcode then FormatError
      else if str[0] != OK then Status(str[0])
      else Reply(str[RESPONSE_HEADER..])
  }

  /** A request is understood as the call that was made exactly when it has a payload. */
  lemma RequestRoundTrip(service: nat, opcode: nat, payload: bytes)
    requires service < 0x1_0000 && opcode < 0x1_0000
    ensures Validated(RequestStr(service, opcode, payload)) == if payload == [] then None else Some(Call(service, opcode, payload))
  {
    var s := RequestStr(service, opcode, payload);
    RpcHeaderRoundTrip(CallHeader(service, opcode));
    hide EncodeRpc; hide DecodeRpc;
    assert s[..REQUEST_HEADER] == EncodeRpc(CallHeader(service, opcode)) && s[REQUEST_HEADER..] == payload;
  }

  /** A response to another service or operation is refused whatever its status; of those to
      this call one with status OK gives its payload unchanged, any other its status. */
  lemma ResponseRoundTrip(status: byte, service: nat, opcode: nat, payload: bytes, s: nat, o: nat)
    requires service < 0x1_0000 && opcode < 0x1_0000
    ensures Judge(ResponseStr(status, service, opcode, payload), s, o)
      == if s != service || o != opcode then FormatError else if status != OK then Status(status) else Reply(payload)
  {
    var str := ResponseStr(status, service, opcode, payload);
    RpcHeaderRoundTrip(CallHeader(service, opcode));
    hide EncodeRpc; hide DecodeRpc;
    assert str[1..RESPONSE_HEADER] == EncodeRpc(CallHeader(service, opcode)) && str[RESPONSE_HEADER..] == payload;
  }

  // Exactly which bytes are taken for a request and for a response.

  predicate IsRequest(str: bytes, c: Call, rev: bytes) {
    && c.service < 0x1_0000 && c.opcode < 0x1_0000 && |rev| == 8 && c.payload != []
    && str == EncodeRpc(RpcHeader(RPC_MAGIC, RPC_VERSION, c.service, c.opcode, rev)) + c.payload
  }

  predicate IsResponse(str: bytes, status: byte, version: nat, service: nat, opcode: nat, rev: bytes, payload: bytes) {
    && version < 0x1_0000 && service < 0x1_0000 && opcode < 0x1_0000 && |rev| == 8
    && str == [status] + EncodeRpc(RpcHeader(RPC_MAGIC, version, service, opcode, rev)) + payload
  }

  /** The server understands a call exactly when the bytes are a header with the magic number and
      the version, and a payload. */
  lemma ValidatedExact(str: bytes, c: Call)
    ensures Validated(str) == Some(c) <==> exists rev: bytes :: IsRequest(str, c, rev)
  {
    if Validated(str) == Some(c) {
      var s := str[..REQUEST_HEADER];
      RpcHeaderBytes(s);
      assert str == s + str[REQUEST_HEADER..];
      assert IsRequest(str, c, DecodeRpc(s).rev);
    }
    forall rev: bytes | IsRequest(str, c, rev) ensures Validated(str) == Some(c) {
      var h := RpcHeader(RPC_MAGIC, RPC_VERSION, c.service, c.opcode, rev);
      RpcHeaderRoundTrip(h);
      hide EncodeRpc; hide DecodeRpc;
      assert str[..REQUEST_HEADER] == EncodeRpc(h) && str[REQUEST_HEADER..] == c.payload;
    }
  }

  /** The client takes bytes for an answer to its call exactly when they are a status, a header
      with the magic number and this service and opcode, and a payload; the version is not
      looked at. */
  lemma JudgeExact(str: bytes, service: nat, opcode: nat)
    ensures Judge(str, service, opcode) != FormatError
       <==> exists status, version, rev, payload :: IsResponse(str, status, version, service, opcode, rev, payload)
    ensures forall status, version, rev, payload | IsResponse(str, status, version, service, opcode, rev, payload) ::
      Judge(str, service, opcode) == if status == OK then Reply(payload) else Status(status)
  {
    if Judge(str, service, opcode) != FormatError {
      var s := str[1..RESPONSE_HEADER];
      var h := DecodeRpc(s);
      RpcHeaderBytes(s);
      assert str == [str[0]] + s + str[RESPONSE_HEADER..];
      assert IsResponse(str, str[0], h.version, service, opcode, h.rev, str[RESPONSE_HEADER..]);
    }
    forall status, version, rev, payload | IsResponse(str, status, version, service, opcode, rev, payload)
      ensures Judge(str, service, opcode) == if status == OK then Reply(payload) else Status(status)
    {
      var h := RpcHeader(RPC_MAGIC, version, service, opcode, rev);
      RpcHeaderRoundTrip(h);
      hide EncodeRpc; hide DecodeRpc;
      assert str[1..RESPONSE_HEADER] == EncodeRpc(h) && str[RESPONSE_HEADER..] == payload && str[0] == status;
    }
  }

  // ---------------------------------------------------------------- server instance

  class RpcInstance {
    const request: Buffer
    const msgSize: nat
    var serviceId: nat
    var opcode: nat
    var payload: bytes

    constructor (str: bytes, msgSize: nat)
      ensures request.data == str && this.msgSize == msgSize && fresh(request)
    {
      var b := new Buffer();
      request, this.msgSize := b, msgSize;
      serviceId, opcode, payload := 0, 0, [];
      new;
      var _ := request.AppendInternal(str);
      assert [] + str == str;
    }

    method ValidateRequest() returns (ok: bool)
      requires msgSize == |request.data| < TWO32
      modifies this, request
      ensures ok <==> Validated(old(request.data)).Some?
      ensures ok ==> Validated(old(request.data)) == Some(Call(serviceId, opcode, payload)) && request.data == []
    {
      ghost var all := request.data;
      var length := request.GetLength();
      if length < REQUEST_HEADER {
        return false;
      }
      var found, head := request.Consume(REQUEST_HEADER);
      assert head == all[..REQUEST_HEADER] && request.data == all[REQUEST_HEADER..];
      var header := DecodeRpc(head);
      if header.magic != RPC_MAGIC || header.version != RPC_VERSION {
        return false;
      }
      serviceId := header.service;
      opcode := header.opcode;
      var str;
      found, str := request.Consume(msgSize - REQUEST_HEADER);
      assert str == all[REQUEST_HEADER..];
      if str == [] {
        return false;
      }
      payload := str;
      return true;
    }

    /** The message sent back for a reply: whoever made this call, and nobody else, takes it
        for a reply with exactly this payload, and it is found whole at the front of whatever
        bytes it begins. */
    method ReplyRpcMessage(msg: bytes) returns (net: Message)
      requires serviceId < 0x1_0000 && opcode < 0x1_0000
      ensures net.header.Valid() && Acceptable(net.header, 0)
      ensures Judge(net.payload, serviceId, opcode) == Reply(msg)
      ensures forall s: nat, o: nat | s != serviceId || o != opcode :: Judge(net.payload, s, o) == FormatError
      ensures RESPONSE_HEADER + |msg| < TWO32 ==>
        net.header.length == |net.payload| == RESPONSE_HEADER + |msg|
        && forall rest: bytes :: Whole(NetStr(net) + rest, 0) && FrontMessage(NetStr(net) + rest, 0) == net
    {
      var str := ResponseStr(OK, serviceId, opcode, msg);
      net := NewMessage(str);
      forall s: nat, o: nat ensures Judge(str, s, o) == if s != serviceId || o != opcode then FormatError else Reply(msg) {
        ResponseRoundTrip(OK, serviceId, opcode, msg, s, o);
      }
      if RESPONSE_HEADER + |msg| < TWO32 {
        forall rest: bytes ensures Whole(NetStr(net) + rest, 0) && FrontMessage(NetStr(net) + rest, 0) == net {
          FrontIsSent(str, rest, 0);
        }
      }
    }
  }

  // ------------------------------------------------------------------- client side

  /** A connected socket. A read returns once it has `atLeast` bytes, with however many of
      the bytes that have arrived fit the block; it fails when they never arrive. */
  class Socket {
    var incoming: bytes
    var sent: bytes

    method Read(atLeast: nat) returns (ok: bool, block: bytes)
      requires 1 <= atLeast <= IO_BLOCK
      modifies this`incoming
      ensures ok == (|old(incoming)| >= atLeast)
      ensures old(incoming) == block + incoming
      ensures if ok then atLeast <= |block| <= IO_BLOCK else block == []
    {
      if |incoming| < atLeast {
        return false, [];
      }
      var n :| atLeast <= n <= IO_BLOCK && n <= |incoming|;
      block := incoming[..n];
      incoming := incoming[n..];
      return true, block;
    }

    method Write(block: bytes)
      modifies this`sent
      ensures sent == old(sent) + block
    {
      sent := sent + block;
    }
  }

  lemma Slices(all: bytes, i: nat, n: nat)
    requires i + n <= |all|
    ensures all[..i + n] == all[..i] + all[i..][..n] && all[i + n..] == all[i..][n..]
  {
  }

  /** `done` bytes have been sent, and the lower 32 bits of the length leave `length` to send. */
  ghost predicate Sending(all: bytes, done: nat, length: nat, data: bytes, before: bytes, sent: bytes) {
    && done + length == |all| % TWO32 && data == all[done..] && sent == before + all[..done]
  }

  lemma SendingNext(all: bytes, done: nat, length: nat, data: bytes, before: bytes, sent: bytes, n: nat)
    requires Sending(all, done, length, data, before, sent) && n <= length
    ensures n <= |data| && length - n == |data[n..]| % TWO32
    ensures Sending(all, done + n, length - n, data[n..], before, sent + data[..n])
  {
    Slices(all, done, n);
    Remaining(|all|, done + n);
  }

  class TcpConnSync {
    const max: nat
    const sendMax: nat
    var working: bool
    const socket: Socket
    const recv: Buffer
    const send: Buffer
    const block: array<byte>
    var header: Header

    ghost predicate Valid() { recv != send && block.Length == IO_BLOCK }

    constructor (socket: Socket, max: nat, sendMax: nat)
      ensures Valid() && working && this.max == max && this.sendMax == sendMax && this.socket == socket
      ensures recv.data == [] && send.data == [] && fresh(recv) && fresh(send) && fresh(block)
    {
      this.socket, this.max, this.sendMax, working := socket, max, sendMax, true;
      header := Header(0, 0, 0, RESERVED);
      var r := new Buffer();
      var s := new Buffer();
      recv, send := r, s;
      block := new byte[IO_BLOCK];
    }

    /** Send the buffer block by block. The loop looks at the lower 32 bits of the length. */
    method DoWrite() returns (ok: bool)
      requires Valid()
      modifies send, block, socket`sent
      ensures ok == working
      ensures var n := if ok then |old(send.data)| % TWO32 else 0;
        socket.sent == old(socket.sent) + old(send.data)[..n] && send.data == old(send.data)[n..]
    {
      if !working {
        return false;
      }
      ghost var all, done: nat := send.data, 0;
      var length: nat := send.GetLength();
      assert Sending(all, done, length, send.data, old(socket.sent), socket.sent);
      while length > 0
        invariant Sending(all, done, length, send.data, old(socket.sent), socket.sent)
        decreases length
      {
        var toWrite := if length < IO_BLOCK then length else IO_BLOCK;
        SendingNext(all, done, length, send.data, old(socket.sent), socket.sent, toWrite);
        assert length <= |send.data|;
        hide Sending;
        var _ := send.ConsumeInto(block, toWrite);
        socket.Write(block[..toWrite]);
        done := done + toWrite;
        length := send.GetLength();
      }
      assert done == |all| % TWO32;
      return true;
    }

    method SendNetMessage(msg: Message) returns (ok: bool)
      requires Valid() && msg.header.Valid()
      modifies send, block, socket`sent
      ensures ok == (working && (sendMax == 0 || msg.header.length <= sendMax))
      ensures ok ==>
        var all := old(send.data) + NetStr(msg);
        var n := |all| % TWO32;
        socket.sent == old(socket.sent) + all[..n] && send.data == all[n..]
      ensures !ok ==> socket.sent == old(socket.sent)
    {
      if sendMax != 0 && msg.header.length > sendMax {
        return false;
      }
      var _ := send.Append(msg);
      ok := DoWrite();
    }

    /** Everything that has arrived and not been taken. */
    ghost function Arrived(): bytes
      reads recv, socket
    {
      recv.data + socket.incoming
    }

    method ParseHeader() returns (ret: int)
      modifies this`header, recv
      ensures var b := old(recv.data);
        if Len(b, true) < HEADER then ret == 1 && recv.data == b && header == old(header)
        else recv.data == b[HEADER..] && header == DecodeHeader(b[..HEADER]) && ret == if Acceptable(header, max) then 0 else -1
    {
      var length := recv.GetLength();
      if length < HEADER {
        return 1;
      }
      var _, head := recv.Consume(HEADER);
      assert head == old(recv.data)[..HEADER];
      header := DecodeHeader(head);
      if header.magic != MAGIC || header.version != VERSION {
        return -1;
      }
      if max != 0 && header.length > max {
        return -1;
      }
      return 0;
    }

    method ParseMsgBody() returns (ret: int, msg: Message)
      modifies recv
      ensures var b := old(recv.data);
        if Len(b, true) < header.length then ret == 1 && recv.data == b
        else ret == 0 && recv.data == b[header.length..] && msg == Message(header, b[..header.length])
    {
      msg := Message(header, []);
      var length := recv.GetLength();
      if length < header.length {
        return 1, msg;
      }
      var _, str := recv.Consume(header.length);
      assert str == old(recv.data)[..header.length];
      return 0, Message(header, str);
    }

    /** Wait until the buffer holds `wanted` bytes, reading a block at a time. Lengths are
        compared in 32 bits; the promise is for messages that fit them. */
    method Fill(wanted: nat) returns (ok: bool)
      modifies recv, socket`incoming
      ensures Arrived() == old(Arrived())
      ensures wanted <= SAFE_LIMIT && |old(recv.data)| < TWO32 ==>
        |recv.data| < TWO32 && ok == (|old(Arrived())| >= wanted) && (ok ==> |recv.data| >= wanted)
    {
      var length := recv.GetLength();
      while length < wanted
        invariant length == |recv.data| % TWO32
        invariant wanted <= SAFE_LIMIT && |old(recv.data)| < TWO32 ==> |recv.data| < TWO32
        invariant Arrived() == old(Arrived())
        decreases |socket.incoming|
      {
        var toRead := if wanted - length < IO_BLOCK then wanted - length else IO_BLOCK;
        var got, str := socket.Read(toRead);
        if !got {
          return false;
        }
        length := recv.AppendInternal(str);
      }
      return true;
    }

    /** Read one message: it succeeds exactly when a whole acceptable message arrives, and
        then takes that message and nothing else. */
    method DoRead() returns (ok: bool, msg: Message)
      modifies this, recv, socket`incoming
      ensures Manageable(old(Arrived())) && |old(recv.data)| < TWO32 ==>
        && |recv.data| < TWO32 && ok == (old(working) && Whole(old(Arrived()), max))
        && (ok ==> working && FrontMessage(old(Arrived()), max) == msg && Arrived() == AfterFront(old(Arrived()), max))
      ensures ok ==> old(working)
    {
      msg := Message(header, []);
      if !working {
        return false, msg;
      }
      ghost var all := Arrived();
      ok := Fill(HEADER);
      if !ok {
        working := false;
        return;
      }
      ghost var data := recv.data;
      if |data| >= HEADER { TakeFront(data, socket.incoming, HEADER); }
      var ret := ParseHeader();
      if ret != 0 {
        working := false;
        return false, msg;
      }
      assert all == data + socket.incoming;
      ok, msg := DoReadMsg();
    }

    method DoReadMsg() returns (ok: bool, msg: Message)
      requires working
      modifies this`working, recv, socket`incoming
      ensures header.length <= SAFE_LIMIT && |old(recv.data)| < TWO32 ==>
        && |recv.data| < TWO32 && ok == (|old(Arrived())| >= header.length)
        && (ok ==> working && msg == Message(header, old(Arrived())[..header.length]) && Arrived() == old(Arrived())[header.length..])
    {
      ghost var all := Arrived();
      msg := Message(header, []);
      ok := Fill(header.length);
      if !ok {
        working := false;
        return;
      }
      ghost var data, n := recv.data, header.length;
      if |data| >= n { TakeFront(data, socket.incoming, n); }
      var ret;
      ret, msg := ParseMsgBody();
      ok := ret == 0;
      if !ok {
        working := false;
      }
      assert all == data + socket.incoming;
    }
  }

  /** The first message does not overflow 32-bit lengths while it is collected. */
  predicate Manageable(all: bytes) { |all| >= HEADER ==> DecodeHeader(all[..HEADER]).length <= SAFE_LIMIT }

  lemma TakeFront(data: bytes, more: bytes, n: nat)
    requires n <= |data|
    ensures (data + more)[..n] == data[..n] && (data + more)[n..] == data[n..] + more
  {
  }

  /** What a call over a connection comes to, from what may be sent and what arrives. */
  function CallOutcome(call: Call, may: bool, all: bytes, max: nat): Outcome {
    if !may then SendError
    else if !Whole(all, max) then RecvError
    else Judge(FrontMessage(all, max).payload, call.service, call.opcode)
  }

  /** A call that may be sent fails to receive exactly when the bytes that arrive do not begin with
      a header that is taken for one, or end before the message does. A call that may not be
      sent is the only send error. */
  lemma CallFailures(call: Call, may: bool, all: bytes, max: nat)
    ensures CallOutcome(call, may, all, max) == SendError <==> !may
    ensures CallOutcome(call, may, all, max) == RecvError <==>
      may && (|all| < HEADER || all[..4] != [0x74, 0x6b, 0, 1] || (max != 0 && Be32(all, 4) > max) || |all| < HEADER + Be32(all, 4))
  {
    if |all| >= HEADER {
      AcceptedBytes(all, max);
      HeaderAt(all);
    }
  }

  /** One call over an idle connection: the request goes out whole, one message is taken from
      what arrives and judged; a failure to send or to receive gives the connection up. */
  method CallRpc(conn: TcpConnSync, call: Call) returns (r: Outcome, kept: bool)
    requires conn.Valid() && conn.send.data == [] && |conn.recv.data| < TWO32
    requires call.service < 0x1_0000 && call.opcode < 0x1_0000 && HEADER + REQUEST_HEADER + |call.payload| < TWO32
    modifies conn, conn.send, conn.recv, conn.block, conn.socket
    ensures var str, all := RequestStr(call.service, call.opcode, call.payload), old(conn.Arrived());
      var may := old(conn.working) && (conn.sendMax == 0 || |str| <= conn.sendMax);
      && conn.socket.sent == old(conn.socket.sent) + (if may then NetStr(NewMessage(str)) else [])
      && (r.SendError? <==> conn.socket.sent == old(conn.socket.sent))
      && (Manageable(all) ==>
          && r == CallOutcome(call, may, all, conn.max) && kept == (may && Whole(all, conn.max))
          && (kept ==> conn.Arrived() == AfterFront(all, conn.max)))
  {
    var msg := NewMessage(RequestStr(call.service, call.opcode, call.payload));
    assert [] + NetStr(msg) == NetStr(msg) && NetStr(msg) != [];
    hide Judge; hide NetStr; hide Whole; hide FrontMessage; hide AfterFront; hide RequestStr; hide Manageable;
    var ok := conn.SendNetMessage(msg);
    if !ok {
      return SendError, false;
    }
    var reply;
    ok, reply := conn.DoRead();
    if !ok {
      return RecvError, false;
    }
    JudgeNoFailure(reply.payload, call.service, call.opcode);
    return Judge(reply.payload, call.service, call.opcode), true;
  }

  lemma JudgeNoFailure(str: bytes, service: nat, opcode: nat)
    ensures !Judge(str, service, opcode).SendError? && !Judge(str, service, opcode).RecvError?
  {
  }

  /** The bytes begin with a whole message within the limit. */
  predicate Whole(all: bytes, max: nat) {
    |all| >= HEADER && var h := DecodeHeader(all[..HEADER]); Acceptable(h, max) && |all| >= HEADER + h.length
  }

  function FrontMessage(all: bytes, max: nat): Message
    requires Whole(all, max)
  {
    var h := DecodeHeader(all[..HEADER]);
    Message(h, all[HEADER..][..h.length])
  }

  function AfterFront(all: bytes, max: nat): bytes
    requires Whole(all, max)
  {
    all[HEADER..][DecodeHeader(all[..HEADER]).length..]
  }

  /** A message sent is the message found at the front of what arrives. */
  lemma FrontIsSent(p: bytes, rest: bytes, max: nat)
    requires |p| < TWO32 && (max != 0 ==> |p| <= max)
    ensures var all := NetStr(NewMessage(p)) + rest;
      Whole(all, max) && FrontMessage(all, max) == NewMessage(p) && AfterFront(all, max) == rest
  {
    var w := NetStr(NewMessage(p));
    SplitWire(p);
    hide NetStr; hide DecodeHeader;
    var all := w + rest;
    assert all[..HEADER] == w[..HEADER] && all[HEADER..] == p + rest;
    assert (p + rest)[..|p|] == p && (p + rest)[|p|..] == rest;
  }

  // --------------------------------------------------------------- there and back

  /** A request with a payload, cut anywhere on its way, reaches the server as one message
      that is validated as the call that was made. */
  lemma RequestArrives(call: Call, chunks: seq<bytes>, max: nat)
    requires call.service < 0x1_0000 && call.opcode < 0x1_0000 && call.payload != []
    requires REQUEST_HEADER + |call.payload| <= (if max == 0 then SAFE_LIMIT else max) && max <= SAFE_LIMIT && Blocks(chunks)
    requires Concat(chunks) == NetStr(NewMessage(RequestStr(call.service, call.opcode, call.payload)))
    ensures var r := Receive(START, chunks, max, true);
      r.open && |r.out| == 1 && Validated(r.out[0].payload) == Some(call)
  {
    var str := RequestStr(call.service, call.opcode, call.payload);
    RequestRoundTrip(call.service, call.opcode, call.payload);
    assert |str| == REQUEST_HEADER + |call.payload| && NewMessage(str).payload == str;
    hide *;
    OneStream(str, max);
    assert [str][..1] == [str];
    if max == 0 {
      AllMessagesUnlimited([str], chunks);
    } else {
      AllMessages([str], chunks, max);
    }
  }

  lemma OneStream(p: bytes, max: nat)
    ensures Stream([p]) == NetStr(NewMessage(p)) && (|p| <= max ==> Within([p], max) == 1)
  {
    var none: seq<bytes> := [p][..0];
    assert Stream(none) == [];
  }

  /** The server's reply comes back to the caller with its payload unchanged, and leaves the
      connection ready for whatever follows it. */
  lemma ReplyArrives(call: Call, reply: bytes, rest: bytes, max: nat)
    requires call.service < 0x1_0000 && call.opcode < 0x1_0000
    requires RESPONSE_HEADER + |reply| <= (if max == 0 then SAFE_LIMIT else max) && max <= SAFE_LIMIT
    ensures var all := NetStr(NewMessage(ResponseStr(OK, call.service, call.opcode, reply))) + rest;
      && Manageable(all) && Whole(all, max) && AfterFront(all, max) == rest
      && CallOutcome(call, true, all, max) == Reply(reply)
  {
    var str := ResponseStr(OK, call.service, call.opcode, reply);
    FrontIsSent(str, rest, max);
    ResponseRoundTrip(OK, call.service, call.opcode, reply, call.service, call.opcode);
  }

  lemma Remaining(size: nat, done: nat)
    requires done <= size % TWO32
    ensures (size - done) % TWO32 == size % TWO32 - done
  {
    ModShift32(size - done, size / TWO32);
  }
}
