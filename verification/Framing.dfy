/** Messages on a byte stream: the 16-byte header, the buffer, and the reader of the server
    connection, which must find the same messages however the stream is cut. */
module Framing {
  import opened Bytes
  import opened Seqs

  const HEADER: nat := 16
  const IO_BLOCK: nat := 2048
  const MAGIC: nat := 0x746b
  const VERSION: nat := 1

  // -------------------------------------------------------------------- messages

  /** The reserved words are passed through as they are. */
  datatype Header = Header(magic: nat, version: nat, length: nat, rev: bytes)
  {
    predicate Valid() { magic < 0x1_0000 && version < 0x1_0000 && length < TWO32 && |rev| == 8 }
  }

  function EncodeHeader(h: Header): (s: bytes)
    requires h.Valid()
    ensures |s| == HEADER
  {
    Widths();
    ToBE(2, h.magic) + ToBE(2, h.version) + ToBE(4, h.length) + h.rev
  }

  function DecodeHeader(s: bytes): (h: Header)
    requires |s| == HEADER
    ensures h.Valid()
  {
    Widths();
    Header(FromBE(s[..2]), FromBE(s[2..4]), FromBE(s[4..8]), s[8..])
  }

  lemma HeaderRoundTrip(h: Header)
    requires h.Valid()
    ensures DecodeHeader(EncodeHeader(h)) == h
  {
    var s := EncodeHeader(h);
    Widths();
    hide ToBE; hide FromBE;
    assert s[..2] == ToBE(2, h.magic) && s[2..4] == ToBE(2, h.version) && s[4..8] == ToBE(4, h.length) && s[8..] == h.rev;
    FromToBE(2, h.magic);
    FromToBE(2, h.version);
    FromToBE(4, h.length);
  }

  lemma HeaderBytes(s: bytes)
    requires |s| == HEADER
    ensures EncodeHeader(DecodeHeader(s)) == s
  {
    Widths();
    ToFromBE(s[..2]);
    ToFromBE(s[2..4]);
    ToFromBE(s[4..8]);
    hide ToBE; hide FromBE;
    assert s == s[..2] + s[2..4] + s[4..8] + s[8..];
  }

  /** Where each field of a header lies. */
  lemma HeaderAt(s: bytes)
    requires |s| >= HEADER
    ensures DecodeHeader(s[..HEADER]) == Header(Be16(s, 0), Be16(s, 2), Be32(s, 4), s[8..HEADER])
  {
    var h := s[..HEADER];
    assert h[..2] == s[0..2] && h[2..4] == s[2..4] && h[4..8] == s[4..8] && h[8..] == s[8..HEADER];
    FromBEWords(s, 0);
    FromBEWords(s, 2);
    FromBEWords(s, 4);
  }

  /** Which 16 bytes are taken for a header: "tk", version 1, and a length within the limit. */
  lemma AcceptedBytes(s: bytes, max: nat)
    requires |s| >= HEADER
    ensures Acceptable(DecodeHeader(s[..HEADER]), max)
       <==> s[..4] == [0x74, 0x6b, 0, 1] && (max == 0 || Be32(s, 4) <= max)
  {
    HeaderAt(s);
    hide DecodeHeader;
    assert s[..4] == [s[0], s[1], s[2], s[3]];
  }

  datatype Message = Message(header: Header, payload: bytes)

  const RESERVED: bytes := [0, 0, 0, 0, 0, 0, 0, 0]

  /** The length field is 32 bits wide. */
  function NewMessage(data: bytes): (m: Message)
    ensures m.header.Valid()
  {
    Message(Header(MAGIC, VERSION, |data| % TWO32, RESERVED), data)
  }

  function NetStr(m: Message): bytes
    requires m.header.Valid()
  {
    EncodeHeader(m.header) + m.payload
  }

  // ---------------------------------------------------------------------- buffer

  class Buffer {
    var data: bytes

    constructor ()
      ensures data == []
    {
      data := [];
    }

    method AppendInternal(more: bytes) returns (length: nat)
      modifies this
      ensures data == old(data) + more && length == |data| % TWO32
    {
      data := data + more;
      return |data| % TWO32;
    }

    method Append(msg: Message) returns (length: nat)
      requires msg.header.Valid()
      modifies this
      ensures data == old(data) + NetStr(msg) && length == |data| % TWO32
    {
      length := AppendInternal(EncodeHeader(msg.header));
      length := AppendInternal(msg.payload);
    }

    /** Take up to `sz` bytes from the front. */
    method Consume(sz: nat) returns (ok: bool, store: bytes)
      modifies this
      ensures old(data) == store + data
      ensures |store| == if sz <= |old(data)| then sz else |old(data)|
      ensures ok == (store != [])
    {
      if sz == 0 || data == [] {
        return false, [];
      }
      if sz >= |data| {
        store := data;
        data := [];
        return true, store;
      }
      var remain := data[sz..];
      store := data[..sz];
      data := remain;
      return true, store;
    }

    /** Copy `sz` bytes from the front into a block, then drop them. */
    method ConsumeInto(store: array<byte>, sz: nat) returns (ok: bool)
      requires sz <= |data| && sz <= store.Length
      modifies this, store
      ensures ok == (sz > 0)
      ensures store[..sz] == old(data)[..sz] && store[sz..] == old(store[sz..])
      ensures data == old(data)[sz..]
    {
      if sz == 0 || data == [] {
        return false;
      }
      for i := 0 to sz
        invariant data == old(data)
        invariant store[..i] == data[..i] && store[sz..] == old(store[sz..])
      {
        store[i] := data[i];
      }
      FrontErase(sz);
      return true;
    }

    method FrontErase(sz: nat)
      modifies this
      ensures data == if sz >= |old(data)| then [] else old(data)[sz..]
    {
      if sz >= |data| {
        data := [];
        return;
      }
      data := data[sz..];
    }

    method GetLength() returns (length: nat)
      ensures length == |data| % TWO32
    {
      return |data| % TWO32;
    }
  }

  // ---------------------------------------------------------------------- reader

  /** A connection between two reads. `body` is the header whose payload is being waited for. */
  datatype Conn = Conn(open: bool, body: Option<Header>, buffer: bytes, out: seq<Message>)

  const START: Conn := Conn(true, None, [], [])

  /** `max` of zero means no limit. */
  predicate Acceptable(h: Header, max: nat) {
    h.Valid() && h.magic == MAGIC && h.version == VERSION && (max != 0 ==> h.length <= max)
  }

  /** The length the reader sees: the real one, or its lower 32 bits. */
  function Len(b: bytes, wrap: bool): (n: nat)
    ensures n <= |b| && (|b| < TWO32 ==> n == |b|)
  {
    if wrap then |b| % TWO32 else |b|
  }

  /** Take headers and bodies from the buffer as long as they are complete. */
  function ReadHeader(c: Conn, max: nat, wrap: bool): Conn
    decreases |c.buffer|, 0
  {
    if Len(c.buffer, wrap) < HEADER then c.(body := None)
    else
      var h, rest := DecodeHeader(c.buffer[..HEADER]), c.buffer[HEADER..];
      if Acceptable(h, max) then ReadBody(c.(body := None, buffer := rest), h, max, wrap)
      else c.(open := false, body := None, buffer := rest)
  }

  function ReadBody(c: Conn, h: Header, max: nat, wrap: bool): Conn
    decreases |c.buffer|, 1
  {
    if Len(c.buffer, wrap) < h.length then c.(body := Some(h))
    else
      ReadHeader(c.(body := None, buffer := c.buffer[h.length..], out := c.out + [Message(h, c.buffer[..h.length])]), max, wrap)
  }

  /** Bytes arrive. */
  function OnRead(c: Conn, chunk: bytes, max: nat, wrap: bool): Conn {
    if !c.open then c
    else
      var d := c.(buffer := c.buffer + chunk);
      if c.body.None? then ReadHeader(d, max, wrap) else ReadBody(d, c.body.value, max, wrap)
  }

  /** What can be observed of a connection: once closed, its buffer is never looked at. */
  function Observe(c: Conn): Conn { if c.open then c else c.(buffer := []) }

  /** A sequence of reads. */
  function Receive(c: Conn, chunks: seq<bytes>, max: nat, wrap: bool): Conn {
    if chunks == [] then c else OnRead(Receive(c, chunks[..|chunks| - 1], max, wrap), chunks[|chunks| - 1], max, wrap)
  }

  // ---------------------------------------------------------- chunking independence

  lemma {:induction false} ResumeHeader(c: Conn, more: bytes, max: nat)
    requires c.open
    ensures Observe(OnRead(ReadHeader(c, max, false), more, max, false)) == Observe(ReadHeader(c.(buffer := c.buffer + more), max, false))
    decreases |c.buffer|, 0
  {
    if |c.buffer| >= HEADER {
      var b := c.buffer + more;
      assert b[..HEADER] == c.buffer[..HEADER] && b[HEADER..] == c.buffer[HEADER..] + more;
      var h := DecodeHeader(c.buffer[..HEADER]);
      if Acceptable(h, max) {
        ResumeBody(c.(body := None, buffer := c.buffer[HEADER..]), h, more, max);
      }
    }
  }

  lemma {:induction false} ResumeBody(c: Conn, h: Header, more: bytes, max: nat)
    requires c.open
    ensures Observe(OnRead(ReadBody(c, h, max, false), more, max, false)) == Observe(ReadBody(c.(buffer := c.buffer + more), h, max, false))
    decreases |c.buffer|, 1
  {
    if |c.buffer| >= h.length {
      var b := c.buffer + more;
      assert b[..h.length] == c.buffer[..h.length] && b[h.length..] == c.buffer[h.length..] + more;
      ResumeHeader(c.(body := None, buffer := c.buffer[h.length..], out := c.out + [Message(h, c.buffer[..h.length])]), more, max);
    }
  }

  /** Reading two pieces one after the other is reading them at once. */
  lemma ReadTwice(c: Conn, a: bytes, b: bytes, max: nat)
    ensures Observe(OnRead(OnRead(c, a, max, false), b, max, false)) == Observe(OnRead(c, a + b, max, false))
  {
    if c.open {
      var d := c.(buffer := c.buffer + a);
      assert (c.buffer + a) + b == c.buffer + (a + b);
      if c.body.None? { ResumeHeader(d, b, max); } else { ResumeBody(d, c.body.value, b, max); }
    }
  }

  lemma ObserveStep(c: Conn, d: Conn, chunk: bytes, max: nat, wrap: bool)
    requires Observe(c) == Observe(d)
    ensures Observe(OnRead(c, chunk, max, wrap)) == Observe(OnRead(d, chunk, max, wrap))
  {
  }

  lemma ReadNothing(max: nat)
    ensures OnRead(START, [], max, false) == START
  {
  }

  /** However a stream is cut, the result is that of reading it at once. */
  lemma {:induction false} ReadPieces(chunks: seq<bytes>, max: nat)
    ensures Observe(Receive(START, chunks, max, false)) == Observe(OnRead(START, Concat(chunks), max, false))
  {
    if chunks == [] {
      ReadNothing(max);
    } else {
      var init, last := chunks[..|chunks| - 1], chunks[|chunks| - 1];
      assert chunks == init + [last];
      ReadPieces(init, max);
      ConcatSnoc(init, last);
      ObserveStep(Receive(START, init, max, false), OnRead(START, Concat(init), max, false), last, max, false);
      ReadTwice(START, Concat(init), last, max);
    }
  }

  // ---------------------------------------------------------- 32-bit lengths

  /** Nothing complete is left in the buffer. */
  ghost predicate Quiet(c: Conn, max: nat) {
    c.open ==> if c.body.None? then |c.buffer| < HEADER else Acceptable(c.body.value, max) && |c.buffer| < c.body.value.length
  }

  lemma {:induction false} NarrowHeader(c: Conn, max: nat)
    requires |c.buffer| < TWO32
    ensures ReadHeader(c, max, true) == ReadHeader(c, max, false) && Quiet(ReadHeader(c, max, false), max)
    decreases |c.buffer|, 0
  {
    if |c.buffer| >= HEADER {
      var h := DecodeHeader(c.buffer[..HEADER]);
      if Acceptable(h, max) { NarrowBody(c.(body := None, buffer := c.buffer[HEADER..]), h, max); }
    }
  }

  lemma {:induction false} NarrowBody(c: Conn, h: Header, max: nat)
    requires |c.buffer| < TWO32 && Acceptable(h, max)
    ensures ReadBody(c, h, max, true) == ReadBody(c, h, max, false) && Quiet(ReadBody(c, h, max, false), max)
    decreases |c.buffer|, 1
  {
    if |c.buffer| >= h.length {
      NarrowHeader(c.(body := None, buffer := c.buffer[h.length..], out := c.out + [Message(h, c.buffer[..h.length])]), max);
    }
  }

  lemma NarrowRead(c: Conn, chunk: bytes, max: nat)
    requires Quiet(c, max) && |c.buffer + chunk| < TWO32
    ensures OnRead(c, chunk, max, true) == OnRead(c, chunk, max, false) && Quiet(OnRead(c, chunk, max, false), max)
  {
    if c.open {
      var d := c.(buffer := c.buffer + chunk);
      if c.body.None? { NarrowHeader(d, max); } else { NarrowBody(d, c.body.value, max); }
    }
  }

  /** The largest limit for which a waiting message and one more block stay below 2^32. */
  const SAFE_LIMIT: nat := TWO32 - IO_BLOCK

  predicate Blocks(chunks: seq<bytes>) { forall i | 0 <= i < |chunks| :: 1 <= |chunks[i]| <= IO_BLOCK }

  lemma {:induction false} NarrowRun(chunks: seq<bytes>, max: nat)
    requires Blocks(chunks) && 1 <= max <= SAFE_LIMIT
    ensures Receive(START, chunks, max, true) == Receive(START, chunks, max, false)
    ensures Quiet(Receive(START, chunks, max, false), max)
  {
    if chunks != [] {
      var init, last := chunks[..|chunks| - 1], chunks[|chunks| - 1];
      NarrowRun(init, max);
      var c := Receive(START, init, max, false);
      if c.open { NarrowRead(c, last, max); }
    }
  }

  /** For a configured limit the reader, which keeps its lengths in 32 bits, finds in every
      cut of every byte stream what reading the stream at once would find, and stops with
      nothing complete left over. */
  lemma AnyCut(chunks: seq<bytes>, max: nat)
    requires Blocks(chunks) && 1 <= max <= SAFE_LIMIT
    ensures Observe(Receive(START, chunks, max, true)) == Observe(OnRead(START, Concat(chunks), max, false))
    ensures Quiet(Receive(START, chunks, max, true), max)
  {
    NarrowRun(chunks, max);
    ReadPieces(chunks, max);
  }

  // ---------------------------------------------------------- message lists

  function Stream(ps: seq<bytes>): bytes {
    if ps == [] then [] else Stream(ps[..|ps| - 1]) + NetStr(NewMessage(ps[|ps| - 1]))
  }

  function Messages(ps: seq<bytes>): (r: seq<Message>)
    ensures |r| == |ps| && forall i | 0 <= i < |ps| :: r[i] == NewMessage(ps[i])
  {
    seq(|ps|, i requires 0 <= i < |ps| => NewMessage(ps[i]))
  }

  lemma SplitWire(p: bytes)
    ensures var s := NetStr(NewMessage(p));
      |s| == HEADER + |p| && DecodeHeader(s[..HEADER]) == NewMessage(p).header && s[HEADER..] == p
  {
    var m := NewMessage(p);
    HeaderRoundTrip(m.header);
    hide EncodeHeader; hide DecodeHeader;
    assert NetStr(m)[..HEADER] == EncodeHeader(m.header);
  }

  lemma OneMessage(out: seq<Message>, p: bytes, max: nat)
    requires |p| < TWO32 && (max != 0 ==> |p| <= max)
    ensures OnRead(Conn(true, None, [], out), NetStr(NewMessage(p)), max, false) == Conn(true, None, [], out + [NewMessage(p)])
  {
    var s, h := NetStr(NewMessage(p)), NewMessage(p).header;
    SplitWire(p);
    hide NetStr; hide DecodeHeader; hide ReadBody;
    BodyComplete(out, p, max);
    assert [] + s == s;
    assert ReadHeader(Conn(true, None, s, out), max, false) == ReadBody(Conn(true, None, p, out), h, max, false);
  }

  lemma BodyComplete(out: seq<Message>, p: bytes, max: nat)
    requires |p| < TWO32
    ensures ReadBody(Conn(true, None, p, out), NewMessage(p).header, max, false) == Conn(true, None, [], out + [NewMessage(p)])
  {
    hide DecodeHeader;
    assert p[..|p|] == p && p[|p|..] == [];
  }

  /** A stream of messages within the limit is read as exactly those messages, in order. */
  lemma {:induction false} Dispatches(ps: seq<bytes>, max: nat)
    requires forall i | 0 <= i < |ps| :: |ps[i]| < TWO32 && (max != 0 ==> |ps[i]| <= max)
    ensures OnRead(START, Stream(ps), max, false) == Conn(true, None, [], Messages(ps))
  {
    if ps == [] {
      ReadNothing(max);
    } else {
      var init, p := ps[..|ps| - 1], ps[|ps| - 1];
      assert Messages(ps) == Messages(init) + [NewMessage(p)] && Stream(ps) == Stream(init) + NetStr(NewMessage(p));
      hide OnRead; hide Stream; hide NetStr; hide NewMessage; hide Messages;
      Dispatches(init, max);
      OneMessage(Messages(init), p, max);
      ReadTwice(START, Stream(init), NetStr(NewMessage(p)), max);
      assert OnRead(START, Stream(ps), max, false) == Conn(true, None, [], Messages(ps));
    }
  }

  lemma TooLong(out: seq<Message>, p: bytes, rest: bytes, max: nat)
    requires max != 0 && max < |p| < TWO32
    ensures var r := OnRead(Conn(true, None, [], out), NetStr(NewMessage(p)) + rest, max, false);
      !r.open && r.out == out
  {
    var s := NetStr(NewMessage(p));
    SplitWire(p);
    hide NetStr; hide DecodeHeader;
    assert [] + (s + rest) == s + rest && (s + rest)[..HEADER] == s[..HEADER];
  }

  /** How many messages come before the first one that is too long. */
  function Within(ps: seq<bytes>, max: nat): (k: nat)
    ensures k <= |ps| && (forall i | 0 <= i < k :: |ps[i]| <= max) && (k < |ps| ==> |ps[k]| > max)
  {
    if ps == [] || |ps[0]| > max then 0 else 1 + Within(ps[1..], max)
  }

  lemma Regroup(a: bytes, b: bytes, c: bytes, d: bytes)
    ensures (a + (b + c)) + d == a + (b + (c + d))
  {
  }

  lemma {:induction false} StreamSplit(ps: seq<bytes>, k: nat) returns (rest: bytes)
    requires k < |ps|
    ensures Stream(ps) == Stream(ps[..k]) + (NetStr(NewMessage(ps[k])) + rest)
  {
    var n := |ps| - 1;
    var w, last := NetStr(NewMessage(ps[k])), NetStr(NewMessage(ps[n]));
    assert Stream(ps) == Stream(ps[..n]) + last;
    if k == n {
      hide *;
      rest := [];
      assert w + [] == w;
    } else {
      hide *;
      var more := StreamSplit(ps[..n], k);
      assert ps[..n][..k] == ps[..k];
      rest := more + last;
      Regroup(Stream(ps[..k]), w, more, last);
    }
  }

  /** Messages cut anywhere: those before the first oversized one are dispatched, in order
      and unchanged, and the connection is still open exactly when none is oversized. */
  lemma AllMessages(ps: seq<bytes>, chunks: seq<bytes>, max: nat)
    requires Blocks(chunks) && 1 <= max <= SAFE_LIMIT
    requires Concat(chunks) == Stream(ps) && forall i | 0 <= i < |ps| :: |ps[i]| < TWO32
    ensures var r := Receive(START, chunks, max, true);
      && r.out == Messages(ps[..Within(ps, max)]) && (r.open <==> Within(ps, max) == |ps|)
      && (r.open ==> r.body == None && r.buffer == [])
  {
    AnyCut(chunks, max);
    var k := Within(ps, max);
    hide NetStr; hide NewMessage; hide Receive;
    Dispatches(ps[..k], max);
    if k == |ps| {
      assert ps[..k] == ps;
    } else {
      var rest := StreamSplit(ps, k);
      var w := NetStr(NewMessage(ps[k]));
      ReadTwice(START, Stream(ps[..k]), w + rest, max);
      TooLong(Messages(ps[..k]), ps[k], rest, max);
    }
  }

  // ---------------------------------------------------------- no limit configured

  /** As long as a limit refuses nothing it makes no difference. */
  lemma {:induction false} UnlimitedHeader(c: Conn, max: nat, wrap: bool)
    requires ReadHeader(c, max, wrap).open
    ensures ReadHeader(c, 0, wrap) == ReadHeader(c, max, wrap) && c.open
    decreases |c.buffer|, 0
  {
    if Len(c.buffer, wrap) >= HEADER {
      var h := DecodeHeader(c.buffer[..HEADER]);
      if Acceptable(h, max) { UnlimitedBody(c.(body := None, buffer := c.buffer[HEADER..]), h, max, wrap); }
    }
  }

  lemma {:induction false} UnlimitedBody(c: Conn, h: Header, max: nat, wrap: bool)
    requires ReadBody(c, h, max, wrap).open
    ensures ReadBody(c, h, 0, wrap) == ReadBody(c, h, max, wrap) && c.open
    decreases |c.buffer|, 1
  {
    if Len(c.buffer, wrap) >= h.length {
      UnlimitedHeader(c.(body := None, buffer := c.buffer[h.length..], out := c.out + [Message(h, c.buffer[..h.length])]), max, wrap);
    }
  }

  lemma {:induction false} UnlimitedRun(chunks: seq<bytes>, max: nat, wrap: bool)
    requires Receive(START, chunks, max, wrap).open
    ensures Receive(START, chunks, 0, wrap) == Receive(START, chunks, max, wrap)
  {
    if chunks != [] {
      var init, last := chunks[..|chunks| - 1], chunks[|chunks| - 1];
      var c := Receive(START, init, max, wrap);
      UnlimitedRun(init, max, wrap);
      var d := c.(buffer := c.buffer + last);
      if c.body.None? { UnlimitedHeader(d, max, wrap); } else { UnlimitedBody(d, c.body.value, max, wrap); }
    }
  }

  /** Without a limit, messages that leave room for one more block below 2^32, cut anywhere,
      are all dispatched. */
  lemma AllMessagesUnlimited(ps: seq<bytes>, chunks: seq<bytes>)
    requires Blocks(chunks) && Concat(chunks) == Stream(ps) && forall i | 0 <= i < |ps| :: |ps[i]| <= SAFE_LIMIT
    ensures Receive(START, chunks, 0, true) == Conn(true, None, [], Messages(ps))
  {
    AllMessages(ps, chunks, SAFE_LIMIT);
    hide Receive;
    assert Within(ps, SAFE_LIMIT) == |ps| && ps[..|ps|] == ps;
    UnlimitedRun(chunks, SAFE_LIMIT, true);
  }

  // ---------------------------------------------------------- conservation

  ghost predicate Sound(ms: seq<Message>, max: nat) {
    forall i | 0 <= i < |ms| :: Acceptable(ms[i].header, max) && ms[i].header.length == |ms[i].payload|
  }

  function Wires(ms: seq<Message>): bytes
    requires forall i | 0 <= i < |ms| :: ms[i].header.Valid()
  {
    if ms == [] then [] else Wires(ms[..|ms| - 1]) + NetStr(ms[|ms| - 1])
  }

  lemma WiresSnoc(ms: seq<Message>, m: Message)
    requires m.header.Valid() && forall i | 0 <= i < |ms| :: ms[i].header.Valid()
    ensures Wires(ms + [m]) == Wires(ms) + (EncodeHeader(m.header) + m.payload)
  {
    assert (ms + [m])[..|ms|] == ms;
  }

  /** Everything received and not thrown away, in the order received. */
  ghost function Kept(c: Conn, max: nat): bytes
    requires Sound(c.out, max) && (c.body.Some? ==> c.body.value.Valid())
  {
    Wires(c.out) + ((if c.body.Some? then EncodeHeader(c.body.value) else []) + c.buffer)
  }

  /** What `r`, reached from messages `out` and unread bytes `rest`, has made of them. A
      closed connection has met a header that is not acceptable, `bad`. */
  ghost predicate Accounts(r: Conn, out: seq<Message>, rest: bytes, bad: bytes, max: nat)
    requires Sound(out, max)
  {
    && Sound(r.out, max) && (r.body.Some? ==> r.body.value.Valid())
    && out <= r.out
    && if r.open then Kept(r, max) == Wires(out) + rest
       else |bad| == HEADER && !Acceptable(DecodeHeader(bad), max) && Wires(r.out) + (bad + r.buffer) == Wires(out) + rest
  }

  lemma {:induction false} HeaderAccounts(c: Conn, max: nat) returns (bad: bytes)
    requires c.open && Sound(c.out, max)
    ensures Accounts(ReadHeader(c, max, false), c.out, c.buffer, bad, max)
    decreases |c.buffer|, 0
  {
    bad := [];
    if |c.buffer| >= HEADER {
      var front, rest := c.buffer[..HEADER], c.buffer[HEADER..];
      var h := DecodeHeader(front);
      assert c.buffer == front + rest;
      if Acceptable(h, max) {
        HeaderBytes(front);
        bad := BodyAccounts(c.(body := None, buffer := rest), h, max);
      } else {
        bad := front;
      }
    } else {
      assert [] + c.buffer == c.buffer;
    }
  }

  lemma {:induction false} BodyAccounts(c: Conn, h: Header, max: nat) returns (bad: bytes)
    requires c.open && Sound(c.out, max) && Acceptable(h, max)
    ensures Accounts(ReadBody(c, h, max, false), c.out, EncodeHeader(h) + c.buffer, bad, max)
    decreases |c.buffer|, 1
  {
    bad := [];
    if |c.buffer| >= h.length {
      var p, rest := c.buffer[..h.length], c.buffer[h.length..];
      assert c.buffer == p + rest;
      var d := c.(body := None, buffer := rest, out := c.out + [Message(h, p)]);
      bad := HeaderAccounts(d, max);
      WiresSnoc(c.out, Message(h, p));
      Regroup(Wires(c.out), EncodeHeader(h), p, rest);
      assert ReadBody(c, h, max, false) == ReadHeader(d, max, false);
      assert c.out <= d.out;
      hide EncodeHeader; hide Wires; hide ReadBody; hide ReadHeader; hide Kept;
      assert Accounts(ReadBody(c, h, max, false), c.out, EncodeHeader(h) + c.buffer, bad, max);
    }
  }

  /** For every byte stream, well-formed or not: the messages dispatched, the header being
      waited for and the buffer are exactly the bytes received, in order; a connection is
      closed only by a header that is not acceptable. */
  lemma StreamAccounted(stream: bytes, max: nat) returns (bad: bytes)
    ensures Accounts(OnRead(START, stream, max, false), [], stream, bad, max)
  {
    assert [] + stream == stream;
    bad := HeaderAccounts(START.(buffer := stream), max);
  }

  // ---------------------------------------------------------- lengths that do not fit

  /** How many bytes the outstanding read waits for. */
  function AtLeast(c: Conn): int {
    if c.body.None? then HEADER - Len(c.buffer, true)
    else
      var missing := c.body.value.length - Len(c.buffer, true);
      if missing < IO_BLOCK then missing else IO_BLOCK
  }

  /** The blocks are what the reads of one connection can return: each read is made by an open
      connection, waits for what is missing and returns no more than a block. */
  ghost predicate ReadCut(chunks: seq<bytes>, max: nat) {
    chunks != [] ==>
      var init, last := chunks[..|chunks| - 1], chunks[|chunks| - 1];
      var c := Receive(START, init, max, true);
      ReadCut(init, max) && c.open && AtLeast(c) <= |last| <= IO_BLOCK && last != []
  }

  lemma {:induction false} ReadCutBlocks(chunks: seq<bytes>, max: nat)
    requires ReadCut(chunks, max)
    ensures Blocks(chunks)
  {
    if chunks != [] { ReadCutBlocks(chunks[..|chunks| - 1], max); }
  }

  /** Every way the reads of a connection can cut a stream gives what reading the stream at
      once gives. */
  ghost predicate ReadsAnyCut(max: nat) {
    forall chunks | ReadCut(chunks, max) :: Observe(Receive(START, chunks, max, true)) == Observe(OnRead(START, Concat(chunks), max, false))
  }

  lemma {:induction false} HeaderGrows(c: Conn, max: nat)
    ensures c.out <= ReadHeader(c, max, false).out
    decreases |c.buffer|, 0
  {
    if |c.buffer| >= HEADER {
      var h := DecodeHeader(c.buffer[..HEADER]);
      if Acceptable(h, max) { BodyGrows(c.(body := None, buffer := c.buffer[HEADER..]), h, max); }
    }
  }

  lemma {:induction false} BodyGrows(c: Conn, h: Header, max: nat)
    ensures c.out <= ReadBody(c, h, max, false).out
    decreases |c.buffer|, 1
  {
    if |c.buffer| >= h.length {
      HeaderGrows(c.(body := None, buffer := c.buffer[h.length..], out := c.out + [Message(h, c.buffer[..h.length])]), max);
    }
  }

  function Zeros(n: nat): (r: bytes)
    ensures |r| == n
  {
    seq(n, _ => 0)
  }

  function LongHeader(): Header { Header(MAGIC, VERSION, SAFE_LIMIT + 1, RESERVED) }

  function Waiting(n: nat): Conn { Conn(true, Some(LongHeader()), Zeros(n), []) }

  /** The header in a read of its own, then full blocks of the body. */
  function LongChunks(n: nat): (r: seq<bytes>)
    ensures |r| == n + 1
  {
    if n == 0 then [EncodeHeader(LongHeader())] else LongChunks(n - 1) + [Zeros(IO_BLOCK)]
  }

  lemma LongStarts(max: nat, wrap: bool)
    requires max == 0 || max > SAFE_LIMIT
    ensures OnRead(START, EncodeHeader(LongHeader()), max, wrap) == Waiting(0)
  {
    var h := LongHeader();
    var s := EncodeHeader(h);
    HeaderRoundTrip(h);
    hide EncodeHeader; hide DecodeHeader;
    assert [] + s == s && s[..HEADER] == s && s[HEADER..] == [] == Zeros(0);
    assert Acceptable(h, max);
    assert ReadBody(Conn(true, None, [], []), h, max, wrap) == Conn(true, Some(h), [], []);
  }

  lemma LongWaits(n: nat, max: nat, wrap: bool)
    requires n + IO_BLOCK <= SAFE_LIMIT
    ensures OnRead(Waiting(n), Zeros(IO_BLOCK), max, wrap) == Waiting(n + IO_BLOCK)
  {
    assert Zeros(n) + Zeros(IO_BLOCK) == Zeros(n + IO_BLOCK);
  }

  /** Up to the last block but one, reads of full blocks just collect the body. */
  lemma {:induction false} LongCollects(n: nat, max: nat)
    requires (max == 0 || max > SAFE_LIMIT) && n * IO_BLOCK <= SAFE_LIMIT
    ensures ReadCut(LongChunks(n), max)
    ensures Receive(START, LongChunks(n), max, true) == Receive(START, LongChunks(n), max, false) == Waiting(n * IO_BLOCK)
  {
    var chunks := LongChunks(n);
    if n == 0 {
      LongStarts(max, true);
      LongStarts(max, false);
      var none: seq<bytes> := chunks[..0];
      assert Receive(START, none, max, true) == START && Receive(START, none, max, false) == START;
      hide OnRead; hide EncodeHeader;
      assert ReadCut(none, max);
    } else {
      LongCollects(n - 1, max);
      assert chunks[..n] == LongChunks(n - 1) && chunks[n] == Zeros(IO_BLOCK);
      LongWaits((n - 1) * IO_BLOCK, max, true);
      LongWaits((n - 1) * IO_BLOCK, max, false);
      hide OnRead; hide LongChunks; hide Zeros;
    }
  }

  /** One more block completes the message and brings the buffer to exactly 2^32 bytes: the
      reader sees an empty buffer and waits on. */
  lemma LongUnseen(max: nat)
    ensures OnRead(Waiting(SAFE_LIMIT), Zeros(IO_BLOCK), max, true).out == []
    ensures OnRead(Waiting(SAFE_LIMIT), Zeros(IO_BLOCK), max, false).out != []
  {
    var b, n := Zeros(SAFE_LIMIT) + Zeros(IO_BLOCK), SAFE_LIMIT + 1;
    assert |b| == TWO32;
    HeaderGrows(Conn(true, None, b[n..], [Message(LongHeader(), b[..n])]), max);
    assert [] + [Message(LongHeader(), b[..n])] == [Message(LongHeader(), b[..n])];
  }

  lemma LongMessageLost(max: nat)
    requires max == 0 || max > SAFE_LIMIT
    ensures !ReadsAnyCut(max)
  {
    var n := SAFE_LIMIT / IO_BLOCK;
    assert n * IO_BLOCK == SAFE_LIMIT;
    var block := Zeros(IO_BLOCK);
    var chunks := LongChunks(n) + [block];
    assert chunks[..|chunks| - 1] == LongChunks(n);
    LongCollects(n, max);
    LongUnseen(max);
    assert AtLeast(Waiting(SAFE_LIMIT)) == 1;
    assert ReadCut(chunks, max);
    ReadPieces(chunks, max);
    hide OnRead; hide LongChunks; hide Zeros; hide ReadCut; hide Concat;
    var seen, ideal := Receive(START, chunks, max, true), Receive(START, chunks, max, false);
    assert seen.out == [] && ideal.out != [];
    assert Observe(seen).out != Observe(OnRead(START, Concat(chunks), max, false)).out;
  }

  /** Every cut is read right exactly when a limit is configured that keeps the lengths below
      2^32: without a limit one message of almost 4 GiB is lost. */
  lemma ReadsAnyCutIff(max: nat)
    ensures ReadsAnyCut(max) <==> 1 <= max <= SAFE_LIMIT
  {
    if 1 <= max <= SAFE_LIMIT {
      forall chunks | ReadCut(chunks, max) ensures Observe(Receive(START, chunks, max, true)) == Observe(OnRead(START, Concat(chunks), max, false)) {
        ReadCutBlocks(chunks, max);
        AnyCut(chunks, max);
      }
    } else {
      LongMessageLost(max);
    }
  }

  // ---------------------------------------------------------- the connection object

  /** The server side of a connection. Exactly one read is outstanding while it works; `inBody`
      tells which handler that read will call. */
  class TcpConnAsync {
    const max: nat
    var working: bool
    var inBody: bool
    var header: Header
    const buffer: Buffer
    var dispatched: seq<Message>

    ghost function State(): Conn
      reads this, buffer
    {
      Conn(working, if inBody then Some(header) else None, buffer.data, dispatched)
    }

    constructor (max: nat)
      ensures this.max == max && State() == START && fresh(buffer)
    {
      this.max, working, inBody, dispatched := max, true, false, [];
      header := Header(0, 0, 0, RESERVED);
      buffer := new Buffer();
    }

    method ParseHeader() returns (ret: int)
      modifies this`header, buffer
      ensures var b := old(buffer.data);
        if Len(b, true) < HEADER then ret == 1 && buffer.data == b && header == old(header)
        else buffer.data == b[HEADER..] && header == DecodeHeader(b[..HEADER]) && ret == if Acceptable(header, max) then 0 else -1
    {
      var length := buffer.GetLength();
      if length < HEADER {
        return 1;
      }
      var ok, head := buffer.Consume(HEADER);
      assert head == old(buffer.data)[..HEADER];
      header := DecodeHeader(head);
      if header.magic != MAGIC || header.version != VERSION {
        return -1;
      }
      if max != 0 && header.length > max {
        return -1;
      }
      return 0;
    }

    method ParseMsgBody() returns (ret: int, msg: Message)
      modifies buffer
      ensures var b := old(buffer.data);
        if Len(b, true) < header.length then ret == 1 && buffer.data == b
        else ret == 0 && buffer.data == b[header.length..] && msg == Message(header, b[..header.length])
    {
      msg := Message(header, []);
      var length := buffer.GetLength();
      if length < header.length {
        return 1, msg;
      }
      var ok, str := buffer.Consume(header.length);
      assert str == old(buffer.data)[..header.length];
      return 0, Message(header, str);
    }

    method DoRead()
      modifies this, buffer
      ensures if old(working) then State() == ReadHeader(old(State()).(body := None), max, true)
              else working == old(working) && dispatched == old(dispatched) && buffer.data == old(buffer.data)
      decreases |buffer.data|, 0
    {
      if !working {
        return;
      }
      inBody := false;
      var bytesRead := buffer.GetLength();
      if bytesRead >= HEADER {
        var ret := ParseHeader();
        if ret == 0 {
          DoReadMsg();
        } else {
          working := false;
        }
      }
    }

    method DoReadMsg()
      modifies this, buffer
      ensures if old(working) then State() == ReadBody(old(State()).(body := None), old(header), max, true)
              else working == old(working) && dispatched == old(dispatched) && buffer.data == old(buffer.data)
      decreases |buffer.data|, 1
    {
      if !working {
        return;
      }
      inBody := true;
      var length := buffer.GetLength();
      if length >= header.length {
        var ret, msg := ParseMsgBody();
        dispatched := dispatched + [msg];
        ghost var c := State().(body := None);
        assert ReadBody(old(State()).(body := None), header, max, true) == ReadHeader(c, max, true);
        DoRead();
      }
    }

    method ReadHandler(block: bytes)
      requires working && !inBody && block != []
      modifies this, buffer
      ensures State() == OnRead(old(State()), block, max, true)
    {
      var length := buffer.AppendInternal(block);
      if length < HEADER {
        DoRead();
        return;
      }
      var ret := ParseHeader();
      if ret == 0 {
        DoReadMsg();
      } else {
        working := false;
      }
    }

    method ReadMsgHandler(block: bytes)
      requires working && inBody && block != []
      modifies this, buffer
      ensures State() == OnRead(old(State()), block, max, true)
    {
      var length := buffer.AppendInternal(block);
      var ret, msg := ParseMsgBody();
      if ret == 0 {
        dispatched := dispatched + [msg];
        ghost var c := State().(body := None);
        assert OnRead(old(State()), block, max, true) == ReadHeader(c, max, true);
        DoRead();
      } else {
        DoReadMsg();
      }
    }
  }
}
