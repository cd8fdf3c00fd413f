/** The byte stream of the control connection: length-prefixed messages, each
    encrypted under a counter, and what a receiver makes of the stream however
    it is cut into pieces. */
module CtrlStream {
  import opened Bytes

  const HEADER_SIZE: nat := 8
  const RECV_BUF_SIZE: nat := 512

  /** The cipher, left uninterpreted: counter and text, None if it fails. */
  type Cipher = (nat, seq<byte>) -> Option<seq<byte>>

  /** A received message: its type, the counter at that time, its payload as it
      came, and what is dispatched; None if it could not be decrypted. */
  datatype Received = Received(msgType: nat, counter: nat, payload: seq<byte>, plain: Option<seq<byte>>)

  /** Waiting for more bytes; a message that can never fit; or a declared size so
      large that adding the header size wraps around 32 bits. */
  datatype Status = Waiting | Overflow | SizeWraps

  datatype Parsed = Parsed(msgs: seq<Received>, rest: seq<byte>, counter: nat, status: Status)

  function Next(counter: nat): nat {
    (counter + 1) % U64
  }

  /** ctrl_message_received: empty payloads are not encrypted and use no counter. */
  function Receive(msgType: nat, payload: seq<byte>, counter: nat, dec: Cipher): Received {
    Received(msgType, counter, payload, if payload == [] then Some([]) else dec(counter, payload))
  }

  function CounterAfter(payload: seq<byte>, counter: nat): nat {
    if payload == [] then counter else Next(counter)
  }

  /** The whole stream at once. */
  function Parse(s: seq<byte>, counter: nat, dec: Cipher): (p: Parsed)
    ensures p.status == Waiting ==> |p.rest| < RECV_BUF_SIZE
    decreases |s|
  {
    if |s| < HEADER_SIZE then Parsed([], s, counter, Waiting) else
      var size := HEADER_SIZE + Read32(s, 0);
      if size >= U32 then Parsed([], s, counter, SizeWraps)
      else if size > RECV_BUF_SIZE then Parsed([], s, counter, Overflow)
      else if |s| < size then Parsed([], s, counter, Waiting)
      else
        var payload := s[HEADER_SIZE..size];
        var tail := Parse(s[size..], CounterAfter(payload, counter), dec);
        tail.(msgs := [Receive(Read16(s, 4), payload, counter, dec)] + tail.msgs)
  }

  predicate Complete(s: seq<byte>) {
    HEADER_SIZE <= |s| && HEADER_SIZE + Read32(s, 0) <= RECV_BUF_SIZE && HEADER_SIZE + Read32(s, 0) <= |s|
  }

  /** A complete message is taken out; otherwise parsing stops. */
  lemma {:induction false} ParseStep(s: seq<byte>, counter: nat, dec: Cipher)
    ensures var p := Parse(s, counter, dec);
            if Complete(s) then
              var size := HEADER_SIZE + Read32(s, 0);
              var payload := s[HEADER_SIZE..size];
              var q := Parse(s[size..], CounterAfter(payload, counter), dec);
              p == q.(msgs := [Receive(Read16(s, 4), payload, counter, dec)] + q.msgs)
            else
              p == Parsed([], s, counter, if |s| < HEADER_SIZE then Waiting
                                          else if HEADER_SIZE + Read32(s, 0) >= U32 then SizeWraps
                                          else if HEADER_SIZE + Read32(s, 0) > RECV_BUF_SIZE then Overflow
                                          else Waiting)
  {
  }

  /** Parsing goes on where it stopped. */
  lemma {:induction false} ParseSplits(a: seq<byte>, b: seq<byte>, counter: nat, dec: Cipher)
    ensures var p := Parse(a, counter, dec);
            Parse(a + b, counter, dec) ==
            if p.status != Waiting then p.(rest := p.rest + b)
            else var q := Parse(p.rest + b, p.counter, dec); q.(msgs := p.msgs + q.msgs)
    decreases |a|
  {
    hide Parse, Read32, Read16;
    ParseStep(a, counter, dec);
    ParseStep(a + b, counter, dec);
    if |a| >= HEADER_SIZE {
      HeaderKept(a, b);
    }
    if Complete(a) {
      var size := HEADER_SIZE + Read32(a, 0);
      var payload := a[HEADER_SIZE..size];
      assert (a + b)[HEADER_SIZE..size] == payload && (a + b)[size..] == a[size..] + b;
      ParseSplits(a[size..], b, CounterAfter(payload, counter), dec);
      var tail := Parse(a[size..], CounterAfter(payload, counter), dec);
      Regroup([Receive(Read16(a, 4), payload, counter, dec)], tail.msgs, Parse(tail.rest + b, tail.counter, dec).msgs);
    } else {
      Regroup0(Parse(a + b, counter, dec).msgs);
    }
  }

  lemma Regroup(x: seq<Received>, y: seq<Received>, z: seq<Received>)
    ensures x + (y + z) == x + y + z
  {
  }

  lemma Regroup0(z: seq<Received>)
    ensures [] + z == z
  {
  }

  lemma HeaderKept(a: seq<byte>, b: seq<byte>)
    requires |a| >= HEADER_SIZE
    ensures Read32(a + b, 0) == Read32(a, 0) && Read16(a + b, 4) == Read16(a, 4)
  {
  }

  // ---------------------------------------------------------------- in pieces

  function Flatten(chunks: seq<seq<byte>>): seq<byte> {
    if chunks == [] then [] else Flatten(chunks[..|chunks| - 1]) + chunks[|chunks| - 1]
  }

  /** The receive loop: each piece is appended to what is left over and as many
      messages as possible are taken out; it ends at the first error. */
  function RunChunks(chunks: seq<seq<byte>>, counter: nat, dec: Cipher): (p: Parsed)
    ensures p.status == Waiting ==> |p.rest| < RECV_BUF_SIZE
  {
    if chunks == [] then Parsed([], [], counter, Waiting) else
      var p := RunChunks(chunks[..|chunks| - 1], counter, dec);
      if p.status != Waiting then p else
        var q := Parse(p.rest + chunks[|chunks| - 1], p.counter, dec);
        q.(msgs := p.msgs + q.msgs)
  }

  /** How the stream is cut does not matter: messages, counters and the error, if
      any, are those of the whole stream; and while no error occurred there is
      always room to receive more. */
  lemma {:induction false} ChunkingIrrelevant(chunks: seq<seq<byte>>, counter: nat, dec: Cipher)
    ensures var p := RunChunks(chunks, counter, dec);
            var q := Parse(Flatten(chunks), counter, dec);
            && p.msgs == q.msgs && p.counter == q.counter && p.status == q.status
            && (p.status == Waiting ==> p.rest == q.rest && RECV_BUF_SIZE - |p.rest| > 0)
    decreases |chunks|
  {
    if chunks != [] {
      var n := |chunks| - 1;
      ChunkingIrrelevant(chunks[..n], counter, dec);
      ParseSplits(Flatten(chunks[..n]), chunks[n], counter, dec);
      hide Parse;
    }
  }

  // ---------------------------------------------------------------- the sender

  datatype Message = Message(msgType: nat, payload: seq<byte>)

  datatype SendResult = SendOk | EncryptFailed | NetworkError

  /** What one send puts on the wire, and the counter after it. */
  datatype Sent = Sent(result: SendResult, bytes: seq<byte>, counter: nat)

  function Header(msgType: nat, size: nat): (h: seq<byte>)
    ensures |h| == HEADER_SIZE
    ensures Read32(h, 0) == size % U32 && Read16(h, 4) == msgType % 0x1_0000
  {
    var h := Write32(size % U32) + Write16(msgType % 0x1_0000) + [0, 0];
    HeaderFields(size % U32, msgType % 0x1_0000);
    h
  }

  lemma HeaderFields(size: nat, msgType: nat)
    requires size < U32 && msgType < 0x1_0000
    ensures var h := Write32(size) + Write16(msgType) + [0, 0]; Read32(h, 0) == size && Read16(h, 4) == msgType
  {
    var h := Write32(size) + Write16(msgType) + [0, 0];
    assert h[0..4] == Write32(size) && h[4..6] == Write16(msgType);
    assert Read32(h, 0) == Read32(h[0..4], 0) && Read16(h, 4) == Read16(h[4..6], 0);
  }

  /** What the socket does with some bytes: it fails, or takes all or no more than
      limit of them. */
  datatype Take = Refused | UpTo(limit: nat) | Whole

  function Taken(bytes: seq<byte>, t: Take): (r: seq<byte>)
    ensures r <= bytes
  {
    match t
    case Refused => []
    case UpTo(limit) => if limit < |bytes| then bytes[..limit] else bytes
    case Whole => bytes
  }

  /** ctrl_message_send: only a failing send is an error, one that takes a part of
      the bytes is not. */
  function Send(m: Message, counter: nat, enc: Cipher, header: Take, payload: Take): Sent {
    var start := Taken(Header(m.msgType, |m.payload|), header);
    var after := CounterAfter(m.payload, counter);
    if m.payload != [] && enc(counter, m.payload) == None then Sent(EncryptFailed, [], after)
    else if header == Refused then Sent(NetworkError, [], after)
    else if m.payload == [] then Sent(SendOk, start, after)
    else if payload == Refused then Sent(NetworkError, start, after)
    else Sent(SendOk, start + Taken(enc(counter, m.payload).value, payload), after)
  }

  /** Everything sent so far, as long as nothing fails. */
  function SendAll(msgs: seq<Message>, counter: nat, enc: Cipher): Sent {
    if msgs == [] then Sent(SendOk, [], counter) else
      var before := SendAll(msgs[..|msgs| - 1], counter, enc);
      var last := Send(msgs[|msgs| - 1], before.counter, enc, Whole, Whole);
      Sent(last.result, before.bytes + last.bytes, last.counter)
  }

  /** Decrypting undoes encrypting, under the same counter; sizes are kept. */
  ghost predicate Inverse(enc: Cipher, dec: Cipher) {
    forall c: nat, t: seq<byte> :: InverseAt(enc, dec, c, t)
  }

  predicate InverseAt(enc: Cipher, dec: Cipher, c: nat, t: seq<byte>) {
    match enc(c, t) case Some(e) => |e| == |t| && dec(c, e) == Some(t) case None => false
  }

  predicate Representable(m: Message) {
    m.msgType < 0x1_0000 && 8 + |m.payload| < 0x1_0000_0000
  }

  predicate Fits(m: Message) {
    8 + |m.payload| <= 512
  }

  // ---------------------------------------------------------------- which counter belongs to which message

  /** How many of these payloads are encrypted: all but the empty ones. */
  function Encrypted(payloads: seq<seq<byte>>): (n: nat)
    ensures n <= |payloads|
  {
    if payloads == [] then 0 else (if |payloads[0]| == 0 then 0 else 1) + Encrypted(payloads[1..])
  }

  /** The counter after this many encrypted payloads. */
  function Advanced(counter: nat, encrypted: nat): nat {
    (counter + encrypted) % 0x1_0000_0000_0000_0000
  }

  lemma {:induction false} EncryptedSplits(a: seq<seq<byte>>, b: seq<seq<byte>>)
    ensures Encrypted(a + b) == Encrypted(a) + Encrypted(b)
  {
    if a == [] {
      assert a + b == b;
    } else {
      assert (a + b)[1..] == a[1..] + b;
      EncryptedSplits(a[1..], b);
    }
  }

  lemma AdvancedTwice(counter: nat, n: nat, m: nat)
    ensures Advanced(Advanced(counter, n), m) == Advanced(counter, n + m)
    ensures counter < U64 ==> Advanced(counter, 0) == counter
  {
  }

  lemma CounterAdvances(payload: seq<byte>, counter: nat)
    requires counter < U64
    ensures CounterAfter(payload, counter) == Advanced(counter, Encrypted([payload])) < U64
  {
    assert Encrypted([payload]) == if |payload| == 0 then 0 else 1;
  }

  function Payloads(msgs: seq<Received>): (r: seq<seq<byte>>)
    ensures |r| == |msgs| && forall i :: 0 <= i < |msgs| ==> r[i] == msgs[i].payload
  {
    seq(|msgs|, i requires 0 <= i < |msgs| => msgs[i].payload)
  }

  /** Message i is decrypted under the first counter plus the number of encrypted
      payloads before it. */
  predicate DecryptedInTurn(msgs: seq<Received>, counter: nat, dec: Cipher) {
    forall i :: 0 <= i < |msgs| ==> DecryptedUnder(msgs[i], Advanced(counter, Encrypted(Payloads(msgs[..i]))), dec)
  }

  predicate DecryptedUnder(r: Received, counter: nat, dec: Cipher) {
    r.counter == counter && r.plain == if |r.payload| == 0 then Some([]) else dec(counter, r.payload)
  }

  lemma {:induction false} OneMoreReceived(first: Received, tail: seq<Received>, counter: nat, dec: Cipher)
    requires counter < U64 && DecryptedUnder(first, counter, dec)
    requires DecryptedInTurn(tail, CounterAfter(first.payload, counter), dec)
    ensures DecryptedInTurn([first] + tail, counter, dec)
    ensures Advanced(CounterAfter(first.payload, counter), Encrypted(Payloads(tail)))
            == Advanced(counter, Encrypted(Payloads([first] + tail)))
  {
    hide Encrypted, Advanced, CounterAfter, DecryptedUnder;
    var msgs := [first] + tail;
    NoneEncrypted(counter);
    forall i | 0 < i <= |msgs|
      ensures Advanced(CounterAfter(first.payload, counter), Encrypted(Payloads(tail[..i - 1])))
              == Advanced(counter, Encrypted(Payloads(msgs[..i])))
    {
      assert Payloads(msgs[..i]) == [first.payload] + Payloads(tail[..i - 1]);
      EncryptedSplits([first.payload], Payloads(tail[..i - 1]));
      CounterAdvances(first.payload, counter);
      AdvancedTwice(counter, Encrypted([first.payload]), Encrypted(Payloads(tail[..i - 1])));
    }
    assert tail[..|tail|] == tail && msgs[..|msgs|] == msgs;
    forall i | 0 <= i < |msgs|
      ensures DecryptedUnder(msgs[i], Advanced(counter, Encrypted(Payloads(msgs[..i]))), dec)
    {
      if i == 0 {
        assert Payloads(msgs[..0]) == [];
      } else {
        assert msgs[i] == tail[i - 1];
      }
    }
  }

  lemma NoneEncrypted(counter: nat)
    requires counter < U64
    ensures Encrypted([]) == 0 && Advanced(counter, 0) == counter
  {
  }

  /** Whatever is received, every payload but the empty ones moves the counter on
      by one, and message i is decrypted under what the ones before it make of it. */
  lemma {:induction false} ReceivedInTurn(s: seq<byte>, counter: nat, dec: Cipher)
    requires counter < U64
    ensures var p := Parse(s, counter, dec);
            p.counter == Advanced(counter, Encrypted(Payloads(p.msgs))) && DecryptedInTurn(p.msgs, counter, dec)
    decreases |s|
  {
    hide Parse, Read32, Read16, Advanced, Encrypted, CounterAfter;
    ParseStep(s, counter, dec);
    if Complete(s) {
      var size := HEADER_SIZE + Read32(s, 0);
      var payload := s[HEADER_SIZE..size];
      CounterAdvances(payload, counter);
      ReceivedInTurn(s[size..], CounterAfter(payload, counter), dec);
      var tail := Parse(s[size..], CounterAfter(payload, counter), dec).msgs;
      OneMoreReceived(Receive(Read16(s, 4), payload, counter, dec), tail, counter, dec);
    } else {
      NoneEncrypted(counter);
      assert Payloads([]) == [];
    }
  }

  function Texts(msgs: seq<Message>): (r: seq<seq<byte>>)
    ensures |r| == |msgs| && forall i :: 0 <= i < |msgs| ==> r[i] == msgs[i].payload
  {
    seq(|msgs|, i requires 0 <= i < |msgs| => msgs[i].payload)
  }

  /** The bytes of a message: its size in four bytes, its type in two, two zeros,
      and the payload as encrypted under the counter. */
  predicate Encodes(b: seq<byte>, m: Message, counter: nat, enc: Cipher) {
    && |b| >= 8
    && b[0] as int * 0x100_0000 + b[1] as int * 0x1_0000 + b[2] as int * 0x100 + b[3] as int == |m.payload|
    && b[4] as int * 0x100 + b[5] as int == m.msgType
    && b[6] == 0 && b[7] == 0
    && if |m.payload| == 0 then |b| == 8 else enc(counter, m.payload) == Some(b[8..])
  }

  /** The messages sent are the stream's bytes, piece after piece, message i under
      the first counter plus the number of encrypted payloads before it. */
  predicate EncryptedInTurn(s: seq<byte>, pieces: seq<seq<byte>>, msgs: seq<Message>, counter: nat, enc: Cipher) {
    && |pieces| == |msgs| && s == Flatten(pieces)
    && forall i :: 0 <= i < |msgs| ==> Encodes(pieces[i], msgs[i], Advanced(counter, Encrypted(Texts(msgs[..i]))), enc)
  }

  function PiecesSent(msgs: seq<Message>, counter: nat, enc: Cipher): (pieces: seq<seq<byte>>)
    ensures |pieces| == |msgs|
  {
    if msgs == [] then [] else
      var n := |msgs| - 1;
      PiecesSent(msgs[..n], counter, enc) + [Send(msgs[n], SendAll(msgs[..n], counter, enc).counter, enc, Whole, Whole).bytes]
  }

  lemma SendEncodes(m: Message, counter: nat, enc: Cipher)
    requires Representable(m) && (m.payload == [] || enc(counter, m.payload).Some?)
    ensures Encodes(Send(m, counter, enc, Whole, Whole).bytes, m, counter, enc)
  {
    var h := Header(m.msgType, |m.payload|);
    assert Read32(h, 0) == |m.payload| && Read16(h, 4) == m.msgType;
    if m.payload != [] {
      var e := enc(counter, m.payload).value;
      assert (h + e)[8..] == e && forall i :: 0 <= i < 8 ==> (h + e)[i] == h[i];
    }
  }

  /** Sending moves the counter on by one for every payload but the empty ones,
      whether or not it succeeds. */
  lemma {:induction false} SentCounter(msgs: seq<Message>, counter: nat, enc: Cipher)
    requires counter < U64
    ensures SendAll(msgs, counter, enc).counter == Advanced(counter, Encrypted(Texts(msgs)))
    decreases |msgs|
  {
    hide Advanced, Encrypted, CounterAfter, Header;
    if msgs == [] {
      NoneEncrypted(counter);
      assert Texts([]) == [];
    } else {
      var n := |msgs| - 1;
      SentCounter(msgs[..n], counter, enc);
      var before := Encrypted(Texts(msgs[..n]));
      assert Texts(msgs) == Texts(msgs[..n]) + [msgs[n].payload];
      EncryptedSplits(Texts(msgs[..n]), [msgs[n].payload]);
      AdvancedBelow(counter, before);
      CounterAdvances(msgs[n].payload, Advanced(counter, before));
      AdvancedTwice(counter, before, Encrypted([msgs[n].payload]));
    }
  }

  lemma AdvancedBelow(counter: nat, n: nat)
    ensures Advanced(counter, n) < U64
  {
  }

  /** No encryption fails. */
  predicate Encryptable(msgs: seq<Message>, counter: nat, enc: Cipher) {
    forall i :: 0 <= i < |msgs| ==>
      |msgs[i].payload| == 0 || enc(Advanced(counter, Encrypted(Texts(msgs[..i]))), msgs[i].payload).Some?
  }

  lemma {:induction false} EncryptableBefore(msgs: seq<Message>, n: nat, counter: nat, enc: Cipher)
    requires Encryptable(msgs, counter, enc) && n <= |msgs|
    ensures Encryptable(msgs[..n], counter, enc)
  {
    hide Advanced, Encrypted;
    forall i | 0 <= i < n
      ensures msgs[..n][..i] == msgs[..i] && msgs[..n][i] == msgs[i]
    {
    }
  }

  /** Message i goes out under the first counter plus the number of encrypted
      payloads before it. */
  lemma {:induction false} SentInTurn(msgs: seq<Message>, counter: nat, enc: Cipher)
    requires counter < U64 && Encryptable(msgs, counter, enc) && forall i :: 0 <= i < |msgs| ==> Representable(msgs[i])
    ensures EncryptedInTurn(SendAll(msgs, counter, enc).bytes, PiecesSent(msgs, counter, enc), msgs, counter, enc)
    decreases |msgs|
  {
    hide Advanced, Encrypted, Encodes, Send, CounterAfter, Representable, EncryptedInTurn, Encryptable, Texts;
    if msgs == [] {
      NothingEncrypted(counter, enc);
    } else {
      var n := |msgs| - 1;
      EncryptableBefore(msgs, n, counter, enc);
      SentInTurn(msgs[..n], counter, enc);
      SentCounter(msgs[..n], counter, enc);
      LastEncryptable(msgs, counter, enc);
      var before := SendAll(msgs[..n], counter, enc);
      SendEncodes(msgs[n], before.counter, enc);
      EncryptedNext(before.bytes, PiecesSent(msgs[..n], counter, enc), msgs[..n], counter, enc,
                    Send(msgs[n], before.counter, enc, Whole, Whole).bytes, msgs[n]);
      assert msgs == msgs[..n] + [msgs[n]];
    }
  }

  lemma NothingEncrypted(counter: nat, enc: Cipher)
    ensures EncryptedInTurn([], [], [], counter, enc)
  {
  }

  lemma LastEncryptable(msgs: seq<Message>, counter: nat, enc: Cipher)
    requires Encryptable(msgs, counter, enc) && msgs != []
    ensures var m := msgs[|msgs| - 1];
            m.payload == [] || enc(Advanced(counter, Encrypted(Texts(msgs[..|msgs| - 1]))), m.payload).Some?
  {
  }

  lemma {:induction false} EncryptedNext(s: seq<byte>, pieces: seq<seq<byte>>, msgs: seq<Message>, counter: nat,
      enc: Cipher, b: seq<byte>, m: Message)
    requires EncryptedInTurn(s, pieces, msgs, counter, enc) && Encodes(b, m, Advanced(counter, Encrypted(Texts(msgs))), enc)
    ensures EncryptedInTurn(s + b, pieces + [b], msgs + [m], counter, enc)
  {
    hide Advanced, Encrypted, Encodes;
    var allPieces, all := pieces + [b], msgs + [m];
    assert allPieces[..|pieces|] == pieces;
    forall i | 0 <= i < |all|
      ensures Encodes(allPieces[i], all[i], Advanced(counter, Encrypted(Texts(all[..i]))), enc)
    {
      assert all[..i] == msgs[..i];
      assert i == |msgs| ==> msgs[..i] == msgs;
    }
  }

  lemma ParseNothing(counter: nat, dec: Cipher)
    ensures Parse([], counter, dec) == Parsed([], [], counter, Waiting)
  {
  }

  /** One message arrives as it was sent exactly if it fits the receive buffer;
      otherwise the connection fails. */
  lemma {:induction false} MessageArrivesExactly(m: Message, counter: nat, enc: Cipher, dec: Cipher)
    requires Inverse(enc, dec) && Representable(m)
    ensures var sent := Send(m, counter, enc, Whole, Whole);
            var p := Parse(sent.bytes, counter, dec);
            && sent.result == SendOk
            && (if Fits(m) then p.status == Waiting && p.rest == [] && p.counter == sent.counter
                                && |p.msgs| == 1 && p.msgs[0].msgType == m.msgType && p.msgs[0].plain == Some(m.payload)
                                && p.msgs[0].counter == counter
                else p.status == Overflow && p.msgs == [])
  {
    assert m.payload != [] ==> InverseAt(enc, dec, counter, m.payload);
    var bytes := Send(m, counter, enc, Whole, Whole).bytes;
    SentFields(m, counter, enc, dec);
    if Fits(m) {
      ParseOne(bytes, counter, dec);
      hide Parse, Inverse;
    }
  }

  lemma {:induction false} ParseOne(s: seq<byte>, counter: nat, dec: Cipher)
    requires HEADER_SIZE <= |s| == HEADER_SIZE + Read32(s, 0) <= RECV_BUF_SIZE
    ensures var payload := s[HEADER_SIZE..];
            Parse(s, counter, dec) == Parsed([Receive(Read16(s, 4), payload, counter, dec)], [], CounterAfter(payload, counter), Waiting)
  {
    assert s[|s|..] == [] && s[HEADER_SIZE..|s|] == s[HEADER_SIZE..];
  }

  lemma {:induction false} SentFields(m: Message, counter: nat, enc: Cipher, dec: Cipher)
    requires Representable(m) && (m.payload != [] ==> InverseAt(enc, dec, counter, m.payload))
    ensures var bytes := Send(m, counter, enc, Whole, Whole).bytes;
            && |bytes| == HEADER_SIZE + |m.payload| && Read32(bytes, 0) == |m.payload| && Read16(bytes, 4) == m.msgType
            && bytes[HEADER_SIZE..] == if m.payload == [] then [] else enc(counter, m.payload).value
  {
    hide Header;
    var h := Header(m.msgType, |m.payload|);
    var bytes := Send(m, counter, enc, Whole, Whole).bytes;
    if m.payload != [] {
      HeaderKept(h, enc(counter, m.payload).value);
    }
  }

  /** What was dispatched is what was sent. */
  predicate Same(received: seq<Received>, msgs: seq<Message>) {
    |received| == |msgs| && forall i :: 0 <= i < |msgs| ==>
      received[i].msgType == msgs[i].msgType && received[i].plain == Some(msgs[i].payload)
  }

  /** Message i was received under the first counter plus the number of encrypted
      payloads before it. */
  predicate InTurn(received: seq<Received>, msgs: seq<Message>, counter: nat) {
    |received| == |msgs| && forall i :: 0 <= i < |msgs| ==>
      received[i].counter == Advanced(counter, Encrypted(Texts(msgs[..i])))
  }

  lemma NothingInTurn(counter: nat)
    ensures InTurn([], [], counter)
  {
  }

  lemma {:induction false} InTurnNext(received: seq<Received>, r: Received, msgs: seq<Message>, m: Message, counter: nat)
    requires InTurn(received, msgs, counter) && r.counter == Advanced(counter, Encrypted(Texts(msgs)))
    ensures InTurn(received + [r], msgs + [m], counter)
  {
    hide Advanced, Encrypted;
    var all := msgs + [m];
    forall i | 0 <= i < |all|
      ensures (received + [r])[i].counter == Advanced(counter, Encrypted(Texts(all[..i])))
    {
      assert all[..i] == msgs[..i];
      assert i == |msgs| ==> msgs[..i] == msgs;
    }
  }

  /** Any sequence of messages arrives as sent, each decrypted under the counter
      it was encrypted with, however the stream is cut. */
  lemma {:induction false} StreamArrives(msgs: seq<Message>, counter: nat, enc: Cipher, dec: Cipher,
      chunks: seq<seq<byte>>)
    requires Inverse(enc, dec) && forall i :: 0 <= i < |msgs| ==> msgs[i].msgType < 0x1_0000 && Fits(msgs[i])
    requires Flatten(chunks) == SendAll(msgs, counter, enc).bytes
    ensures SendAll(msgs, counter, enc).result == SendOk
    ensures var p := RunChunks(chunks, counter, dec);
            && p.status == Waiting && p.rest == [] && p.counter == SendAll(msgs, counter, enc).counter && Same(p.msgs, msgs)
            && (counter < U64 ==> p.counter == Advanced(counter, Encrypted(Texts(msgs))) && InTurn(p.msgs, msgs, counter))
  {
    hide Advanced, Encrypted, InTurn;
    ChunkingIrrelevant(chunks, counter, dec);
    WholeArrives(msgs, counter, enc, dec);
    if counter < U64 {
      SentCounter(msgs, counter, enc);
    }
  }

  lemma {:induction false} WholeArrives(msgs: seq<Message>, counter: nat, enc: Cipher, dec: Cipher)
    requires Inverse(enc, dec) && forall i :: 0 <= i < |msgs| ==> msgs[i].msgType < 0x1_0000 && Fits(msgs[i])
    ensures SendAll(msgs, counter, enc).result == SendOk
    ensures var p := Parse(SendAll(msgs, counter, enc).bytes, counter, dec);
            && p.status == Waiting && p.rest == [] && p.counter == SendAll(msgs, counter, enc).counter && Same(p.msgs, msgs)
            && (counter < U64 ==> InTurn(p.msgs, msgs, counter))
    decreases |msgs|
  {
    hide Parse, Inverse, Send, Advanced, Encrypted, InTurn, Texts;
    if msgs == [] {
      ParseNothing(counter, dec);
      NothingInTurn(counter);
    } else {
      var n := |msgs| - 1;
      var before := SendAll(msgs[..n], counter, enc);
      WholeArrives(msgs[..n], counter, enc, dec);
      MessageArrivesExactly(msgs[n], before.counter, enc, dec);
      var last := Send(msgs[n], before.counter, enc, Whole, Whole);
      ParseSplits(before.bytes, last.bytes, counter, dec);
      assert [] + last.bytes == last.bytes;
      assert msgs == msgs[..n] + [msgs[n]];
      if counter < U64 {
        SentCounter(msgs[..n], counter, enc);
        var received := Parse(last.bytes, before.counter, dec).msgs[0];
        assert Parse(last.bytes, before.counter, dec).msgs == [received];
        InTurnNext(Parse(before.bytes, counter, dec).msgs, received, msgs[..n], msgs[n], counter);
      }
    }
  }

  /** A message of which nothing could be sent still uses up the counter if it had
      a payload, and from then on the ends disagree. */
  lemma {:induction false} LossDesynchronisesExactly(lost: Message, next: Message, counter: nat, enc: Cipher,
      dec: Cipher)
    requires counter < U64 && Inverse(enc, dec) && Representable(next) && Fits(next)
    ensures var sent := Send(lost, counter, enc, Refused, Refused);
            var p := Parse(Send(next, sent.counter, enc, Whole, Whole).bytes, counter, dec);
            |p.msgs| == 1 && (p.msgs[0].counter == sent.counter <==> lost.payload == [])
  {
    var sent := Send(lost, counter, enc, Refused, Refused);
    assert next.payload != [] ==> InverseAt(enc, dec, sent.counter, next.payload);
    SentFields(next, sent.counter, enc, dec);
    ParseOne(Send(next, sent.counter, enc, Whole, Whole).bytes, counter, dec);
  }

  /** Decrypting keeps sizes. */
  ghost predicate SizesKept(dec: Cipher) {
    forall c: nat, e: seq<byte> :: dec(c, e).Some? ==> |dec(c, e).value| == |e|
  }

  /** The bytes that were parsed: a header and a payload for each message. */
  function Parsing(msgs: seq<Received>): nat {
    if msgs == [] then 0 else HEADER_SIZE + |msgs[0].payload| + Parsing(msgs[1..])
  }

  lemma {:induction false} ParseConserves(s: seq<byte>, counter: nat, dec: Cipher)
    ensures var p := Parse(s, counter, dec); Parsing(p.msgs) + |p.rest| == |s|
    decreases |s|
  {
    hide Parse, Read32, Read16;
    ParseStep(s, counter, dec);
    if Complete(s) {
      var size := HEADER_SIZE + Read32(s, 0);
      var payload := s[HEADER_SIZE..size];
      ParseConserves(s[size..], CounterAfter(payload, counter), dec);
      var first, tail := Receive(Read16(s, 4), payload, counter, dec), Parse(s[size..], CounterAfter(payload, counter), dec);
      assert ([first] + tail.msgs)[1..] == tail.msgs;
    }
  }

  /** A message that was sent without an error arrives exactly if the socket took
      all of its bytes. */
  lemma {:induction false} WholeArrivesExactly(m: Message, counter: nat, enc: Cipher, dec: Cipher, header: Take,
      payload: Take)
    requires Inverse(enc, dec) && SizesKept(dec) && Representable(m) && Fits(m)
    requires Send(m, counter, enc, header, payload).result == SendOk
    ensures var sent := Send(m, counter, enc, header, payload).bytes;
            var p := Parse(sent, counter, dec);
            p.status == Waiting && p.rest == [] && Same(p.msgs, [m]) <==> sent == Send(m, counter, enc, Whole, Whole).bytes
  {
    var sent, all := Send(m, counter, enc, header, payload).bytes, Send(m, counter, enc, Whole, Whole).bytes;
    MessageArrivesExactly(m, counter, enc, dec);
    assert m.payload != [] ==> InverseAt(enc, dec, counter, m.payload);
    SentFields(m, counter, enc, dec);
    ParseConserves(sent, counter, dec);
    PlainSizes(sent, counter, dec);
    TakenWhole(m, counter, enc, header, payload);
    hide Parse, Inverse, Send, SizesKept, Header;
    var p := Parse(sent, counter, dec);
    if p.rest == [] && Same(p.msgs, [m]) {
      assert Parsing(p.msgs) == HEADER_SIZE + |p.msgs[0].payload| + Parsing(p.msgs[1..]) && p.msgs[1..] == [];
    }
  }

  /** If no byte is missing, they are all the right ones. */
  lemma {:induction false} TakenWhole(m: Message, counter: nat, enc: Cipher, header: Take, payload: Take)
    requires Send(m, counter, enc, header, payload).result == SendOk
    ensures var sent, all := Send(m, counter, enc, header, payload).bytes, Send(m, counter, enc, Whole, Whole).bytes;
            |sent| >= |all| ==> sent == all
  {
  }

  /** What was decrypted is as long as what was received. */
  lemma {:induction false} PlainSizes(s: seq<byte>, counter: nat, dec: Cipher)
    requires SizesKept(dec)
    ensures forall r :: r in Parse(s, counter, dec).msgs && r.plain.Some? ==> |r.plain.value| == |r.payload|
    decreases |s|
  {
    hide Parse, Read32, Read16;
    ParseStep(s, counter, dec);
    if Complete(s) {
      var size := HEADER_SIZE + Read32(s, 0);
      PlainSizes(s[size..], CounterAfter(s[HEADER_SIZE..size], counter), dec);
    }
  }

  /** After a payload that was cut off, the missing bytes are taken from whatever is
      sent next: the receiver dispatches the mixture and goes on in the middle of
      the next message. */
  lemma {:induction false} CutPayloadSwallows(m: Message, counter: nat, enc: Cipher, dec: Cipher, limit: nat,
      following: seq<byte>)
    requires Inverse(enc, dec) && Representable(m) && Fits(m)
    requires limit < |m.payload| <= limit + |following|
    ensures var sent := Send(m, counter, enc, Whole, UpTo(limit));
            var missing := |m.payload| - limit;
            && sent.result == SendOk && enc(counter, m.payload).Some? && |enc(counter, m.payload).value| == |m.payload|
            && var payload := enc(counter, m.payload).value[..limit] + following[..missing];
               var tail := Parse(following[missing..], CounterAfter(payload, counter), dec);
               Parse(sent.bytes + following, counter, dec)
                 == tail.(msgs := [Receive(m.msgType, payload, counter, dec)] + tail.msgs)
  {
    hide Parse, Header, Inverse, Send, Read32, Read16;
    CutSent(m, counter, enc, dec, limit);
    var missing := |m.payload| - limit;
    var h, part := Header(m.msgType, |m.payload|), enc(counter, m.payload).value[..limit];
    HeaderKept(h, part + following);
    assert h + part + following == h + (part + following);
    ParseHeaded(h, part + following, |m.payload|, counter, dec);
    assert (part + following)[..|m.payload|] == part + following[..missing];
    assert (part + following)[|m.payload|..] == following[missing..];
  }

  lemma CutSent(m: Message, counter: nat, enc: Cipher, dec: Cipher, limit: nat)
    requires Inverse(enc, dec) && limit < |m.payload|
    ensures enc(counter, m.payload).Some? && |enc(counter, m.payload).value| == |m.payload|
    ensures var sent := Send(m, counter, enc, Whole, UpTo(limit));
            sent.result == SendOk && sent.bytes == Header(m.msgType, |m.payload|) + enc(counter, m.payload).value[..limit]
  {
    assert InverseAt(enc, dec, counter, m.payload);
  }

  lemma {:induction false} ParseHeaded(h: seq<byte>, rest: seq<byte>, n: nat, counter: nat, dec: Cipher)
    requires |h| == HEADER_SIZE && Read32(h + rest, 0) == n <= |rest| && HEADER_SIZE + n <= RECV_BUF_SIZE
    ensures var tail := Parse(rest[n..], CounterAfter(rest[..n], counter), dec);
            Parse(h + rest, counter, dec) == tail.(msgs := [Receive(Read16(h + rest, 4), rest[..n], counter, dec)] + tail.msgs)
  {
    hide Parse, Read32, Read16;
    ParseStep(h + rest, counter, dec);
    assert (h + rest)[HEADER_SIZE..HEADER_SIZE + n] == rest[..n];
    assert (h + rest)[HEADER_SIZE + n..] == rest[n..];
  }
}
