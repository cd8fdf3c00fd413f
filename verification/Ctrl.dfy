/** The control connection's receive buffer and counters. */
module Ctrl {
  import opened Bytes
  import opened CtrlStream

  class Ctrl {
    const recvBuf: array<byte>
    var recvBufSize: nat
    var cryptCounterLocal: nat
    var cryptCounterRemote: nat

    ghost predicate Valid()
      reads this
    {
      recvBuf.Length == RECV_BUF_SIZE && recvBufSize <= RECV_BUF_SIZE
    }

    ghost function Pending(): seq<byte>
      requires Valid()
      reads this, recvBuf
    {
      recvBuf[..recvBufSize]
    }

    /** The end of ctrl_connect: bytes that came with the response header are kept. */
    constructor (leftover: seq<byte>, counterLocal: nat, counterRemote: nat)
      requires |leftover| <= RECV_BUF_SIZE
      ensures Valid() && fresh(recvBuf) && Pending() == leftover
      ensures cryptCounterLocal == counterLocal && cryptCounterRemote == counterRemote
    {
      recvBuf := new byte[RECV_BUF_SIZE];
      recvBufSize := |leftover|;
      cryptCounterLocal, cryptCounterRemote := counterLocal, counterRemote;
      new;
      if recvBufSize > 0 {
        Memcpy(recvBuf, 0, leftover);
      }
    }

    /** ctrl_message_received up to the dispatch: the payload is decrypted in place. */
    method MessageReceived(msgType: nat, payloadSize: nat, dec: Cipher) returns (r: Received)
      requires Valid() && HEADER_SIZE + payloadSize <= recvBufSize
      requires SizesKept(dec)
      modifies this`cryptCounterRemote, recvBuf
      ensures r == Receive(msgType, old(recvBuf[HEADER_SIZE..HEADER_SIZE + payloadSize]), old(cryptCounterRemote), dec)
      ensures cryptCounterRemote == CounterAfter(old(recvBuf[HEADER_SIZE..HEADER_SIZE + payloadSize]), old(cryptCounterRemote))
      ensures DecryptedUnder(r, old(cryptCounterRemote), dec)
      ensures old(cryptCounterRemote) < U64 ==>
                cryptCounterRemote == Advanced(old(cryptCounterRemote), if payloadSize > 0 then 1 else 0)
      ensures forall i :: HEADER_SIZE + payloadSize <= i < recvBuf.Length ==> recvBuf[i] == old(recvBuf[i])
    {
      var payload := recvBuf[HEADER_SIZE..HEADER_SIZE + payloadSize];
      var plain := Some(payload);
      var counter := cryptCounterRemote;
      if payloadSize > 0 {
        plain := dec(cryptCounterRemote, payload);
        cryptCounterRemote := Next(cryptCounterRemote);
        if plain.Some? {
          Memcpy(recvBuf, HEADER_SIZE, plain.value);
        }
      }
      r := Received(msgType, counter, payload, plain);
    }

    /** One turn of the inner receive loop. */
    method TakeMessage(payloadSize: nat, dec: Cipher) returns (r: Received)
      requires Valid() && HEADER_SIZE + payloadSize <= recvBufSize && payloadSize == Read32(recvBuf[..], 0)
      requires SizesKept(dec)
      modifies this`recvBufSize, this`cryptCounterRemote, recvBuf
      ensures Valid() && recvBufSize == old(recvBufSize) - (HEADER_SIZE + payloadSize)
      ensures var payload := old(recvBuf[HEADER_SIZE..HEADER_SIZE + payloadSize]);
              && r == Receive(Read16(old(recvBuf[..]), 4), payload, old(cryptCounterRemote), dec)
              && cryptCounterRemote == CounterAfter(payload, old(cryptCounterRemote))
      ensures Pending() == old(Pending())[HEADER_SIZE + payloadSize..]
    {
      ghost var rest := Pending()[HEADER_SIZE + payloadSize..];
      r := MessageReceived(Read16(recvBuf[..], 4), payloadSize, dec);
      assert recvBuf[HEADER_SIZE + payloadSize..recvBufSize] == rest;
      recvBufSize := recvBufSize - (HEADER_SIZE + payloadSize);
      if recvBufSize > 0 {
        Memmove(recvBuf, 0, HEADER_SIZE + payloadSize, recvBufSize);
      }
      assert Pending() == rest;
    }

    /** The inner receive loop: takes out all complete messages. Its result says
        why it stopped; on SizeWraps the model says nothing about what follows. */
    method TakeMessages(dec: Cipher) returns (log: seq<Received>, status: Status)
      requires Valid() && SizesKept(dec)
      modifies this`recvBufSize, this`cryptCounterRemote, recvBuf
      ensures Valid()
      ensures Parsed(log, Pending(), cryptCounterRemote, status) == Parse(old(Pending()), old(cryptCounterRemote), dec)
    {
      hide Parse, Read32, Read16, SizesKept;
      ghost var all := Parse(Pending(), cryptCounterRemote, dec);
      Regroup0(all.msgs);
      log := [];
      status := Waiting;
      while recvBufSize >= HEADER_SIZE
        decreases recvBufSize
        invariant Valid()
        invariant var p := Parse(Pending(), cryptCounterRemote, dec); all == p.(msgs := log + p.msgs)
      {
        var payloadSize := Read32(recvBuf[..], 0);
        PendingHeader();
        ParseStep(Pending(), cryptCounterRemote, dec);
        var size := (HEADER_SIZE + payloadSize) % U32;
        if size != HEADER_SIZE + payloadSize {
          return log, SizeWraps;
        }
        if recvBufSize < size {
          if size > RECV_BUF_SIZE {
            status := Overflow;
          }
          return;
        }
        ghost var before := Pending();
        assert before[HEADER_SIZE..size] == recvBuf[HEADER_SIZE..size];
        var r := TakeMessage(payloadSize, dec);
        Regroup(log, [r], Parse(Pending(), cryptCounterRemote, dec).msgs);
        log := log + [r];
      }
      ParseStep(Pending(), cryptCounterRemote, dec);
    }

    lemma PendingHeader()
      requires Valid() && recvBufSize >= HEADER_SIZE
      ensures Read32(Pending(), 0) == Read32(recvBuf[..], 0) && Read16(Pending(), 4) == Read16(recvBuf[..], 4)
    {
    }

    /** One recv of the receive loop, and the loop over the messages after it. */
    method ReceiveChunk(chunk: seq<byte>, dec: Cipher) returns (log: seq<Received>, status: Status)
      requires Valid() && SizesKept(dec) && 0 < |chunk| <= RECV_BUF_SIZE - recvBufSize
      modifies this`recvBufSize, this`cryptCounterRemote, recvBuf
      ensures Valid()
      ensures Parsed(log, Pending(), cryptCounterRemote, status) == Parse(old(Pending()) + chunk, old(cryptCounterRemote), dec)
      ensures status == Waiting ==> RECV_BUF_SIZE - recvBufSize > 0
    {
      ghost var before := Pending();
      Memcpy(recvBuf, recvBufSize, chunk);
      recvBufSize := recvBufSize + |chunk|;
      assert Pending() == before + chunk;
      log, status := TakeMessages(dec);
    }

    /** ctrl_message_send. */
    method MessageSend(m: Message, enc: Cipher, header: Take, payload: Take) returns (result: SendResult,
        bytes: seq<byte>)
      modifies this`cryptCounterLocal
      ensures Sent(result, bytes, cryptCounterLocal) == Send(m, old(cryptCounterLocal), enc, header, payload)
      ensures old(cryptCounterLocal) < U64 ==>
                cryptCounterLocal == Advanced(old(cryptCounterLocal), if |m.payload| > 0 then 1 else 0)
      ensures result == SendOk && header == Whole && payload == Whole && Representable(m) ==>
                Encodes(bytes, m, old(cryptCounterLocal), enc)
    {
      if Representable(m) && (m.payload == [] || enc(cryptCounterLocal, m.payload).Some?) {
        SendEncodes(m, cryptCounterLocal, enc);
      }
      hide Encodes, Header;
      var encrypted := None;
      bytes := [];
      if |m.payload| > 0 {
        encrypted := enc(cryptCounterLocal, m.payload);
        cryptCounterLocal := Next(cryptCounterLocal);
        if encrypted == None {
          return EncryptFailed, [];
        }
      }
      if header == Refused {
        return NetworkError, [];
      }
      bytes := Taken(Header(m.msgType, |m.payload|), header);
      if encrypted.Some? {
        if payload == Refused {
          return NetworkError, bytes;
        }
        bytes := bytes + Taken(encrypted.value, payload);
      }
      result := SendOk;
    }
  }
}
