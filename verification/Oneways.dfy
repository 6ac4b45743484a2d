/** The one-way frames of the client: sent without a look at the negotiated limit. */
module Oneways {
  import opened Base
  import opened BigEndian
  import opened Wire
  import opened Buffers
  import opened Frames
  import opened Commands
  import opened Sockets
  import CommandCode

  const MAX_REFERENCE: nat := 256

  function StoreFrame(reference: Bytes, stream: Bytes, offset: u64): Bytes {
    Envelope(Payload(STORE_OFFSET, 1, None, EncodeBody(StoreOffset(reference, stream, offset))))
  }

  function HeartbeatFrame(): Bytes { Envelope(Payload(HEARTBEAT, 1, None, EncodeBody(Heartbeat))) }

  /** store_offset; `open` is what require_open finds. */
  method Store(socket: Socket, open: bool, reference: Bytes, stream: Bytes, offset: u64) returns (r: Result<()>)
    modifies socket`outbound, socket`sends
    ensures !open ==> r == Err(Error(ConnectionNotOpen))
    ensures open && |reference| > 256 ==> r == Err(Error(ReferenceTooLong))
    ensures !open || |reference| > 256 ==> socket.outbound == old(socket.outbound) && socket.sends == old(socket.sends)
    ensures open && |reference| <= 256 ==>
              (r.Ok? <==> exists c :: Accepts(old(socket.sends), |StoreFrame(reference, stream, offset)|, c))
    ensures open && |reference| <= 256 && r.Err? ==>
              r.error.serverCode == None && exists c :: StopsOn(old(socket.sends), c, socket.sends, r.error.kind)
    ensures r.Ok? ==> socket.outbound == old(socket.outbound) + StoreFrame(reference, stream, offset)
    ensures r.Err? ==> socket.outbound != old(socket.outbound) + StoreFrame(reference, stream, offset)
    ensures old(socket.outbound) <= socket.outbound <= old(socket.outbound) + StoreFrame(reference, stream, offset)
  {
    hide EncodeBody, Encode, Accepts, StopsOn;
    if !open {
      return Err(Error(ConnectionNotOpen));
    }
    if |reference| > MAX_REFERENCE {
      return Err(Error(ReferenceTooLong));
    }
    var body := new BufferWriter();
    CommandCode.EncodeLifecycle(StoreOffset(reference, stream, offset), body);
    var bytes := body.Take();
    assert bytes == EncodeBody(StoreOffset(reference, stream, offset));
    var frame := EncodeOnewayFrame(STORE_OFFSET, 1, bytes);
    assert frame == StoreFrame(reference, stream, offset);
    hide StoreFrame;
    r := socket.WriteAll(frame);
  }

  /** How many bytes of a string are written. */
  function Written(t: Bytes): nat { Min(|t|, INT16_MAX) }

  lemma StoreSize(reference: Bytes, stream: Bytes, offset: u64)
    ensures |StoreFrame(reference, stream, offset)| == 20 + Written(reference) + Written(stream)
  {
    AppendThree([], Text(reference), Text(stream), UInt(LONG, offset));
    assert |EncodeText(reference)| == 2 + Written(reference) && |EncodeText(stream)| == 2 + Written(stream);
    hide EncodeText;
  }

  lemma HeartbeatSize()
    ensures |HeartbeatFrame()| == 8
  {
  }

  /** A frame of store_offset keeps the limit exactly when its strings leave it room, a heartbeat from 4 bytes on. */
  lemma LimitKeptExactly(reference: Bytes, stream: Bytes, offset: u64, frameMax: u32)
    ensures Fits(|StoreFrame(reference, stream, offset)| - 4, frameMax)
       <==> frameMax == 0 || 16 + Written(reference) + Written(stream) <= frameMax
    ensures Fits(|HeartbeatFrame()| - 4, frameMax) <==> frameMax == 0 || 4 <= frameMax
  {
    StoreSize(reference, stream, offset);
    HeartbeatSize();
    hide StoreFrame, HeartbeatFrame;
  }

  /** A limit of 20 is broken by a reference and a stream of three characters each. */
  lemma StoreBreaksLimit()
    ensures !Fits(|StoreFrame(Ascii("ref"), Ascii("str"), 0)| - 4, 20)
  {
    LimitKeptExactly(Ascii("ref"), Ascii("str"), 0, 20);
    hide StoreFrame;
  }
}
