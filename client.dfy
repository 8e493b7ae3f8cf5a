/** The request encoder of the test client (honeypots/Siemens/test.py) and the
    round trip through the honeypot's own request decoding. */
module ModbusClient {
  import opened Bytes
  import opened ModbusRequest
  import opened Handlers

  /** `build_modbus_request`: a 7-byte MBAP header (transaction id, protocol
      id 0, the constant length 6, unit id) and a 5-byte PDU (function code,
      start address, count). `to_bytes` and `bytes([...])` raise on a value
      that does not fit, so there is no request then. */
  function BuildModbusRequest(tid: int, uid: int, fc: int, startAddr: int, count: int): (r: Option<seq<byte>>)
    ensures r.Some? <==> (0 <= tid < 0x1_0000 && 0 <= uid < 0x100 && 0 <= fc < 0x100
                          && 0 <= startAddr < 0x1_0000 && 0 <= count < 0x1_0000)
    ensures r.Some? ==> |r.value| == 12 && r.value[6] == uid && r.value[7] == fc
  {
    if 0 <= tid < 0x1_0000 && 0 <= uid < 0x100 && 0 <= fc < 0x100
       && 0 <= startAddr < 0x1_0000 && 0 <= count < 0x1_0000
    then Some(BE16(tid) + [0x00, 0x00, 0x00, 0x06] + [uid] + [fc] + BE16(startAddr) + BE16(count))
    else None
  }

  /** The request exists exactly when every argument fits its field; it is
      12 bytes, and each field decodes back to its argument. The length field
      6 counts the 5-byte PDU plus the unit id. */
  lemma RequestLayout(tid: int, uid: int, fc: int, startAddr: int, count: int)
    ensures var r := BuildModbusRequest(tid, uid, fc, startAddr, count);
      && (r.Some? <==> 0 <= tid < 0x1_0000 && 0 <= uid < 0x100 && 0 <= fc < 0x100
                       && 0 <= startAddr < 0x1_0000 && 0 <= count < 0x1_0000)
      && (r.Some? ==>
        && |r.value| == 12
        && FromBE(r.value[0..2]) == tid
        && r.value[2..4] == [0, 0]
        && FromBE(r.value[4..6]) == 6 == |r.value[7..]| + 1
        && r.value[6] == uid && r.value[7] == fc
        && FromBE(r.value[8..10]) == startAddr
        && FromBE(r.value[10..12]) == count)
  {
    var r := BuildModbusRequest(tid, uid, fc, startAddr, count);
    if r.Some? {
      var req := r.value;
      assert req[0..2] == BE16(tid);
      assert req[8..10] == BE16(startAddr);
      assert req[10..12] == BE16(count);
      assert req[4..6] == BE16(6);
    }
  }

  /** What the honeypot decodes from a client request: the same transaction
      id (as its two bytes), unit id, start and count for the read codes and
      for Write Single Register (the count is then the value); Report Slave ID
      for 0x11; Read Device Identification for 0x2B exactly when the high
      byte of the start address is 0x0E; and nothing for 0x10, whose
      byte-count byte 12 is past the end of the 12-byte request, or for any
      other code. */
  lemma RequestRoundTrip(tid: u16, uid: byte, fc: byte, startAddr: u16, count: u16)
    ensures var req := BuildModbusRequest(tid, uid, fc, startAddr, count).value;
      var t := BE16(tid);
      && (fc == 0x01 ==> ParseRequest(req) == Some(ReadCoils(t, uid, startAddr, count)))
      && (fc == 0x03 ==> ParseRequest(req) == Some(ReadHolding(t, uid, startAddr, count)))
      && (fc == 0x04 ==> ParseRequest(req) == Some(ReadInput(t, uid, startAddr, count)))
      && (fc == 0x06 ==> ParseRequest(req) == Some(WriteSingle(t, uid, startAddr, count)))
      && (fc == 0x11 ==> ParseRequest(req) == Some(ReportSlaveId(t, uid)))
      && (fc == 0x2B ==> ParseRequest(req) == if startAddr / 0x100 == 0x0E then Some(ReadDeviceId(t, uid)) else None)
      && (fc !in {0x01, 0x03, 0x04, 0x06, 0x11, 0x2B} ==> ParseRequest(req).None?)
  {
    var req := BuildModbusRequest(tid, uid, fc, startAddr, count).value;
    assert req[..2] == BE16(tid);
    assert Slice(req, 8, 10) == BE16(startAddr);
    assert Slice(req, 10, 12) == BE16(count);
    assert req[8] == startAddr / 0x100;
  }

  /** The script's own request (transaction 1, unit 1, Read Coils from 0, 8
      coils) is 00 01 00 00 00 06 01 01 00 00 00 08, and whatever the coils
      hold the reply is 10 bytes with a byte count of 1 and one data byte. */
  lemma ScriptRequest(coils: map<nat, bool>)
    ensures BuildModbusRequest(1, 1, 0x01, 0, 8) == Some([0, 1, 0, 0, 0, 6, 1, 1, 0, 0, 0, 8])
    ensures var req := BuildModbusRequest(1, 1, 0x01, 0, 8).value;
      && ParseRequest(req).Some?
      && var reply := Respond(ParseRequest(req).value, map[], coils, DeviceInfo(None, None, None));
      && reply.Some? && |reply.value| == 10 && reply.value[7] == 0x01 && reply.value[8] == 1
  {
    assert BE16(1) == [0, 1] && BE16(0) == [0, 0] && BE16(8) == [0, 8];
    assert BE16(1) + [0x00, 0x00, 0x00, 0x06] + [1] + [0x01] + BE16(0) + BE16(8) == [0, 1, 0, 0, 0, 6, 1, 1, 0, 0, 0, 8];
    RequestRoundTrip(1, 1, 0x01, 0, 8);
    ReadCoilsLayout([0, 1], 1, coils, 0, 8);
  }

  /** Coils 1,0,1,0,0,0,0,0 at addresses 0..7 pack into the single byte
      0x05. */
  lemma CoilPackingExample()
    ensures var coils := map[0 := true, 1 := false, 2 := true];
      ReadCoilsReply([0, 1], 1, coils, 0, 8) == Some([0, 1, 0, 0, 0, 4, 1, 0x01, 1, 0x05])
  {
    var coils := map[0 := true, 1 := false, 2 := true];
    assert CoilBits(coils, 0, 8) == [true, false, true, false, false, false, false, false];
    FlagsFive();
    var packed := ToBytesLE(5, 1);
    assert packed == [5];
    assert CoilByteCount(8) == 1;
    assert BE16(4) == [0, 4];
    assert ToBytes2(|[0x01, 1] + packed| + 1) == Some([0, 4]);
    assert [0, 1] + [0, 0] + [0, 4] + [1] + ([0x01, 1] + packed) == [0, 1, 0, 0, 0, 4, 1, 0x01, 1, 0x05];
  }

  /** The flags 1,0,1,0,0,0,0,0, least significant first, are the number 5. */
  lemma FlagsFive()
    ensures BitsToInt([true, false, true, false, false, false, false, false]) == 5
  {
    var bits := [true, false, true, false, false, false, false, false];
    NoFlagsSet(bits[3..]);
    assert bits[2..][1..] == bits[3..];
    assert BitsToInt(bits[2..]) == 1;
    assert bits[1..][1..] == bits[2..];
    assert BitsToInt(bits[1..]) == 2;
  }

  lemma {:induction false} NoFlagsSet(bits: seq<bool>)
    requires forall k :: 0 <= k < |bits| ==> !bits[k]
    ensures BitsToInt(bits) == 0
  {
    if bits != [] {
      NoFlagsSet(bits[1..]);
    }
  }
}
