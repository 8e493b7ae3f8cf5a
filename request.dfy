/** How the honeypot's accept loop reads a request frame and chooses a handler
    (honeypots/Siemens/honeypot.py, `start_server`). A frame that leads to no
    handler, or whose decoding raises, gets no reply at all. */
module ModbusRequest {
  import opened Bytes

  /** A request the dispatcher hands to one of its handlers. `tid` is the
      transaction id exactly as received (two bytes), echoed in the reply. */
  datatype Request =
    | ReadCoils(tid: seq<byte>, uid: byte, start: u16, qty: u16)
    | ReadHolding(tid: seq<byte>, uid: byte, start: u16, qty: u16)
    | ReadInput(tid: seq<byte>, uid: byte, start: u16, qty: u16)
    | WriteSingle(tid: seq<byte>, uid: byte, start: u16, value: u16)
    | WriteMultiple(tid: seq<byte>, uid: byte, start: u16, qty: u16, block: seq<byte>)
    | ReadDeviceId(tid: seq<byte>, uid: byte)
    | ReportSlaveId(tid: seq<byte>, uid: byte)
  {
    /** The function code that selects this handler. */
    function Code(): byte
    {
      match this
      case ReadCoils(_, _, _, _) => 0x01
      case ReadHolding(_, _, _, _) => 0x03
      case ReadInput(_, _, _, _) => 0x04
      case WriteSingle(_, _, _, _) => 0x06
      case WriteMultiple(_, _, _, _, _) => 0x10
      case ReadDeviceId(_, _) => 0x2B
      case ReportSlaveId(_, _) => 0x11
    }
  }

  /** The function codes the dispatcher answers. */
  const Supported: set<byte> := {0x01, 0x03, 0x04, 0x06, 0x10, 0x11, 0x2B}

  /** The MEI type of Read Device Identification, required in byte 8. */
  const ReadDeviceIdMei: byte := 0x0E

  /** `int.from_bytes(data[lo:lo+2], 'big')`: a short frame gives a shorter
      (possibly empty) slice, which still decodes. */
  function FieldAt(data: seq<byte>, lo: nat): u16
  {
    Word(Slice(data, lo, lo + 2))
  }

  /** The dispatch decision of `start_server`: None when the frame is shorter
      than 8 bytes, when the function code is not handled, when a 0x2B frame
      does not carry 0x0E in byte 8 (or has no byte 8), and when a 0x10 frame
      has no byte-count byte 12 (the IndexError is caught and nothing is sent). */
  function ParseRequest(data: seq<byte>): (r: Option<Request>)
    ensures |data| < 8 ==> r.None?
    ensures r.Some? ==>
      && |data| >= 8
      && r.value.tid == data[..2] && r.value.uid == data[6] && r.value.Code() == data[7]
    ensures |data| >= 8 && data[7] !in Supported ==> r.None?
    ensures |data| >= 8 && data[7] in {0x01, 0x03, 0x04, 0x06, 0x11} ==> r.Some?
    ensures |data| >= 8 && data[7] == 0x10 ==> (r.Some? <==> |data| >= 13)
    ensures |data| >= 8 && data[7] == 0x2B ==> (r.Some? <==> |data| > 8 && data[8] == ReadDeviceIdMei)
  {
    if |data| < 8 then None
    else
      var tid, uid, fc := data[..2], data[6], data[7];
      var start, word := FieldAt(data, 8), FieldAt(data, 10);
      if fc == 0x03 then Some(ReadHolding(tid, uid, start, word))
      else if fc == 0x04 then Some(ReadInput(tid, uid, start, word))
      else if fc == 0x01 then Some(ReadCoils(tid, uid, start, word))
      else if fc == 0x06 then Some(WriteSingle(tid, uid, start, word))
      else if fc == 0x10 then
        if |data| < 13 then None
        else Some(WriteMultiple(tid, uid, start, word, Slice(data, 13, 13 + data[12] as int)))
      else if fc == 0x2B && |data| > 8 && data[8] == ReadDeviceIdMei then Some(ReadDeviceId(tid, uid))
      else if fc == 0x11 then Some(ReportSlaveId(tid, uid))
      else None
  }

  /** For every frame that reaches a handler, the start field is
      `data[8:10]` and the quantity (or value) field `data[10:12]`, read
      big-endian from Python's clamped slices, so a frame of 8 to 11 bytes
      still decodes from its short (possibly empty) slices; a 0x10 block is
      the `data[12]` bytes after byte 12, cut short by the end of the frame.
      For a frame of 12 bytes or more the fields are plain two-byte slices. */
  lemma ParsedFields(data: seq<byte>)
    requires ParseRequest(data).Some?
    ensures var req := ParseRequest(data).value;
      && (!req.ReadDeviceId? && !req.ReportSlaveId? ==> req.start == FromBE(Slice(data, 8, 10)))
      && ((req.ReadCoils? || req.ReadHolding? || req.ReadInput? || req.WriteMultiple?) ==> req.qty == FromBE(Slice(data, 10, 12)))
      && (req.WriteSingle? ==> req.value == FromBE(Slice(data, 10, 12)))
      && (req.WriteMultiple? ==> |data| >= 13 && req.block == data[13..Min(13 + data[12] as int, |data|)])
      && (|data| >= 12 ==> Slice(data, 8, 10) == data[8..10] && Slice(data, 10, 12) == data[10..12])
  {
  }

  /** A 9-byte Read Holding Registers frame decodes the start from its
      one-byte slice `data[8:10]` and the quantity from the empty `data[10:12]`. */
  lemma ShortFrameExample()
    ensures ParseRequest([0, 1, 0, 0, 0, 3, 1, 3, 7]) == Some(ReadHolding([0, 1], 1, 7, 0))
  {
    var data: seq<byte> := [0, 1, 0, 0, 0, 3, 1, 3, 7];
    assert Slice(data, 8, 10) == [7];
    assert Slice(data, 10, 12) == [];
    assert data[..2] == [0, 1];
  }
}
