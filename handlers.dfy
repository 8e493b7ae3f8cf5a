/** What each function handler of the honeypot replies and how it changes the
    holding registers, as functions of the register and coil maps it reads
    (honeypots/Siemens/honeypot.py). Addresses are the Python dictionary keys
    `str(i)` read back as numbers; an absent key reads as 0. A reply of None
    means the handler raised and the dispatcher sent nothing. */
module Handlers {
  import opened Bytes
  import opened ModbusFrame
  import opened ModbusRequest

  /** Addresses whose writes are always refused ("10" and "99"). */
  const LockedRegisters: set<nat> := {10, 99}

  /** Identity strings from the device configuration, as encoded bytes;
      None when the configuration has no such field. */
  datatype DeviceInfo = DeviceInfo(vendor: Option<seq<byte>>, model: Option<seq<byte>>, firmware: Option<seq<byte>>)

  /** A ramp rule of the dynamic updater. */
  datatype RampRule = RampRule(startValue: int, step: int, max: int)

  function GetOr(o: Option<seq<byte>>, default: seq<byte>): seq<byte>
  {
    match o
    case Some(v) => v
    case None => default
  }

  /** The bytes of an ASCII string literal. */
  function Ascii(s: string): (r: seq<byte>)
    requires forall i :: 0 <= i < |s| ==> s[i] as int < 0x80
    ensures |r| == |s|
  {
    seq(|s|, i requires 0 <= i < |s| => s[i] as int)
  }

  function RegisterValue(regs: map<nat, int>, a: nat): int
  {
    if a in regs then regs[a] else 0
  }

  function CoilValue(coils: map<nat, bool>, a: nat): bool
  {
    a in coils && coils[a]
  }

  // ---------------------------------------------------------------- reads

  /** `[holding_registers.get(str(i), 0) for i in range(start, start + qty)]` */
  function RegisterValues(regs: map<nat, int>, start: nat, qty: nat): (vs: seq<int>)
    ensures |vs| == qty && forall k :: 0 <= k < qty ==> vs[k] == RegisterValue(regs, start + k)
  {
    seq(qty, k requires 0 <= k < qty => RegisterValue(regs, start + k))
  }

  /** Reply of `handle_read_holding` (fc 0x03) and `handle_read_input_registers`
      (fc 0x04), which read the same map: fc, byte count qty * 2, then the
      values. `bytes([qty * 2])` raises when qty * 2 exceeds 255 and
      `to_bytes(2, 'big')` raises on a value outside 0..65535. */
  function ReadRegistersReply(fc: byte, tid: seq<byte>, uid: byte, regs: map<nat, int>, start: nat, qty: nat): (r: Option<seq<byte>>)
    ensures r.Some? <==> qty <= 127 && StoredWordsFit(regs, start, qty)
    ensures r.Some? ==> |r.value| == |tid| + 7 + 2 * qty
    ensures Answers(r, tid, uid, fc)
  {
    EncodeWordsLayout(RegisterValues(regs, start, qty));
    StoredWordsFitAll(regs, start, qty);
    if qty * 2 > 0xFF then None
    else match EncodeWords(RegisterValues(regs, start, qty))
      case None => None
      case Some(words) => BuildResponse(tid, uid, [fc, qty * 2] + words)
  }

  /** Every address start .. start + qty - 1 holds a value that fits in 16 bits
      (an absent one reads as 0). */
  predicate StoredWordsFit(regs: map<nat, int>, start: nat, qty: nat)
  {
    forall a :: start <= a < start + qty ==> 0 <= RegisterValue(regs, a) < 0x1_0000
  }

  /** The read reply exists exactly when the byte count fits in a byte and
      every value read fits in 16 bits; it then carries byte count qty * 2 and,
      at bytes 9 + 2k and 10 + 2k, the big-endian value of address start + k. */
  lemma ReadRegistersLayout(fc: byte, tid: seq<byte>, uid: byte, regs: map<nat, int>, start: nat, qty: nat)
    requires |tid| == 2
    ensures var r := ReadRegistersReply(fc, tid, uid, regs, start, qty);
      && (r.Some? <==> qty <= 127 && StoredWordsFit(regs, start, qty))
      && (r.Some? ==>
        && |r.value| == 9 + 2 * qty
        && r.value[..2] == tid && r.value[2..4] == [0, 0] && r.value[6] == uid
        && FromBE(r.value[4..6]) == 3 + 2 * qty
        && r.value[7] == fc && r.value[8] == 2 * qty
        && forall k :: 0 <= k < qty ==> FromBE(r.value[9 + 2 * k..11 + 2 * k]) == RegisterValue(regs, start + k))
  {
    var vs := RegisterValues(regs, start, qty);
    EncodeWordsLayout(vs);
    StoredWordsFitAll(regs, start, qty);
    var r := ReadRegistersReply(fc, tid, uid, regs, start, qty);
    if qty <= 127 && AllWords(vs) {
      var words := EncodeWords(vs).value;
      var payload := [fc, qty * 2] + words;
      assert |payload| + 1 < 0x1_0000;
      assert qty * 2 <= 0xFF && EncodeWords(vs) == Some(words);
      assert r == BuildResponse(tid, uid, payload);
      var frame := r.value;
      assert frame[9..] == words by {
        assert frame[7..] == payload;
      }
      forall k | 0 <= k < qty ensures FromBE(frame[9 + 2 * k..11 + 2 * k]) == RegisterValue(regs, start + k) {
        assert frame[9 + 2 * k..11 + 2 * k] == words[2 * k..2 * k + 2];
        assert FromBE(words[2 * k..2 * k + 2]) == vs[k];
      }
    }
  }

  /** The values read all fit in 16 bits exactly when the store's values at
      those addresses do. */
  lemma StoredWordsFitAll(regs: map<nat, int>, start: nat, qty: nat)
    ensures AllWords(RegisterValues(regs, start, qty)) <==> StoredWordsFit(regs, start, qty)
  {
    var vs := RegisterValues(regs, start, qty);
    if AllWords(vs) {
      forall a | start <= a < start + qty ensures 0 <= RegisterValue(regs, a) < 0x1_0000 {
        assert vs[a - start] == RegisterValue(regs, a);
      }
    }
  }

  /** A read of addresses the store has never held returns zeros. */
  lemma UnsetRegistersReadZero(fc: byte, tid: seq<byte>, uid: byte, regs: map<nat, int>, start: nat, qty: nat)
    requires |tid| == 2 && qty <= 127
    requires forall a :: start <= a < start + qty ==> a !in regs
    ensures var r := ReadRegistersReply(fc, tid, uid, regs, start, qty);
      && r.Some? && |r.value| == 9 + 2 * qty
      && forall i :: 9 <= i < 9 + 2 * qty ==> r.value[i] == 0
  {
    ReadRegistersLayout(fc, tid, uid, regs, start, qty);
    assert StoredWordsFit(regs, start, qty) by {
      forall a | start <= a < start + qty ensures RegisterValue(regs, a) == 0 {
        assert a !in regs;
      }
    }
    var r := ReadRegistersReply(fc, tid, uid, regs, start, qty).value;
    forall k | 0 <= k < qty ensures FromBE(r[9 + 2 * k..11 + 2 * k]) == 0 {
      assert start + k !in regs;
      assert FromBE(r[9 + 2 * k..11 + 2 * k]) == RegisterValue(regs, start + k);
    }
    ZeroWordsZeroBytes(r, qty);
  }

  /** Words that all read as 0 from offset 9 on are zero bytes. */
  lemma ZeroWordsZeroBytes(r: seq<byte>, qty: nat)
    requires |r| == 9 + 2 * qty
    requires forall k :: 0 <= k < qty ==> FromBE(r[9 + 2 * k..11 + 2 * k]) == 0
    ensures forall i :: 9 <= i < 9 + 2 * qty ==> r[i] == 0
  {
    forall i | 9 <= i < 9 + 2 * qty ensures r[i] == 0 {
      var k := PairOf(i - 9);
      var pair := r[9 + 2 * k..11 + 2 * k];
      ZeroWord(pair);
      assert r[i] == pair[i - 9 - 2 * k];
    }
  }

  /** The pair of bytes that holds offset `j` of a word sequence. */
  function PairOf(j: nat): (k: nat)
    ensures 2 * k <= j < 2 * k + 2
  {
    j / 2
  }

  /** A two-byte word that reads as 0 has two zero bytes. */
  lemma ZeroWord(pair: seq<byte>)
    requires |pair| == 2 && FromBE(pair) == 0
    ensures pair[0] == 0 && pair[1] == 0
  {
    assert FromBE(pair) == Word(pair);
  }

  /** The coil string `''.join(str(coils.get(str(i), 0)) ...)` as flags. */
  function CoilBits(coils: map<nat, bool>, start: nat, qty: nat): (bits: seq<bool>)
    ensures |bits| == qty && forall k :: 0 <= k < qty ==> bits[k] == CoilValue(coils, start + k)
  {
    seq(qty, k requires 0 <= k < qty => CoilValue(coils, start + k))
  }

  /** Number of data bytes of a coil reply: `(len(bits) + 7) // 8`. */
  function CoilByteCount(qty: nat): nat { (qty + 7) / 8 }

  /** Reply of `handle_read_coils` (fc 0x01). `int('', 2)` raises for qty 0;
      `bytes([len(bit_bytes)])` raises when more than 255 data bytes are
      needed, that is for qty above 2040. */
  function ReadCoilsReply(tid: seq<byte>, uid: byte, coils: map<nat, bool>, start: nat, qty: nat): (r: Option<seq<byte>>)
    ensures r.Some? <==> 1 <= qty <= 2040
    ensures r.Some? ==> |r.value| == |tid| + 7 + CoilByteCount(qty)
    ensures Answers(r, tid, uid, 0x01)
  {
    if qty == 0 then None
    else
      var packed := ToBytesLE(BitsToInt(CoilBits(coils, start, qty)), CoilByteCount(qty));
      if |packed| > 0xFF then None
      else BuildResponse(tid, uid, [0x01, |packed|] + packed)
  }

  /** The coil reply exists exactly for 1 <= qty <= 2040; its byte count is
      ceil(qty / 8); coil start + k is bit k mod 8 of data byte k / 8, least
      significant bit first; the unused high bits of the last byte are zero. */
  lemma ReadCoilsLayout(tid: seq<byte>, uid: byte, coils: map<nat, bool>, start: nat, qty: nat)
    requires |tid| == 2
    ensures var r := ReadCoilsReply(tid, uid, coils, start, qty);
      && (r.Some? <==> 1 <= qty <= 2040)
      && (r.Some? ==>
        && |r.value| == 9 + CoilByteCount(qty)
        && r.value[..2] == tid && r.value[6] == uid
        && FromBE(r.value[4..6]) == 3 + CoilByteCount(qty)
        && r.value[7] == 0x01 && r.value[8] == CoilByteCount(qty)
        && 8 * (CoilByteCount(qty) - 1) < qty <= 8 * CoilByteCount(qty)
        && (forall k :: 0 <= k < qty ==> Bit(r.value[9..][k / 8], k % 8) == BitValue(CoilValue(coils, start + k)))
        && (forall j, i :: 0 <= j < CoilByteCount(qty) && 0 <= i < 8 && qty <= 8 * j + i ==> Bit(r.value[9..][j], i) == 0))
  {
    var r := ReadCoilsReply(tid, uid, coils, start, qty);
    if r.Some? {
      var n := CoilByteCount(qty);
      var bits := CoilBits(coils, start, qty);
      var packed := ToBytesLE(BitsToInt(bits), n);
      PackedFlags(bits, n);
      var payload := [0x01, |packed|] + packed;
      assert qty != 0 && |packed| <= 0xFF && r == BuildResponse(tid, uid, payload);
      assert r.value[7..] == payload;
      assert r.value[9..] == packed;
    }
  }

  // --------------------------------------------------------------- writes

  /** Reply of `handle_write_single` (fc 0x06): exception 0x86 / 0x02 for a
      locked address, otherwise an echo of the function code, address and value. */
  function WriteSingleReply(tid: seq<byte>, uid: byte, start: u16, value: u16): (r: Option<seq<byte>>)
    ensures r.Some? && |r.value| >= |tid| + 7 && Answers(r, tid, uid, 0x06)
    ensures start in LockedRegisters ==> r.value[|tid| + 5..] == [0x86, IllegalDataAddress]
    ensures start !in LockedRegisters ==>
      && |r.value| == |tid| + 10 && r.value[|tid| + 5] == 0x06
      && FromBE(r.value[|tid| + 6..|tid| + 8]) == start
      && FromBE(r.value[|tid| + 8..|tid| + 10]) == value
  {
    if start in LockedRegisters then BuildException(tid, uid, 0x06, IllegalDataAddress)
    else
      var r := BuildResponse(tid, uid, [0x06] + BE16(start) + BE16(value));
      assert r.value[|tid| + 6..|tid| + 8] == BE16(start);
      assert r.value[|tid| + 8..|tid| + 10] == BE16(value);
      r
  }

  /** `any(str(start + i) in locked_registers for i in range(qty))` */
  predicate AnyLocked(start: nat, qty: nat)
  {
    exists a :: a in LockedRegisters && start <= a < start + qty
  }

  /** `int.from_bytes(data_block[i*2:(i+1)*2], 'big')`: a block shorter than
      the quantity gives one-byte or empty slices, read as such. */
  function BlockWord(block: seq<byte>, i: nat): u16
  {
    Word(Slice(block, 2 * i, 2 * i + 2))
  }

  /** The words of the block, one per address written. */
  function BlockWords(block: seq<byte>, qty: nat): (ws: seq<u16>)
    ensures |ws| == qty && forall i :: 0 <= i < qty ==> ws[i] == BlockWord(block, i)
  {
    seq(qty, i requires 0 <= i < qty => BlockWord(block, i))
  }

  /** Storing `ws` one word at a time from address `start`: address start + i
      receives ws[i] and every other address keeps its entry (or its
      absence). */
  function WriteWords(regs: map<nat, int>, start: nat, ws: seq<int>): (r: map<nat, int>)
    ensures forall a :: a in r <==> a in regs || start <= a < start + |ws|
    ensures forall a :: start <= a < start + |ws| ==> r[a] == ws[a - start]
    ensures forall a :: a in regs && !(start <= a < start + |ws|) ==> r[a] == regs[a]
  {
    if ws == [] then regs
    else WriteWords(regs, start, ws[..|ws| - 1])[start + |ws| - 1 := ws[|ws| - 1]]
  }

  /** Storing one more word of `ws` updates one more address. */
  lemma WriteWordsStep(regs: map<nat, int>, start: nat, ws: seq<int>, i: nat)
    requires i < |ws|
    ensures WriteWords(regs, start, ws[..i + 1]) == WriteWords(regs, start, ws[..i])[start + i := ws[i]]
  {
    var longer := ws[..i + 1];
    assert longer[..|longer| - 1] == ws[..i];
  }

  /** The loop of `handle_write_multiple` run to the end: address start + i
      receives word i of the block for every i < qty and every other address
      keeps its entry (or its absence). */
  function WriteBlock(regs: map<nat, int>, start: nat, qty: nat, block: seq<byte>): (r: map<nat, int>)
    ensures forall a :: a in r <==> a in regs || start <= a < start + qty
    ensures forall i :: 0 <= i < qty ==> r[start + i] == BlockWord(block, i)
    ensures forall a :: a in regs && !(start <= a < start + qty) ==> r[a] == regs[a]
  {
    WriteWords(regs, start, BlockWords(block, qty))
  }

  /** Holding registers after a Write Multiple Registers request: all or
      nothing. */
  function WriteMultipleRegs(regs: map<nat, int>, start: nat, qty: nat, block: seq<byte>): (r: map<nat, int>)
    ensures r == regs || r == WriteBlock(regs, start, qty, block)
    ensures AnyLocked(start, qty) ==> r == regs
    ensures !AnyLocked(start, qty) ==> r == WriteBlock(regs, start, qty, block)
    ensures forall a :: a in LockedRegisters ==> (a in r <==> a in regs) && (a in regs ==> r[a] == regs[a])
  {
    if AnyLocked(start, qty) then regs else WriteBlock(regs, start, qty, block)
  }

  /** The test made for offset i of the range: `str(start + i) in locked_registers`. */
  predicate LockedAt(start: nat, i: nat)
  {
    start + i in LockedRegisters
  }

  /** A locked address at any offset i < qty of the range leaves the whole
      store as it was; with no offset locked exactly the range is written. */
  lemma WriteMultipleAllOrNothing(regs: map<nat, int>, start: nat, qty: nat, block: seq<byte>)
    ensures (exists i :: 0 <= i < qty && LockedAt(start, i)) ==>
      WriteMultipleRegs(regs, start, qty, block) == regs
    ensures (forall i :: 0 <= i < qty ==> !LockedAt(start, i)) ==>
      WriteMultipleRegs(regs, start, qty, block) == WriteBlock(regs, start, qty, block)
  {
    if i :| 0 <= i < qty && LockedAt(start, i) {
      assert AnyLocked(start, qty);
    } else {
      assert !AnyLocked(start, qty) by {
        forall a | a in LockedRegisters && start <= a < start + qty
          ensures false
        {
          assert 0 <= a - start < qty && LockedAt(start, a - start);
        }
      }
    }
  }

  /** Reply of `handle_write_multiple` (fc 0x10): exception 0x90 / 0x02 when
      any address of the range is locked, otherwise an echo of the start and
      quantity. */
  function WriteMultipleReply(tid: seq<byte>, uid: byte, start: u16, qty: u16): (r: Option<seq<byte>>)
    ensures r.Some? && |r.value| >= |tid| + 7 && Answers(r, tid, uid, 0x10)
    ensures AnyLocked(start, qty) ==> r.value[|tid| + 5..] == [0x90, IllegalDataAddress]
    ensures !AnyLocked(start, qty) ==>
      && |r.value| == |tid| + 10 && r.value[|tid| + 5] == 0x10
      && FromBE(r.value[|tid| + 6..|tid| + 8]) == start
      && FromBE(r.value[|tid| + 8..|tid| + 10]) == qty
  {
    if AnyLocked(start, qty) then BuildException(tid, uid, 0x10, IllegalDataAddress)
    else
      var r := BuildResponse(tid, uid, [0x10] + BE16(start) + BE16(qty));
      assert r.value[|tid| + 6..|tid| + 8] == BE16(start);
      assert r.value[|tid| + 8..|tid| + 10] == BE16(qty);
      r
  }

  // ------------------------------------------------------- identification

  /** Header of the 0x2B reply exactly as the handler writes it: function
      code, MEI type 0x0E, read code 0x01, conformity level 0x00, "more
      follows" 0x00, then the number of objects, 3. There is no "next object
      id" byte before the count. */
  const DeviceIdHeader: seq<byte> := [0x2B, 0x0E, 0x01, 0x00, 0x00, 0x03]

  /** The `id_fields` list: object ids 0, 1 and 2 with vendor, model and
      firmware, defaulting to "Unknown", "Unknown" and "0.0.0". */
  function DeviceIdFields(device: DeviceInfo): seq<(byte, seq<byte>)>
  {
    [ (0x00, GetOr(device.vendor, Ascii("Unknown"))),
      (0x01, GetOr(device.model, Ascii("Unknown"))),
      (0x02, GetOr(device.firmware, Ascii("0.0.0"))) ]
  }

  /** The concatenated `(obj_id, len, bytes)` triples; `bytes([obj_id,
      len(enc)])` raises when a value is longer than 255 bytes. */
  function DeviceObjects(fields: seq<(byte, seq<byte>)>): (r: Option<seq<byte>>)
    ensures r.Some? <==> forall i :: 0 <= i < |fields| ==> |fields[i].1| <= 0xFF
    ensures r.Some? ==> |r.value| <= 0x101 * |fields|
  {
    if fields == [] then Some([])
    else
      var last := fields[|fields| - 1];
      var init := fields[..|fields| - 1];
      assert forall i :: 0 <= i < |init| ==> init[i] == fields[i];
      match DeviceObjects(init)
      case None => None
      case Some(prefix) =>
        if |last.1| > 0xFF then None else Some(prefix + [last.0, |last.1|] + last.1)
  }

  /** Once a field is too long, no longer list of fields has objects either. */
  lemma {:induction false} DeviceObjectsPrefixNone(fields: seq<(byte, seq<byte>)>, n: nat)
    requires n <= |fields| && DeviceObjects(fields[..n]).None?
    ensures DeviceObjects(fields).None?
    decreases |fields| - n
  {
    if n < |fields| {
      assert fields[..n + 1] == fields[..n] + [fields[n]];
      DeviceObjectsAppend(fields[..n], fields[n]);
      DeviceObjectsPrefixNone(fields, n + 1);
    } else {
      assert fields[..n] == fields;
    }
  }

  lemma DeviceObjectsAppend(fields: seq<(byte, seq<byte>)>, x: (byte, seq<byte>))
    ensures DeviceObjects(fields + [x]) ==
      if DeviceObjects(fields).None? || |x.1| > 0xFF then None
      else Some(DeviceObjects(fields).value + [x.0, |x.1|] + x.1)
  {
    assert (fields + [x])[..|fields|] == fields;
  }

  /** Reply of `handle_device_id_request`. */
  function DeviceIdReply(tid: seq<byte>, uid: byte, device: DeviceInfo): (r: Option<seq<byte>>)
    ensures r.Some? <==> forall i :: 0 <= i < 3 ==> |DeviceIdFields(device)[i].1| <= 0xFF
    ensures r.Some? ==> |r.value| >= |tid| + 11 && r.value[|tid| + 5..|tid| + 11] == DeviceIdHeader
    ensures Answers(r, tid, uid, 0x2B)
  {
    match DeviceObjects(DeviceIdFields(device))
    case None => None
    case Some(objects) => BuildResponse(tid, uid, DeviceIdHeader + objects)
  }

  /** The 0x2B reply is the six-byte header followed by the vendor, model and
      firmware objects with ids 0x00, 0x01, 0x02 in that order, each as id,
      length, bytes; there is no reply when one of them exceeds 255 bytes. */
  lemma DeviceIdLayout(tid: seq<byte>, uid: byte, device: DeviceInfo)
    requires |tid| == 2
    ensures var v, m, f := GetOr(device.vendor, Ascii("Unknown")), GetOr(device.model, Ascii("Unknown")),
                           GetOr(device.firmware, Ascii("0.0.0"));
      var r := DeviceIdReply(tid, uid, device);
      && (r.Some? <==> |v| <= 0xFF && |m| <= 0xFF && |f| <= 0xFF)
      && (r.Some? ==>
        && r.value[..2] == tid && r.value[6] == uid
        && FromBE(r.value[4..6]) == 13 + |v| + |m| + |f|
        && r.value[7..] == DeviceIdHeader + [0x00, |v|] + v + [0x01, |m|] + m + [0x02, |f|] + f)
  {
    var fields := DeviceIdFields(device);
    var v, m, f := fields[0].1, fields[1].1, fields[2].1;
    var none: seq<(byte, seq<byte>)> := [];
    assert fields == none + [fields[0]] + [fields[1]] + [fields[2]];
    DeviceObjectsAppend(none, fields[0]);
    DeviceObjectsAppend(none + [fields[0]], fields[1]);
    DeviceObjectsAppend(none + [fields[0]] + [fields[1]], fields[2]);
    var o3 := DeviceObjects(fields);
    if o3.Some? {
      var payload := DeviceIdHeader + o3.value;
      assert |payload| == 12 + |v| + |m| + |f|;
      assert DeviceIdHeader + o3.value == DeviceIdHeader + [0x00, |v|] + v + [0x01, |m|] + m + [0x02, |f|] + f;
    }
  }

  /** `f"{vendor} {model}"`: a missing field prints as "None". */
  function SlaveIdString(device: DeviceInfo): seq<byte>
  {
    GetOr(device.vendor, Ascii("None")) + Ascii(" ") + GetOr(device.model, Ascii("None"))
  }

  /** Reply of `handle_report_slave_id` (fc 0x11): byte count, slave id 1,
      run status 0xFF, then the identity string; `bytes([2 + len(id_str)])`
      raises for a string over 253 bytes. */
  function SlaveIdReply(tid: seq<byte>, uid: byte, device: DeviceInfo): (r: Option<seq<byte>>)
    ensures var id := SlaveIdString(device);
      && (r.Some? <==> |id| <= 0xFD)
      && (r.Some? ==>
        && |r.value| == |tid| + 9 + |id|
        && FromBE(r.value[|tid| + 2..|tid| + 4]) == 5 + |id|
        && r.value[|tid| + 5..|tid| + 9] == [0x11, 2 + |id|, 0x01, 0xFF]
        && r.value[|tid| + 9..] == id)
    ensures Answers(r, tid, uid, 0x11)
  {
    var id := SlaveIdString(device);
    if 2 + |id| > 0xFF then None
    else BuildResponse(tid, uid, [0x11, 2 + |id|, 0x01, 0xFF] + id)
  }

  // ------------------------------------------------------------- dispatch

  /** The reply the dispatcher sends for a decoded request. */
  function Respond(req: Request, regs: map<nat, int>, coils: map<nat, bool>, device: DeviceInfo): (r: Option<seq<byte>>)
    ensures Answers(r, req.tid, req.uid, req.Code())
  {
    match req
    case ReadCoils(tid, uid, start, qty) => ReadCoilsReply(tid, uid, coils, start, qty)
    case ReadHolding(tid, uid, start, qty) => ReadRegistersReply(0x03, tid, uid, regs, start, qty)
    case ReadInput(tid, uid, start, qty) => ReadRegistersReply(0x04, tid, uid, regs, start, qty)
    case WriteSingle(tid, uid, start, value) => WriteSingleReply(tid, uid, start, value)
    case WriteMultiple(tid, uid, start, qty, _) => WriteMultipleReply(tid, uid, start, qty)
    case ReadDeviceId(tid, uid) => DeviceIdReply(tid, uid, device)
    case ReportSlaveId(tid, uid) => SlaveIdReply(tid, uid, device)
  }

  /** The holding registers after the dispatcher has handled a request. */
  function RegsAfter(req: Request, regs: map<nat, int>): (r: map<nat, int>)
    ensures !req.WriteSingle? && !req.WriteMultiple? ==> r == regs
    ensures forall a :: a in LockedRegisters ==> (a in r <==> a in regs) && (a in regs ==> r[a] == regs[a])
  {
    match req
    case WriteSingle(_, _, start, value) => if start in LockedRegisters then regs else regs[start := value]
    case WriteMultiple(_, _, start, qty, block) => WriteMultipleRegs(regs, start, qty, block)
    case _ => regs
  }

  /** A single write changes exactly its own address, unless that address is
      locked, in which case nothing changes and the reply is exception 0x86 /
      0x02. */
  lemma WriteSingleEffect(tid: seq<byte>, uid: byte, start: u16, value: u16, regs: map<nat, int>)
    ensures var after := RegsAfter(WriteSingle(tid, uid, start, value), regs);
      && (start in LockedRegisters ==> after == regs)
      && (start !in LockedRegisters ==>
        && RegisterValue(after, start) == value
        && forall a :: a != start ==> RegisterValue(after, a) == RegisterValue(regs, a))
  {
  }

  /** Frames the dispatcher drops: fewer than 8 bytes, a function code it does
      not handle, a 0x2B frame without 0x0E in byte 8. None of them changes
      the store. */
  lemma DroppedFrames(data: seq<byte>)
    requires |data| < 8 || data[7] !in Supported || (data[7] == 0x2B && (|data| == 8 || data[8] != ReadDeviceIdMei))
    ensures ParseRequest(data).None?
  {
  }

  // ---------------------------------------------------------- ramp update

  /** One step of a ramp register: add the step and fall back to the start
      value when the result is strictly above the maximum (a result equal to
      the maximum is kept). */
  function RampNext(current: int, rule: RampRule): (r: int)
    ensures current + rule.step <= rule.max ==> r == current + rule.step
    ensures current + rule.step > rule.max ==> r == rule.startValue
    ensures rule.startValue <= rule.max ==> r <= rule.max
  {
    var next := current + rule.step;
    if next > rule.max then rule.startValue else next
  }

  /** The value a ramp register takes in a tick: the step applied to its
      current value, or to its start value when it has none. */
  function RampValue(regs: map<nat, int>, rules: map<nat, RampRule>, a: nat): int
    requires a in rules
  {
    RampNext(if a in regs then regs[a] else rules[a].startValue, rules[a])
  }

  /** One tick of `dynamic_update_loop`: every ramp register advances from its
      current value, or from its start value when unset; every other register
      keeps its value. */
  function TickRegs(regs: map<nat, int>, rules: map<nat, RampRule>): (r: map<nat, int>)
    ensures r.Keys == regs.Keys + rules.Keys
    ensures forall a :: a in rules ==>
      r[a] == RampNext(if a in regs then regs[a] else rules[a].startValue, rules[a])
    ensures forall a :: a in regs && a !in rules ==> r[a] == regs[a]
  {
    regs + map a | a in rules :: RampValue(regs, rules, a)
  }

  /** After any tick every ramp register whose rule has start <= max is at
      most its maximum, whatever it held before. */
  lemma TickBounded(regs: map<nat, int>, rules: map<nat, RampRule>)
    ensures forall a :: a in rules && rules[a].startValue <= rules[a].max ==>
      TickRegs(regs, rules)[a] <= rules[a].max
  {
  }

  /** Rules are not validated. With start_value above max, a step of 0 or
      more keeps start_value on every tick: it is reset to itself. */
  lemma UnvalidatedRamp(rule: RampRule)
    requires rule.startValue > rule.max && rule.step >= 0
    ensures RampNext(rule.startValue, rule) == rule.startValue
  {
  }

  /** With start_value above max, a low value still steps up until it passes
      max, and a negative step counts down: {30, 5, 20} steps 5 up to 10, and
      {30, -15, 20} counts 30 down to 15. */
  lemma UnvalidatedRampExample()
    ensures RampNext(5, RampRule(30, 5, 20)) == 10
    ensures RampNext(30, RampRule(30, -15, 20)) == 15
  {
  }

  /** The ramp {start 10, step 5, max 20}: 18 goes to 10 (23 is
      above 20), and 15 goes to 20, which is kept. */
  lemma RampExample()
    ensures RampNext(18, RampRule(10, 5, 20)) == 10
    ensures RampNext(15, RampRule(10, 5, 20)) == 20
    ensures RampNext(20, RampRule(10, 5, 20)) == 10
  {
  }
}
