/** The Modbus/TCP frame codec of the honeypot: the MBAP header written in
    front of every reply (section 3.1.3 of the Modbus Messaging on TCP/IP
    Implementation Guide V1.0b), exception replies (section 7 of the Modbus
    Application Protocol Specification V1.1b3), and the big-endian register
    list carried by read replies. Nothing here knows about the register store. */
module ModbusFrame {
  import opened Bytes

  /** The one exception code the honeypot emits: illegal data address. */
  const IllegalDataAddress: byte := 0x02

  /** `build_response`: transaction id (copied as given), a zero protocol id,
      the length of everything after it (payload plus the unit id byte), the
      unit id, then the payload. `length.to_bytes(2, 'big')` raises when the
      payload is 65535 bytes or more, so then there is no frame. */
  function BuildResponse(tid: seq<byte>, uid: byte, payload: seq<byte>): (r: Option<seq<byte>>)
    ensures r.Some? <==> |payload| + 1 < 0x1_0000
    ensures r.Some? ==>
      && |r.value| == |tid| + 5 + |payload|
      && r.value[..|tid|] == tid
      && r.value[|tid|..|tid| + 2] == [0, 0]
      && FromBE(r.value[|tid| + 2..|tid| + 4]) == |payload| + 1
      && r.value[|tid| + 4] == uid
      && r.value[|tid| + 5..] == payload
  {
    match ToBytes2(|payload| + 1)
    case None => None
    case Some(length) =>
      var frame := tid + [0, 0] + length + [uid] + payload;
      assert frame[|tid| + 2..|tid| + 4] == length;
      Some(frame)
  }

  /** Python's `fc | 0x80` on a byte: the high bit is set, the low seven
      bits are kept. */
  function ExceptionFunction(fc: byte): (e: byte)
    ensures e >= 0x80 && e % 0x80 == fc % 0x80
  {
    if fc < 0x80 then fc + 0x80 else fc
  }

  /** `r`, when there is a reply, answers a request with transaction id
      `tid`, unit id `uid` and function code `fc`: it echoes the transaction
      and unit ids, has a zero protocol id, and carries either `fc` or its
      exception form. */
  predicate Answers(r: Option<seq<byte>>, tid: seq<byte>, uid: byte, fc: byte)
  {
    r.Some? ==>
      && |r.value| >= |tid| + 6
      && r.value[..|tid|] == tid && r.value[|tid|..|tid| + 2] == [0, 0]
      && r.value[|tid| + 4] == uid
      && (r.value[|tid| + 5] == fc || r.value[|tid| + 5] == ExceptionFunction(fc))
  }

  /** `build_exception`: a reply whose payload is the function code with its
      high bit set followed by the exception code. */
  function BuildException(tid: seq<byte>, uid: byte, fc: byte, code: byte): (r: Option<seq<byte>>)
    ensures r.Some?
    ensures |r.value| == |tid| + 7
    ensures r.value[..|tid|] == tid && r.value[|tid|..|tid| + 2] == [0, 0] && r.value[|tid| + 4] == uid
    ensures FromBE(r.value[|tid| + 2..|tid| + 4]) == 3
    ensures r.value[|tid| + 5..] == [ExceptionFunction(fc), code]
    ensures Answers(r, tid, uid, fc)
  {
    BuildResponse(tid, uid, [ExceptionFunction(fc), code])
  }

  /** `b''.join(v.to_bytes(2, 'big') for v in vs)`; Python raises as soon as a
      value does not fit in 16 bits. */
  function EncodeWords(vs: seq<int>): Option<seq<byte>>
  {
    if vs == [] then Some([])
    else match (ToBytes2(vs[0]), EncodeWords(vs[1..]))
      case (Some(head), Some(tail)) => Some(head + tail)
      case _ => None
  }

  predicate AllWords(vs: seq<int>)
  {
    forall k :: 0 <= k < |vs| ==> 0 <= vs[k] < 0x1_0000
  }

  /** The register list is two bytes per value, each pair decoding back to its
      value; it exists exactly when every value fits in 16 bits. */
  lemma {:induction false} EncodeWordsLayout(vs: seq<int>)
    ensures EncodeWords(vs).Some? <==> AllWords(vs)
    ensures EncodeWords(vs).Some? ==>
      && |EncodeWords(vs).value| == 2 * |vs|
      && forall k :: 0 <= k < |vs| ==> FromBE(EncodeWords(vs).value[2 * k..2 * k + 2]) == vs[k]
  {
    if vs != [] {
      EncodeWordsLayout(vs[1..]);
      assert AllWords(vs) <==> 0 <= vs[0] < 0x1_0000 && AllWords(vs[1..]) by {
        if 0 <= vs[0] < 0x1_0000 && AllWords(vs[1..]) {
          forall k | 0 <= k < |vs| ensures 0 <= vs[k] < 0x1_0000 {
            if k > 0 { assert vs[k] == vs[1..][k - 1]; }
          }
        }
      }
      if EncodeWords(vs).Some? {
        var head, tail := ToBytes2(vs[0]).value, EncodeWords(vs[1..]).value;
        var r := EncodeWords(vs).value;
        assert r == head + tail;
        forall k | 0 <= k < |vs| ensures FromBE(r[2 * k..2 * k + 2]) == vs[k] {
          if k == 0 {
            assert r[0..2] == head;
          } else {
            assert r[2 * k..2 * k + 2] == tail[2 * (k - 1)..2 * (k - 1) + 2];
          }
        }
      }
    }
  }
}
