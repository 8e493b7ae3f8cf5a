/** The honeypot's mutable state and its handlers (honeypots/Siemens/honeypot.py):
    the holding registers and coils, the per-IP session history and the audit
    log, changed in place by the write handlers and the ramp updater. Each
    method is one atomic step taken under the module's lock. */
module Honeypot {
  import opened Bytes
  import opened ModbusRequest
  import opened Handlers

  /** The connection's peer address `addr`: IP and port. */
  datatype Peer = Peer(ip: string, port: nat)

  /** What `update_session` records for a successful write. */
  datatype Action =
    | SingleWriteAction(start: u16, value: u16)
    | MultiWriteAction(start: u16, qty: u16)

  datatype SessionEntry = SessionEntry(time: nat, action: Action)

  /** The note of a `log_event` line. */
  datatype Note =
    | LockedSingleWrite(value: u16)
    | SingleWrite(value: u16)
    | LockedMultiWrite(values: seq<u16>)
    | MultiWrite(qty: u16)
    | DeviceIdentification
    | SlaveIdReport

  /** One line of the audit log: time, peer, function code, start address, note. */
  datatype AuditEvent = AuditEvent(time: nat, peer: Peer, fc: byte, start: nat, note: Note)

  /** The session history after one more entry for `ip`; earlier entries of
      that IP and the histories of other IPs are kept. */
  function AppendSession(sessions: map<string, seq<SessionEntry>>, ip: string, e: SessionEntry): (r: map<string, seq<SessionEntry>>)
    ensures r.Keys == sessions.Keys + {ip}
    ensures ip in sessions ==> r[ip] == sessions[ip] + [e]
    ensures ip !in sessions ==> r[ip] == [e]
    ensures forall other :: other in sessions && other != ip ==> r[other] == sessions[other]
  {
    sessions[ip := (if ip in sessions then sessions[ip] else []) + [e]]
  }

  /** The session history after the dispatcher handled `req`: only a write
      that was not refused is recorded. */
  function SessionsAfter(req: Request, sessions: map<string, seq<SessionEntry>>, peer: Peer, now: nat): (r: map<string, seq<SessionEntry>>)
    ensures !req.WriteSingle? && !req.WriteMultiple? ==> r == sessions
    ensures sessions.Keys <= r.Keys <= sessions.Keys + {peer.ip}
    ensures forall ip :: ip in sessions ==> sessions[ip] <= r[ip]
    ensures forall ip :: ip in sessions && ip != peer.ip ==> r[ip] == sessions[ip]
  {
    match req
    case WriteSingle(_, _, start, value) =>
      if start in LockedRegisters then sessions
      else AppendSession(sessions, peer.ip, SessionEntry(now, SingleWriteAction(start, value)))
    case WriteMultiple(_, _, start, qty, _) =>
      if AnyLocked(start, qty) then sessions
      else AppendSession(sessions, peer.ip, SessionEntry(now, MultiWriteAction(start, qty)))
    case _ => sessions
  }

  /** The audit lines written while handling `req`: one per write attempt
      (refused or not) and per identification request; none for reads. */
  function AuditFor(req: Request, peer: Peer, now: nat): (r: seq<AuditEvent>)
    ensures |r| == if req.ReadCoils? || req.ReadHolding? || req.ReadInput? then 0 else 1
    ensures forall e :: e in r ==> e.time == now && e.peer == peer && e.fc == req.Code()
    ensures forall e :: e in r && (req.WriteSingle? || req.WriteMultiple?) ==> e.start == req.start
  {
    match req
    case WriteSingle(_, _, start, value) =>
      [AuditEvent(now, peer, 6, start, if start in LockedRegisters then LockedSingleWrite(value) else SingleWrite(value))]
    case WriteMultiple(_, _, start, qty, block) =>
      [AuditEvent(now, peer, 16, start, if AnyLocked(start, qty) then LockedMultiWrite(BlockWords(block, qty)) else MultiWrite(qty))]
    case ReadDeviceId(_, _) => [AuditEvent(now, peer, 0x2B, 0, DeviceIdentification)]
    case ReportSlaveId(_, _) => [AuditEvent(now, peer, 0x11, 0, SlaveIdReport)]
    case _ => []
  }

  class Plc {
    const device: DeviceInfo
    const dynamic: map<nat, RampRule>
    var holding: map<nat, int>
    var coils: map<nat, bool>
    var sessions: map<string, seq<SessionEntry>>
    var audit: seq<AuditEvent>

    /** The store as loaded from the configuration; nothing logged yet. */
    constructor (device: DeviceInfo, holding: map<nat, int>, coils: map<nat, bool>, dynamic: map<nat, RampRule>)
      ensures this.device == device && this.dynamic == dynamic
      ensures this.holding == holding && this.coils == coils
      ensures sessions == map[] && audit == []
    {
      this.device := device;
      this.dynamic := dynamic;
      this.holding := holding;
      this.coils := coils;
      sessions := map[];
      audit := [];
    }

    /** One tick of `dynamic_update_loop`, all rules under one lock. */
    method Tick()
      modifies this`holding
      ensures holding == TickRegs(old(holding), dynamic)
    {
      var pending := dynamic.Keys;
      while pending != {}
        invariant pending <= dynamic.Keys
        invariant holding.Keys == old(holding).Keys + (dynamic.Keys - pending)
        invariant forall a :: a in dynamic.Keys - pending ==> holding[a] == RampValue(old(holding), dynamic, a)
        invariant forall a :: a in old(holding) && a !in dynamic.Keys - pending ==> holding[a] == old(holding)[a]
        decreases pending
      {
        var reg :| reg in pending;
        var rule := dynamic[reg];
        var current := if reg in holding then holding[reg] else rule.startValue;
        var next := current + rule.step;
        if next > rule.max {
          next := rule.startValue;
        }
        holding := holding[reg := next];
        pending := pending - {reg};
      }
      ghost var ticked := TickRegs(old(holding), dynamic);
      assert holding.Keys == ticked.Keys;
      assert forall a :: a in holding ==> holding[a] == ticked[a];
    }

    /** `log_event`: one more line at the end of the audit log. */
    method LogEvent(peer: Peer, now: nat, fc: byte, start: nat, note: Note)
      modifies this`audit
      ensures audit == old(audit) + [AuditEvent(now, peer, fc, start, note)]
    {
      audit := audit + [AuditEvent(now, peer, fc, start, note)];
    }

    /** `update_session`: start an empty history for a new IP, then append. */
    method UpdateSession(ip: string, now: nat, action: Action)
      modifies this`sessions
      ensures sessions == AppendSession(old(sessions), ip, SessionEntry(now, action))
    {
      if ip !in sessions {
        sessions := sessions[ip := []];
      }
      sessions := sessions[ip := sessions[ip] + [SessionEntry(now, action)]];
    }

    /** `handle_read_holding` (fc 0x03). */
    method HandleReadHolding(tid: seq<byte>, uid: byte, start: u16, qty: u16) returns (reply: Option<seq<byte>>)
      ensures reply == ReadRegistersReply(0x03, tid, uid, holding, start, qty)
    {
      reply := ReadRegistersReply(0x03, tid, uid, holding, start, qty);
    }

    /** `handle_read_input_registers` (fc 0x04): the same holding registers. */
    method HandleReadInputRegisters(tid: seq<byte>, uid: byte, start: u16, qty: u16) returns (reply: Option<seq<byte>>)
      ensures reply == ReadRegistersReply(0x04, tid, uid, holding, start, qty)
    {
      reply := ReadRegistersReply(0x04, tid, uid, holding, start, qty);
    }

    /** `handle_read_coils` (fc 0x01). */
    method HandleReadCoils(tid: seq<byte>, uid: byte, start: u16, qty: u16) returns (reply: Option<seq<byte>>)
      ensures reply == ReadCoilsReply(tid, uid, coils, start, qty)
    {
      reply := ReadCoilsReply(tid, uid, coils, start, qty);
    }

    /** `handle_write_single` (fc 0x06): a locked address is refused with an
      exception and only logged; otherwise the address is set, the session
      history and the log grow, and the request is echoed. */
    method HandleWriteSingle(tid: seq<byte>, uid: byte, start: u16, value: u16, peer: Peer, now: nat)
      returns (reply: Option<seq<byte>>)
      modifies this`holding, this`sessions, this`audit
      ensures reply == WriteSingleReply(tid, uid, start, value)
      ensures start in LockedRegisters ==>
        && holding == old(holding) && sessions == old(sessions)
        && audit == old(audit) + [AuditEvent(now, peer, 6, start, LockedSingleWrite(value))]
      ensures start !in LockedRegisters ==>
        && holding == old(holding)[start := value]
        && sessions == AppendSession(old(sessions), peer.ip, SessionEntry(now, SingleWriteAction(start, value)))
        && audit == old(audit) + [AuditEvent(now, peer, 6, start, SingleWrite(value))]
    {
      if start in LockedRegisters {
        LogEvent(peer, now, 6, start, LockedSingleWrite(value));
        reply := WriteSingleReply(tid, uid, start, value);
        return;
      }
      holding := holding[start := value];
      UpdateSession(peer.ip, now, SingleWriteAction(start, value));
      LogEvent(peer, now, 6, start, SingleWrite(value));
      reply := WriteSingleReply(tid, uid, start, value);
    }

    /** `handle_write_multiple` (fc 0x10): all or nothing. When any address of
      the range is locked nothing is written and the blocked values are
      logged; otherwise the loop stores word i of the block at start + i. */
    method HandleWriteMultiple(tid: seq<byte>, uid: byte, start: u16, qty: u16, block: seq<byte>, peer: Peer, now: nat)
      returns (reply: Option<seq<byte>>)
      modifies this`holding, this`sessions, this`audit
      ensures reply == WriteMultipleReply(tid, uid, start, qty)
      ensures holding == WriteMultipleRegs(old(holding), start, qty, block)
      ensures AnyLocked(start, qty) ==>
        && holding == old(holding)
        && sessions == old(sessions)
        && audit == old(audit) + [AuditEvent(now, peer, 16, start, LockedMultiWrite(BlockWords(block, qty)))]
      ensures !AnyLocked(start, qty) ==>
        && holding == WriteBlock(old(holding), start, qty, block)
        && sessions == AppendSession(old(sessions), peer.ip, SessionEntry(now, MultiWriteAction(start, qty)))
        && audit == old(audit) + [AuditEvent(now, peer, 16, start, MultiWrite(qty))]
    {
      if AnyLocked(start, qty) {
        LogEvent(peer, now, 16, start, LockedMultiWrite(BlockWords(block, qty)));
        reply := WriteMultipleReply(tid, uid, start, qty);
        return;
      }
      StoreBlock(start, qty, block);
      UpdateSession(peer.ip, now, MultiWriteAction(start, qty));
      LogEvent(peer, now, 16, start, MultiWrite(qty));
      reply := WriteMultipleReply(tid, uid, start, qty);
    }

    /** The locked loop of `handle_write_multiple`: word i of the block goes
      to address start + i, one address at a time. */
    method StoreBlock(start: u16, qty: u16, block: seq<byte>)
      modifies this`holding
      ensures holding == WriteBlock(old(holding), start, qty, block)
    {
      ghost var words: seq<int> := BlockWords(block, qty);
      var i := 0;
      while i < qty
        invariant 0 <= i <= qty
        invariant holding == WriteWords(old(holding), start, words[..i])
      {
        var val := BlockWord(block, i);
        WriteWordsStep(old(holding), start, words, i);
        holding := holding[start + i := val];
        i := i + 1;
      }
      assert words[..qty] == words;
    }

    /** `handle_device_id_request` (fc 0x2B / 0x0E): the header, then one
      `(obj_id, len, bytes)` triple per identity field, appended in a loop. */
    method HandleDeviceId(tid: seq<byte>, uid: byte) returns (reply: Option<seq<byte>>)
      ensures reply == DeviceIdReply(tid, uid, device)
    {
      var fields := DeviceIdFields(device);
      var data := DeviceIdHeader;
      var i := 0;
      while i < |fields|
        invariant 0 <= i <= |fields|
        invariant DeviceObjects(fields[..i]).Some?
        invariant data == DeviceIdHeader + DeviceObjects(fields[..i]).value
      {
        var (objId, val) := fields[i];
        assert fields[..i + 1] == fields[..i] + [fields[i]];
        DeviceObjectsAppend(fields[..i], fields[i]);
        if |val| > 0xFF {
          DeviceObjectsPrefixNone(fields, i + 1);
          return None;
        }
        data := data + [objId, |val|] + val;
        i := i + 1;
      }
      assert fields[..i] == fields;
      reply := ModbusFrame.BuildResponse(tid, uid, data);
    }

    /** `handle_report_slave_id` (fc 0x11). */
    method HandleReportSlaveId(tid: seq<byte>, uid: byte) returns (reply: Option<seq<byte>>)
      ensures reply == SlaveIdReply(tid, uid, device)
    {
      reply := SlaveIdReply(tid, uid, device);
    }

    /** One pass of the accept loop's body for a received frame `data`: decode,
      log, handle, and return the bytes sent back (None: the connection is
      closed without a reply). */
    method Dispatch(data: seq<byte>, peer: Peer, now: nat) returns (reply: Option<seq<byte>>)
      modifies this`holding, this`sessions, this`audit
      ensures ParseRequest(data).None? ==>
        reply.None? && holding == old(holding) && sessions == old(sessions) && audit == old(audit)
      ensures ParseRequest(data).Some? ==>
        var req := ParseRequest(data).value;
        && reply == Respond(req, old(holding), coils, device)
        && holding == RegsAfter(req, old(holding))
        && sessions == SessionsAfter(req, old(sessions), peer, now)
        && audit == old(audit) + AuditFor(req, peer, now)
    {
      var parsed := ParseRequest(data);
      if parsed.None? {
        return None;
      }
      match parsed.value
      case ReadHolding(tid, uid, start, qty) =>
        reply := HandleReadHolding(tid, uid, start, qty);
      case ReadInput(tid, uid, start, qty) =>
        reply := HandleReadInputRegisters(tid, uid, start, qty);
      case ReadCoils(tid, uid, start, qty) =>
        reply := HandleReadCoils(tid, uid, start, qty);
      case WriteSingle(tid, uid, start, value) =>
        reply := HandleWriteSingle(tid, uid, start, value, peer, now);
      case WriteMultiple(tid, uid, start, qty, block) =>
        reply := HandleWriteMultiple(tid, uid, start, qty, block, peer, now);
      case ReadDeviceId(tid, uid) =>
        LogEvent(peer, now, 0x2B, 0, DeviceIdentification);
        reply := HandleDeviceId(tid, uid);
      case ReportSlaveId(tid, uid) =>
        LogEvent(peer, now, 0x11, 0, SlaveIdReport);
        reply := HandleReportSlaveId(tid, uid);
    }
  }
}
