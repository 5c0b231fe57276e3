/** The validators of protocol.cpp, and what they accept. */
module Validator {
  import opened Wire

  // ---------- one message header ----------

  /** The header of a message that starts at p, as the grammar of each packet kind allows it. */
  predicate HeaderOk(s: seq<byte>, p: nat, isRequest: bool)
    requires p + MAX_REJECT_MESSAGE <= |s|
  {
    var length, kind, count := Ntohs(s, p), s[p + 2], s[p + 3] as nat;
    && length < MAX_PACKET
    && if isRequest then
         kind >= REQUEST_MSG_MIN && (kind <= IP6PEERS ==> length == 4)
       else
         && REJECT <= kind <= IP6PEERS
         && length == 4 + ContentSize(kind, count)
         && (kind == REJECT ==> count > 0 && EntriesOk(s, p + 4, count))
  }

  /** Subtraction of `size_t` operands wraps. */
  function SizeMinus(a: nat, b: nat): (r: nat) {
    (a - b) % 0x1_0000_0000_0000_0000
  }

  lemma SizeMinusHeader(length: nat, size: nat)
    requires length < 65536 && size < 65536
    ensures SizeMinus(length, 4) == size <==> length == 4 + size
  {
  }

  lemma SmallProduct(count: byte, msgSize: nat)
    requires msgSize <= 18
    ensures 0 <= count as nat * msgSize == msgSize * count < 65536
  {
  }

  method ValidateMessageSize(a: array<byte>, p: nat, msgSize: nat) returns (ok: bool)
    requires p + 4 <= a.Length
    requires msgSize <= 18
    ensures ok <==> Ntohs(a[..], p) == 4 + msgSize * a[p + 3]
  {
    var length := Ntohs(a[..], p);
    var size := a[p + 3] as nat * msgSize;
    SmallProduct(a[p + 3], msgSize);
    SizeMinusHeader(length, size);
    if SizeMinus(length, 4) != size {
      return false;
    }
    return true;
  }

  method ValidateRejectMessage(a: array<byte>, p: nat) returns (ok: bool)
    requires p + MAX_REJECT_MESSAGE <= a.Length
    ensures ok <==>
      && Ntohs(a[..], p) <= MAX_REJECT_MESSAGE
      && Ntohs(a[..], p) % 2 == 0
      && a[p + 2] == REJECT
      && a[p + 3] > 0
      && EntriesOk(a[..], p + 4, a[p + 3])
  {
    var length := Ntohs(a[..], p);
    if length > MAX_REJECT_MESSAGE {
      return false;
    }
    if a[p + 2] != REJECT {
      return false;
    }
    var count := a[p + 3] as nat;
    if count == 0 {
      return false;
    }
    if SizeMinus(length, 4) % 2 != 0 {
      return false;
    }
    var idx, msg := 0, p + 4;
    while idx < count
      invariant 0 <= idx <= count
      invariant msg == p + 4 + 2 * idx
      invariant EntriesOk(a[..], p + 4, idx)
    {
      if a[msg] >= MSG_TYPE_MAX || a[msg] < REQUEST_MSG_MIN || a[msg] == ENTROPY {
        assert !EntryOk(a[..], p + 4, idx);
        return false;
      }
      if a[msg + 1] >= REASON_MAX {
        assert !EntryOk(a[..], p + 4, idx);
        return false;
      }
      idx, msg := idx + 1, msg + 2;
    }
    return true;
  }

  method ValidateMessageHeader(a: array<byte>, p: nat, isRequest: bool) returns (ok: bool)
    requires p + MAX_REJECT_MESSAGE <= a.Length
    ensures ok <==> HeaderOk(a[..], p, isRequest)
  {
    if Ntohs(a[..], p) >= MAX_PACKET {
      return false;
    }
    var kind := a[p + 2];
    if kind < (if isRequest then REQUEST_MSG_MIN else REJECT) {
      return false;
    }
    if kind >= MSG_TYPE_MAX {
      if !isRequest {
        return false;
      }
    }
    if kind == REJECT {
      if isRequest {
        return false;
      }
      var sized := ValidateMessageSize(a, p, 2);
      if !sized {
        return false;
      }
      ok := ValidateRejectMessage(a, p);
      return;
    } else if kind == IP4PEERS {
      ok := ValidateMessageSize(a, p, if isRequest then 0 else 6);
      return;
    } else if kind == ENTROPY {
      ok := ValidateMessageSize(a, p, if isRequest then 0 else 1);
      return;
    } else if kind == IP6PEERS {
      ok := ValidateMessageSize(a, p, if isRequest then 0 else 18);
      return;
    } else if !isRequest {
      return false;
    }
    return true;
  }

  // ---------- the whole packet ----------

  /** Endless: the loop over messages never exits, because a message of length zero does not move its cursor. */
  datatype Verdict = Accepted | Refused | Endless

  /** How the loop over messages ends: how many it passed, and the first offset that is not inside the packet. */
  datatype Walk = Walked(count: nat, stop: nat) | BadHeader | Loops

  predicate Readable(s: seq<byte>) {
    |s| >= BUFFER
  }

  function WalkFrom(s: seq<byte>, p: nat, end: nat, isRequest: bool): (w: Walk)
    requires Readable(s) && end <= MAX_PACKET
    ensures w.Walked? ==> w.stop >= end
    decreases end - p
  {
    if p >= end then Walked(0, p)
    else if !HeaderOk(s, p, isRequest) then BadHeader
    else if Ntohs(s, p) == 0 then Loops
    else match WalkFrom(s, p + Ntohs(s, p), end, isRequest)
         case Walked(count, stop) => Walked(count + 1, stop)
         case bad => bad
  }

  predicate PacketHeaderOk(s: seq<byte>, isRequest: bool)
    requires Readable(s)
  {
    Ntohs(s, 0) <= MAX_PACKET && s[2] == KindOf(isRequest) && s[3] != 0
  }

  function Validate(s: seq<byte>, isRequest: bool): (v: Verdict)
    requires Readable(s)
  {
    if !PacketHeaderOk(s, isRequest) then Refused
    else
      match WalkFrom(s, 4, Ntohs(s, 0), isRequest)
      case BadHeader => Refused
      case Loops => Endless
      case Walked(count, stop) => if count == s[3] as nat && stop == Ntohs(s, 0) then Accepted else Refused
  }

  method ValidatePacket(a: array<byte>, isRequest: bool) returns (v: Verdict)
    requires a.Length >= BUFFER
    ensures v == Validate(a[..], isRequest)
  {
    ghost var s := a[..];
    var end := Ntohs(a[..], 0);
    if end > MAX_PACKET {
      return Refused;
    }
    if a[2] != KindOf(isRequest) {
      return Refused;
    }
    if a[3] == 0 {
      return Refused;
    }
    var msgPtr, msgCount := 4, 0;
    while msgPtr < end
      invariant WalkFrom(s, 4, end, isRequest) ==
                match WalkFrom(s, msgPtr, end, isRequest)
                case Walked(count, stop) => Walked(msgCount + count, stop)
                case bad => bad
      decreases end - msgPtr
    {
      var ok := ValidateMessageHeader(a, msgPtr, isRequest);
      if !ok {
        return Refused;
      }
      var length := Ntohs(a[..], msgPtr);
      if length == 0 {
        return Endless;
      }
      msgPtr := msgPtr + length;
      msgCount := msgCount + 1;
    }
    if a[3] as int != msgCount {
      return Refused;
    }
    if msgPtr > end {
      return Refused;
    }
    return Accepted;
  }
}
