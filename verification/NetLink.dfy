/** The kernel side of the netlink session, one call at a time: the stored pid behind a reader/writer
    lock, the operator flag, and the frames handed to unicast. */
module NetLink {
  import opened CText
  import opened CLib
  import opened Frames
  import opened Requests

  const CONNECTED: string := "you have connected to the kernel!"
  const DISCONNECTED: string := "you have disconnected to the kernel!"

  class NetLink {
    var created: bool
    var pid: nat
    var readers: nat
    var writer: bool
    var operatorflag: nat
    /** Every unicast so far: the target and the frame. */
    var sent: seq<(nat, seq<char>)>
    /** Buffers that were filled and never handed on. */
    ghost var lost: nat

    /** createNetlink: the socket may not come into being; the pid starts at zero. */
    constructor (created: bool)
      ensures Free() && Now() == INITIAL && this.created == created && sent == [] && lost == 0
    {
      this.created := created;
      readers, operatorflag, sent, lost := 0, 0, [], 0;
      writer := false;
      pid := 0;
    }

    predicate Free()
      reads this
    {
      readers == 0 && !writer
    }

    function Now(): Kernel
      reads this
    {
      Kernel(pid, operatorflag)
    }

    /** The pid is read and written only by a holder of the lock. */
    method GetPid() returns (p: nat)
      requires readers > 0 && !writer
      ensures p == pid
    {
      p := pid;
    }

    method SetPid(p: nat)
      requires writer && readers == 0
      modifies `pid
      ensures pid == p
    {
      pid := p;
    }

    method ReadLock()
      requires !writer
      modifies `readers
      ensures readers == old(readers) + 1
    {
      readers := readers + 1;
    }

    method ReadUnlock()
      requires readers > 0
      modifies `readers
      ensures readers == old(readers) - 1
    {
      readers := readers - 1;
    }

    method WriteLock()
      requires Free()
      modifies `writer
      ensures writer
    {
      writer := true;
    }

    method WriteUnlock()
      requires writer
      modifies `writer
      ensures !writer
    {
      writer := false;
    }

    /** nlmsg_put, strcpy and the size field written again without the rounding. */
    method BuildFrame(message: array<char>) returns (skb: array<char>)
      requires Terminated(message[..])
      ensures fresh(skb) && IsReply(skb[..], CStr(message[..]))
    {
      hide PackHeader, Bytes;
      assert message[0..] == message[..];
      var n := Strlen(message, 0);
      var text := message[..n];
      var total := Align(n + 1 + HEADER_SIZE);
      skb := new char[total];
      PutBytes(skb, PackHeader(Header(total, REPLY, 0, 0, 0)));
      PutZ(skb, HEADER_SIZE, text);
      assert skb[HEADER_SIZE..ReplyLen(text)] == text + [NUL];
      PutBytes(skb, PackHeader(ReplyHeader(text)));
    }

    method PutBytes(skb: array<char>, s: seq<char>)
      requires |s| <= skb.Length
      modifies skb
      ensures skb[..|s|] == s && skb[|s|..] == old(skb[|s|..])
    {
      for i := 0 to |s|
        invariant skb[..i] == s[..i] && skb[i..] == old(skb[i..])
      {
        skb[i] := s[i];
      }
      assert s[..|s|] == s;
    }

    /** Other threads run while the lock is free; they leave some pid behind. */
    method OthersRun(later: nat)
      requires Free()
      modifies `pid
      ensures pid == later
    {
      pid := later;
    }

    /** sendMsgNetlink. room says whether alloc_skb succeeds, unicast is what netlink_unicast
        returns, and later is the pid that other threads leave between the two checks. */
    method SendMsg(message: array?<char>, room: bool, unicast: int, later: nat) returns (ret: int)
      requires Free() && (message != null ==> Terminated(message[..]))
      modifies `readers, `sent, `lost, `pid
      ensures Free()
      ensures message == null || !created || old(pid) == 0 ==>
                ret == -1 && sent == old(sent) && lost == old(lost) && pid == old(pid)
      ensures message != null && created && old(pid) != 0 ==> pid == later
      ensures message != null && created && old(pid) != 0 && !room ==>
                ret == -1 && sent == old(sent) && lost == old(lost)
      ensures message != null && created && old(pid) != 0 && room && later == 0 ==>
                ret == -1 && sent == old(sent) && lost == old(lost) + 1
      ensures message != null && created && old(pid) != 0 && room && later != 0 ==>
                ret == unicast && lost == old(lost) && SentOne(old(sent), later, CStr(message[..]))
    {
      if message == null || !created {
        return -1;
      }
      ReadLock();
      var target := GetPid();
      if target == 0 {
        ReadUnlock();
        return -1;
      }
      ReadUnlock();
      OthersRun(later);
      if !room {
        return -1;
      }
      var skb := BuildFrame(message);
      ReadLock();
      target := GetPid();
      if target == 0 {
        ReadUnlock();
        lost := lost + 1;
        return -1;
      }
      target := GetPid();
      sent := sent + [(target, skb[..])];
      ret := unicast;
      ReadUnlock();
    }

    /** sendMsgNetlink with a string literal. */
    method SendLiteral(text: string, room: bool, unicast: int, later: nat)
      requires Free() && NUL !in text
      modifies `readers, `sent, `lost, `pid
      ensures Free() && pid == if created && old(pid) != 0 then later else old(pid)
      ensures lost == old(lost) + if created && old(pid) != 0 && room && later == 0 then 1 else 0
      ensures if created && old(pid) != 0 && room && later != 0 then SentOne(old(sent), later, text) else sent == old(sent)
    {
      var message := new char[|text| + 1](_ => NUL);
      Strcpy(message, text);
      var ret := SendMsg(message, room, unicast, later);
    }

    /** One frame was sent to the target. */
    ghost predicate SentOne(before: seq<(nat, seq<char>)>, target: nat, text: string)
      reads `sent
    {
      |sent| == |before| + 1 && sent[..|before|] == before && sent[|before|].0 == target && IsReply(sent[|before|].1, text)
    }

    /** An answer that was built is sent to the pid found at the second check, or lost when there is none. */
    ghost predicate Answered(built: bool, later: nat, text: string, before: seq<(nat, seq<char>)>, lostBefore: nat)
      reads `sent, `lost
    {
      if !built then sent == before && lost == lostBefore
      else if later == 0 then sent == before && lost == lostBefore + 1
      else SentOne(before, later, text) && lost == lostBefore
    }

    /** recvMsgNetlink, with the pid that other threads leave between the two checks of its answer. The
        answer of a connect starts from the new pid, that of a disconnect from the old one; the flag
        and, unless others change it behind a connect, the pid become the specified ones. */
    method RecvMsg(skb: array<char>, room: bool, unicast: int, later: nat)
      requires Free() && CommandTerminated(skb[..])
      modifies this
      ensures Free() && created == old(created)
      ensures match Decode(skb[..])
              case Connect(p) => Now() == (if created && p != 0 then old(Now()).(pid := later) else Receive(old(Now()), Connect(p)))
              case r => Now() == Receive(old(Now()), r)
      ensures match Decode(skb[..])
              case Connect(p) => Answered(created && p != 0 && room, later, "you have connected to the kernel!", old(sent), old(lost))
              case Disconnect => Answered(created && old(pid) != 0 && room, later, "you have disconnected to the kernel!", old(sent), old(lost))
              case _ => sent == old(sent) && lost == old(lost)
    {
      hide ReadHeader, Len, Terminated, IsReply, SentOne;
      if skb.Length < HEADER_SIZE {
        return;
      }
      var nlh := ReadHeader(skb[..]);
      if !(HEADER_SIZE <= nlh.len <= skb.Length) {
        return;
      }
      if nlh.kind == CONNECT {
        WriteLock();
        SetPid(nlh.pid);
        WriteUnlock();
        SendLiteral(CONNECTED, room, unicast, later);
      } else if nlh.kind == DISCONNECT {
        SendLiteral(DISCONNECTED, room, unicast, later);
        WriteLock();
        SetPid(0);
        WriteUnlock();
      } else if nlh.kind == COMMAND {
        var isDrop := StrEq(skb, HEADER_SIZE, "drop");
        operatorflag := if isDrop then DROP_FLAG else PASS_FLAG;
      }
    }
  }
}
