/** What the kernel makes of a received frame, and what a whole sequence of frames amounts to. */
module Requests {
  import opened CText
  import opened Frames

  datatype Request = Connect(pid: nat) | Disconnect | Command(text: string) | Ignored

  /** The header is complete and the frame is as long as the header says. */
  predicate Complete(frame: seq<char>) {
    && HEADER_SIZE <= |frame|
    && HEADER_SIZE <= ReadHeader(frame).len <= |frame|
  }

  /** A command's text ends inside the frame. */
  predicate CommandTerminated(frame: seq<char>) {
    Complete(frame) && ReadHeader(frame).kind == COMMAND ==> Terminated(frame[HEADER_SIZE..])
  }

  function Decode(frame: seq<char>): Request {
    if !Complete(frame) then Ignored
    else
      var h := ReadHeader(frame);
      if h.kind == CONNECT then Connect(h.pid)
      else if h.kind == DISCONNECT then Disconnect
      else if h.kind == COMMAND then Command(CStr(frame[HEADER_SIZE..]))
      else Ignored
  }

  datatype Kernel = Kernel(pid: nat, operatorflag: nat)

  const DROP_FLAG: nat := 2
  const PASS_FLAG: nat := 1

  /** One receive step, run to completion. */
  function Receive(k: Kernel, r: Request): Kernel {
    match r
    case Connect(pid) => k.(pid := pid)
    case Disconnect => k.(pid := 0)
    case Command(text) => k.(operatorflag := if text == "drop" then DROP_FLAG else PASS_FLAG)
    case Ignored => k
  }

  function Replay(k: Kernel, rs: seq<Request>): Kernel {
    if rs == [] then k else Receive(Replay(k, rs[..|rs| - 1]), rs[|rs| - 1])
  }

  const INITIAL: Kernel := Kernel(0, 0)

  predicate Session(r: Request) {
    r.Connect? || r.Disconnect?
  }

  /** Request i is the last one of the two session kinds. */
  ghost predicate LastSession(rs: seq<Request>, i: nat) {
    i < |rs| && Session(rs[i]) && forall j :: i < j < |rs| ==> !Session(rs[j])
  }

  ghost predicate LastCommand(rs: seq<Request>, i: nat) {
    i < |rs| && rs[i].Command? && forall j :: i < j < |rs| ==> !rs[j].Command?
  }

  lemma {:induction false} PidAfterLast(k: Kernel, rs: seq<Request>, i: nat)
    requires LastSession(rs, i)
    ensures Replay(k, rs).pid == if rs[i].Connect? then rs[i].pid else 0
  {
    if i < |rs| - 1 {
      var front := rs[..|rs| - 1];
      assert LastSession(front, i);
      PidAfterLast(k, front, i);
    }
  }

  lemma {:induction false} PidUntouched(k: Kernel, rs: seq<Request>)
    requires forall j :: 0 <= j < |rs| ==> !Session(rs[j])
    ensures Replay(k, rs).pid == k.pid
  {
    if rs != [] {
      PidUntouched(k, rs[..|rs| - 1]);
    }
  }

  lemma {:induction false} FlagAfterLast(k: Kernel, rs: seq<Request>, i: nat)
    requires LastCommand(rs, i)
    ensures Replay(k, rs).operatorflag == if rs[i].text == "drop" then DROP_FLAG else PASS_FLAG
  {
    if i < |rs| - 1 {
      var front := rs[..|rs| - 1];
      assert LastCommand(front, i);
      FlagAfterLast(k, front, i);
    }
  }

  lemma {:induction false} FlagUntouched(k: Kernel, rs: seq<Request>)
    requires forall j :: 0 <= j < |rs| ==> !rs[j].Command?
    ensures Replay(k, rs).operatorflag == k.operatorflag
  {
    if rs != [] {
      FlagUntouched(k, rs[..|rs| - 1]);
    }
  }

  lemma {:induction false} HasLastSession(rs: seq<Request>) returns (i: int)
    ensures 0 <= i ==> LastSession(rs, i)
    ensures i < 0 ==> forall j :: 0 <= j < |rs| ==> !Session(rs[j])
  {
    if rs == [] {
      i := -1;
    } else if Session(rs[|rs| - 1]) {
      i := |rs| - 1;
    } else {
      i := HasLastSession(rs[..|rs| - 1]);
      assert forall j :: 0 <= j < |rs| - 1 ==> rs[..|rs| - 1][j] == rs[j];
    }
  }

  lemma {:induction false} HasLastCommand(rs: seq<Request>) returns (i: int)
    ensures 0 <= i ==> LastCommand(rs, i)
    ensures i < 0 ==> forall j :: 0 <= j < |rs| ==> !rs[j].Command?
  {
    if rs == [] {
      i := -1;
    } else if rs[|rs| - 1].Command? {
      i := |rs| - 1;
    } else {
      i := HasLastCommand(rs[..|rs| - 1]);
      assert forall j :: 0 <= j < |rs| - 1 ==> rs[..|rs| - 1][j] == rs[j];
    }
  }

  /** The stored pid over any sequence: a pid other than zero is stored exactly when the last session
      request is a connect with that pid. */
  lemma {:induction false} PidTrace(rs: seq<Request>, pid: nat)
    requires pid != 0
    ensures Replay(INITIAL, rs).pid == pid <==> exists i: nat :: LastSession(rs, i) && rs[i] == Connect(pid)
  {
    var last := HasLastSession(rs);
    if last >= 0 {
      PidAfterLast(INITIAL, rs, last);
    } else {
      PidUntouched(INITIAL, rs);
    }
    forall i: nat | LastSession(rs, i) && rs[i] == Connect(pid)
      ensures Replay(INITIAL, rs).pid == pid
    {
      PidAfterLast(INITIAL, rs, i);
    }
  }

  /** The operator flag over any sequence: 2 exactly when the last command is "drop", 1 exactly when
      it is anything else, 0 exactly when there is no command. */
  lemma FlagTrace(rs: seq<Request>)
    ensures Replay(INITIAL, rs).operatorflag == 2 <==> exists i: nat :: LastCommand(rs, i) && rs[i].text == "drop"
    ensures Replay(INITIAL, rs).operatorflag == 1 <==> exists i: nat :: LastCommand(rs, i) && rs[i].text != "drop"
    ensures Replay(INITIAL, rs).operatorflag == 0 <==> forall j :: 0 <= j < |rs| ==> !rs[j].Command?
  {
    var last := HasLastCommand(rs);
    if last >= 0 {
      FlagAfterLast(INITIAL, rs, last);
    } else {
      FlagUntouched(INITIAL, rs);
    }
    forall i: nat | LastCommand(rs, i)
      ensures last == i
    {
    }
  }

  /** Incomplete frames and unknown kinds leave no trace: dropping them changes nothing. */
  function Effective(rs: seq<Request>): seq<Request> {
    if rs == [] then []
    else
      var front := Effective(rs[..|rs| - 1]);
      if rs[|rs| - 1].Ignored? then front else front + [rs[|rs| - 1]]
  }

  lemma {:induction false} IgnoredLeavesNoTrace(k: Kernel, rs: seq<Request>)
    ensures Replay(k, rs) == Replay(k, Effective(rs))
    ensures multiset(Effective(rs)) == multiset(rs)[Ignored := 0]
  {
    if rs != [] {
      var front := rs[..|rs| - 1];
      IgnoredLeavesNoTrace(k, front);
      assert rs == front + [rs[|rs| - 1]];
      var e := Effective(front) + [rs[|rs| - 1]];
      assert e[..|e| - 1] == Effective(front);
    }
  }

  /** Decode and the header layout, independently: what each kind of frame looks like. */
  lemma DecodeConnect(h: Header, rest: seq<char>)
    requires InRange(h) && HEADER_SIZE <= h.len <= HEADER_SIZE + |rest|
    ensures h.kind == CONNECT ==> Decode(PackHeader(h) + rest) == Connect(h.pid)
    ensures h.kind == DISCONNECT ==> Decode(PackHeader(h) + rest) == Disconnect
    ensures h.kind == COMMAND ==> Decode(PackHeader(h) + rest) == Command(CStr(rest))
    ensures h.kind !in {CONNECT, DISCONNECT, COMMAND} ==> Decode(PackHeader(h) + rest) == Ignored
  {
    HeaderRoundTrip(h, rest);
    assert (PackHeader(h) + rest)[HEADER_SIZE..] == rest;
  }

  /** Decode on the bytes of any string whatever: a complete header first, then a size field between 16 and
      the number of bytes that came, then the kind. */
  lemma DecodeBytes(frame: seq<char>)
    ensures |frame| < 16 ==> Decode(frame) == Ignored
    ensures 16 <= |frame| ==>
              Decode(frame) ==
              if Le32(frame, 0) < 16 || |frame| < Le32(frame, 0) then Ignored
              else if Le16(frame, 4) == 0x10 then Connect(Le32(frame, 12))
              else if Le16(frame, 4) == 0x11 then Disconnect
              else if Le16(frame, 4) == 0x12 then Command(CStr(frame[16..]))
              else Ignored
  {
    hide ReadHeader, Le16, Le32, CStr;
    if 16 <= |frame| {
      HeaderFields(frame);
    }
  }

  lemma DecodeIncomplete(h: Header, rest: seq<char>)
    requires InRange(h) && !(HEADER_SIZE <= h.len <= HEADER_SIZE + |rest|)
    ensures Decode(PackHeader(h) + rest) == Ignored
  {
    HeaderRoundTrip(h, rest);
  }
}
