/**
 Publication of a private file by any number of processes, interleaved one
 file-system operation at a time, where every operation may fail.

 A name refers to an inode; a hard link makes two names refer to the same one.
 */
module PrivateFile {
  import opened Options

  const TEMP_CREATE_ATTEMPTS: nat := 16

  type Bytes = seq<char>
  type Name = string
  type Inode = nat

  datatype Mode = Replace | IfAbsent

  datatype Outcome = Created | AlreadyExists | Failed

  /** The next operation of a process. */
  datatype Pc =
    | Load                      // load_or_generate: try to read the destination
    | CreateParent
    | CreateTemp(attempts: nat)
    | Write(written: nat)
    | SyncTemp
    | Publish                   // rename or hard link
    | SyncReplaced
    | SyncLinked
    | Discard                   // remove the temporary, then fail
    | RemoveTemp(publication: Outcome)
    | SyncParent(publication: Outcome)
    | Reload                    // load_or_generate: read the winner
    | Finished(outcome: Outcome)
    /** load_or_generate succeeded; `report` is None when the file was there at once. */
    | Returned(identity: Bytes, report: Option<Outcome>)

  datatype Process = Process(mode: Mode, loads: bool, content: Bytes, temp: Name, inode: Inode, linked: bool, pc: Pc)

  datatype System = System(dest: Name, names: map<Name, Inode>, data: map<Inode, Bytes>, next: Inode, procs: seq<Process>)

  /** Whether the operation fails, the random suffix for a temporary name, and how much a write transfers. */
  datatype Io = Io(fails: bool, suffix: string, chunk: nat)

  function TempName(dest: Name, suffix: string): Name { "." + dest + "." + suffix + ".tmp" }

  lemma TempNameDiffers(dest: Name, suffix: string)
    ensures TempName(dest, suffix) != dest
  {
    assert |TempName(dest, suffix)| > |dest|;
  }

  function Start(mode: Mode, loads: bool, content: Bytes): Process {
    Process(mode, loads, content, "", 0, false, if loads then Load else CreateParent)
  }

  function Done(p: Process, publication: Outcome): Pc {
    if !p.loads then Finished(publication)
    else if publication.Created? then Returned(p.content, Some(Created))
    else Reload
  }

  /** One operation of process `p`. */
  function Operate(y: System, p: Process, io: Io): (System, Process) {
    match p.pc
    case Load =>
      if io.fails then (y, p.(pc := Finished(Failed)))
      else if y.dest in y.names && y.names[y.dest] in y.data then (y, p.(pc := Returned(y.data[y.names[y.dest]], None)))
      else (y, p.(pc := CreateParent))
    case CreateParent => (y, p.(pc := if io.fails then Finished(Failed) else CreateTemp(0)))
    case CreateTemp(attempts) =>
      var temp := TempName(y.dest, io.suffix);
      if attempts >= TEMP_CREATE_ATTEMPTS || io.fails then (y, p.(pc := Finished(Failed)))
      else if temp in y.names then (y, p.(pc := CreateTemp(attempts + 1)))
      else (y.(names := y.names[temp := y.next], data := y.data[y.next := []], next := y.next + 1),
            p.(temp := temp, inode := y.next, pc := Write(0)))
    case Write(written) =>
      var upto := if written + io.chunk > |p.content| then |p.content| else written + io.chunk;
      var y' := y.(data := y.data[p.inode := p.content[..upto]]);
      if io.fails then (y', p.(pc := Discard))
      else (y', p.(pc := if upto == |p.content| then SyncTemp else Write(upto)))
    case SyncTemp => (y, p.(pc := if io.fails then Discard else Publish))
    case Publish =>
      if io.fails || p.temp !in y.names then (y, p.(pc := Discard))
      else if p.mode.Replace? then
        (y.(names := (y.names - {p.temp})[y.dest := y.names[p.temp]]), p.(linked := true, pc := SyncReplaced))
      else if y.dest in y.names then (y, p.(pc := RemoveTemp(AlreadyExists)))
      else (y.(names := y.names[y.dest := y.names[p.temp]]), p.(linked := true, pc := SyncLinked))
    case SyncReplaced => (y, p.(pc := if io.fails then Finished(Failed) else Done(p, Created)))
    case SyncLinked => (y, p.(pc := if io.fails then Discard else RemoveTemp(Created)))
    case Discard =>
      ((if io.fails then y else y.(names := y.names - {p.temp})), p.(pc := Finished(Failed)))
    case RemoveTemp(publication) =>
      if io.fails then (y, p.(pc := Finished(Failed)))
      else (y.(names := y.names - {p.temp}), p.(pc := SyncParent(publication)))
    case SyncParent(publication) => (y, p.(pc := if io.fails then Finished(Failed) else Done(p, publication)))
    case Reload =>
      if io.fails || y.dest !in y.names || y.names[y.dest] !in y.data then (y, p.(pc := Finished(Failed)))
      else (y, p.(pc := Returned(y.data[y.names[y.dest]], Some(AlreadyExists))))
    case Finished(_) => (y, p)
    case Returned(_, _) => (y, p)
  }

  function Step(y: System, pid: nat, io: Io): System
    requires pid < |y.procs|
  {
    var (y', p') := Operate(y, y.procs[pid], io);
    y'.(procs := y.procs[pid := p'])
  }

  // ----- what a process owns -----

  /** The process holds its temporary: created, and not yet renamed or removed. */
  predicate HoldsTemp(p: Process) {
    p.pc.Write? || p.pc.SyncTemp? || p.pc.Publish? || p.pc.SyncLinked? || p.pc.RemoveTemp? || p.pc.Discard?
  }

  /** The process's inode is under its temporary name or was published. */
  predicate OwnsInode(p: Process) { HoldsTemp(p) || p.linked }

  predicate Unpublished(pc: Pc) {
    pc.Load? || pc.CreateParent? || pc.CreateTemp? || pc.Write? || pc.SyncTemp? || pc.Publish?
  }

  ghost predicate NamesOk(y: System) {
    forall n :: n in y.names ==> y.names[n] < y.next && y.names[n] in y.data
  }

  /** The process has finished and reports that it created the file, directly or through load_or_generate. */
  predicate ReportsCreated(p: Process) {
    p.pc == Finished(Created) || (p.pc.Returned? && p.pc.report == Some(Created))
  }

  /** Where a process stands, and what its files hold then. */
  ghost predicate ProcessOk(y: System, p: Process) {
    && (HoldsTemp(p) ==> p.temp != y.dest && p.temp in y.names && y.names[p.temp] == p.inode)
    && (OwnsInode(p) ==> p.inode < y.next && p.inode in y.data)
    && (p.linked || p.pc.SyncTemp? || p.pc.Publish? ==> y.data[p.inode] == p.content)
    && (Unpublished(p.pc) ==> !p.linked)
    && (p.pc.Write? ==> p.pc.written <= |p.content|)
    && (p.pc.SyncReplaced? || p.pc.SyncLinked? ==> p.linked)
    && (p.pc.RemoveTemp? || p.pc.SyncParent? ==> p.pc.publication != Failed && (p.pc.publication == Created ==> p.linked))
    && (ReportsCreated(p) ==> p.linked)
  }

  /** Two processes never share a temporary name or an inode. */
  ghost predicate Apart(p: Process, q: Process) {
    && (HoldsTemp(p) && HoldsTemp(q) ==> p.temp != q.temp)
    && (OwnsInode(p) && OwnsInode(q) ==> p.inode != q.inode)
  }

  /** The destination does not refer to an inode that `p` has not finished writing. */
  ghost predicate DestSettled(y: System, p: Process) {
    y.dest in y.names && HoldsTemp(p) && !p.linked ==> p.inode != y.names[y.dest]
  }

  ghost predicate Inv(y: System) {
    && NamesOk(y)
    && (forall i :: 0 <= i < |y.procs| ==> ProcessOk(y, y.procs[i]) && DestSettled(y, y.procs[i]))
    && (forall i, j :: 0 <= i < |y.procs| && 0 <= j < |y.procs| && i != j ==> Apart(y.procs[i], y.procs[j]))
  }

  /** Nobody has started; the destination may already exist. */
  ghost predicate Init(y: System) {
    && NamesOk(y)
    && forall i :: 0 <= i < |y.procs| ==> y.procs[i] == Start(y.procs[i].mode, y.procs[i].loads, y.procs[i].content)
  }

  ghost predicate OwnOk(y: System, p: Process) {
    NamesOk(y) && ProcessOk(y, p) && DestSettled(y, p)
  }

  lemma OwnCreate(y: System, p: Process, io: Io)
    requires OwnOk(y, p) && p.pc.CreateTemp?
    ensures var (y', p') := Operate(y, p, io); OwnOk(y', p')
  {
    TempNameDiffers(y.dest, io.suffix);
  }

  lemma OwnWrite(y: System, p: Process, io: Io)
    requires OwnOk(y, p) && p.pc.Write?
    ensures var (y', p') := Operate(y, p, io); OwnOk(y', p')
  {
    var upto := if p.pc.written + io.chunk > |p.content| then |p.content| else p.pc.written + io.chunk;
    assert upto == |p.content| ==> p.content[..upto] == p.content;
  }

  lemma OwnPublish(y: System, p: Process, io: Io)
    requires OwnOk(y, p) && p.pc.Publish?
    ensures var (y', p') := Operate(y, p, io); OwnOk(y', p')
  {
  }

  lemma OwnRemove(y: System, p: Process, io: Io)
    requires OwnOk(y, p) && (p.pc.Discard? || p.pc.RemoveTemp?)
    ensures var (y', p') := Operate(y, p, io); OwnOk(y', p')
  {
  }

  /** An operation of `p` keeps `p`'s own bookkeeping. */
  lemma OperateOwn(y: System, p: Process, io: Io)
    requires OwnOk(y, p)
    ensures var (y', p') := Operate(y, p, io); OwnOk(y', p')
  {
    match p.pc
    case CreateTemp(_) => OwnCreate(y, p, io);
    case Write(_) => OwnWrite(y, p, io);
    case Publish => OwnPublish(y, p, io);
    case Discard => OwnRemove(y, p, io);
    case RemoveTemp(_) => OwnRemove(y, p, io);
    case _ =>
  }

  /** ... and disturbs no other process. */
  lemma OperateOther(y: System, p: Process, q: Process, io: Io)
    requires NamesOk(y) && ProcessOk(y, p) && ProcessOk(y, q) && DestSettled(y, q) && Apart(p, q)
    ensures var (y', p') := Operate(y, p, io); ProcessOk(y', q) && DestSettled(y', q) && Apart(p', q)
  {
    match p.pc
    case CreateTemp(_) => OtherTemp(y, p, q, io);
    case Write(_) => OtherTemp(y, p, q, io);
    case Publish => OtherPublish(y, p, q, io);
    case Discard => OtherRemove(y, p, q, io);
    case RemoveTemp(_) => OtherRemove(y, p, q, io);
    case _ =>
  }

  lemma OtherTemp(y: System, p: Process, q: Process, io: Io)
    requires NamesOk(y) && ProcessOk(y, p) && ProcessOk(y, q) && DestSettled(y, q) && Apart(p, q)
    requires p.pc.CreateTemp? || p.pc.Write?
    ensures var (y', p') := Operate(y, p, io); ProcessOk(y', q) && DestSettled(y', q) && Apart(p', q)
  {
    TempNameDiffers(y.dest, io.suffix);
  }

  lemma OtherPublish(y: System, p: Process, q: Process, io: Io)
    requires NamesOk(y) && ProcessOk(y, p) && ProcessOk(y, q) && DestSettled(y, q) && Apart(p, q) && p.pc.Publish?
    ensures var (y', p') := Operate(y, p, io); ProcessOk(y', q) && DestSettled(y', q) && Apart(p', q)
  {
  }

  lemma OtherRemove(y: System, p: Process, q: Process, io: Io)
    requires NamesOk(y) && ProcessOk(y, p) && ProcessOk(y, q) && DestSettled(y, q) && Apart(p, q)
    requires p.pc.Discard? || p.pc.RemoveTemp?
    ensures var (y', p') := Operate(y, p, io); ProcessOk(y', q) && DestSettled(y', q) && Apart(p', q)
  {
  }

  lemma StepKeepsInv(y: System, pid: nat, io: Io)
    requires Inv(y) && pid < |y.procs|
    ensures Inv(Step(y, pid, io))
  {
    var p := y.procs[pid];
    var (y1, p1) := Operate(y, p, io);
    var y' := Step(y, pid, io);
    OperateOwn(y, p, io);
    forall i | 0 <= i < |y.procs| && i != pid
      ensures ProcessOk(y', y.procs[i]) && DestSettled(y', y.procs[i]) && Apart(p1, y.procs[i]) && Apart(y.procs[i], p1)
    {
      OperateOther(y, p, y.procs[i], io);
    }
    forall i | 0 <= i < |y'.procs| ensures ProcessOk(y', y'.procs[i]) && DestSettled(y', y'.procs[i]) {
      if i == pid { assert y'.procs[i] == p1; } else { assert y'.procs[i] == y.procs[i]; }
    }
  }

  // ----- what one operation means for the destination -----

  function DestBytes(y: System): Option<Bytes> {
    if y.dest in y.names && y.names[y.dest] in y.data then Some(y.data[y.names[y.dest]]) else None
  }

  /** A published inode is the destination's; a returned identity is the destination's bytes. */
  ghost predicate Settled(y: System, p: Process) {
    && (p.linked ==> y.dest in y.names && y.names[y.dest] == p.inode)
    && (p.pc.Returned? ==> DestBytes(y) == Some(p.pc.identity))
  }

  ghost predicate NoClobber(y: System) {
    forall i :: 0 <= i < |y.procs| ==> y.procs[i].mode.IfAbsent?
  }

  ghost predicate AllSettled(y: System) {
    forall i :: 0 <= i < |y.procs| ==> Settled(y, y.procs[i])
  }

  /** The operation was a rename or link that succeeded: the process moves on to syncing the parent directory. */
  predicate Publishes(p: Process, p': Process) {
    p.pc.Publish? && (p'.pc.SyncReplaced? || p'.pc.SyncLinked?)
  }

  /** A rename or link makes the destination hold the process's complete content; nothing else changes its bytes. */
  lemma DestChangesWhole(y: System, p: Process, io: Io)
    requires OwnOk(y, p)
    ensures var (y', p') := Operate(y, p, io);
      && DestBytes(y') == (if Publishes(p, p') then Some(p.content) else DestBytes(y))
      && p'.linked == (p.linked || Publishes(p, p'))
      && (p.mode.IfAbsent? && DestBytes(y).Some? ==> DestBytes(y') == DestBytes(y))
  {
    TempNameDiffers(y.dest, io.suffix);
  }

  lemma OperateSettles(y: System, p: Process, q: Process, io: Io)
    requires OwnOk(y, p) && p.mode.IfAbsent? && Settled(y, p) && Settled(y, q)
    ensures var (y', p') := Operate(y, p, io); Settled(y', p') && Settled(y', q)
  {
    TempNameDiffers(y.dest, io.suffix);
  }

  /** The summary of one turn of process `pid`. */
  ghost predicate Turned(y: System, y': System, pid: nat) {
    && Inv(y') && y'.dest == y.dest && |y'.procs| == |y.procs| && pid < |y.procs|
    && (forall i :: 0 <= i < |y.procs| ==>
          && y'.procs[i].content == y.procs[i].content && y'.procs[i].mode == y.procs[i].mode)
    && DestBytes(y') == (if Publishes(y.procs[pid], y'.procs[pid]) then Some(y.procs[pid].content) else DestBytes(y))
    && (forall i :: 0 <= i < |y.procs| ==>
          y'.procs[i].linked == (y.procs[i].linked || (i == pid && Publishes(y.procs[i], y'.procs[i]))))
    && (y.procs[pid].mode.IfAbsent? && DestBytes(y).Some? ==> DestBytes(y') == DestBytes(y))
    && (NoClobber(y) && AllSettled(y) ==> AllSettled(y'))
  }

  lemma OperateKeepsIdentity(y: System, p: Process, io: Io)
    ensures var (y', p') := Operate(y, p, io);
      p'.content == p.content && p'.mode == p.mode && y'.dest == y.dest && y'.procs == y.procs
  {
  }

  lemma StepTurned(y: System, pid: nat, io: Io)
    requires Inv(y) && pid < |y.procs|
    ensures Turned(y, Step(y, pid, io), pid)
  {
    var p := y.procs[pid];
    var (y1, p1) := Operate(y, p, io);
    var y' := Step(y, pid, io);
    StepKeepsInv(y, pid, io);
    OperateKeepsIdentity(y, p, io);
    DestChangesWhole(y, p, io);
    assert DestBytes(y') == DestBytes(y1);
    if NoClobber(y) && AllSettled(y) {
      forall i | 0 <= i < |y.procs| ensures Settled(y', y'.procs[i]) {
        OperateSettles(y, p, y.procs[i], io);
        assert Settled(y1, y'.procs[i]);
      }
    }
  }

  // ----- runs -----

  datatype Turn = Turn(pid: nat, io: Io)

  ghost predicate IsRun(ys: seq<System>, ts: seq<Turn>) {
    && |ys| == |ts| + 1 && Init(ys[0])
    && forall k :: 0 <= k < |ts| ==> ts[k].pid < |ys[k].procs| && ys[k + 1] == Step(ys[k], ts[k].pid, ts[k].io)
  }

  /** A run seen through its summaries. */
  ghost predicate Summary(ys: seq<System>, ts: seq<Turn>) {
    && |ys| == |ts| + 1 && Init(ys[0]) && Inv(ys[0])
    && forall k :: 0 <= k < |ts| ==> Turned(ys[k], ys[k + 1], ts[k].pid)
  }

  lemma {:induction false} RunInv(ys: seq<System>, ts: seq<Turn>, k: nat)
    requires IsRun(ys, ts) && k < |ys|
    ensures Inv(ys[k])
  {
    if k > 0 {
      RunInv(ys, ts, k - 1);
      StepKeepsInv(ys[k - 1], ts[k - 1].pid, ts[k - 1].io);
    }
  }

  lemma Summarize(ys: seq<System>, ts: seq<Turn>)
    requires IsRun(ys, ts)
    ensures Summary(ys, ts)
  {
    RunInv(ys, ts, 0);
    forall k | 0 <= k < |ts| ensures Turned(ys[k], ys[k + 1], ts[k].pid) {
      RunInv(ys, ts, k);
      StepTurned(ys[k], ts[k].pid, ts[k].io);
    }
  }

  /** The state stays well formed, and contents and modes never change. */
  lemma {:induction false} SummaryFixes(ys: seq<System>, ts: seq<Turn>, k: nat)
    requires Summary(ys, ts) && k < |ys|
    ensures Inv(ys[k]) && |ys[k].procs| == |ys[0].procs|
    ensures forall i :: 0 <= i < |ys[0].procs| ==>
              ys[k].procs[i].content == ys[0].procs[i].content && ys[k].procs[i].mode == ys[0].procs[i].mode
    ensures NoClobber(ys[0]) ==> NoClobber(ys[k]) && AllSettled(ys[k])
  {
    if k > 0 {
      SummaryFixes(ys, ts, k - 1);
      assert Turned(ys[k - 1], ys[k], ts[k - 1].pid);
    }
  }

  /** The bytes are the complete content of some process. */
  ghost predicate CompleteContent(y: System, b: Bytes) {
    exists i :: 0 <= i < |y.procs| && y.procs[i].content == b
  }

  lemma {:induction false} SummaryWhole(ys: seq<System>, ts: seq<Turn>, k: nat)
    requires Summary(ys, ts) && k < |ys|
    ensures DestBytes(ys[k]) == DestBytes(ys[0])
         || (DestBytes(ys[k]).Some? && CompleteContent(ys[0], DestBytes(ys[k]).value))
  {
    if k > 0 {
      SummaryWhole(ys, ts, k - 1);
      SummaryFixes(ys, ts, k - 1);
      assert Turned(ys[k - 1], ys[k], ts[k - 1].pid);
    }
  }

  lemma {:induction false} SummaryFrozen(ys: seq<System>, ts: seq<Turn>, j: nat, k: nat)
    requires Summary(ys, ts) && j <= k < |ys| && NoClobber(ys[0]) && DestBytes(ys[j]).Some?
    ensures DestBytes(ys[k]) == DestBytes(ys[j])
    decreases k
  {
    if j < k {
      SummaryFrozen(ys, ts, j, k - 1);
      SummaryFixes(ys, ts, k - 1);
      assert Turned(ys[k - 1], ys[k], ts[k - 1].pid);
    }
  }

  /**
   Whatever publishers run, whatever fails: the destination holds what it held
   at the start, or the complete bytes of one publisher, never a part.
   */
  lemma DestAlwaysWhole(ys: seq<System>, ts: seq<Turn>, k: nat)
    requires IsRun(ys, ts) && k < |ys|
    ensures DestBytes(ys[k]) == DestBytes(ys[0])
         || (DestBytes(ys[k]).Some? && CompleteContent(ys[0], DestBytes(ys[k]).value))
  {
    Summarize(ys, ts);
    SummaryWhole(ys, ts, k);
  }

  /** With publishers that do not clobber, the destination once present never changes again. */
  lemma DestNeverChanges(ys: seq<System>, ts: seq<Turn>, j: nat, k: nat)
    requires IsRun(ys, ts) && j <= k < |ys| && NoClobber(ys[0]) && DestBytes(ys[j]).Some?
    ensures DestBytes(ys[k]) == DestBytes(ys[j])
  {
    Summarize(ys, ts);
    SummaryFrozen(ys, ts, j, k);
  }

  lemma OneWinner(y: System, i: nat, j: nat)
    requires Inv(y) && AllSettled(y) && i < |y.procs| && j < |y.procs|
    requires y.procs[i].linked && y.procs[j].linked
    ensures i == j
    ensures DestBytes(y) == Some(y.procs[i].content)
  {
    assert ProcessOk(y, y.procs[i]) && ProcessOk(y, y.procs[j]);
    assert Settled(y, y.procs[i]) && Settled(y, y.procs[j]);
  }

  /** At most one publisher or load_or_generate caller reports Created, and the destination then holds exactly its bytes. */
  lemma AtMostOneCreated(ys: seq<System>, ts: seq<Turn>, k: nat, i: nat, j: nat)
    requires IsRun(ys, ts) && k < |ys| && NoClobber(ys[0]) && i < |ys[k].procs| && j < |ys[k].procs|
    requires ReportsCreated(ys[k].procs[i]) && ReportsCreated(ys[k].procs[j])
    ensures i == j
    ensures DestBytes(ys[k]) == Some(ys[k].procs[i].content)
  {
    Summarize(ys, ts);
    SummaryFixes(ys, ts, k);
    assert ProcessOk(ys[k], ys[k].procs[i]) && ProcessOk(ys[k], ys[k].procs[j]);
    OneWinner(ys[k], i, j);
  }

  /** All successful `load_or_generate` callers, at whatever moment they finish, return the same identity. */
  lemma SameIdentity(ys: seq<System>, ts: seq<Turn>, j: nat, k: nat, a: nat, b: nat)
    requires IsRun(ys, ts) && j <= k < |ys| && NoClobber(ys[0]) && a < |ys[j].procs| && b < |ys[k].procs|
    requires ys[j].procs[a].pc.Returned? && ys[k].procs[b].pc.Returned?
    ensures ys[j].procs[a].pc.identity == ys[k].procs[b].pc.identity
    ensures DestBytes(ys[k]) == Some(ys[k].procs[b].pc.identity)
  {
    Summarize(ys, ts);
    SummaryFixes(ys, ts, j);
    SummaryFixes(ys, ts, k);
    assert Settled(ys[j], ys[j].procs[a]) && Settled(ys[k], ys[k].procs[b]);
    SummaryFrozen(ys, ts, j, k);
  }

  // ----- what is left behind -----

  /** The temporary names that running processes hold. */
  function Held(y: System): set<Name> {
    set i | 0 <= i < |y.procs| && HoldsTemp(y.procs[i]) :: y.procs[i].temp
  }

  /** The temporary name whose removal the operation fails to do, if any. */
  function Leak(p: Process, io: Io): set<Name> {
    if io.fails && (p.pc.Discard? || p.pc.RemoveTemp?) then {p.temp} else {}
  }

  /** Beside the destination there are the names of `base`, and the temporaries held. */
  ghost predicate NamesAre(y: System, base: set<Name>) {
    y.names.Keys - {y.dest} == base + Held(y) && base !! Held(y) && y.dest !in base
  }

  /** What one operation does to the names, other than the destination's. */
  lemma OperateNames(y: System, p: Process, io: Io)
    requires OwnOk(y, p)
    ensures var (y', p') := Operate(y, p, io); var others := y.names.Keys - {y.dest};
      && (!HoldsTemp(p) && !HoldsTemp(p') ==> y'.names.Keys - {y.dest} == others && Leak(p, io) == {})
      && (!HoldsTemp(p) && HoldsTemp(p') ==> y'.names.Keys - {y.dest} == others + {p'.temp} && p'.temp !in others && Leak(p, io) == {})
      && (HoldsTemp(p) && HoldsTemp(p') ==> y'.names.Keys - {y.dest} == others && p'.temp == p.temp && Leak(p, io) == {})
      && (HoldsTemp(p) && !HoldsTemp(p') ==> y'.names.Keys - {y.dest} == others - {p.temp} + Leak(p, io) && Leak(p, io) <= {p.temp})
  {
    TempNameDiffers(y.dest, io.suffix);
  }

  /** The names held after one process moved. */
  lemma HeldStep(y: System, pid: nat, io: Io)
    requires Inv(y) && pid < |y.procs|
    ensures var p, p' := y.procs[pid], Operate(y, y.procs[pid], io).1; var y' := Step(y, pid, io);
      && (HoldsTemp(p) ==> p.temp in Held(y))
      && Held(y') == Held(y) - (if HoldsTemp(p) then {p.temp} else {}) + (if HoldsTemp(p') then {p'.temp} else {})
  {
    var p, p' := y.procs[pid], Operate(y, y.procs[pid], io).1;
    var y' := Step(y, pid, io);
    OperateKeepsIdentity(y, p, io);
    assert y'.procs == y.procs[pid := p'];
    var rest := Held(y) - (if HoldsTemp(p) then {p.temp} else {});
    forall n ensures n in rest <==> exists i :: 0 <= i < |y.procs| && i != pid && HoldsTemp(y.procs[i]) && y.procs[i].temp == n {
      if i :| 0 <= i < |y.procs| && i != pid && HoldsTemp(y.procs[i]) && y.procs[i].temp == n {
        assert Apart(y.procs[i], p);
      }
    }
    forall n ensures n in Held(y') <==> n in rest || (HoldsTemp(p') && n == p'.temp) {
      if i :| 0 <= i < |y.procs| && i != pid && HoldsTemp(y.procs[i]) && y.procs[i].temp == n {
        assert y'.procs[i] == y.procs[i];
      }
      if HoldsTemp(p') && n == p'.temp { assert y'.procs[pid] == p'; }
    }
  }

  lemma NamesStep(y: System, pid: nat, io: Io, base: set<Name>)
    requires Inv(y) && pid < |y.procs| && NamesAre(y, base)
    ensures NamesAre(Step(y, pid, io), base + Leak(y.procs[pid], io))
  {
    OperateNames(y, y.procs[pid], io);
    HeldStep(y, pid, io);
    OperateKeepsIdentity(y, y.procs[pid], io);
    assert HoldsTemp(y.procs[pid]) ==> y.procs[pid].temp != y.dest;
  }

  /** The temporaries whose removal failed before `k`. */
  function Leaked(ys: seq<System>, ts: seq<Turn>, k: nat): set<Name>
    requires k <= |ts| < |ys| && forall j :: 0 <= j < |ts| ==> ts[j].pid < |ys[j].procs|
  {
    if k == 0 then {} else Leaked(ys, ts, k - 1) + Leak(ys[k - 1].procs[ts[k - 1].pid], ts[k - 1].io)
  }

  lemma {:induction false} RunNames(ys: seq<System>, ts: seq<Turn>, k: nat)
    requires IsRun(ys, ts) && k < |ys|
    ensures NamesAre(ys[k], (ys[0].names.Keys - {ys[0].dest}) + Leaked(ys, ts, k))
  {
    var base := ys[0].names.Keys - {ys[0].dest};
    if k == 0 {
      assert Held(ys[0]) == {};
    } else {
      RunNames(ys, ts, k - 1);
      RunInv(ys, ts, k - 1);
      NamesStep(ys[k - 1], ts[k - 1].pid, ts[k - 1].io, base + Leaked(ys, ts, k - 1));
      assert base + Leaked(ys, ts, k) == base + Leaked(ys, ts, k - 1) + Leak(ys[k - 1].procs[ts[k - 1].pid], ts[k - 1].io);
    }
  }

  predicate AllDone(y: System) {
    forall i :: 0 <= i < |y.procs| ==> y.procs[i].pc.Finished? || y.procs[i].pc.Returned?
  }

  /**
   When everybody is done, the directory holds beside the destination what it
   held at first and exactly the temporaries whose removal failed.
   */
  lemma LeftoversExactly(ys: seq<System>, ts: seq<Turn>, k: nat)
    requires IsRun(ys, ts) && k < |ys| && AllDone(ys[k])
    ensures ys[k].names.Keys - {ys[k].dest} == (ys[0].names.Keys - {ys[0].dest}) + Leaked(ys, ts, k)
  {
    RunNames(ys, ts, k);
    assert Held(ys[k]) == {};
  }

  // ----- whose bytes the destination holds -----

  /** At turn `j` a process renames or links its file to the destination. */
  predicate PublishesAt(ys: seq<System>, ts: seq<Turn>, j: nat)
    requires j + 1 < |ys| && j < |ts|
  {
    && ts[j].pid < |ys[j].procs| && ts[j].pid < |ys[j + 1].procs|
    && Publishes(ys[j].procs[ts[j].pid], ys[j + 1].procs[ts[j].pid])
  }

  /** Turn `j` is the latest publication before `k`. */
  ghost predicate LastPublication(ys: seq<System>, ts: seq<Turn>, j: nat, k: nat)
    requires k < |ys| && k <= |ts|
  {
    j < k && PublishesAt(ys, ts, j) && forall l :: j < l < k ==> !PublishesAt(ys, ts, l)
  }

  lemma TurnDest(ys: seq<System>, ts: seq<Turn>, k: nat)
    requires Summary(ys, ts) && k < |ts|
    ensures ts[k].pid < |ys[0].procs|
    ensures DestBytes(ys[k + 1]) == if PublishesAt(ys, ts, k) then Some(ys[0].procs[ts[k].pid].content) else DestBytes(ys[k])
  {
    SummaryFixes(ys, ts, k);
    assert Turned(ys[k], ys[k + 1], ts[k].pid);
  }

  lemma {:induction false} DestStays(ys: seq<System>, ts: seq<Turn>, start: nat, k: nat)
    requires Summary(ys, ts) && start <= k < |ys| && forall l :: start <= l < k ==> !PublishesAt(ys, ts, l)
    ensures DestBytes(ys[k]) == DestBytes(ys[start])
    decreases k
  {
    if start < k {
      DestStays(ys, ts, start, k - 1);
      TurnDest(ys, ts, k - 1);
    }
  }

  lemma SummaryLast(ys: seq<System>, ts: seq<Turn>, j: nat, k: nat)
    requires Summary(ys, ts) && k < |ys| && LastPublication(ys, ts, j, k)
    ensures ts[j].pid < |ys[0].procs| && DestBytes(ys[k]) == Some(ys[0].procs[ts[j].pid].content)
  {
    TurnDest(ys, ts, j);
    DestStays(ys, ts, j + 1, k);
  }

  /**
   In every run, for replacing and no-clobber publishers together: the
   destination holds the complete content of the process whose rename or link
   came last, and what it held at first if there was none.
   */
  lemma DestIsLastPublished(ys: seq<System>, ts: seq<Turn>, k: nat)
    requires IsRun(ys, ts) && k < |ys|
    ensures forall j: nat :: LastPublication(ys, ts, j, k) ==>
              ts[j].pid < |ys[0].procs| && DestBytes(ys[k]) == Some(ys[0].procs[ts[j].pid].content)
    ensures (forall l :: 0 <= l < k ==> !PublishesAt(ys, ts, l)) ==> DestBytes(ys[k]) == DestBytes(ys[0])
  {
    Summarize(ys, ts);
    forall j: nat | LastPublication(ys, ts, j, k)
      ensures ts[j].pid < |ys[0].procs| && DestBytes(ys[k]) == Some(ys[0].procs[ts[j].pid].content)
    {
      SummaryLast(ys, ts, j, k);
    }
    if forall l :: 0 <= l < k ==> !PublishesAt(ys, ts, l) { DestStays(ys, ts, 0, k); }
  }

  lemma {:induction false} SummaryLinked(ys: seq<System>, ts: seq<Turn>, k: nat, i: nat)
    requires Summary(ys, ts) && k < |ys| && i < |ys[k].procs| && ys[k].procs[i].linked
    ensures exists j :: 0 <= j < k && PublishesAt(ys, ts, j) && ts[j].pid == i
  {
    if k > 0 {
      SummaryFixes(ys, ts, k - 1);
      assert Turned(ys[k - 1], ys[k], ts[k - 1].pid);
      if ys[k - 1].procs[i].linked { SummaryLinked(ys, ts, k - 1, i); } else { assert PublishesAt(ys, ts, k - 1); }
    }
  }

  lemma {:induction false} LastExists(ys: seq<System>, ts: seq<Turn>, j: nat, k: nat) returns (m: nat)
    requires |ys| == |ts| + 1 && j < k < |ys| && PublishesAt(ys, ts, j)
    ensures j <= m && LastPublication(ys, ts, m, k)
  {
    m := k - 1;
    while !PublishesAt(ys, ts, m)
      invariant j <= m < k
      invariant forall l :: m < l < k ==> !PublishesAt(ys, ts, l)
      decreases m
    {
      m := m - 1;
    }
  }

  /**
   A report of Created means the process did rename or link its file: from then
   on the destination is there, holds one publisher's complete bytes, and holds
   the reporter's as long as nobody else publishes.
   */
  lemma CreatedIsThere(ys: seq<System>, ts: seq<Turn>, k: nat, i: nat, l: nat)
    requires IsRun(ys, ts) && k <= l < |ys| && i < |ys[k].procs| && ReportsCreated(ys[k].procs[i])
    ensures exists j :: 0 <= j < k && PublishesAt(ys, ts, j) && ts[j].pid == i
    ensures DestBytes(ys[l]).Some? && CompleteContent(ys[0], DestBytes(ys[l]).value)
    ensures i < |ys[0].procs|
    ensures (forall j :: 0 <= j < l && PublishesAt(ys, ts, j) ==> ts[j].pid == i) ==>
              DestBytes(ys[l]) == Some(ys[0].procs[i].content)
  {
    var j := CreatedWasPublished(ys, ts, k, i);
    Summarize(ys, ts);
    var m := LastExists(ys, ts, j, l);
    SummaryLast(ys, ts, m, l);
  }

  lemma CreatedWasPublished(ys: seq<System>, ts: seq<Turn>, k: nat, i: nat) returns (j: nat)
    requires IsRun(ys, ts) && k < |ys| && i < |ys[k].procs| && ReportsCreated(ys[k].procs[i])
    ensures j < k && PublishesAt(ys, ts, j) && ts[j].pid == i && i < |ys[0].procs|
  {
    Summarize(ys, ts);
    SummaryFixes(ys, ts, k);
    assert ProcessOk(ys[k], ys[k].procs[i]);
    SummaryLinked(ys, ts, k, i);
    j :| 0 <= j < k && PublishesAt(ys, ts, j) && ts[j].pid == i;
  }

  // ----- without failures, publication succeeds -----

  /** `n` operations of one process, all with the same outcome from outside. */
  function Alone(y: System, p: Process, io: Io, n: nat): (System, Process)
    decreases n
  {
    if n == 0 then (y, p) else var (y', p') := Operate(y, p, io); Alone(y', p', io, n - 1)
  }

  /** From a written and synced temporary to the published file. */
  lemma PublishesReady(y: System, p: Process, io: Io)
    requires OwnOk(y, p) && p.pc.Publish? && !io.fails
    ensures var (y', p') := Alone(y, p, io, 4); var kept := p.mode.IfAbsent? && y.dest in y.names;
      && (!p.loads && kept ==> p'.pc == Finished(AlreadyExists))
      && (!p.loads && !kept ==> p'.pc == Finished(Created))
      && (p.loads && !kept ==> p'.pc == Returned(p.content, Some(Created)))
      && DestBytes(y') == (if kept then DestBytes(y) else Some(p.content))
  {
    var (y1, p1) := Operate(y, p, io);
    OperateOwn(y, p, io);
    DestChangesWhole(y, p, io);
    var (y2, p2) := Operate(y1, p1, io);
    OperateOwn(y1, p1, io);
    DestChangesWhole(y1, p1, io);
    var (y3, p3) := Operate(y2, p2, io);
    OperateOwn(y2, p2, io);
    DestChangesWhole(y2, p2, io);
    DestChangesWhole(y3, p3, io);
  }

  /** From a created temporary to the published file. */
  lemma PublishesFromTemp(y: System, p: Process, io: Io)
    requires OwnOk(y, p) && p.pc == Write(0) && !io.fails && io.chunk >= |p.content|
    ensures var (y', p') := Alone(y, p, io, 6); var kept := p.mode.IfAbsent? && y.dest in y.names;
      && (!p.loads && kept ==> p'.pc == Finished(AlreadyExists))
      && (!p.loads && !kept ==> p'.pc == Finished(Created))
      && (p.loads && !kept ==> p'.pc == Returned(p.content, Some(Created)))
      && DestBytes(y') == (if kept then DestBytes(y) else Some(p.content))
  {
    var (y1, p1) := Operate(y, p, io);
    OperateOwn(y, p, io);
    DestChangesWhole(y, p, io);
    var (y2, p2) := Operate(y1, p1, io);
    OperateOwn(y1, p1, io);
    PublishesReady(y2, p2, io);
  }

  /**
   A publisher on its own whose operations all succeed does publish: a replacing
   one always, a no-clobber one exactly when the destination is absent.
   */
  lemma PublishesAlone(y: System, p: Process, io: Io)
    requires NamesOk(y) && p == Start(p.mode, false, p.content)
    requires !io.fails && io.chunk >= |p.content| && TempName(y.dest, io.suffix) !in y.names
    ensures var (y', p') := Alone(y, p, io, 8); var kept := p.mode.IfAbsent? && y.dest in y.names;
      && p'.pc == Finished(if kept then AlreadyExists else Created)
      && DestBytes(y') == (if kept then DestBytes(y) else Some(p.content))
  {
    var (y1, p1) := Operate(y, p, io);
    var (y2, p2) := Operate(y1, p1, io);
    TempNameDiffers(y.dest, io.suffix);
    OperateOwn(y1, p1, io);
    DestChangesWhole(y1, p1, io);
    PublishesFromTemp(y2, p2, io);
  }

  /** ... and `load_or_generate` returns the identity that is there, or creates its own. */
  lemma GeneratesAlone(y: System, p: Process, io: Io)
    requires NamesOk(y) && p == Start(IfAbsent, true, p.content)
    requires !io.fails && io.chunk >= |p.content| && TempName(y.dest, io.suffix) !in y.names
    ensures var (y', p') := Alone(y, p, io, 9);
      && p'.pc == (if DestBytes(y).Some? then Returned(DestBytes(y).value, None) else Returned(p.content, Some(Created)))
      && DestBytes(y') == Some(p'.pc.identity)
  {
    var (y1, p1) := Operate(y, p, io);
    if DestBytes(y).None? {
      var (y2, p2) := Operate(y1, p1, io);
      var (y3, p3) := Operate(y2, p2, io);
      TempNameDiffers(y.dest, io.suffix);
      OperateOwn(y2, p2, io);
      DestChangesWhole(y2, p2, io);
      PublishesFromTemp(y3, p3, io);
    } else {
      StaysReturned(y1, p1, io, 8);
    }
  }

  lemma {:induction false} StaysReturned(y: System, p: Process, io: Io, n: nat)
    requires p.pc.Returned?
    ensures Alone(y, p, io, n) == (y, p)
  {
    if n > 0 { StaysReturned(y, p, io, n - 1); }
  }
}
