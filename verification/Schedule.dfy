/** schedule.go and the distributed run of master.go as a state machine: tasks
    are handed to registered workers, calls may fail or lose their reply at any
    moment, and an execution whose call has failed may go on writing files. */
module Schedule {
  import opened Basics
  import Tiling
  import opened KeyOrder
  import opened MapReduceSpec
  import opened JobFiles
  import opened MapReduce

  /** One execution of DoTask on some worker: how far it has come. */
  datatype Exec =
    | MapExec(task: nat, next: nat)
    | ReduceExec(task: nat, next: nat, acc: seq<KeyValue>, written: bool)

  /** A call in progress: the worker token its task holds, and its execution. */
  datatype Call = Call(token: nat, exec: nat)

  datatype Phase = Mapping | Reducing | Merged | Crashed

  /** The directory the job finds, with whatever earlier jobs have left. */
  datatype Disk = Disk(files: Files, output: Option<string>)

  datatype State = State(
    initial: Disk,
    files: Files,
    written: set<Name>,
    output: Option<string>,
    phase: Phase,
    finished: set<nat>,
    idle: set<nat>,
    held: map<nat, Call>,
    dropped: set<nat>,
    execs: seq<Exec>,
    registered: nat
  )

  datatype Step =
    | Register                       // a worker's registration arrives
    | Assign(task: nat, token: nat)  // a task takes a worker from the channel and calls it
    | Work(exec: nat)                // an execution reads or writes one more file
    | Reply(task: nat)               // a call returns true
    | Fail(task: nat)                // a call returns false
    | Barrier                        // wg.Wait of the map phase returns
    | Merge(keys: seq<string>)       // wg.Wait of the reduce phase returns and merge runs
    | Panic(task: nat)               // mr.files[i] is out of range

  function Init(disk: Disk): State {
    State(disk, disk.files, {}, disk.output, Mapping, {}, {}, map[], {}, [], 0)
  }

  function NTasks(job: Job, phase: Phase): nat {
    match phase
    case Mapping => |job.inputs|
    case Reducing => job.nReduce
    case _ => 0
  }

  function Start(phase: Phase, task: nat): Exec {
    if phase.Mapping? then MapExec(task, 0) else ReduceExec(task, 0, [], false)
  }

  predicate Complete(job: Job, e: Exec) {
    match e
    case MapExec(_, next) => next == job.nReduce
    case ReduceExec(_, _, _, written) => written
  }

  ghost predicate AllFinished(job: Job, s: State) {
    forall t: nat :: t < NTasks(job, s.phase) ==> t in s.finished
  }

  ghost predicate CanWork(job: Job, s: State, e: Exec) {
    match e
    case MapExec(task, next) => next < job.nReduce && task < |job.inputs|
    case ReduceExec(task, next, _, written) =>
      if next < |job.inputs| then Inter(next, task) in s.files else !written
  }

  ghost predicate Enabled(job: Job, s: State, step: Step) {
    match step
    case Register => true
    case Assign(task, token) =>
      && task < NTasks(job, s.phase) && task < |job.inputs|
      && task !in s.finished && task !in s.held && token in s.idle
    case Work(e) => e < |s.execs| && CanWork(job, s, s.execs[e])
    case Reply(task) => task in s.held && s.held[task].exec < |s.execs| && Complete(job, s.execs[s.held[task].exec])
    case Fail(task) => task in s.held
    case Barrier => s.phase.Mapping? && AllFinished(job, s)
    case Merge(keys) =>
      && s.phase.Reducing? && AllFinished(job, s)
      && (forall r :: 0 <= r < job.nReduce ==> Res(r) in s.files)
      && Ascending(keys) && (forall k :: k in keys <==> k in MergedFiles(s.files, job.nReduce))
    case Panic(task) => task < NTasks(job, s.phase) && task >= |job.inputs|
  }

  /** One step of an execution, worker.go with doMap and doReduce: map tasks write
      their partitions in turn; reduce tasks read all map outputs, then write. */
  function Worked(job: Job, files: Files, e: Exec): (Files, Exec)
    requires job.nReduce >= 1
    requires e.MapExec? ==> e.task < |job.inputs|
    requires e.ReduceExec? && e.next < |job.inputs| ==> Inter(e.next, e.task) in files
  {
    match e
    case MapExec(task, next) =>
      (files[Inter(task, next) := Part(job, Mapped(job, task), next)], MapExec(task, next + 1))
    case ReduceExec(task, next, acc, written) =>
      if next < |job.inputs|
      then (files, ReduceExec(task, next + 1, acc + files[Inter(next, task)], written))
      else (files[Res(task) := GroupBy(acc, job.reduceF)], ReduceExec(task, next, acc, true))
  }

  /** The file that step writes, if any. */
  function Writes(job: Job, e: Exec): set<Name> {
    match e
    case MapExec(task, next) => {Inter(task, next)}
    case ReduceExec(task, next, _, _) => if next < |job.inputs| then {} else {Res(task)}
  }

  ghost function Next(job: Job, s: State, step: Step): State
    requires job.nReduce >= 1 && Enabled(job, s, step)
  {
    match step
    case Register => s.(idle := s.idle + {s.registered}, registered := s.registered + 1)
    case Assign(task, token) =>
      s.(idle := s.idle - {token}, held := s.held[task := Call(token, |s.execs|)],
         execs := s.execs + [Start(s.phase, task)])
    case Work(e) =>
      var (files, exec) := Worked(job, s.files, s.execs[e]);
      s.(files := files, written := s.written + Writes(job, s.execs[e]), execs := s.execs[e := exec])
    case Reply(task) =>
      s.(held := s.held - {task}, finished := s.finished + {task}, idle := s.idle + {s.held[task].token})
    case Fail(task) =>
      s.(held := s.held - {task}, dropped := s.dropped + {s.held[task].token})
    case Barrier => s.(phase := Reducing, finished := {})
    case Merge(keys) =>
      s.(phase := Merged, output := Some(Text(Listed(keys, MergedFiles(s.files, job.nReduce)))))
    case Panic(_) => s.(phase := Crashed)
  }

  // ---------- the invariant ----------

  /** The job has written the file. */
  ghost predicate Present(s: State, name: Name) {
    name in s.written
  }

  /** Every file the job has written has its specified content; every other file is as
      the job found it. */
  ghost predicate FilesInv(job: Job, s: State)
    requires job.nReduce >= 1
  {
    && (forall n :: n in s.written ==> (n.Inter? ==> n.m < |job.inputs|) && n in s.files && s.files[n] == Content(job, n))
    && (forall n :: n !in s.written ==> (n in s.files <==> n in s.initial.files))
    && (forall n :: n !in s.written && n in s.files && n in s.initial.files ==> s.files[n] == s.initial.files[n])
  }

  /** An execution has done what its position says. */
  ghost predicate ExecInv(job: Job, s: State, e: Exec)
    requires job.nReduce >= 1
  {
    match e
    case MapExec(task, next) =>
      task < |job.inputs| && next <= job.nReduce && forall r :: 0 <= r < next ==> Present(s, Inter(task, r))
    case ReduceExec(task, next, acc, written) =>
      && !s.phase.Mapping? && task < job.nReduce && next <= |job.inputs|
      && acc == Collected(job, next, task)
      && (written ==> Present(s, Res(task)))
  }

  ghost predicate AllPresent(job: Job, s: State) {
    forall m, r :: 0 <= m < |job.inputs| && 0 <= r < job.nReduce ==> Present(s, Inter(m, r))
  }

  ghost predicate AllResults(job: Job, s: State) {
    forall r :: 0 <= r < job.nReduce ==> Present(s, Res(r))
  }

  /** A finished task has left all its files. */
  ghost predicate FinishedInv(job: Job, s: State) {
    && (forall t :: t in s.finished ==> t < |job.inputs|)
    && (forall t, r :: t in s.finished && s.phase.Mapping? && 0 <= r < job.nReduce ==> Present(s, Inter(t, r)))
    && (forall t :: t in s.finished && !s.phase.Mapping? ==> t < job.nReduce && Present(s, Res(t)))
    && (!s.phase.Mapping? ==> AllPresent(job, s))
  }

  /** A call's execution is of its task and of the current phase. */
  ghost predicate CallInv(job: Job, s: State) {
    && (forall t :: t in s.held ==> t !in s.finished && t < |job.inputs| && s.held[t].exec < |s.execs|)
    && (forall t :: t in s.held ==> s.execs[s.held[t].exec].task == t)
    && (forall t :: t in s.held && s.phase.Mapping? ==> s.execs[s.held[t].exec].MapExec?)
    && (forall t :: t in s.held && !s.phase.Mapping? ==> t < job.nReduce && s.execs[s.held[t].exec].ReduceExec?)
  }

  /** Each registration's token is in exactly one place: waiting, held by one task,
      or dropped. */
  ghost predicate TokenInv(s: State) {
    && s.idle !! s.dropped
    && (forall t :: t in s.idle || t in s.dropped ==> t < s.registered)
    && (forall a :: a in s.held ==> s.held[a].token < s.registered && s.held[a].token !in s.idle && s.held[a].token !in s.dropped)
    && (forall a, b :: a in s.held && b in s.held && a != b ==> s.held[a].token != s.held[b].token)
    && |s.idle| + |s.held| + |s.dropped| == s.registered
  }

  /** Tasks completed so far, over both phases. */
  ghost function Completed(job: Job, s: State): nat {
    (if s.phase.Mapping? then 0 else |job.inputs|) + |s.finished|
  }

  ghost predicate OutputInv(job: Job, s: State) {
    && (!s.phase.Merged? ==> s.output == s.initial.output)
    && (s.phase.Merged? ==> s.output == Some(Text(Answer(job))) && job.nReduce <= |job.inputs| && AllResults(job, s))
  }

  ghost predicate ExecsInv(job: Job, s: State)
    requires job.nReduce >= 1
  {
    forall i :: 0 <= i < |s.execs| ==> ExecInv(job, s, s.execs[i])
  }

  ghost predicate Inv(job: Job, s: State)
    requires job.nReduce >= 1
  {
    && FilesInv(job, s)
    && ExecsInv(job, s)
    && FinishedInv(job, s)
    && CallInv(job, s)
    && TokenInv(s)
    && |s.execs| == Completed(job, s) + |s.held| + |s.dropped|
    && OutputInv(job, s)
  }

  // ---------- every step keeps the invariant ----------

  /** Executions stay right when files are only added and the map phase is not re-entered. */
  lemma ExecKept(job: Job, s: State, s': State, e: Exec)
    requires job.nReduce >= 1 && ExecInv(job, s, e)
    requires s.written <= s'.written && (s'.phase.Mapping? ==> s.phase.Mapping?)
    ensures ExecInv(job, s', e)
  {
    assert forall n :: Present(s, n) ==> Present(s', n);
  }

  lemma ExecsKept(job: Job, s: State, s': State)
    requires job.nReduce >= 1 && ExecsInv(job, s) && s'.execs == s.execs
    requires s.written <= s'.written && (s'.phase.Mapping? ==> s.phase.Mapping?)
    ensures ExecsInv(job, s')
  {
    hide ExecInv;
    forall i | 0 <= i < |s.execs| ensures ExecInv(job, s', s.execs[i]) {
      ExecKept(job, s, s', s.execs[i]);
    }
  }

  lemma FinishedKept(job: Job, s: State, s': State)
    requires FinishedInv(job, s) && s'.finished == s.finished
    requires s.written <= s'.written && (s'.phase.Mapping? <==> s.phase.Mapping?)
    ensures FinishedInv(job, s')
  {
    assert forall n :: Present(s, n) ==> Present(s', n);
  }

  lemma RegisterTokens(s: State, s': State)
    requires TokenInv(s) && s'.idle == s.idle + {s.registered} && s'.registered == s.registered + 1
    requires s'.held == s.held && s'.dropped == s.dropped
    ensures TokenInv(s')
  {
    assert s.registered !in s.idle;
  }

  lemma CallsKept(job: Job, s: State, s': State)
    requires CallInv(job, s) && s'.held == s.held && s'.execs == s.execs && s'.finished == s.finished
    requires s'.phase.Mapping? <==> s.phase.Mapping?
    ensures CallInv(job, s')
  {
  }

  lemma RegisterInv(job: Job, s: State)
    requires job.nReduce >= 1 && Inv(job, s)
    ensures Inv(job, Next(job, s, Register))
  {
    hide ExecsInv, FinishedInv, CallInv, TokenInv, FilesInv, OutputInv;
    var s' := Next(job, s, Register);
    RegisterTokens(s, s');
    CallsKept(job, s, s');
    ExecsKept(job, s, s');
    FinishedKept(job, s, s');
    SameFiles(job, s, s');
  }

  lemma AssignTokens(s: State, s': State, task: nat, token: nat, e: nat)
    requires TokenInv(s) && task !in s.held && token in s.idle
    requires s'.idle == s.idle - {token} && s'.held == s.held[task := Call(token, e)]
    requires s'.dropped == s.dropped && s'.registered == s.registered
    ensures TokenInv(s') && |s'.held| == |s.held| + 1
  {
    assert |s'.held| == |s.held| + 1 by { assert s'.held.Keys == s.held.Keys + {task}; }
    forall a | a in s'.held
      ensures s'.held[a].token < s'.registered && s'.held[a].token !in s'.idle && s'.held[a].token !in s'.dropped
    {
      assert a != task ==> a in s.held;
    }
    forall a, b | a in s'.held && b in s'.held && a != b ensures s'.held[a].token != s'.held[b].token {
      assert a != task ==> a in s.held;
      assert b != task ==> b in s.held;
    }
  }

  lemma AssignCalls(job: Job, s: State, s': State, task: nat, token: nat)
    requires CallInv(job, s) && Enabled(job, s, Assign(task, token))
    requires s'.held == s.held[task := Call(token, |s.execs|)] && s'.execs == s.execs + [Start(s.phase, task)]
    requires s'.finished == s.finished && s'.phase == s.phase
    ensures CallInv(job, s')
  {
  }

  lemma AssignInv(job: Job, s: State, task: nat, token: nat)
    requires job.nReduce >= 1 && Inv(job, s) && Enabled(job, s, Assign(task, token))
    ensures Inv(job, Next(job, s, Assign(task, token)))
  {
    hide FinishedInv, TokenInv, CallInv, ExecInv, FilesInv, OutputInv;
    var s' := Next(job, s, Assign(task, token));
    AssignTokens(s, s', task, token, |s.execs|);
    AssignCalls(job, s, s', task, token);
    FinishedKept(job, s, s');
    forall i | 0 <= i < |s'.execs| ensures ExecInv(job, s', s'.execs[i]) {
      if i < |s.execs| { ExecKept(job, s, s', s.execs[i]); } else { StartInv(job, s', task); }
    }
    SameFiles(job, s, s');
  }

  lemma StartInv(job: Job, s: State, task: nat)
    requires job.nReduce >= 1 && task < NTasks(job, s.phase)
    ensures ExecInv(job, s, Start(s.phase, task))
  {
  }

  lemma SameFiles(job: Job, s: State, s': State)
    requires job.nReduce >= 1 && FilesInv(job, s) && OutputInv(job, s)
    requires s'.files == s.files && s'.written == s.written && s'.initial == s.initial && s'.output == s.output
    ensures FilesInv(job, s') && (s'.phase == s.phase ==> OutputInv(job, s'))
  {
    assert forall n :: Present(s, n) <==> Present(s', n);
  }

  lemma MapWorked(job: Job, s: State, task: nat, next: nat)
    requires job.nReduce >= 1 && FilesInv(job, s) && task < |job.inputs| && next < job.nReduce
    requires forall r :: 0 <= r < next ==> Present(s, Inter(task, r))
    ensures var s' := s.(files := s.files[Inter(task, next) := Part(job, Mapped(job, task), next)], written := s.written + {Inter(task, next)});
      FilesInv(job, s') && forall r :: 0 <= r < next + 1 ==> Present(s', Inter(task, r))
  {
    hide Part, Mapped;
  }

  lemma ReduceWorked(job: Job, s: State, task: nat)
    requires job.nReduce >= 1 && FilesInv(job, s)
    ensures var s' := s.(files := s.files[Res(task) := Result(job, task)], written := s.written + {Res(task)});
      FilesInv(job, s') && Present(s', Res(task))
  {
    hide Part, Mapped, Result;
  }

  /** The file an execution writes next has its specified content. */
  lemma WorkedContent(job: Job, s: State, e: Exec)
    requires job.nReduce >= 1 && FilesInv(job, s) && ExecInv(job, s, e) && CanWork(job, s, e)
    requires !s.phase.Mapping? ==> AllPresent(job, s)
    ensures var (files, exec) := Worked(job, s.files, e); var s' := s.(files := files, written := s.written + Writes(job, e));
      && FilesInv(job, s')
      && ExecInv(job, s', exec)
      && exec.task == e.task && (exec.MapExec? <==> e.MapExec?)
  {
    hide Part, Mapped, GroupBy;
    match e
    case MapExec(task, next) =>
      MapWorked(job, s, task, next);
    case ReduceExec(task, next, acc, written) =>
      if next < |job.inputs| {
        assert Present(s, Inter(next, task));
        assert s.(files := s.files, written := s.written + {}) == s;
      } else {
        ReduceWorked(job, s, task);
      }
  }

  lemma WorkCalls(job: Job, s: State, s': State, e: nat, exec: Exec)
    requires CallInv(job, s) && e < |s.execs| && s' == s.(files := s'.files, written := s'.written, execs := s.execs[e := exec])
    requires exec.task == s.execs[e].task && (exec.MapExec? <==> s.execs[e].MapExec?)
    ensures CallInv(job, s')
  {
  }

  lemma WorkInv(job: Job, s: State, e: nat)
    requires job.nReduce >= 1 && Inv(job, s) && Enabled(job, s, Work(e))
    ensures Inv(job, Next(job, s, Work(e)))
  {
    hide FinishedInv, CallInv, ExecInv, FilesInv, Worked, Writes, TokenInv, OutputInv;
    var s' := Next(job, s, Work(e));
    IntermediatesKept(job, s);
    WorkedContent(job, s, s.execs[e]);
    var (files, exec) := Worked(job, s.files, s.execs[e]);
    WorkCalls(job, s, s', e, exec);
    FinishedKept(job, s, s');
    WorkedFrame(job, s.(files := files, written := s'.written), s', exec);
    OutputKept(job, s, s');
    BarrierTokens(s, s');
    forall i | 0 <= i < |s'.execs| ensures ExecInv(job, s', s'.execs[i]) {
      if i != e { ExecKept(job, s, s', s.execs[i]); }
    }
  }

  lemma IntermediatesKept(job: Job, s: State)
    requires FinishedInv(job, s)
    ensures !s.phase.Mapping? ==> AllPresent(job, s)
  {
  }

  lemma OutputKept(job: Job, s: State, s': State)
    requires OutputInv(job, s) && s.written <= s'.written && s'.phase == s.phase && s'.output == s.output && s'.initial == s.initial
    ensures OutputInv(job, s')
  {
    assert forall n :: Present(s, n) ==> Present(s', n);
  }

  lemma WorkedFrame(job: Job, s: State, s': State, exec: Exec)
    requires job.nReduce >= 1 && FilesInv(job, s) && ExecInv(job, s, exec) && s'.files == s.files && s'.phase == s.phase
    requires s'.written == s.written && s'.initial == s.initial
    ensures FilesInv(job, s') && ExecInv(job, s', exec)
  {
    ExecKept(job, s, s', exec);
  }

  lemma ReturnCalls(job: Job, s: State, s': State, task: nat)
    requires CallInv(job, s) && task in s.held && s'.held == s.held - {task}
    requires s'.execs == s.execs && s'.phase == s.phase && s'.finished <= s.finished + {task}
    ensures CallInv(job, s') && |s'.held| == |s.held| - 1
  {
    assert s'.held.Keys == s.held.Keys - {task};
  }

  lemma ReturnTokens(s: State, s': State, task: nat)
    requires TokenInv(s) && task in s.held && s'.held == s.held - {task} && s'.registered == s.registered
    requires || (s'.idle == s.idle + {s.held[task].token} && s'.dropped == s.dropped)
             || (s'.idle == s.idle && s'.dropped == s.dropped + {s.held[task].token})
    ensures TokenInv(s')
  {
    assert s'.held.Keys == s.held.Keys - {task};
  }

  /** When a call succeeds its task's files are all there. */
  lemma ReplyFinished(job: Job, s: State, s': State, task: nat)
    requires job.nReduce >= 1 && FinishedInv(job, s) && CallInv(job, s) && Enabled(job, s, Reply(task))
    requires ExecInv(job, s, s.execs[s.held[task].exec])
    requires s'.finished == s.finished + {task} && s'.written == s.written && s'.phase == s.phase
    ensures FinishedInv(job, s') && task !in s.finished
  {
    assert forall n :: Present(s, n) <==> Present(s', n);
  }

  lemma ReplyInv(job: Job, s: State, task: nat)
    requires job.nReduce >= 1 && Inv(job, s) && Enabled(job, s, Reply(task))
    ensures Inv(job, Next(job, s, Reply(task)))
  {
    hide FinishedInv, CallInv, ExecInv, FilesInv, TokenInv, OutputInv;
    var s' := Next(job, s, Reply(task));
    ReplyFinished(job, s, s', task);
    ReturnCalls(job, s, s', task);
    ReturnTokens(s, s', task);
    ExecsKept(job, s, s');
    SameFiles(job, s, s');
  }

  lemma FailInv(job: Job, s: State, task: nat)
    requires job.nReduce >= 1 && Inv(job, s) && Enabled(job, s, Fail(task))
    ensures Inv(job, Next(job, s, Fail(task)))
  {
    hide FinishedInv, CallInv, ExecInv, FilesInv, OutputInv;
    var s' := Next(job, s, Fail(task));
    FinishedKept(job, s, s');
    ReturnCalls(job, s, s', task);
    ReturnTokens(s, s', task);
    ExecsKept(job, s, s');
    SameFiles(job, s, s');
  }

  lemma {:induction false} BelowSize(s: set<nat>, n: nat)
    requires forall t :: t in s ==> t < n
    ensures |s| <= n
    ensures (forall t: nat :: t < n ==> t in s) ==> |s| == n
  {
    if n == 0 {
      if s != {} { SomeBelow(s, n); }
    } else if n - 1 in s {
      BelowSize(s - {n - 1}, n - 1);
    } else {
      BelowSize(s, n - 1);
      assert !(forall t: nat :: t < n ==> t in s) by { assert n - 1 < n; }
    }
  }

  lemma SomeBelow(s: set<nat>, n: nat)
    requires s != {} && forall t :: t in s ==> t < n
    ensures n > 0
  {
    var t := Tiling.Pick(s);
  }

  /** When all tasks of a phase have finished no call is left. */
  lemma NoCalls(job: Job, s: State)
    requires job.nReduce >= 1 && CallInv(job, s) && AllFinished(job, s) && (s.phase.Mapping? || s.phase.Reducing?)
    ensures s.held == map[]
  {
    assert forall t :: t in s.held ==> t < NTasks(job, s.phase) && t in s.finished;
    assert s.held.Keys == {};
  }

  /** The barrier opens only on a complete set of intermediate files. */
  lemma BarrierInv(job: Job, s: State)
    requires job.nReduce >= 1 && Inv(job, s) && Enabled(job, s, Barrier)
    ensures Inv(job, Next(job, s, Barrier)) && AllPresent(job, s)
  {
    hide ExecInv, FilesInv, OutputInv, TokenInv;
    var s' := Next(job, s, Barrier);
    NoCalls(job, s);
    assert forall n :: Present(s, n) <==> Present(s', n);
    BelowSize(s.finished, |job.inputs|);
    ExecsKept(job, s, s');
    SameFiles(job, s, s');
    BarrierOutput(job, s, s');
    BarrierTokens(s, s');
  }

  lemma BarrierOutput(job: Job, s: State, s': State)
    requires OutputInv(job, s) && s.phase.Mapping? && s'.phase.Reducing? && s'.output == s.output && s'.initial == s.initial
    ensures OutputInv(job, s')
  {
  }

  lemma BarrierTokens(s: State, s': State)
    requires TokenInv(s) && s'.idle == s.idle && s'.held == s.held && s'.dropped == s.dropped && s'.registered == s.registered
    ensures TokenInv(s')
  {
  }

  /** When all reduce tasks have finished, all result files are there. */
  lemma ResultsComplete(job: Job, s: State)
    requires FinishedInv(job, s) && s.phase.Reducing? && AllFinished(job, s)
    ensures AllResults(job, s)
  {
    forall r | 0 <= r < job.nReduce ensures Present(s, Res(r)) {
      assert r in s.finished;
    }
  }

  /** What merge writes at the end of the reduce phase is the answer. */
  lemma MergeOutput(job: Job, s: State, keys: seq<string>)
    requires job.nReduce >= 1 && FilesInv(job, s) && FinishedInv(job, s) && Enabled(job, s, Merge(keys))
    ensures Next(job, s, Merge(keys)).output == Some(Text(Answer(job))) && exists cuts :: Lines(Text(Answer(job)), Answer(job), cuts)
  {
    hide Lines;
    var cuts := TextLines(Answer(job));
    ResultsComplete(job, s);
    hide FinishedInv;
    forall r | 0 <= r < job.nReduce ensures Res(r) in s.files && s.files[Res(r)] == Result(job, r) {
      assert Present(s, Res(r));
    }
    MergedFilesIsMap(job, s.files, job.nReduce);
    MergeIsAnswer(job, keys);
  }

  /** All reduce tasks can finish only if the master can index its input files by
      reduce task number. */
  lemma MergeCount(job: Job, s: State)
    requires FinishedInv(job, s) && s.phase.Reducing? && AllFinished(job, s)
    ensures job.nReduce <= |job.inputs|
  {
    BelowSize(s.finished, job.nReduce);
    BelowSize(s.finished, |job.inputs|);
  }

  lemma MergeInv(job: Job, s: State, keys: seq<string>)
    requires job.nReduce >= 1 && Inv(job, s) && Enabled(job, s, Merge(keys))
    ensures Inv(job, Next(job, s, Merge(keys)))
  {
    hide ExecsInv, ExecInv, FilesInv, TokenInv, FinishedInv, CallInv;
    var s' := Next(job, s, Merge(keys));
    MergeOutput(job, s, keys);
    ResultsComplete(job, s);
    assert AllResults(job, s') by { assert forall n :: Present(s, n) <==> Present(s', n); }
    MergeCount(job, s);
    CallsKept(job, s, s');
    ExecsKept(job, s, s');
    FinishedKept(job, s, s');
    MergeFiles(job, s, s');
    BarrierTokens(s, s');
  }

  lemma MergeFiles(job: Job, s: State, s': State)
    requires job.nReduce >= 1 && FilesInv(job, s) && s'.files == s.files && s'.written == s.written && s'.initial == s.initial
    ensures FilesInv(job, s')
  {
  }

  lemma PanicInv(job: Job, s: State, task: nat)
    requires job.nReduce >= 1 && Inv(job, s) && Enabled(job, s, Panic(task))
    ensures Inv(job, Next(job, s, Panic(task)))
  {
    hide ExecsInv, ExecInv, FilesInv, TokenInv, FinishedInv, CallInv;
    var s' := Next(job, s, Panic(task));
    CallsKept(job, s, s');
    ExecsKept(job, s, s');
    FinishedKept(job, s, s');
    MergeFiles(job, s, s');
    BarrierTokens(s, s');
  }

  lemma StepInv(job: Job, s: State, step: Step)
    requires job.nReduce >= 1 && Inv(job, s) && Enabled(job, s, step)
    ensures Inv(job, Next(job, s, step))
  {
    hide Inv, Enabled, Next;
    match step
    case Register => RegisterInv(job, s);
    case Assign(task, token) => AssignInv(job, s, task, token);
    case Work(e) => WorkInv(job, s, e);
    case Reply(task) => ReplyInv(job, s, task);
    case Fail(task) => FailInv(job, s, task);
    case Barrier => BarrierInv(job, s);
    case Merge(keys) => MergeInv(job, s, keys);
    case Panic(task) => PanicInv(job, s, task);
  }

  // ---------- whole runs ----------

  /** Each step of the run is enabled when it is taken. */
  ghost predicate Runs(job: Job, s: State, steps: seq<Step>)
    requires job.nReduce >= 1
    decreases |steps|
  {
    steps == [] || (Enabled(job, s, steps[0]) && Runs(job, Next(job, s, steps[0]), steps[1..]))
  }

  ghost function After(job: Job, s: State, steps: seq<Step>): State
    requires job.nReduce >= 1 && Runs(job, s, steps)
    decreases |steps|
  {
    if steps == [] then s else After(job, Next(job, s, steps[0]), steps[1..])
  }

  lemma {:induction false} RunsInv(job: Job, s: State, steps: seq<Step>)
    requires job.nReduce >= 1 && Runs(job, s, steps) && Inv(job, s)
    ensures Inv(job, After(job, s, steps))
    decreases |steps|
  {
    hide Inv, Enabled, Next;
    if steps != [] {
      StepInv(job, s, steps[0]);
      RunsInv(job, Next(job, s, steps[0]), steps[1..]);
    }
  }

  lemma InitInv(job: Job, disk: Disk)
    requires job.nReduce >= 1
    ensures Inv(job, Init(disk))
  {
  }

  lemma {:induction false} InitialKept(job: Job, s: State, steps: seq<Step>)
    requires job.nReduce >= 1 && Runs(job, s, steps)
    ensures After(job, s, steps).initial == s.initial
    decreases |steps|
  {
    hide Enabled, Worked;
    if steps != [] { InitialKept(job, Next(job, s, steps[0]), steps[1..]); }
  }

  /** Every distributed run, whatever files the job finds: files are as found or right
      throughout, the intermediate files are complete once the map barrier has opened
      and the result files once the reduce barrier can open, and the merged output, if
      reached, is the sequential answer. */
  lemma DistributedIsSequential(job: Job, disk: Disk, steps: seq<Step>)
    requires job.nReduce >= 1 && Runs(job, Init(disk), steps)
    ensures var s := After(job, Init(disk), steps);
      && s.initial == disk && FilesInv(job, s)
      && (!s.phase.Mapping? ==> AllPresent(job, s))
      && (s.phase.Reducing? && AllFinished(job, s) ==> AllResults(job, s))
      && (s.phase.Merged? ==> AllResults(job, s) && s.output == Some(Text(Answer(job))))
      && (s.phase.Merged? ==> exists cuts :: Lines(s.output.value, Answer(job), cuts))
      && (!s.phase.Merged? ==> s.output == disk.output)
      && (s.phase.Merged? ==> job.nReduce <= |job.inputs|)
  {
    hide Lines;
    var cuts := TextLines(Answer(job));
    InitInv(job, disk);
    RunsInv(job, Init(disk), steps);
    InitialKept(job, Init(disk), steps);
    var s := After(job, Init(disk), steps);
    if s.phase.Reducing? && AllFinished(job, s) { ResultsComplete(job, s); }
  }

  /** Worker tokens are conserved and calls are bounded by all tasks plus all
      registrations. */
  lemma TokensConserved(job: Job, disk: Disk, steps: seq<Step>)
    requires job.nReduce >= 1 && Runs(job, Init(disk), steps)
    ensures var s := After(job, Init(disk), steps);
      && TokenInv(s)
      && |s.execs| <= |job.inputs| + job.nReduce + s.registered
  {
    InitInv(job, disk);
    RunsInv(job, Init(disk), steps);
    var s := After(job, Init(disk), steps);
    BelowSize(s.finished, if s.phase.Mapping? then |job.inputs| else job.nReduce);
  }

  // ---------- a run can always be completed ----------

  lemma {:induction false} RunsConcat(job: Job, s: State, a: seq<Step>, b: seq<Step>)
    requires job.nReduce >= 1 && Runs(job, s, a) && Runs(job, After(job, s, a), b)
    ensures Runs(job, s, a + b) && After(job, s, a + b) == After(job, After(job, s, a), b)
    decreases |a|
  {
    hide Enabled, Next;
    if a == [] {
      assert a + b == b;
    } else {
      RunsConcat(job, Next(job, s, a[0]), a[1..], b);
      assert (a + b)[0] == a[0] && (a + b)[1..] == a[1..] + b;
    }
  }

  lemma OneStep(job: Job, s: State, step: Step, rest: seq<Step>)
    requires job.nReduce >= 1 && Enabled(job, s, step) && Runs(job, Next(job, s, step), rest)
    ensures Runs(job, s, [step] + rest) && After(job, s, [step] + rest) == After(job, Next(job, s, step), rest)
  {
    hide Enabled, Next;
    assert ([step] + rest)[1..] == rest;
  }

  function Remaining(job: Job, e: Exec): int {
    match e
    case MapExec(_, next) => job.nReduce - next
    case ReduceExec(_, next, _, written) => |job.inputs| - next + (if written then 0 else 1)
  }

  /** How far task t is from finishing: it must get a worker, then work. */
  ghost function Distance(job: Job, s: State, t: nat): int {
    if t in s.held && s.held[t].exec < |s.execs| then Remaining(job, s.execs[s.held[t].exec]) else 0
  }

  ghost function Stage(s: State, t: nat): nat {
    if t in s.held then 0 else if s.idle != {} then 1 else 2
  }

  /** Step brings task t nearer to finishing. */
  ghost predicate Nearer(job: Job, s: State, s': State, t: nat) {
    && s'.phase == s.phase && s.finished <= s'.finished
    && (t in s'.finished
        || (s'.finished == s.finished
            && (Stage(s', t) < Stage(s, t) || (Stage(s', t) == Stage(s, t) && 0 <= Distance(job, s', t) < Distance(job, s, t)))))
  }

  /** The execution behind a call that has not completed can go on. */
  lemma WorkProgress(job: Job, s: State, t: nat)
    requires job.nReduce >= 1 && FilesInv(job, s) && FinishedInv(job, s) && CallInv(job, s) && t in s.held
    requires var e := s.execs[s.held[t].exec]; ExecInv(job, s, e) && !Complete(job, e)
    ensures Enabled(job, s, Work(s.held[t].exec)) && Nearer(job, s, Next(job, s, Work(s.held[t].exec)), t)
  {
    hide Part, Mapped, GroupBy, Collected;
    var e := s.execs[s.held[t].exec];
    assert e.ReduceExec? && e.next < |job.inputs| ==> Present(s, Inter(e.next, t));
  }

  lemma AssignProgress(job: Job, s: State, t: nat) returns (step: Step)
    requires job.nReduce >= 1 && job.nReduce <= |job.inputs|
    requires t < NTasks(job, s.phase) && t !in s.finished && t !in s.held
    ensures Enabled(job, s, step) && Nearer(job, s, Next(job, s, step), t)
  {
    if s.idle != {} {
      step := Assign(t, Tiling.Pick(s.idle));
    } else {
      step := Register;
      assert s.registered in Next(job, s, step).idle;
    }
  }

  /** Some step brings an unfinished task nearer to finishing. */
  lemma Progress(job: Job, s: State, t: nat) returns (step: Step)
    requires job.nReduce >= 1 && Inv(job, s) && job.nReduce <= |job.inputs|
    requires t < NTasks(job, s.phase) && t !in s.finished
    ensures Enabled(job, s, step) && Nearer(job, s, Next(job, s, step), t)
  {
    hide FilesInv, TokenInv, OutputInv, FinishedInv, ExecInv;
    if t !in s.held {
      step := AssignProgress(job, s, t);
    } else if Complete(job, s.execs[s.held[t].exec]) {
      step := Reply(t);
    } else {
      step := Work(s.held[t].exec);
      WorkProgress(job, s, t);
    }
  }

  lemma {:induction false} FinishTask(job: Job, s: State, t: nat) returns (steps: seq<Step>)
    requires job.nReduce >= 1 && Inv(job, s) && job.nReduce <= |job.inputs|
    requires t < NTasks(job, s.phase) && t !in s.finished
    ensures Runs(job, s, steps)
    ensures var s' := After(job, s, steps); s'.phase == s.phase && s.finished + {t} <= s'.finished
    decreases Stage(s, t), Distance(job, s, t)
  {
    hide Inv, Enabled, Next, Stage, Distance;
    var step := Progress(job, s, t);
    StepInv(job, s, step);
    var s' := Next(job, s, step);
    var rest: seq<Step> := [];
    if t !in s'.finished {
      rest := FinishTask(job, s', t);
    }
    OneStep(job, s, step, rest);
    steps := [step] + rest;
  }

  lemma {:induction false} KeysExist(all: set<string>) returns (keys: seq<string>)
    ensures Ascending(keys) && forall k :: k in keys <==> k in all
    decreases all
  {
    if all == {} {
      keys := [];
    } else {
      var k := Tiling.Pick(all);
      keys := KeysExist(all - {k});
      InsertAscending(k, keys);
      keys := Insert(k, keys);
    }
  }

  lemma {:induction false} FinishPhase(job: Job, s: State) returns (steps: seq<Step>)
    requires job.nReduce >= 1 && Inv(job, s) && job.nReduce <= |job.inputs|
    ensures Runs(job, s, steps)
    ensures var s' := After(job, s, steps); s'.phase == s.phase && AllFinished(job, s')
    decreases NTasks(job, s.phase) - |s.finished|
  {
    hide Inv, Enabled, Next;
    if AllFinished(job, s) {
      steps := [];
    } else {
      var t: nat :| t < NTasks(job, s.phase) && t !in s.finished;
      var first := FinishTask(job, s, t);
      RunsInv(job, s, first);
      var s' := After(job, s, first);
      FinishedBound(job, s');
      BiggerSet(s.finished, s'.finished, t);
      var rest := FinishPhase(job, s');
      RunsConcat(job, s, first, rest);
      steps := first + rest;
    }
  }

  lemma FinishedBound(job: Job, s: State)
    requires job.nReduce >= 1 && Inv(job, s) && job.nReduce <= |job.inputs| && NTasks(job, s.phase) > 0
    ensures |s.finished| <= NTasks(job, s.phase)
  {
    BelowSize(s.finished, NTasks(job, s.phase));
  }

  lemma BiggerSet(a: set<nat>, b: set<nat>, t: nat)
    requires a + {t} <= b && t !in a
    ensures |a| < |b|
  {
    assert b == (a + {t}) + (b - (a + {t}));
  }

  /** From every reachable state of a job the master can index, some continuation
      of the run produces the merged output. */
  lemma CanFinish(job: Job, s: State) returns (steps: seq<Step>)
    requires job.nReduce >= 1 && Inv(job, s) && job.nReduce <= |job.inputs| && (s.phase.Mapping? || s.phase.Reducing?)
    ensures Runs(job, s, steps) && After(job, s, steps).phase.Merged?
    decreases s.phase.Mapping?
  {
    var first := FinishPhase(job, s);
    RunsInv(job, s, first);
    var s' := After(job, s, first);
    var step, rest: seq<Step> := Barrier, [];
    if s'.phase.Mapping? {
      StepInv(job, s', Barrier);
      rest := CanFinish(job, Next(job, s', Barrier));
    } else {
      var keys := MergeReady(job, s');
      step := Merge(keys);
    }
    hide Inv, Enabled, Next;
    OneStep(job, s', step, rest);
    RunsConcat(job, s, first, [step] + rest);
    steps := first + ([step] + rest);
  }

  lemma ResultsOnDisk(job: Job, s: State)
    requires job.nReduce >= 1 && FilesInv(job, s) && AllResults(job, s)
    ensures forall r :: 0 <= r < job.nReduce ==> Res(r) in s.files
  {
    forall r | 0 <= r < job.nReduce ensures Res(r) in s.files {
      assert Present(s, Res(r));
    }
  }

  lemma MergeReady(job: Job, s: State) returns (keys: seq<string>)
    requires job.nReduce >= 1 && Inv(job, s) && s.phase.Reducing? && AllFinished(job, s)
    ensures Enabled(job, s, Merge(keys))
  {
    hide ExecsInv, CallInv, TokenInv, OutputInv, FilesInv, FinishedInv;
    ResultsComplete(job, s);
    ResultsOnDisk(job, s);
    keys := KeysExist(MergedFiles(s.files, job.nReduce).Keys);
  }

  ghost predicate Completes(job: Job, disk: Disk, steps: seq<Step>)
    requires job.nReduce >= 1
  {
    Runs(job, Init(disk), steps) && After(job, Init(disk), steps).phase.Merged?
  }

  /** A distributed run of the job can complete exactly when there are at least as
      many input files as reduce tasks: schedule.go:36 indexes the input files by
      reduce task number too. */
  lemma CompletesIff(job: Job, disk: Disk)
    requires job.nReduce >= 1
    ensures (exists steps :: Completes(job, disk, steps)) <==> job.nReduce <= |job.inputs|
  {
    hide Inv, Enabled, Next;
    if job.nReduce <= |job.inputs| {
      InitInv(job, disk);
      var steps := CanFinish(job, Init(disk));
      assert Completes(job, disk, steps);
    }
    if exists steps :: Completes(job, disk, steps) {
      var steps :| Completes(job, disk, steps);
      DistributedIsSequential(job, disk, steps);
    }
  }
}
