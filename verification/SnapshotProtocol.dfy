/** shard/worker.rs and shard/persistence/writer.rs: how snapshots reach the disk, step by step and crash by crash. */
module SnapshotProtocol {
  import opened Prelude
  import opened Messages
  import opened WallClock
  import opened Format
  import opened ShardSpec
  import opened ShardRuns
  import opened Snapshot
  import opened SnapshotFiles

  /** One call of serialize_shard: the shard it saw, the order it walked the map in, what its clocks read. */
  datatype Save = Save(state: State, walk: seq<Key>, clock: SaveClock, timestamp: nat)

  /** What does not change: the shard's number, the checksum, and shard{N}.snap as it was at the start. */
  datatype Setup = Setup(id: nat, crc: Checksum, start: Option<Bytes>)

  ghost predicate IsSave(save: Save) {
    IsWalk(save.walk, save.state.data.Keys) && forall k :: k in save.walk ==> k in save.state.data
  }

  ghost function FileOf(u: Setup, save: Save): Bytes
    requires IsSave(save)
  {
    SaveFile(u.id, save.state.data, save.walk, save.clock, save.timestamp, u.crc)
  }

  /** A file on disk; until it is synced, a crash may leave anything in it. */
  datatype File = File(content: Bytes, synced: bool)

  /** What shard{N}.snap has named, and which save it came from. */
  datatype Version = Version(file: File, source: Option<nat>)

  /** A request for the writer: which save it came from, and the bytes it carries. */
  datatype Job = Job(index: nat, data: Bytes)

  datatype Outcome = Outcome(index: nat, installed: bool)

  datatype Worker = Serving | Stopped | Down

  datatype Writer =
    | Idle
    | Creating(job: Job)
    | Writing(job: Job, done: nat)
    | Renaming(job: Job)
    | Gone

  datatype System = System(
    shard: State,
    worker: Worker,
    saves: seq<Save>,          // every serialize_shard call so far, across restarts
    queue: seq<Job>,           // the snapshot channel
    writer: Writer,
    temp: Option<File>,        // shard{N}.snap.tmp
    versions: seq<Version>,    // shard{N}.snap, oldest name first; the last one is what it names now
    flushed: nat,              // how many of the versions no crash can undo
    accepted: seq<nat>,        // the saves the channel took, since the last restart
    finished: seq<Outcome>)    // what became of them

  datatype Action =
    | Serve(event: Event, post: State)
    | Trigger(save: Save)
    | Stop(save: Save)
    | Receive
    | End
    | Create
    | WriteSome(upTo: nat)
    | Sync
    | Rename
    | Fail
    | Abort
    | Flush(upTo: nat)
    | Crash(kept: nat, after: seq<Version>, left: Option<File>)
    | Restart(left: Option<File>)

  ghost predicate Init(u: Setup, s: System) {
    && s.shard == New() && s.worker == Serving
    && s.saves == [] && s.queue == [] && s.writer == Idle && s.accepted == [] && s.finished == []
    && s.versions == (if u.start.Some? then [Version(File(u.start.value, true), None)] else [])
    && s.flushed == |s.versions|
  }

  /** trigger_snapshot: the shard is serialised, and try_send drops the result if the channel is full or closed. */
  ghost predicate Triggers(u: Setup, s: System, save: Save, t: System) {
    && save.state == s.shard && IsSave(save)
    && var index := |s.saves|;
       if s.writer == Gone || |s.queue| >= SNAPSHOT_CHANNEL_CAPACITY then
         t == s.(saves := s.saves + [save], worker := t.worker)
       else
         t == s.(saves := s.saves + [save], worker := t.worker,
                 queue := s.queue + [Job(index, FileOf(u, save))], accepted := s.accepted + [index])
  }

  ghost predicate Survived(v: Version, w: Version) {
    w.source == v.source && w.file.synced && (v.file.synced ==> w.file == v.file)
  }

  ghost predicate Next(u: Setup, s: System, action: Action, t: System) {
    match action
    case Serve(event, post) => s.worker == Serving && Step(s.shard, event, post) && t == s.(shard := post)
    case Trigger(save) => s.worker == Serving && t.worker == Serving && Triggers(u, s, save, t)
    // the command channel closed: one last snapshot, and the sender goes
    case Stop(save) => s.worker == Serving && t.worker == Stopped && Triggers(u, s, save, t)
    case Receive =>
      && s.writer == Idle && s.queue != []
      && t == s.(queue := s.queue[1..], writer := Creating(s.queue[0]))
    case End =>
      && s.writer == Idle && s.queue == [] && s.worker == Stopped
      && t == s.(writer := Gone)
    case Create =>
      && s.writer.Creating?
      && t == s.(writer := Writing(s.writer.job, 0), temp := Some(File([], false)))
    case WriteSome(upTo) =>
      && s.writer.Writing? && s.writer.done <= upTo <= |s.writer.job.data| && s.temp.Some?
      && t == s.(writer := Writing(s.writer.job, upTo),
                 temp := Some(File(s.temp.value.content + s.writer.job.data[s.writer.done..upTo], false)))
    case Sync =>
      && s.writer.Writing? && s.writer.done == |s.writer.job.data| && s.temp.Some?
      && t == s.(writer := Renaming(s.writer.job), temp := Some(s.temp.value.(synced := true)))
    case Rename =>
      && s.writer.Renaming? && s.temp.Some?
      && t == s.(writer := Idle, temp := None,
                 versions := s.versions + [Version(s.temp.value, Some(s.writer.job.index))],
                 finished := s.finished + [Outcome(s.writer.job.index, true)])
    // create, write, sync or rename fails, or the blocking task panics: the temporary file stays as it is
    case Fail =>
      && (s.writer.Creating? || s.writer.Writing? || s.writer.Renaming?)
      && t == s.(writer := Idle, finished := s.finished + [Outcome(s.writer.job.index, false)])
    // the writer's own task is lost, and its end of the channel with it
    case Abort => s.writer == Idle && t == s.(writer := Gone, queue := [], finished := s.finished + Dropped(s.queue))
    case Flush(upTo) => s.flushed <= upTo <= |s.versions| && t == s.(flushed := upTo)
    // renames not yet flushed may be undone, and unsynced files may hold anything
    case Crash(kept, after, left) =>
      && s.flushed <= kept <= |s.versions| && |after| == kept
      && (forall i :: 0 <= i < kept ==> Survived(s.versions[i], after[i]))
      && t == s.(shard := New(), worker := Down, queue := [], writer := Gone, temp := left, versions := after,
                 flushed := kept, accepted := [], finished := [])
    // cleanup_temp_files, which ignores failures; then a new, empty shard
    case Restart(left) =>
      && s.worker == Down && (left == None || left == s.temp)
      && t == s.(shard := New(), worker := Serving, writer := Idle, temp := left)
  }

  function Dropped(queue: seq<Job>): seq<Outcome> {
    if queue == [] then [] else [Outcome(queue[0].index, false)] + Dropped(queue[1..])
  }

  // ---------- the invariant ----------

  /** The jobs not finished yet, in the order they will be. */
  function Pending(s: System): seq<Job> {
    (match s.writer
     case Creating(job) => [job]
     case Writing(job, _) => [job]
     case Renaming(job) => [job]
     case _ => [])
    + s.queue
  }

  ghost predicate JobOk(u: Setup, saves: seq<Save>, job: Job) {
    job.index < |saves| && IsSave(saves[job.index]) && job.data == FileOf(u, saves[job.index])
  }

  /** A complete file: the start's, or all the bytes of one save. */
  ghost predicate Complete(u: Setup, saves: seq<Save>, v: Version) {
    && v.file.synced
    && match v.source
       case None => u.start == Some(v.file.content)
       case Some(i) => JobOk(u, saves, Job(i, v.file.content))
  }

  /** An earlier version comes from an earlier save; the start file comes before all of them. */
  ghost predicate Older(v: Version, w: Version) {
    w.source.Some? && (v.source.Some? ==> v.source.value < w.source.value)
  }

  /** The temporary file holds what the writer has put there. */
  ghost predicate TempOk(s: System) {
    match s.writer
    case Writing(job, done) => done <= |job.data| && s.temp == Some(File(job.data[..done], false))
    case Renaming(job) => s.temp == Some(File(job.data, true))
    case _ => true
  }

  /** Shards the worker can be in. */
  ghost predicate Sound(state: State) {
    Healthy(state) && WithinLimits(state) && state.maxKeys == MAX_KEYS_PER_SHARD
  }

  ghost predicate SavesOk(saves: seq<Save>) {
    forall i :: 0 <= i < |saves| ==> IsSave(saves[i]) && Sound(saves[i].state)
  }

  ghost predicate DiskOk(u: Setup, saves: seq<Save>, versions: seq<Version>) {
    && (forall i :: 0 <= i < |versions| ==> Complete(u, saves, versions[i]))
    && (forall i, j :: 0 <= i < j < |versions| ==> Older(versions[i], versions[j]))
  }

  /** Jobs carry their saves' bytes, come in order, and are newer than everything installed. */
  ghost predicate JobsOk(u: Setup, saves: seq<Save>, versions: seq<Version>, jobs: seq<Job>) {
    && (forall j :: 0 <= j < |jobs| ==> JobOk(u, saves, jobs[j]))
    && (forall i, j :: 0 <= i < j < |jobs| ==> jobs[i].index < jobs[j].index)
    && (forall i, j :: 0 <= i < |versions| && 0 <= j < |jobs| ==>
          Older(versions[i], Version(versions[i].file, Some(jobs[j].index))))
  }

  function Indices(jobs: seq<Job>): seq<nat> {
    seq(|jobs|, i requires 0 <= i < |jobs| => jobs[i].index)
  }

  function Ended(outcomes: seq<Outcome>): seq<nat> {
    seq(|outcomes|, i requires 0 <= i < |outcomes| => outcomes[i].index)
  }

  function LastInstalled(outcomes: seq<Outcome>): Option<nat> {
    if outcomes == [] then None
    else
      var n := |outcomes| - 1;
      if outcomes[n].installed then Some(outcomes[n].index) else LastInstalled(outcomes[..n])
  }

  /** Every accepted save is finished or pending, in order, and the last one installed is the one
      on disk. */
  ghost predicate AccountOk(s: System) {
    && s.accepted == Ended(s.finished) + Indices(Pending(s))
    && (LastInstalled(s.finished).Some? ==>
          s.versions != [] && s.versions[|s.versions| - 1].source == LastInstalled(s.finished))
  }

  ghost predicate Inv(u: Setup, s: System) {
    && Sound(s.shard)
    && SavesOk(s.saves)
    && |s.queue| <= SNAPSHOT_CHANNEL_CAPACITY
    && (s.writer == Gone ==> s.queue == []) && (s.worker == Down ==> s.writer == Gone)
    && s.flushed <= |s.versions| && (u.start.Some? ==> s.flushed > 0)
    && DiskOk(u, s.saves, s.versions)
    && JobsOk(u, s.saves, s.versions, Pending(s))
    && TempOk(s)
    && AccountOk(s)
  }

  lemma InitIsInv(u: Setup, s: System)
    requires Init(u, s)
    ensures Inv(u, s)
  {
    NewShardIsHealthy();
  }

  // ---------- the worker's steps ----------

  lemma ServeKeepsSound(s: State, event: Event, t: State)
    requires Sound(s) && Step(s, event, t)
    ensures Sound(t)
  {
    hide Healthy, WithinLimits, Execute;
    StepKeepsInvariant(s, event, t);
    match event
    case Ran(command, now, report, _) => ExecuteKeepsMaxKeys(s, command, now, report);
    case Tick(now) => TickKeepsLimits(s, now, t);
  }

  lemma MoreSaves(u: Setup, saves: seq<Save>, save: Save, versions: seq<Version>, jobs: seq<Job>)
    requires SavesOk(saves) && IsSave(save) && Sound(save.state)
    requires DiskOk(u, saves, versions) && JobsOk(u, saves, versions, jobs)
    ensures var more := saves + [save];
            && SavesOk(more) && DiskOk(u, more, versions) && JobsOk(u, more, versions, jobs)
            && (forall j :: 0 <= j < |jobs| ==> jobs[j].index < |saves|)
  {
    hide Sound, IsSave, FileOf, Older;
  }

  lemma NewJob(u: Setup, saves: seq<Save>, save: Save, versions: seq<Version>, jobs: seq<Job>)
    requires IsSave(save) && DiskOk(u, saves, versions)
    requires JobsOk(u, saves + [save], versions, jobs) && forall j :: 0 <= j < |jobs| ==> jobs[j].index < |saves|
    ensures JobsOk(u, saves + [save], versions, jobs + [Job(|saves|, FileOf(u, save))])
  {
    hide FileOf, IsSave;
  }

  lemma OneMoreIndex(jobs: seq<Job>, job: Job)
    ensures Indices(jobs + [job]) == Indices(jobs) + [job.index]
  {
  }

  lemma TriggerKeepsInv(u: Setup, s: System, save: Save, t: System)
    requires Inv(u, s) && Triggers(u, s, save, t) && s.worker == Serving && t.worker != Down
    ensures Inv(u, t)
  {
    hide Sound, IsSave, FileOf, SavesOk, DiskOk, JobsOk, Indices, Ended, LastInstalled;
    MoreSaves(u, s.saves, save, s.versions, Pending(s));
    if !(s.writer == Gone || |s.queue| >= SNAPSHOT_CHANNEL_CAPACITY) {
      var job := Job(|s.saves|, FileOf(u, save));
      NewJob(u, s.saves, save, s.versions, Pending(s));
      OneMoreIndex(Pending(s), job);
      assert Pending(t) == Pending(s) + [job];
    }
  }

  // ---------- the writer's steps ----------

  lemma MovesKeepInv(u: Setup, s: System, action: Action, t: System)
    requires Inv(u, s) && Next(u, s, action, t)
    requires action.Receive? || action.End? || action.Create? || action.WriteSome? || action.Sync? || action.Flush?
    ensures Inv(u, t)
  {
    hide Sound, SavesOk, DiskOk, JobsOk, Indices, Ended, LastInstalled;
    assert Pending(t) == Pending(s);
    if action.WriteSome? {
      var data, done := s.writer.job.data, s.writer.done;
      assert data[..done] + data[done..action.upTo] == data[..action.upTo];
    } else if action.Sync? {
      assert s.writer.job.data[..s.writer.done] == s.writer.job.data;
    }
  }

  /** The first pending job ends one way or the other. */
  lemma JobEnds(s: System, t: System, installed: bool)
    requires Pending(s) != [] && Pending(t) == Pending(s)[1..] && t.accepted == s.accepted
    requires t.finished == s.finished + [Outcome(Pending(s)[0].index, installed)]
    requires s.accepted == Ended(s.finished) + Indices(Pending(s))
    ensures t.accepted == Ended(t.finished) + Indices(Pending(t))
    ensures LastInstalled(t.finished) == if installed then Some(Pending(s)[0].index) else LastInstalled(s.finished)
  {
    hide Pending;
    var first := Pending(s)[0];
    assert Indices(Pending(s)) == [first.index] + Indices(Pending(t));
    assert Ended(t.finished) == Ended(s.finished) + [first.index];
    assert t.finished[..|t.finished| - 1] == s.finished;
  }

  lemma FewerJobs(u: Setup, saves: seq<Save>, versions: seq<Version>, jobs: seq<Job>)
    requires JobsOk(u, saves, versions, jobs) && jobs != []
    ensures JobsOk(u, saves, versions, jobs[1..])
  {
    hide JobOk, Older;
  }

  /** A rename installs the oldest pending job: it is newer than the disk and older than the others. */
  lemma Installs(u: Setup, saves: seq<Save>, versions: seq<Version>, jobs: seq<Job>)
    requires DiskOk(u, saves, versions) && JobsOk(u, saves, versions, jobs) && jobs != []
    ensures var v := Version(File(jobs[0].data, true), Some(jobs[0].index));
            DiskOk(u, saves, versions + [v]) && JobsOk(u, saves, versions + [v], jobs[1..])
  {
    hide JobOk;
  }

  lemma FinishKeepsInv(u: Setup, s: System, action: Action, t: System)
    requires Inv(u, s) && Next(u, s, action, t) && (action.Rename? || action.Fail?)
    ensures Inv(u, t)
  {
    hide Sound, SavesOk, DiskOk, JobsOk, Indices, Ended, LastInstalled;
    var jobs := Pending(s);
    assert Pending(t) == jobs[1..];
    JobEnds(s, t, action.Rename?);
    FewerJobs(u, s.saves, s.versions, jobs);
    if action.Rename? {
      Installs(u, s.saves, s.versions, jobs);
    }
  }

  lemma AbortKeepsInv(u: Setup, s: System, t: System)
    requires Inv(u, s) && Next(u, s, Abort, t)
    ensures Inv(u, t)
  {
    hide Sound, SavesOk, DiskOk, Complete, JobOk;
    if s.queue == [] {
      assert s.finished + Dropped(s.queue) == s.finished;
    } else {
      assert s.queue == [s.queue[0]];
      assert Pending(t) == Pending(s)[1..];
      assert Dropped(s.queue[1..]) == [];
      JobEnds(s, t, false);
    }
  }

  // ---------- crashes ----------

  lemma FreshIsSound()
    ensures Sound(New())
  {
    NewShardIsHealthy();
  }

  lemma DiskSurvives(u: Setup, saves: seq<Save>, versions: seq<Version>, after: seq<Version>)
    requires DiskOk(u, saves, versions) && |after| <= |versions|
    requires forall i :: 0 <= i < |after| ==> Survived(versions[i], after[i])
    ensures DiskOk(u, saves, after) && after == versions[..|after|]
  {
    hide JobOk;
    forall i | 0 <= i < |after| ensures after[i] == versions[i] {
      assert Complete(u, saves, versions[i]);
    }
  }

  lemma CrashKeepsInv(u: Setup, s: System, action: Action, t: System)
    requires Inv(u, s) && Next(u, s, action, t) && action.Crash?
    ensures Inv(u, t)
  {
    hide SavesOk, DiskOk, JobOk, Sound, Step, FileOf, IsSave, Dropped;
    FreshIsSound();
    DiskSurvives(u, s.saves, s.versions, action.after);
  }

  lemma StepKeepsInv(u: Setup, s: System, action: Action, t: System)
    requires Inv(u, s) && Next(u, s, action, t)
    ensures Inv(u, t)
  {
    hide Inv, Step, Triggers;
    match action
    case Serve(event, post) => assert Inv(u, t) by { ServeKeepsInv(u, s, event, post, t); }
    case Trigger(save) => TriggerKeepsInv(u, s, save, t);
    case Stop(save) => TriggerKeepsInv(u, s, save, t);
    case Rename => FinishKeepsInv(u, s, action, t);
    case Fail => FinishKeepsInv(u, s, action, t);
    case Abort => AbortKeepsInv(u, s, t);
    case Crash(_, _, _) => CrashKeepsInv(u, s, action, t);
    case Restart(left) => RestartKeepsInv(u, s, left, t);
    case _ => MovesKeepInv(u, s, action, t);
  }

  lemma ServeKeepsInv(u: Setup, s: System, event: Event, post: State, t: System)
    requires Inv(u, s) && Next(u, s, Serve(event, post), t)
    ensures Inv(u, t)
  {
    hide Sound, SavesOk, DiskOk, JobsOk, Indices, Ended, LastInstalled, Step;
    ServeKeepsSound(s.shard, event, post);
    assert Pending(t) == Pending(s);
  }

  lemma RestartKeepsInv(u: Setup, s: System, left: Option<File>, t: System)
    requires Inv(u, s) && Next(u, s, Restart(left), t)
    ensures Inv(u, t)
  {
    hide SavesOk, DiskOk, JobsOk, Sound, Step, FileOf, IsSave, Dropped;
    FreshIsSound();
  }

  // ---------- every behaviour ----------

  ghost predicate StepsTo(u: Setup, s: System, t: System) {
    exists action :: Next(u, s, action, t)
  }

  ghost predicate IsBehaviour(u: Setup, states: seq<System>) {
    && states != [] && Init(u, states[0])
    && forall i :: 0 <= i < |states| - 1 ==> StepsTo(u, states[i], states[i + 1])
  }

  lemma {:induction false} BehaviourKeepsInv(u: Setup, states: seq<System>, n: nat)
    requires IsBehaviour(u, states) && n < |states|
    ensures Inv(u, states[n])
  {
    hide Inv, Init, Next;
    if n == 0 {
      InitIsInv(u, states[0]);
    } else {
      BehaviourKeepsInv(u, states, n - 1);
      assert StepsTo(u, states[n - 1], states[n - 1 + 1]);
      var action :| Next(u, states[n - 1], action, states[n]);
      StepKeepsInv(u, states[n - 1], action, states[n]);
    }
  }

  /** shard{N}.snap as it is. */
  function Current(s: System): Option<Bytes> {
    if s.versions == [] then None else Some(s.versions[|s.versions| - 1].file.content)
  }

  ghost predicate IsSavedFile(u: Setup, s: System, content: Bytes, i: nat) {
    i < |s.saves| && IsSave(s.saves[i]) && content == FileOf(u, s.saves[i])
  }

  /** At every point, crashed or not, the file is absent only if it was at the start, and otherwise it is the
      start's or all the bytes of one serialize_shard call. */
  lemma FileIsAlwaysComplete(u: Setup, states: seq<System>, n: nat)
    requires IsBehaviour(u, states) && n < |states|
    ensures var s := states[n];
            match Current(s)
            case None => u.start == None
            case Some(content) => u.start == Some(content) || exists i :: IsSavedFile(u, s, content, i)
  {
    hide IsBehaviour, JobsOk, SavesOk, FileOf, IsSave, AccountOk, TempOk;
    BehaviourKeepsInv(u, states, n);
    var s := states[n];
    if s.versions != [] {
      var v := s.versions[|s.versions| - 1];
      assert Complete(u, s.saves, v);
      if v.source.Some? {
        assert IsSavedFile(u, s, v.file.content, v.source.value);
      }
    }
  }

  /** The snapshots installed and still there follow the order in which they were triggered, across crashes too,
      and whatever waits or is being written is newer than all of them; at most one waits. */
  lemma InstallsFollowTriggers(u: Setup, states: seq<System>, n: nat)
    requires IsBehaviour(u, states) && n < |states|
    ensures var s := states[n];
            && (forall i, j :: 0 <= i < j < |s.versions| && s.versions[i].source.Some? ==>
                  s.versions[j].source.Some? && s.versions[i].source.value < s.versions[j].source.value < |s.saves|)
            && (forall i, j :: 0 <= i < |s.versions| && s.versions[i].source.Some? && 0 <= j < |Pending(s)| ==>
                  s.versions[i].source.value < Pending(s)[j].index < |s.saves|)
            && |s.queue| <= 1
  {
    hide IsBehaviour, SavesOk, FileOf, IsSave, AccountOk, TempOk, Pending;
    BehaviourKeepsInv(u, states, n);
    var s := states[n];
    forall i, j | 0 <= i < j < |s.versions| && s.versions[i].source.Some?
      ensures s.versions[j].source.Some? && s.versions[i].source.value < s.versions[j].source.value < |s.saves|
    {
      assert Older(s.versions[i], s.versions[j]);
      assert Complete(u, s.saves, s.versions[j]);
    }
    forall i, j | 0 <= i < |s.versions| && s.versions[i].source.Some? && 0 <= j < |Pending(s)|
      ensures s.versions[i].source.value < Pending(s)[j].index < |s.saves|
    {
      assert Older(s.versions[i], Version(s.versions[i].file, Some(Pending(s)[j].index)));
      assert JobOk(u, s.saves, Pending(s)[j]);
    }
  }

  /** Since the last restart, in order: what became of the accepted saves, then those not finished. The file is
      the last one installed; so when the writer has nothing left and nothing failed, it is the last one taken. */
  lemma LastSaveIsOnDisk(u: Setup, states: seq<System>, n: nat)
    requires IsBehaviour(u, states) && n < |states|
    ensures var s := states[n];
            && s.accepted == Ended(s.finished) + Indices(Pending(s))
            && (LastInstalled(s.finished).Some? ==>
                  Current(s).Some? && IsSavedFile(u, s, Current(s).value, LastInstalled(s.finished).value))
            && (Pending(s) == [] && s.accepted != [] && (forall o :: o in s.finished ==> o.installed) ==>
                  Current(s).Some? && IsSavedFile(u, s, Current(s).value, s.accepted[|s.accepted| - 1]))
  {
    hide IsBehaviour, SavesOk, JobsOk, FileOf, IsSave, TempOk, Pending, Sound;
    BehaviourKeepsInv(u, states, n);
    var s := states[n];
    if LastInstalled(s.finished).Some? {
      assert Complete(u, s.saves, s.versions[|s.versions| - 1]);
    }
    if Pending(s) == [] && s.accepted != [] && (forall o :: o in s.finished ==> o.installed) {
      assert s.finished[|s.finished| - 1] in s.finished;
    }
  }

  // ---------- histories ----------

  /** Saves are only added, each of the shard as it was, and what is flushed stays. */
  lemma StepGrows(u: Setup, s: System, action: Action, t: System)
    requires Inv(u, s) && Next(u, s, action, t)
    ensures s.saves <= t.saves <= s.saves + t.saves[|s.saves|..]
    ensures forall i :: |s.saves| <= i < |t.saves| ==> t.saves[i].state == s.shard
    ensures s.flushed <= t.flushed <= |t.versions| && s.flushed <= |s.versions|
    ensures s.versions[..s.flushed] <= t.versions
  {
    hide IsSave, FileOf, JobsOk, AccountOk, Step, SavesOk, Dropped, DiskOk, TempOk, Sound;
    if action.Crash? {
      DiskSurvives(u, s.saves, s.versions, action.after);
    }
  }

  /** The shard of every save was the shard at some earlier point. */
  lemma {:induction false} SavesAreOfTheShard(u: Setup, states: seq<System>, n: nat, i: nat)
    requires IsBehaviour(u, states) && n < |states| && i < |states[n].saves|
    ensures exists m :: 0 <= m < n && states[m].shard == states[n].saves[i].state
  {
    hide Inv, Next, Step, FileOf, IsSave;
    if n > 0 {
      var s, t := states[n - 1], states[n];
      BehaviourKeepsInv(u, states, n - 1);
      assert StepsTo(u, states[n - 1], states[n - 1 + 1]);
      var action :| Next(u, s, action, t);
      StepGrows(u, s, action, t);
      if i < |s.saves| {
        SavesAreOfTheShard(u, states, n - 1, i);
        assert t.saves[i] == s.saves[i];
      }
    }
  }

  lemma FlushedIsThere(u: Setup, s: System)
    requires Inv(u, s)
    ensures s.flushed <= |s.versions|
  {
  }

  lemma PrefixChain(s: System, t: System, v: System)
    requires s.flushed <= |s.versions| && t.flushed <= |t.versions| && s.flushed <= t.flushed
    requires s.versions[..s.flushed] <= t.versions && t.versions[..t.flushed] <= v.versions
    ensures s.versions[..s.flushed] <= v.versions
  {
    assert s.versions[..s.flushed] == t.versions[..t.flushed][..s.flushed];
  }

  /** No later crash undoes a version once it is flushed. */
  lemma {:induction false} FlushedVersionsStay(u: Setup, states: seq<System>, m: nat, n: nat)
    requires IsBehaviour(u, states) && m <= n < |states|
    ensures states[m].flushed <= |states[m].versions|
    ensures states[m].versions[..states[m].flushed] <= states[n].versions && states[m].flushed <= states[n].flushed
  {
    hide Next, Inv, Init;
    BehaviourKeepsInv(u, states, n);
    FlushedIsThere(u, states[n]);
    if m < n {
      FlushedVersionsStay(u, states, m, n - 1);
      BehaviourKeepsInv(u, states, n - 1);
      assert StepsTo(u, states[n - 1], states[n - 1 + 1]);
      var action :| Next(u, states[n - 1], action, states[n]);
      StepGrows(u, states[n - 1], action, states[n]);
      PrefixChain(states[m], states[n - 1], states[n]);
    }
  }

  /** So the file found at the start is never lost, though newer ones cover it. */
  lemma StartStays(u: Setup, states: seq<System>, n: nat)
    requires IsBehaviour(u, states) && n < |states| && u.start.Some?
    ensures states[n].versions != [] && states[n].versions[0] == Version(File(u.start.value, true), None)
  {
    FlushedVersionsStay(u, states, 0, n);
    assert states[0].versions[..1] == states[0].versions;
  }

  // ---------- installed, or never there ----------

  /** Neither waiting to be installed nor on disk. */
  ghost predicate Lost(s: System, i: nat) {
    && i < |s.saves|
    && (forall j :: 0 <= j < |Pending(s)| ==> Pending(s)[j].index != i)
    && (forall j :: 0 <= j < |s.versions| ==> s.versions[j].source != Some(i))
  }

  ghost predicate Waits(s: System, i: nat) {
    exists j :: 0 <= j < |Pending(s)| && Pending(s)[j].index == i
  }

  ghost predicate MaybeOneMore(s: System, t: System) {
    Pending(t) == Pending(s) || exists job :: Pending(t) == Pending(s) + [job] && job.index == |s.saves|
  }

  /** What a step does to the jobs that are not finished. */
  ghost predicate JobsMove(s: System, action: Action, t: System) {
    match action
    case Trigger(_) => MaybeOneMore(s, t)
    case Stop(_) => MaybeOneMore(s, t)
    case Rename => Pending(s) != [] && Pending(t) == Pending(s)[1..]
    case Fail => Pending(s) != [] && Pending(t) == Pending(s)[1..]
    case Abort => Pending(t) == []
    case Crash(_, _, _) => Pending(t) == []
    case _ => Pending(t) == Pending(s)
  }

  lemma StepMovesJobs(u: Setup, s: System, action: Action, t: System)
    requires Inv(u, s) && Next(u, s, action, t)
    ensures JobsMove(s, action, t)
  {
    hide JobsOk, SavesOk, DiskOk, AccountOk, TempOk, Sound, IsSave, FileOf, Step, Dropped, Survived;
    if (action.Trigger? || action.Stop?) && t.queue != s.queue {
      var job := t.queue[|s.queue|];
      assert Pending(t) == Pending(s) + [job] && job.index == |s.saves|;
    }
  }

  /** Only a rename adds to what the file has been, and only the whole of the oldest unfinished job; a crash
      only goes back to what it was before; no other step touches it. */
  lemma OnlyRenamesInstall(u: Setup, s: System, action: Action, t: System)
    requires Inv(u, s) && Next(u, s, action, t)
    ensures action.Rename? ==>
              && Pending(s) != []
              && t.versions == s.versions + [Version(File(Pending(s)[0].data, true), Some(Pending(s)[0].index))]
    ensures action.Crash? ==> |t.versions| <= |s.versions| && t.versions == s.versions[..|t.versions|]
    ensures !action.Rename? && !action.Crash? ==> t.versions == s.versions
  {
    hide JobsOk, SavesOk, DiskOk, AccountOk, Sound, IsSave, FileOf, Step, Dropped;
    if action.Crash? {
      DiskSurvives(u, s.saves, s.versions, action.after);
    }
  }

  lemma LostStays(u: Setup, s: System, action: Action, t: System, i: nat)
    requires Inv(u, s) && Next(u, s, action, t) && Lost(s, i)
    ensures Lost(t, i)
  {
    hide Inv, Next, Pending, JobsMove;
    StepMovesJobs(u, s, action, t);
    JobsComeFromJobs(s, action, t);
    OnlyRenamesInstall(u, s, action, t);
    StepGrows(u, s, action, t);
  }

  /** A job was there before or is of a new save; a rename is of the oldest. */
  lemma JobsComeFromJobs(s: System, action: Action, t: System)
    requires JobsMove(s, action, t)
    ensures forall j :: 0 <= j < |Pending(t)| ==> Waits(s, Pending(t)[j].index) || Pending(t)[j].index == |s.saves|
    ensures action.Rename? ==> Pending(s) != [] && Waits(s, Pending(s)[0].index)
  {
    hide Pending;
    forall j | 0 <= j < |Pending(t)| ensures Waits(s, Pending(t)[j].index) || Pending(t)[j].index == |s.saves| {
      if action.Rename? || action.Fail? {
        assert Pending(s)[j + 1] == Pending(t)[j];
      }
    }
  }

  lemma {:induction false} LostIsForever(u: Setup, states: seq<System>, m: nat, n: nat, i: nat)
    requires IsBehaviour(u, states) && m <= n < |states| && Lost(states[m], i)
    ensures Lost(states[n], i)
  {
    hide Inv, Init, Next, Lost;
    if m < n {
      LostIsForever(u, states, m, n - 1, i);
      BehaviourKeepsInv(u, states, n - 1);
      assert StepsTo(u, states[n - 1], states[n - 1 + 1]);
      var action :| Next(u, states[n - 1], action, states[n]);
      LostStays(u, states[n - 1], action, states[n], i);
    }
  }

  /** A save that a step drops or stops waiting for is lost, unless the step is its rename. */
  lemma InstalledOrLost(u: Setup, s: System, action: Action, t: System, i: nat)
    requires Inv(u, s) && Next(u, s, action, t)
    requires i < |t.saves| && !Waits(t, i) && (Waits(s, i) || |s.saves| <= i)
    ensures Lost(t, i) || (action.Rename? && Pending(s) != [] && Pending(s)[0].index == i)
  {
    hide Inv, Next, Pending;
    OnlyRenamesInstall(u, s, action, t);
    NotThereYet(u, s, i);
  }

  lemma NotThereYet(u: Setup, s: System, i: nat)
    requires Inv(u, s) && (Waits(s, i) || |s.saves| <= i)
    ensures forall j :: 0 <= j < |s.versions| ==> s.versions[j].source != Some(i)
  {
    hide SavesOk, TempOk, AccountOk, Sound, IsSave, FileOf, Pending;
    forall j | 0 <= j < |s.versions| ensures s.versions[j].source != Some(i) {
      assert Complete(u, s.saves, s.versions[j]);
      if Waits(s, i) {
        var w :| 0 <= w < |Pending(s)| && Pending(s)[w].index == i;
        assert Older(s.versions[j], Version(s.versions[j].file, Some(Pending(s)[w].index)));
      }
    }
  }

  /** A trigger that finds the channel open and empty has its save waiting, with all its bytes; any other
      trigger loses it. */
  lemma TriggerIsTaken(u: Setup, s: System, action: Action, t: System)
    requires Inv(u, s) && Next(u, s, action, t) && (action.Trigger? || action.Stop?)
    ensures IsSave(action.save) && action.save.state == s.shard && t.saves == s.saves + [action.save]
    ensures s.writer != Gone && s.queue == [] ==> t.queue == [Job(|s.saves|, FileOf(u, action.save))]
    ensures s.writer == Gone || s.queue != [] ==> t.queue == s.queue && Lost(t, |s.saves|)
  {
    hide JobsOk, SavesOk, DiskOk, AccountOk, TempOk, Sound, IsSave, FileOf;
    if s.writer == Gone || s.queue != [] {
      assert Pending(t) == Pending(s);
      hide Pending, Next;
      SavesOfPending(u, s);
      NotThereYet(u, s, |s.saves|);
    }
  }

  lemma SavesOfPending(u: Setup, s: System)
    requires Inv(u, s)
    ensures forall j :: 0 <= j < |Pending(s)| ==> Pending(s)[j].index < |s.saves|
  {
    hide SavesOk, DiskOk, AccountOk, TempOk, Sound, IsSave, FileOf, Pending;
  }

  lemma SaveIsTaken(u: Setup, s: System, save: Save) returns (a: System, b: System)
    requires s.worker == Serving && s.writer == Idle && s.queue == [] && save.state == s.shard && IsSave(save)
    ensures StepsTo(u, s, a) && StepsTo(u, a, b)
    ensures b.writer == Creating(Job(|s.saves|, FileOf(u, save))) && b.versions == s.versions
  {
    hide IsSave, FileOf, Step;
    var job := Job(|s.saves|, FileOf(u, save));
    a := s.(saves := s.saves + [save], queue := s.queue + [job], accepted := s.accepted + [|s.saves|]);
    assert Next(u, s, Trigger(save), a);
    b := a.(queue := a.queue[1..], writer := Creating(a.queue[0]));
    assert Next(u, a, Receive, b);
  }

  lemma TakenIsWritten(u: Setup, b: System) returns (c: System, d: System)
    requires b.writer.Creating?
    ensures StepsTo(u, b, c) && StepsTo(u, c, d)
    ensures var job := b.writer.job;
            d.writer == Writing(job, |job.data|) && d.temp == Some(File(job.data, false)) && d.versions == b.versions
  {
    hide Step;
    var job := b.writer.job;
    c := b.(writer := Writing(job, 0), temp := Some(File([], false)));
    assert Next(u, b, Create, c);
    d := c.(writer := Writing(job, |job.data|), temp := Some(File([] + job.data[0..|job.data|], false)));
    assert Next(u, c, WriteSome(|job.data|), d);
    assert [] + job.data[0..|job.data|] == job.data;
  }

  lemma WrittenIsInstalled(u: Setup, d: System) returns (e: System, f: System)
    requires d.writer.Writing? && d.writer.done == |d.writer.job.data| && d.temp == Some(File(d.writer.job.data, false))
    ensures StepsTo(u, d, e) && StepsTo(u, e, f)
    ensures Current(f) == Some(d.writer.job.data)
  {
    hide Step;
    var job := d.writer.job;
    e := d.(writer := Renaming(job), temp := Some(d.temp.value.(synced := true)));
    assert Next(u, d, Sync, e);
    f := e.(writer := Idle, temp := None, versions := e.versions + [Version(e.temp.value, Some(job.index))],
            finished := e.finished + [Outcome(job.index, true)]);
    assert Next(u, e, Rename, f);
  }

  /** A save triggered while the writer has nothing to do can be in the file six steps later. */
  lemma SaveCanBeInstalled(u: Setup, s: System, save: Save)
    requires s.worker == Serving && s.writer == Idle && s.queue == [] && save.state == s.shard && IsSave(save)
    ensures exists run: seq<System> ::
              && |run| == 7 && run[0] == s && Current(run[6]) == Some(FileOf(u, save))
              && forall i :: 0 <= i < 6 ==> StepsTo(u, run[i], run[i + 1])
  {
    hide StepsTo, IsSave, FileOf, Current;
    var a, b := SaveIsTaken(u, s, save);
    var c, d := TakenIsWritten(u, b);
    var e, f := WrittenIsInstalled(u, d);
    var run := [s, a, b, c, d, e, f];
    assert run[0] == s && run[6] == f;
  }

  /** Whatever decides the fate of a save, a full or closed channel, a failure, a crash or its rename: either
      the very step puts all its bytes into the file, or the file is never of that save, then or later. */
  lemma InstalledOrNeverThere(u: Setup, states: seq<System>, m: nat, n: nat, i: nat)
    requires IsBehaviour(u, states) && m < n < |states|
    requires i < |states[m + 1].saves| && !Waits(states[m + 1], i)
    requires Waits(states[m], i) || |states[m].saves| <= i
    ensures
      || (&& states[m].versions < states[m + 1].versions
          && Current(states[m + 1]).Some? && IsSavedFile(u, states[m + 1], Current(states[m + 1]).value, i))
      || forall j :: 0 <= j < |states[n].versions| ==> states[n].versions[j].source != Some(i)
  {
    hide Inv, Init, Next;
    var s, t := states[m], states[m + 1];
    BehaviourKeepsInv(u, states, m);
    assert StepsTo(u, states[m], states[m + 1]);
    var action :| Next(u, s, action, t);
    InstalledOrLost(u, s, action, t, i);
    if Lost(t, i) {
      LostIsForever(u, states, m + 1, n, i);
    } else {
      OnlyRenamesInstall(u, s, action, t);
      BehaviourKeepsInv(u, states, m + 1);
      NewestIsComplete(u, t);
    }
  }

  lemma NewestIsComplete(u: Setup, s: System)
    requires Inv(u, s) && s.versions != [] && s.versions[|s.versions| - 1].source.Some?
    ensures IsSavedFile(u, s, Current(s).value, s.versions[|s.versions| - 1].source.value)
  {
    hide SavesOk, JobsOk, TempOk, AccountOk, Sound, IsSave, FileOf, Pending;
    assert Complete(u, s.saves, s.versions[|s.versions| - 1]);
  }

  // ---------- from disk to shard ----------

  /** What the fields of a save's file can hold: the shard's number, its time and its deadlines' seconds. */
  ghost predicate SecondsFit(u: Setup, save: Save) {
    && u.id < 0x1_0000 && save.timestamp < 0x1_0000_0000_0000_0000
    && forall k :: k in save.state.data && save.state.data[k].expiry.Some? ==>
         InstantToUnix(save.state.data[k].expiry.value, save.clock(k)) < 0x1_0000_0000_0000_0000
  }

  /** If the file of a save loads at all, at whatever point, what loads is the shard as it was at an earlier
      point, without the keys whose second has come. */
  lemma WhatLoadsWasThere(u: Setup, states: seq<System>, n: nat, i: nat, load: LoadClock)
    requires IsBehaviour(u, states) && n < |states|
    requires Current(states[n]).Some? && IsSavedFile(u, states[n], Current(states[n]).value, i)
    requires SecondsFit(u, states[n].saves[i]) && LoadFile(Current(states[n]).value, load, u.crc).Ok?
    ensures var (id, loaded) := LoadFile(Current(states[n]).value, load, u.crc).value;
            var save := states[n].saves[i];
            && id == u.id && Healthy(loaded)
            && (exists m :: 0 <= m < n && states[m].shard == save.state)
            && (forall k :: k in loaded.data <==>
                  k in save.state.data && Survives(save.state.data[k], save.clock(k), load))
            && (forall k :: k in loaded.data ==> loaded.data[k].value == save.state.data[k].value)
  {
    hide IsBehaviour, LoadFile, SaveFile, Healthy, Survives, SecondsFit, Inv;
    var save, content := states[n].saves[i], Current(states[n]).value;
    BehaviourKeepsInv(u, states, n);
    SavesAreOfTheShard(u, states, n, i);
    SavesAreSound(u, states[n], i);
    SoundSaveLoads(u, save, content, load);
    LoadedShardIsHealthy(content, load, u.crc, Clock(0, 0));
  }

  lemma SavesAreSound(u: Setup, s: System, i: nat)
    requires Inv(u, s) && i < |s.saves|
    ensures Sound(s.saves[i].state)
  {
    hide Sound, DiskOk, JobsOk, TempOk, AccountOk;
  }

  lemma SoundSaveLoads(u: Setup, save: Save, content: Bytes, load: LoadClock)
    requires IsSave(save) && content == FileOf(u, save) && Sound(save.state) && SecondsFit(u, save)
    requires LoadFile(content, load, u.crc).Ok?
    ensures var (id, loaded) := LoadFile(content, load, u.crc).value;
            && id == u.id
            && (forall k :: k in loaded.data <==>
                  k in save.state.data && Survives(save.state.data[k], save.clock(k), load))
            && (forall k :: k in loaded.data ==> loaded.data[k].value == save.state.data[k].value)
  {
    hide LoadFile, SaveFile, Healthy, Survives, InstantToUnix;
    ReachableShardsAreStorable(save.state, save.clock);
    hide WithinLimits;
    SavedFileLoadsIff(u.id, save.state.data, save.walk, save.clock, save.timestamp, u.crc, load);
    var loaded := LoadFile(content, load, u.crc).value.1;
    forall k | k in loaded.data ensures loaded.data[k].value == save.state.data[k].value {
      var j :| 0 <= j < |save.walk| && save.walk[j] == k;
    }
  }
}
