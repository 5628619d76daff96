/**
 The concurrent write path as a step machine: every step is one critical section of
 DBImpl's mutex, or one action of the leader while the mutex is released
 (DBImpl::Write in db/db_impl.cc).
 */
module WritePath {
  import opened Keys
  import opened WriteBatches
  import opened GroupCommit
  import Seqs

  // ---- States -----------------------------------------------------------------------

  /** Asleep in its condition variable, woken and about to look again, at the front and
      doing the work, or returned to its caller. */
  datatype Phase = Asleep | Woken | Leading | Returned

  /** What the leader still has to do with its group. */
  datatype Stage = Logging | Syncing | Inserting(k: nat) | Failed(syncError: bool)

  /** The leader's locals: the group is the first n writers of the queue. */
  datatype Work = Work(n: nat, sn: nat, updates: seq<Update>, logged: bool, stage: Stage)

  /** A group that is over. */
  datatype Group = Group(ids: seq<nat>, sn: nat, updates: seq<Update>, logged: bool, ok: bool)

  datatype LogRecord = LogRecord(sn: nat, updates: seq<Update>)

  /** arrived and groups are history; done is the flag of each writer. The last good sync
      covered the first synced records of the log. */
  datatype State = State(requests: map<nat, Request>, phase: map<nat, Phase>, done: set<nat>, queue: seq<nat>,
                         lastSequence: nat, log: seq<LogRecord>, synced: nat, mem: seq<MemEntry>, work: Option<Work>,
                         broken: bool, arrived: seq<nat>, groups: seq<Group>)

  function Asked(s: State, ids: seq<nat>): (rs: seq<Request>)
    requires forall id :: id in ids ==> id in s.requests
    ensures |rs| == |ids|
  {
    seq(|ids|, i requires 0 <= i < |ids| => s.requests[ids[i]])
  }

  ghost predicate Init(s: State)
  {
    && s.requests == map[] && s.phase == map[] && s.done == {} && s.queue == [] && s.log == [] && s.synced == 0 &&
       s.mem == []
    && s.work == None && !s.broken && s.arrived == [] && s.groups == []
  }

  // ---- Steps ----------------------------------------------------------------------------

  datatype Step =
    | Arrive(id: nat, request: Request)   // push_back, then look at the front
    | Look(id: nat)                       // woken, by a signal or for no reason
    | Begin(ok: bool, n: nat)             // MakeRoomForWrite and BuildBatchGroup
    | Append(ok: bool)                    // log_->AddRecord, unlocked
    | Sync(ok: bool)                      // logfile_->Sync, unlocked
    | Insert                              // one entry into mem_, unlocked
    | Finish                              // SetLastSequence, pop and signal

  /** The leader, once it has work. */
  predicate AtStage(s: State, stage: Stage)
  {
    s.work.Some? && s.work.value.stage == stage && s.queue != []
  }

  function WithStage(s: State, stage: Stage): State
    requires s.work.Some?
  {
    s.(work := Some(s.work.value.(stage := stage)))
  }

  ghost predicate Enabled(s: State, step: Step)
  {
    match step
    case Arrive(id, r) => id !in s.requests
    case Look(id) => id in s.phase && (s.phase[id].Asleep? || s.phase[id].Woken?)
    case Begin(ok, n) =>
      && s.queue != [] && s.queue[0] in s.phase && s.phase[s.queue[0]].Leading? && s.work.None?
      && (forall id :: id in s.queue ==> id in s.requests)
      && (ok ==> !s.broken)
      && (ok && s.requests[s.queue[0]].batch.Some? ==> IsGroup(Asked(s, s.queue), n))
    case Append(ok) => AtStage(s, Logging) && s.queue[0] in s.requests
    case Sync(ok) => AtStage(s, Syncing) && s.queue[0] in s.requests
    case Insert => s.work.Some? && s.work.value.stage.Inserting? && s.work.value.stage.k < |s.work.value.updates|
    case Finish =>
      && s.work.Some? && 0 < s.work.value.n <= |s.queue| && s.work.value.sn > 0
      && (s.work.value.stage.Failed? || s.work.value.stage == Inserting(|s.work.value.updates|))
  }

  /** MakeRoomForWrite failed, or there is nothing to log: the leader is alone. */
  function Alone(s: State, ok: bool): Work
  {
    Work(1, s.lastSequence + 1, [], false, if ok then Inserting(0) else Failed(false))
  }

  function Wake(phase: map<nat, Phase>, ids: seq<nat>): map<nat, Phase>
  {
    map id | id in phase :: if id in ids then Woken else phase[id]
  }

  function Ended(s: State): Group
    requires s.work.Some? && s.work.value.n <= |s.queue|
  {
    var w := s.work.value;
    Group(s.queue[..w.n], w.sn, w.updates, w.logged, w.stage.Inserting?)
  }

  function Next(s: State, step: Step): State
    requires Enabled(s, step)
  {
    match step
    case Arrive(id, r) =>
      s.(requests := s.requests[id := r], queue := s.queue + [id], arrived := s.arrived + [id],
         phase := s.phase[id := if s.queue == [] then Leading else Asleep])
    case Look(id) =>
      s.(phase := s.phase[id := if id in s.done then Returned
                                else if s.queue != [] && s.queue[0] == id then Leading else Asleep])
    case Begin(ok, n) =>
      if ok && s.requests[s.queue[0]].batch.Some? then
        s.(work := Some(Work(n, s.lastSequence + 1, Updates(Asked(s, s.queue)[..n]), false, Logging)))
      else s.(work := Some(Alone(s, ok)))
    case Append(ok) =>
      var w := s.work.value;
      if ok then s.(log := s.log + [LogRecord(w.sn, w.updates)],
                    work := Some(w.(logged := true,
                                    stage := if s.requests[s.queue[0]].sync then Syncing else Inserting(0))))
      else WithStage(s, Failed(false))
    case Sync(ok) =>
      if ok then WithStage(s, Inserting(0)).(synced := |s.log|) else WithStage(s, Failed(true))
    case Insert =>
      var w := s.work.value;
      WithStage(s, Inserting(w.stage.k + 1)).(mem := s.mem + [EntryOf(w.sn + w.stage.k, w.updates[w.stage.k])])
    case Finish =>
      var w, leader, rest := s.work.value, s.queue[0], s.queue[s.work.value.n..];
      s.(lastSequence := w.sn - 1 + |w.updates|, work := None, queue := rest, groups := s.groups + [Ended(s)],
         broken := s.broken || w.stage == Failed(true),
         done := s.done + (set id | id in s.queue[1..w.n]),
         phase := Wake(s.phase, s.queue[1..w.n] + rest[..if rest == [] then 0 else 1])[leader := Returned])
  }

  // ---- The invariant ------------------------------------------------------------------------

  ghost function AllIds(groups: seq<Group>): seq<nat>
  {
    if groups == [] then [] else AllIds(groups[..|groups| - 1]) + groups[|groups| - 1].ids
  }

  ghost predicate NoDuplicates(ids: seq<nat>)
  {
    forall i, j :: 0 <= i < j < |ids| ==> ids[i] != ids[j]
  }

  /** Every writer is in exactly one group, in order of arrival, or still queued. */
  ghost predicate Accounted(arrived: seq<nat>, groups: seq<Group>, queue: seq<nat>, asked: set<nat>, phased: set<nat>)
  {
    && arrived == AllIds(groups) + queue && NoDuplicates(arrived)
    && (forall id :: id in asked <==> id in arrived)
    && asked == phased
  }

  /** No wake-up is missed: a sleeping writer is neither done nor at the front. */
  ghost predicate NobodyForgotten(queue: seq<nat>, phase: map<nat, Phase>, done: set<nat>)
  {
    && (forall id :: id in phase && phase[id].Asleep? ==> id in queue && id != queue[0] && id !in done)
    && (queue != [] ==> queue[0] in phase && (phase[queue[0]].Woken? || phase[queue[0]].Leading?))
  }

  /** Where each writer stands; working says that the leader has begun. */
  ghost predicate PhasesOk(queue: seq<nat>, phase: map<nat, Phase>, done: set<nat>, working: bool)
  {
    && NobodyForgotten(queue, phase, done)
    && (forall id :: id in phase && phase[id].Leading? ==> queue != [] && id == queue[0])
    && (forall id :: id in phase && phase[id].Woken? ==> id in queue || id in done)
    && (forall id :: id in phase && phase[id].Returned? ==> id !in queue)
    && (forall id :: id in done ==> id in phase && id !in queue)
    && (working ==> queue != [] && phase[queue[0]].Leading?)
  }

  /** A synchronous write is only in groups whose leader is synchronous. */
  ghost predicate SyncOk(s: State, ids: seq<nat>)
  {
    forall id :: id in ids && id in s.requests && s.requests[id].sync ==>
      ids[0] in s.requests && s.requests[ids[0]].sync
  }

  ghost predicate Known(s: State, ids: seq<nat>)
  {
    forall id :: id in ids ==> id in s.requests
  }

  /** A group that went well holds the batches of its writers in queue order. */
  ghost predicate Carries(s: State, ids: seq<nat>, updates: seq<Update>, logged: bool)
    requires Known(s, ids) && ids != []
  {
    updates == Updates(Asked(s, ids)) && (s.requests[ids[0]].batch.Some? ==> logged)
  }

  ghost predicate WorkOk(s: State)
  {
    s.work.Some? && Known(s, s.queue) ==>
      var w := s.work.value;
      && 0 < w.n <= |s.queue|
      && w.sn == s.lastSequence + 1
      && SyncOk(s, s.queue[..w.n])
      && (w.stage.Logging? ==> !w.logged && w.n > 0 && w.updates == Updates(Asked(s, s.queue[..w.n])))
      && (w.stage.Syncing? ==> w.n > 0 && Carries(s, s.queue[..w.n], w.updates, w.logged))
      && (w.stage.Inserting? ==> w.n > 0 && w.stage.k <= |w.updates| && Carries(s, s.queue[..w.n], w.updates, w.logged))
  }

  ghost predicate GroupOk(s: State, g: Group)
  {
    && g.ids != [] && Known(s, g.ids) && SyncOk(s, g.ids)
    && (g.ok ==> Carries(s, g.ids, g.updates, g.logged))
  }

  ghost predicate GroupsOk(s: State)
  {
    forall g :: g in s.groups ==> GroupOk(s, g)
  }

  /** The groups' sequence numbers follow one another up to the last sequence. */
  ghost predicate Chained(groups: seq<Group>, lastSequence: nat)
  {
    && (forall i :: 0 <= i < |groups| ==> groups[i].sn > 0)
    && (forall i :: 0 < i < |groups| ==> groups[i].sn == groups[i - 1].sn + |groups[i - 1].updates|)
    && (groups != [] ==> var g := groups[|groups| - 1]; lastSequence + 1 == g.sn + |g.updates|)
  }

  ghost function LogOf(groups: seq<Group>): seq<LogRecord>
  {
    if groups == [] then []
    else
      var g := groups[|groups| - 1];
      LogOf(groups[..|groups| - 1]) + if g.logged then [LogRecord(g.sn, g.updates)] else []
  }

  ghost function MemOf(groups: seq<Group>): seq<MemEntry>
  {
    if groups == [] then []
    else
      var g := groups[|groups| - 1];
      MemOf(groups[..|groups| - 1]) + if g.ok then Entries(g.sn, g.updates) else []
  }

  /** The log and the memtable hold the groups, each once and in order, and what the
      leader has done so far. */
  ghost predicate ContentsOk(s: State)
  {
    && s.log == LogOf(s.groups) + (if s.work.Some? && s.work.value.logged
                                   then [LogRecord(s.work.value.sn, s.work.value.updates)] else [])
    && s.mem == MemOf(s.groups) + Inserted(s.work)
  }

  ghost function Inserted(work: Option<Work>): seq<MemEntry>
  {
    if work.Some? && work.value.stage.Inserting? && work.value.stage.k <= |work.value.updates|
    then Entries(work.value.sn, work.value.updates)[..work.value.stage.k] else []
  }

  ghost predicate Inv(s: State)
  {
    && Accounted(s.arrived, s.groups, s.queue, s.requests.Keys, s.phase.Keys)
    && PhasesOk(s.queue, s.phase, s.done, s.work.Some?) && WorkOk(s)
    && GroupsOk(s) && Chained(s.groups, s.lastSequence) && ContentsOk(s) && BrokenOk(s) && SyncedOk(s)
  }

  /** The leader of a group that went well has logged it and asked for a sync. */
  ghost predicate AskedSync(s: State, g: Group)
  {
    g.ok && g.logged && g.ids != [] && g.ids[0] in s.requests && s.requests[g.ids[0]].sync
  }

  /** What was to be synced has been: the records of all such groups, and of the group whose
      entries are being inserted. */
  ghost predicate SyncedOk(s: State)
  {
    && s.synced <= |s.log|
    && (forall i :: 0 <= i < |s.groups| && AskedSync(s, s.groups[i]) ==> |LogOf(s.groups[..i + 1])| <= s.synced)
    && (LeaderAsked(s) ==> s.synced == |s.log|)
  }

  /** The leader asked for a sync, has logged its group and inserts its entries. */
  ghost predicate LeaderAsked(s: State)
  {
    && s.work.Some? && s.work.value.stage.Inserting? && s.work.value.logged
    && s.queue != [] && s.queue[0] in s.requests && s.requests[s.queue[0]].sync
  }

  /** After a failed sync no group gets as far as the log. */
  ghost predicate BrokenOk(s: State)
  {
    s.broken && s.work.Some? ==> s.work.value.stage.Failed? && !s.work.value.logged
  }

  // ---- Every step keeps it ----------------------------------------------------------------

  lemma AllIdsSnoc(groups: seq<Group>, g: Group)
    ensures AllIds(groups + [g]) == AllIds(groups) + g.ids
  {
    assert (groups + [g])[..|groups|] == groups;
  }

  lemma ArriveAccounted(arrived: seq<nat>, groups: seq<Group>, queue: seq<nat>, asked: set<nat>, id: nat)
    requires Accounted(arrived, groups, queue, asked, asked) && id !in asked
    ensures Accounted(arrived + [id], groups, queue + [id], asked + {id}, asked + {id})
  {
    Seqs.Associative(AllIds(groups), queue, [id]);
    assert id !in arrived;
  }

  lemma FinishAccounted(arrived: seq<nat>, groups: seq<Group>, queue: seq<nat>, asked: set<nat>, n: nat, g: Group)
    requires Accounted(arrived, groups, queue, asked, asked) && n <= |queue| && g.ids == queue[..n]
    ensures Accounted(arrived, groups + [g], queue[n..], asked, asked)
  {
    hide NoDuplicates;
    AllIdsSnoc(groups, g);
    Seqs.TakeDrop(queue, n);
    Seqs.Associative(AllIds(groups), queue[..n], queue[n..]);
  }

  lemma AccountedStep(s: State, step: Step)
    requires Inv(s) && Enabled(s, step)
    ensures var t := Next(s, step); Accounted(t.arrived, t.groups, t.queue, t.requests.Keys, t.phase.Keys)
  {
    hide Accounted, PhasesOk, WorkOk, GroupsOk, Chained, ContentsOk, IsGroup, Updates;
    var t := Next(s, step);
    match step {
      case Arrive(id, r) =>
        SamePhased(s);
        ArriveAccounted(s.arrived, s.groups, s.queue, s.requests.Keys, id);
        assert t.requests.Keys == s.requests.Keys + {id} && t.phase.Keys == s.phase.Keys + {id};
      case Look(id) => assert t.phase.Keys == s.phase.Keys;
      case Begin(ok, n) =>
      case Append(ok) =>
      case Sync(ok) =>
      case Insert =>
      case Finish =>
        SamePhased(s);
        FinishAccounted(s.arrived, s.groups, s.queue, s.requests.Keys, s.work.value.n, Ended(s));
        FrontPhased(s);
        assert t.phase.Keys == s.phase.Keys;
    }
  }

  lemma SamePhased(s: State)
    requires Inv(s)
    ensures s.requests.Keys == s.phase.Keys
  {
  }

  lemma FrontPhased(s: State)
    requires Inv(s) && s.queue != []
    ensures s.queue[0] in s.phase
  {
  }

  lemma ArrivePhases(queue: seq<nat>, phase: map<nat, Phase>, done: set<nat>, working: bool, id: nat)
    requires PhasesOk(queue, phase, done, working) && id !in phase && id !in queue
    ensures PhasesOk(queue + [id], phase[id := if queue == [] then Leading else Asleep], done, working)
  {
    assert (queue + [id])[0] == if queue == [] then id else queue[0];
  }

  lemma LookPhases(queue: seq<nat>, phase: map<nat, Phase>, done: set<nat>, working: bool, id: nat)
    requires PhasesOk(queue, phase, done, working) && id in phase && (phase[id].Asleep? || phase[id].Woken?)
    ensures PhasesOk(queue, phase[id := if id in done then Returned
                                        else if queue != [] && queue[0] == id then Leading else Asleep],
                     done, working)
  {
  }

  /** A queue without duplicates, cut after a group: leader, followers, the rest. */
  lemma QueueParts(queue: seq<nat>, n: nat)
    requires NoDuplicates(queue) && 0 < n <= |queue|
    ensures forall id :: id in queue <==> id == queue[0] || id in queue[1..n] || id in queue[n..]
    ensures queue[0] !in queue[1..n] && queue[0] !in queue[n..]
    ensures forall id :: id in queue[1..n] ==> id !in queue[n..]
  {
  }

  lemma QueueNoDuplicates(arrived: seq<nat>, groups: seq<Group>, queue: seq<nat>, asked: set<nat>)
    requires Accounted(arrived, groups, queue, asked, asked)
    ensures NoDuplicates(queue)
  {
    var a := AllIds(groups);
    forall i, j | 0 <= i < j < |queue| ensures queue[i] != queue[j] {
      assert arrived[|a| + i] == queue[i] && arrived[|a| + j] == queue[j];
    }
  }

  /** The followers are done and woken, the new front is woken, the leader returns. */
  lemma FinishPhases(queue: seq<nat>, phase: map<nat, Phase>, done: set<nat>, followers: seq<nat>, rest: seq<nat>,
                     phase': map<nat, Phase>)
    requires PhasesOk(queue, phase, done, true) && queue[0] !in followers && queue[0] !in rest
    requires forall id :: id in queue <==> id == queue[0] || id in followers || id in rest
    requires forall id :: id in followers ==> id !in rest
    requires forall id :: id in queue ==> id in phase
    requires phase'.Keys == phase.Keys
    requires forall id :: id in phase ==>
               phase'[id] == if id == queue[0] then Returned
                             else if id in followers || (rest != [] && id == rest[0]) then Woken else phase[id]
    ensures PhasesOk(rest, phase', done + (set id | id in followers), false)
  {
    assert rest != [] ==> rest[0] in rest;
  }

  lemma FinishPhase(s: State, id: nat)
    requires Enabled(s, Finish) && id in s.phase
    ensures id in Next(s, Finish).phase
    ensures Next(s, Finish).phase[id] ==
              var rest := s.queue[s.work.value.n..];
              if id == s.queue[0] then Returned
              else if id in s.queue[1..s.work.value.n] || (rest != [] && id == rest[0]) then Woken else s.phase[id]
  {
  }

  lemma PhasesStep(s: State, step: Step)
    requires Inv(s) && Enabled(s, step)
    ensures var t := Next(s, step); PhasesOk(t.queue, t.phase, t.done, t.work.Some?)
  {
    hide Accounted, PhasesOk, WorkOk, GroupsOk, Chained, ContentsOk, IsGroup, Updates;
    var t := Next(s, step);
    match step {
      case Arrive(id, r) =>
        SamePhased(s);
        QueueKnown(s);
        ArrivePhases(s.queue, s.phase, s.done, s.work.Some?, id);
      case Look(id) => LookPhases(s.queue, s.phase, s.done, s.work.Some?, id);
      case Begin(ok, n) => BeginPhases(s.queue, s.phase, s.done);
      case Append(ok) =>
      case Sync(ok) =>
      case Insert =>
      case Finish =>
        SamePhased(s);
        QueueKnown(s);
        QueueNoDuplicates(s.arrived, s.groups, s.queue, s.requests.Keys);
        forall id | id in s.phase ensures id in t.phase { FinishPhase(s, id); }
        QueueParts(s.queue, s.work.value.n);
        FinishPhases(s.queue, s.phase, s.done, s.queue[1..s.work.value.n], t.queue, t.phase);
    }
  }

  lemma BeginPhases(queue: seq<nat>, phase: map<nat, Phase>, done: set<nat>)
    requires PhasesOk(queue, phase, done, false) && queue != [] && phase[queue[0]].Leading?
    ensures PhasesOk(queue, phase, done, true)
  {
  }

  lemma QueueKnown(s: State)
    requires Inv(s)
    ensures Known(s, s.queue) && Known(s, s.arrived)
  {
    assert forall id :: id in s.queue ==> id in s.arrived;
  }

  lemma AskedSlice(s: State, ids: seq<nat>, n: nat)
    requires Known(s, ids) && n <= |ids|
    ensures Asked(s, ids)[..n] == Asked(s, ids[..n])
  {
  }

  lemma SameAsked(s: State, t: State, ids: seq<nat>)
    requires Known(s, ids) && forall id :: id in ids ==> id in t.requests && t.requests[id] == s.requests[id]
    ensures Asked(s, ids) == Asked(t, ids)
  {
  }

  /** BuildBatchGroup does not let a synchronous write join a leader that is not. */
  lemma GroupSync(s: State, n: nat)
    requires Known(s, s.queue) && IsGroup(Asked(s, s.queue), n)
    ensures SyncOk(s, s.queue[..n])
  {
    var ids, rs := s.queue[..n], Asked(s, s.queue);
    forall id | id in ids && id in s.requests && s.requests[id].sync
      ensures ids[0] in s.requests && s.requests[ids[0]].sync
    {
      var i :| 0 <= i < n && ids[i] == id;
      assert rs[i] == s.requests[id] && rs[0] == s.requests[ids[0]];
      if i > 0 { assert !Stops(rs, i); }
    }
  }

  lemma BeginWork(s: State, ok: bool, n: nat)
    requires Inv(s) && Enabled(s, Begin(ok, n))
    ensures WorkOk(Next(s, Begin(ok, n)))
  {
    hide Accounted, PhasesOk, GroupsOk, Chained, ContentsOk, Updates;
    QueueKnown(s);
    var t := Next(s, Begin(ok, n));
    if ok && s.requests[s.queue[0]].batch.Some? {
      GroupSync(s, n);
      AskedSlice(s, s.queue, n);
      SameAsked(s, t, s.queue[..n]);
    } else {
      var ids := s.queue[..1];
      assert ids == [s.queue[0]];
      NoUpdates(t, ids);
    }
  }

  lemma NoUpdates(s: State, ids: seq<nat>)
    requires |ids| == 1 && ids[0] in s.requests
    ensures s.requests[ids[0]].batch.None? ==> Updates(Asked(s, ids)) == []
  {
    var rs := Asked(s, ids);
    assert rs[..0] == [];
    assert Updates([]) == [];
  }

  lemma ArriveWork(s: State, id: nat, r: Request)
    requires Inv(s) && Enabled(s, Arrive(id, r))
    ensures WorkOk(Next(s, Arrive(id, r)))
  {
    hide Accounted, PhasesOk, GroupsOk, Chained, ContentsOk, Updates;
    var t := Next(s, Arrive(id, r));
    QueueKnown(s);
    if s.work.Some? {
      var ids := s.queue[..s.work.value.n];
      assert t.queue[..s.work.value.n] == ids;
      SameAsked(s, t, ids);
    }
  }

  /** Steps that change neither the queue nor what was asked. */
  lemma SameWork(s: State, t: State)
    requires WorkOk(s) && t.requests == s.requests && t.queue == s.queue
    requires t.lastSequence == s.lastSequence && t.work == s.work
    ensures WorkOk(t)
  {
    if Known(s, s.queue) && s.work.Some? { SameAsked(s, t, s.queue[..s.work.value.n]); }
  }

  lemma LeaderWork(s: State, step: Step)
    requires WorkOk(s) && Known(s, s.queue) && Enabled(s, step) && (step.Append? || step.Sync? || step.Insert?)
    ensures WorkOk(Next(s, step))
  {
    hide Updates;
    SameAsked(s, Next(s, step), s.queue[..s.work.value.n]);
  }

  lemma WorkStep(s: State, step: Step)
    requires Inv(s) && Enabled(s, step)
    ensures WorkOk(Next(s, step))
  {
    hide Accounted, PhasesOk, WorkOk, GroupsOk, Chained, ContentsOk, IsGroup, Updates;
    match step {
      case Arrive(id, r) => ArriveWork(s, id, r);
      case Look(id) => SameWork(s, Next(s, step));
      case Begin(ok, n) => BeginWork(s, ok, n);
      case Append(ok) => QueueKnown(s); LeaderWork(s, step);
      case Sync(ok) => QueueKnown(s); LeaderWork(s, step);
      case Insert => QueueKnown(s); LeaderWork(s, step);
      case Finish => NoWork(Next(s, step));
    }
  }

  lemma NoWork(s: State)
    requires s.work.None?
    ensures WorkOk(s)
  {
  }

  lemma SameGroup(s: State, t: State, g: Group)
    requires GroupOk(s, g) && forall id :: id in g.ids ==> id in t.requests && t.requests[id] == s.requests[id]
    ensures GroupOk(t, g)
  {
    SameAsked(s, t, g.ids);
  }

  lemma GroupsStep(s: State, step: Step)
    requires Inv(s) && Enabled(s, step)
    ensures GroupsOk(Next(s, step))
  {
    hide Accounted, PhasesOk, WorkOk, Chained, ContentsOk, IsGroup, Updates, GroupOk;
    var t := Next(s, step);
    forall g | g in t.groups ensures GroupOk(t, g) {
      if g in s.groups {
        GroupKnown(s, g);
        SameGroup(s, t, g);
      } else {
        EndedOk(s);
        GroupKnown(s, g);
        SameGroup(s, t, g);
      }
    }
  }

  lemma GroupKnown(s: State, g: Group)
    requires GroupOk(s, g)
    ensures Known(s, g.ids)
  {
  }

  lemma EndedOk(s: State)
    requires Inv(s) && Enabled(s, Finish)
    ensures GroupOk(s, Ended(s))
  {
    hide Accounted, PhasesOk, GroupsOk, Chained, ContentsOk, Updates;
    QueueKnown(s);
  }

  lemma ChainStep(s: State, step: Step)
    requires Inv(s) && Enabled(s, step)
    ensures Chained(Next(s, step).groups, Next(s, step).lastSequence)
  {
    hide Accounted, PhasesOk, GroupsOk, ContentsOk, IsGroup, Updates, SyncOk, Carries;
    if step.Finish? { QueueKnown(s); }
  }

  lemma LogOfSnoc(groups: seq<Group>, g: Group)
    ensures LogOf(groups + [g]) == LogOf(groups) + if g.logged then [LogRecord(g.sn, g.updates)] else []
  {
    assert (groups + [g])[..|groups|] == groups;
  }

  lemma MemOfSnoc(groups: seq<Group>, g: Group)
    ensures MemOf(groups + [g]) == MemOf(groups) + if g.ok then Entries(g.sn, g.updates) else []
  {
    assert (groups + [g])[..|groups|] == groups;
  }

  lemma InsertContents(s: State)
    requires ContentsOk(s) && Enabled(s, Insert)
    ensures ContentsOk(Next(s, Insert))
  {
    hide LogOf, MemOf;
    var w := s.work.value;
    var es := Entries(w.sn, w.updates);
    assert es[..w.stage.k] + [es[w.stage.k]] == es[..w.stage.k + 1];
    Seqs.Associative(MemOf(s.groups), es[..w.stage.k], [es[w.stage.k]]);
  }

  lemma FinishContents(s: State)
    requires ContentsOk(s) && Enabled(s, Finish)
    ensures ContentsOk(Next(s, Finish))
  {
    hide LogOf, MemOf;
    var w := s.work.value;
    LogOfSnoc(s.groups, Ended(s));
    MemOfSnoc(s.groups, Ended(s));
    Seqs.RightEmpty(s.log);
    Seqs.RightEmpty(s.mem);
    var es := Entries(w.sn, w.updates);
    assert es[..|w.updates|] == es;
  }

  lemma ContentsStep(s: State, step: Step)
    requires Inv(s) && Enabled(s, step)
    ensures ContentsOk(Next(s, step))
  {
    hide Accounted, PhasesOk, GroupsOk, Chained, IsGroup, Updates, SyncOk, Carries, LogOf, MemOf;
    QueueKnown(s);
    Seqs.RightEmpty(LogOf(s.groups));
    Seqs.RightEmpty(MemOf(s.groups));
    match step {
      case Arrive(id, r) =>
      case Look(id) =>
      case Begin(ok, n) =>
        if !(ok && s.requests[s.queue[0]].batch.Some?) { assert Entries(s.lastSequence + 1, [])[..0] == []; }
      case Append(ok) =>
        assert Entries(s.work.value.sn, s.work.value.updates)[..0] == [];
      case Sync(ok) =>
        assert Entries(s.work.value.sn, s.work.value.updates)[..0] == [];
      case Insert => InsertContents(s);
      case Finish => FinishContents(s);
    }
  }

  lemma BrokenStep(s: State, step: Step)
    requires Inv(s) && Enabled(s, step)
    ensures BrokenOk(Next(s, step))
  {
    hide Accounted, PhasesOk, WorkOk, GroupsOk, Chained, ContentsOk, IsGroup, Updates;
  }

  lemma SyncedStep(s: State, step: Step)
    requires Inv(s) && Enabled(s, step)
    ensures SyncedOk(Next(s, step))
  {
    hide Accounted, PhasesOk, Chained, IsGroup, Updates, LogOf, MemOf, Carries, SyncOk, BrokenOk;
    var t := Next(s, step);
    QueueKnown(s);
    forall i | 0 <= i < |t.groups| && AskedSync(t, t.groups[i]) ensures |LogOf(t.groups[..i + 1])| <= t.synced {
      if i < |s.groups| {
        assert t.groups[..i + 1] == s.groups[..i + 1];
        assert GroupOk(s, s.groups[i]);
      } else {
        assert t.groups[..i + 1] == t.groups;
        EndedSynced(s);
      }
    }
  }

  lemma EndedSynced(s: State)
    requires Inv(s) && Enabled(s, Finish) && AskedSync(s, Ended(s))
    ensures |LogOf(s.groups + [Ended(s)])| == s.synced
  {
    hide Accounted, PhasesOk, Chained, IsGroup, Updates, LogOf, MemOf, Carries, SyncOk, BrokenOk;
    LogOfSnoc(s.groups, Ended(s));
  }

  /** Every step of every thread keeps the invariant. */
  lemma StepKeepsInv(s: State, step: Step)
    requires Inv(s) && Enabled(s, step)
    ensures Inv(Next(s, step))
  {
    AccountedStep(s, step);
    PhasesStep(s, step);
    WorkStep(s, step);
    GroupsStep(s, step);
    ChainStep(s, step);
    ContentsStep(s, step);
    BrokenStep(s, step);
    SyncedStep(s, step);
  }

  // ---- What the invariant means -----------------------------------------------------------

  /** A writer belongs to one group only, and leaves the queue with it. */
  lemma OneGroup(s: State, i: nat, j: nat, id: nat)
    requires Inv(s) && i <= j < |s.groups| && id in s.groups[i].ids
    ensures id !in s.queue && (id in s.groups[j].ids ==> i == j)
  {
    hide PhasesOk, WorkOk, GroupsOk, Chained, ContentsOk, AllIds;
    var p := IdAt(s.groups, i, id);
    NotLater(s.arrived, AllIds(s.groups), s.queue, p);
    if id in s.groups[j].ids && i < j {
      var q := IdAt(s.groups, j, id);
      hide NoDuplicates;
      IdsGrow(s.groups, i + 1, j);
      SamePosition(s.arrived, p, q);
    }
  }

  lemma NotLater(ids: seq<nat>, a: seq<nat>, b: seq<nat>, p: nat)
    requires NoDuplicates(ids) && ids == a + b && p < |a|
    ensures a[p] !in b
  {
    assert forall q :: 0 <= q < |b| ==> b[q] == ids[|a| + q];
    assert ids[p] == a[p];
  }

  lemma SamePosition(ids: seq<nat>, p: nat, q: nat)
    requires NoDuplicates(ids) && p < |ids| && q < |ids| && ids[p] == ids[q]
    ensures p == q
  {
  }

  lemma {:induction false} IdsGrow(groups: seq<Group>, i: nat, j: nat)
    requires i <= j <= |groups|
    ensures |AllIds(groups[..i])| <= |AllIds(groups[..j])|
  {
    if i < j {
      IdsGrow(groups, i, j - 1);
      assert groups[..j][..j - 1] == groups[..j - 1];
    }
  }

  /** The ids of a group lie in order of arrival, after those of the earlier groups. */
  lemma {:induction false} IdAt(groups: seq<Group>, i: nat, id: nat) returns (p: nat)
    requires i < |groups| && id in groups[i].ids
    ensures |AllIds(groups[..i])| <= p < |AllIds(groups[..i + 1])| && p < |AllIds(groups)| && AllIds(groups)[p] == id
  {
    var n := |groups| - 1;
    assert groups[..i + 1][..i] == groups[..i];
    if i == n {
      assert groups[..i + 1] == groups;
      var k :| 0 <= k < |groups[i].ids| && groups[i].ids[k] == id;
      p := |AllIds(groups[..i])| + k;
    } else {
      p := IdAt(groups[..n], i, id);
      assert groups[..n][..i] == groups[..i] && groups[..n][..i + 1] == groups[..i + 1];
    }
  }

  /** The ranges of sequence numbers of two groups do not overlap. */
  lemma {:induction false} RangesDisjoint(groups: seq<Group>, lastSequence: nat, i: nat, j: nat)
    requires Chained(groups, lastSequence) && i < j < |groups|
    ensures groups[i].sn + |groups[i].updates| <= groups[j].sn
  {
    if i < j - 1 { RangesDisjoint(groups, lastSequence, i, j - 1); }
  }

  /** A successful group with a batch is in the log: one record, in group order, with the
      batches of its writers in queue order. */
  lemma SuccessIsLogged(s: State, i: nat)
    requires Inv(s) && i < |s.groups| && GroupOk(s, s.groups[i]) && s.groups[i].ok
    requires s.requests[s.groups[i].ids[0]].batch.Some?
    ensures var m := |LogOf(s.groups[..i])|;
            && m < |s.log| && m < |LogOf(s.groups[..i + 1])|
            && s.log[m] == LogRecord(s.groups[i].sn, Updates(Asked(s, s.groups[i].ids)))
  {
    hide Updates, Accounted, PhasesOk, WorkOk, GroupsOk, Chained;
    LogAt(s.groups, i);
  }

  lemma {:induction false} LogAt(groups: seq<Group>, i: nat)
    requires i < |groups| && groups[i].logged
    ensures var m := |LogOf(groups[..i])|;
            && m < |LogOf(groups)| && m < |LogOf(groups[..i + 1])|
            && LogOf(groups)[m] == LogRecord(groups[i].sn, groups[i].updates)
  {
    var n := |groups| - 1;
    assert groups[..i + 1][..i] == groups[..i];
    if i == n {
      assert groups[..i + 1] == groups;
    } else {
      LogAt(groups[..n], i);
      assert groups[..n][..i] == groups[..i] && groups[..n][..i + 1] == groups[..i + 1];
    }
  }

  predicate Failing(s: State)
  {
    s.work.Some? && s.work.value.stage.Failed?
  }

  /** What lies between the front writer and its return: stages, then entries to insert. */
  function Distance(s: State): (nat, nat)
    requires s.queue != [] && s.queue[0] in s.phase
  {
    if s.work.None? then if s.phase[s.queue[0]].Leading? then (4, 0) else (5, 0)
    else
      var w := s.work.value;
      match w.stage
      case Logging => (3, 0)
      case Syncing => (2, 0)
      case Inserting(k) => (1, if k <= |w.updates| then |w.updates| - k else 0)
      case Failed(_) => (1, 0)
  }

  predicate Closer(a: (nat, nat), b: (nat, nat))
  {
    a.0 < b.0 || (a.0 == b.0 && a.1 < b.1)
  }

  /** Steps of the threads behind the front writer. */
  predicate OfOthers(s: State, step: Step)
    requires s.queue != []
  {
    step.Arrive? || (step.Look? && step.id != s.queue[0])
  }

  /** BuildBatchGroup always finds a group. */
  lemma GroupExists(rs: seq<Request>) returns (n: nat)
    requires rs != []
    ensures IsGroup(rs, n)
  {
    n := 1;
    while n < |rs| && !Stops(rs, n)
      invariant 0 < n <= |rs| && forall i :: 0 < i < n ==> !Stops(rs, i)
    {
      n := n + 1;
    }
  }

  /** While a writer waits the front writer can go on; unless writes are blocked it can do so
      without failing, and then its group ends well. */
  lemma NoDeadlock(s: State) returns (step: Step)
    requires Inv(s) && s.queue != []
    ensures Enabled(s, step) && !OfOthers(s, step)
    ensures !step.Finish? && !s.broken && !Failing(s) ==> !Failing(Next(s, step))
    ensures step.Finish? ==> Ended(s).ok == !Failing(s)
  {
    hide GroupsOk, Chained, ContentsOk, Updates, AllIds, NoDuplicates, IsGroup;
    QueueKnown(s);
    var front := s.queue[0];
    if s.phase[front].Woken? {
      assert front !in s.done;
      step := Look(front);
    } else if s.work.None? {
      var n := GroupExists(Asked(s, s.queue));
      step := Begin(!s.broken, n);
    } else {
      match s.work.value.stage {
        case Logging => step := Append(true);
        case Syncing => step := Sync(true);
        case Inserting(k) => step := if k < |s.work.value.updates| then Insert else Finish;
        case Failed(_) => step := Finish;
      }
    }
  }

  /** Every step of the front writer brings its return closer, no other step delays it, and
      its last step returns it. */
  lemma Progress(s: State, step: Step)
    requires Inv(s) && s.queue != [] && Enabled(s, step)
    ensures var t, front := Next(s, step), s.queue[0];
            && front in s.phase && front in t.phase
            && (step.Finish? ==> t.phase[front].Returned? && t.groups == s.groups + [Ended(s)] && front in Ended(s).ids)
            && (!step.Finish? ==> t.queue != [] && t.queue[0] == front)
            && (!step.Finish? && OfOthers(s, step) ==> Distance(t) == Distance(s))
            && (!step.Finish? && !OfOthers(s, step) ==> Closer(Distance(t), Distance(s)))
  {
    hide Inv, Next, Enabled, Distance;
    if step.Finish? { LeaderReturns(s); } else { ComesCloser(s, step); }
  }

  lemma LeaderReturns(s: State)
    requires Inv(s) && Enabled(s, Finish)
    ensures var t, front := Next(s, Finish), s.queue[0];
            && front in s.phase && front in t.phase && t.phase[front].Returned?
            && t.groups == s.groups + [Ended(s)] && front in Ended(s).ids
  {
    hide Accounted, PhasesOk, WorkOk, GroupsOk, Chained, ContentsOk, Updates, SyncedOk, BrokenOk;
    FrontPhased(s);
    FinishPhase(s, s.queue[0]);
  }

  lemma ComesCloser(s: State, step: Step)
    requires Inv(s) && s.queue != [] && Enabled(s, step) && !step.Finish?
    ensures var t, front := Next(s, step), s.queue[0];
            && front in s.phase && front in t.phase && t.queue != [] && t.queue[0] == front
            && (OfOthers(s, step) ==> Distance(t) == Distance(s))
            && (!OfOthers(s, step) ==> Closer(Distance(t), Distance(s)))
  {
    hide Accounted, GroupsOk, Chained, ContentsOk, Updates, IsGroup, SyncedOk, SyncOk, Carries, BrokenOk, Asked;
    QueueKnown(s);
    FrontPhased(s);
  }

  /** After a failed sync nothing more is logged or inserted. */
  lemma FailedSyncStopsWrites(s: State, step: Step)
    requires Inv(s) && s.broken && Enabled(s, step)
    ensures var t := Next(s, step); t.broken && t.log == s.log && t.mem == s.mem
  {
    hide Accounted, PhasesOk, WorkOk, GroupsOk, Chained, ContentsOk, IsGroup, Updates;
  }

  // ---- Runs -------------------------------------------------------------------------------

  ghost predicate IsRun(states: seq<State>, steps: seq<Step>)
  {
    && |states| == |steps| + 1 && Init(states[0])
    && forall i :: 0 <= i < |steps| ==> Enabled(states[i], steps[i]) && states[i + 1] == Next(states[i], steps[i])
  }

  lemma InitInv(s: State)
    requires Init(s)
    ensures Inv(s)
  {
  }

  lemma {:induction false} RunKeepsInv(states: seq<State>, steps: seq<Step>, i: nat)
    requires IsRun(states, steps) && i < |states|
    ensures Inv(states[i])
  {
    hide Inv;
    if i == 0 {
      InitInv(states[0]);
    } else {
      RunKeepsInv(states, steps, i - 1);
      StepKeepsInv(states[i - 1], steps[i - 1]);
    }
  }

  /** A write that asked for a sync and succeeded lies within what was synced. */
  lemma SyncIsKept(s: State, i: nat, id: nat)
    requires Inv(s) && i < |s.groups| && s.groups[i].ok && id in s.groups[i].ids && Known(s, s.groups[i].ids)
    requires s.requests[id].sync && s.requests[s.groups[i].ids[0]].batch.Some?
    ensures |LogOf(s.groups[..i])| < |LogOf(s.groups[..i + 1])| <= s.synced <= |s.log|
  {
    hide Accounted, PhasesOk, WorkOk, Chained, ContentsOk, Updates, LogOf, BrokenOk;
    assert GroupOk(s, s.groups[i]);
    LogAt(s.groups, i);
  }

  /** Only a good sync raises what was synced, to the log of that moment. */
  lemma {:induction false} SyncedBySync(states: seq<State>, steps: seq<Step>, j: nat) returns (n: nat)
    requires IsRun(states, steps) && j < |states| && states[j].synced > 0
    ensures n < j && steps[n] == Sync(true) && |states[n].log| == states[j].synced
  {
    hide Enabled;
    assert states[j] == Next(states[j - 1], steps[j - 1]);
    if steps[j - 1] == Sync(true) { n := j - 1; } else { n := SyncedBySync(states, steps, j - 1); }
  }

  /** In every run, a good sync with its record in the log lies behind every successful
      write that asked for one. */
  lemma SyncWasCalled(states: seq<State>, steps: seq<Step>, j: nat, i: nat, id: nat) returns (n: nat)
    requires IsRun(states, steps) && j < |states| && i < |states[j].groups| && states[j].groups[i].ok
    requires Known(states[j], states[j].groups[i].ids) && id in states[j].groups[i].ids && states[j].requests[id].sync
    requires states[j].requests[states[j].groups[i].ids[0]].batch.Some?
    ensures n < j && steps[n] == Sync(true) && |LogOf(states[j].groups[..i])| < |states[n].log|
    ensures |LogOf(states[j].groups[..i + 1])| <= |states[n].log|
  {
    hide Inv, IsRun;
    RunKeepsInv(states, steps, j);
    SyncIsKept(states[j], i, id);
    n := SyncedBySync(states, steps, j);
  }

  /** A sync has failed: writes are blocked, or will be when the leader is done. */
  predicate SyncFailed(s: State)
  {
    s.broken || (s.work.Some? && s.work.value.stage == Failed(true))
  }

  lemma StaysFailed(s: State, step: Step)
    requires Inv(s) && SyncFailed(s) && Enabled(s, step)
    ensures var t := Next(s, step); SyncFailed(t) && t.log == s.log && t.mem == s.mem
  {
    hide Accounted, PhasesOk, WorkOk, GroupsOk, Chained, ContentsOk, IsGroup, Updates, SyncedOk;
  }

  /** In every run, once a sync has failed nothing is logged or inserted any more. */
  lemma {:induction false} NothingAfterFailedSync(states: seq<State>, steps: seq<Step>, n: nat, j: nat)
    requires IsRun(states, steps) && n < j < |states| && steps[n] == Sync(false)
    ensures SyncFailed(states[j]) && states[j].log == states[n].log && states[j].mem == states[n].mem
  {
    hide Inv, Enabled, Init;
    assert states[j] == Next(states[j - 1], steps[j - 1]);
    if n < j - 1 {
      NothingAfterFailedSync(states, steps, n, j - 1);
      RunKeepsInv(states, steps, j - 1);
      StaysFailed(states[j - 1], steps[j - 1]);
    }
  }

  lemma GroupsStepUp(s: State, step: Step)
    requires Inv(s) && Enabled(s, step)
    ensures var t := Next(s, step);
            || (t.groups == s.groups && t.lastSequence == s.lastSequence)
            || (exists g: Group :: t.groups == s.groups + [g] && g.sn == s.lastSequence + 1)
  {
    hide Accounted, PhasesOk, GroupsOk, ContentsOk, IsGroup, Updates, SyncOk, Carries, Chained;
    if step.Finish? {
      QueueKnown(s);
      assert Next(s, step).groups == s.groups + [Ended(s)];
    }
  }

  /** Groups are only added, and the first one added starts after the last sequence. */
  lemma {:induction false} GroupsGrow(states: seq<State>, steps: seq<Step>, i: nat, j: nat)
    requires IsRun(states, steps) && i <= j < |states|
    ensures states[i].groups <= states[j].groups
    ensures var m := |states[i].groups|;
            if |states[j].groups| > m then states[j].groups[m].sn == states[i].lastSequence + 1
            else states[j].lastSequence == states[i].lastSequence
  {
    hide Inv, Init, Next, Enabled;
    if i < j {
      GroupsGrow(states, steps, i, j - 1);
      RunKeepsInv(states, steps, j - 1);
      GroupsStepUp(states[j - 1], steps[j - 1]);
    }
  }

  lemma {:induction false} MemUpTo(groups: seq<Group>, lastSequence: nat, m: nat, e: MemEntry)
    requires Chained(groups, lastSequence) && m <= |groups| && e in MemOf(groups[..m])
    ensures (m < |groups| ==> e.sn < groups[m].sn) && e.sn <= lastSequence
  {
    assert groups[..m][..m - 1] == groups[..m - 1];
    EndUpTo(groups, lastSequence, m - 1);
    if e in MemOf(groups[..m - 1]) {
      MemUpTo(groups, lastSequence, m - 1, e);
    }
  }

  lemma EndUpTo(groups: seq<Group>, lastSequence: nat, i: nat)
    requires Chained(groups, lastSequence) && i < |groups|
    ensures groups[i].sn + |groups[i].updates| <= lastSequence + 1
  {
    var n := |groups| - 1;
    if i < n { RangesDisjoint(groups, lastSequence, i, n); }
  }

  lemma {:induction false} Later(groups: seq<Group>, lastSequence: nat, m: nat, k: nat, e: MemEntry)
    requires Chained(groups, lastSequence) && m < k <= |groups| && e in MemOf(groups[..k]) && e !in MemOf(groups[..m])
    ensures e.sn >= groups[m].sn
  {
    assert groups[..k][..k - 1] == groups[..k - 1];
    if e in MemOf(groups[..k - 1]) {
      if k - 1 > m { Later(groups, lastSequence, m, k - 1, e); }
    } else if m < k - 1 {
      RangesDisjoint(groups, lastSequence, m, k - 1);
    }
  }

  /** A reader whose snapshot is the last sequence of some moment sees, then and ever
      after, exactly the groups that were over at that moment, each of them whole. */
  lemma SnapshotSeesWholeGroups(states: seq<State>, steps: seq<Step>, i: nat, j: nat, e: MemEntry)
    requires IsRun(states, steps) && i <= j < |states|
    ensures e in states[j].mem && e.sn <= states[i].lastSequence <==> e in MemOf(states[i].groups)
  {
    hide Init, Next, Enabled, Accounted, PhasesOk, GroupsOk, SyncOk, Carries, Updates, MemOf, LogOf, AllIds;
    RunKeepsInv(states, steps, i);
    RunKeepsInv(states, steps, j);
    GroupsGrow(states, steps, i, j);
    var s, t, m := states[i], states[j], |states[i].groups|;
    assert t.groups[..m] == s.groups && s.groups[..m] == s.groups;
    if e in MemOf(s.groups) { MemUpTo(s.groups, s.lastSequence, m, e); }
    MemPrefix(t.groups, m, e);
    assert t.groups[..|t.groups|] == t.groups;
    if m < |t.groups| && e in MemOf(t.groups) && e !in MemOf(s.groups) {
      Later(t.groups, t.lastSequence, m, |t.groups|, e);
    }
    QueueKnown(t);
    if e in Inserted(t.work) { InsertedLater(t, e); }
    if m < |t.groups| { EndUpTo(t.groups, t.lastSequence, m); }
  }

  lemma InsertedLater(s: State, e: MemEntry)
    requires WorkOk(s) && Known(s, s.queue) && e in Inserted(s.work)
    ensures e.sn > s.lastSequence
  {
  }

  lemma {:induction false} MemPrefix(groups: seq<Group>, m: nat, e: MemEntry)
    requires m <= |groups|
    ensures e in MemOf(groups[..m]) ==> e in MemOf(groups)
  {
    var n := |groups| - 1;
    if m == |groups| {
      assert groups[..m] == groups;
    } else {
      assert groups[..n][..m] == groups[..m];
      MemPrefix(groups[..n], m, e);
    }
  }
}
