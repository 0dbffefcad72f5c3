/** The writer queue: the thread at the front commits for a group of waiting writers, and drops
    the mutex while it logs, syncs and inserts their combined batch. */
module GroupCommit {
  import opened Keys
  import opened WriteBatches

  /** A call of Write: its updates, the size of its batch in bytes, whether it asked for a sync,
      and its status once it is done. */
  datatype Writer = Writer(ops: seq<Op>, bytes: nat, sync: bool, status: Option<bool>)

  type Id = nat
  datatype Phase = Logging | Syncing | Inserting(inserted: nat) | Finishing(ok: bool)

  /** The group being committed: the first ids of the queue, the first sequence number given to
      it and the updates of all its batches in order. */
  datatype Leader = Leader(ids: seq<Id>, first: nat, ops: seq<Op>, sync: bool, phase: Phase)

  datatype LogRecord = LogRecord(first: nat, ops: seq<Op>)

  /** A group that has been dealt with, and where its record lies in the log if it succeeded. */
  datatype Group = Group(ids: seq<Id>, first: nat, ops: seq<Op>, ok: bool, logIndex: nat)

  /** arrivals and groups are histories: all callers in order of arrival, all groups served. */
  datatype State = State(
    queue: seq<Id>,
    writers: map<Id, Writer>,
    leader: Option<Leader>,
    lastSequence: nat,
    log: seq<LogRecord>,
    synced: nat,
    mem: seq<Update>,
    failed: bool,
    ghost arrivals: seq<Id>,
    ghost groups: seq<Group>)

  // ----- building a group

  const MAX_GROUP_BYTES: nat := 0x10_0000
  const SMALL_BATCH_BYTES: nat := 0x2_0000

  /** The limit on a group's size; a small first batch is not slowed down too much. */
  function MaxSize(first: Writer): nat {
    if first.bytes <= SMALL_BATCH_BYTES then first.bytes + SMALL_BATCH_BYTES else MAX_GROUP_BYTES
  }

  function TotalBytes(ws: seq<Writer>): nat {
    if ws == [] then 0 else TotalBytes(ws[..|ws|-1]) + ws[|ws|-1].bytes
  }

  function AllOps(ws: seq<Writer>): seq<Op> {
    if ws == [] then [] else AllOps(ws[..|ws|-1]) + ws[|ws|-1].ops
  }

  /** The bytes of one writer are its own, and those of two groups add up. */
  lemma {:induction false} BytesAddUp(w: Writer, a: seq<Writer>, b: seq<Writer>)
    ensures TotalBytes([w]) == w.bytes && TotalBytes(a + b) == TotalBytes(a) + TotalBytes(b)
    decreases |b|
  {
    assert [w][..0] == [];
    if b == [] {
      assert a + b == a;
    } else {
      BytesAddUp(w, a, b[..|b|-1]);
      assert (a + b)[..|a + b| - 1] == a + b[..|b|-1];
    }
  }

  lemma Regrouped(a: seq<Op>, b: seq<Op>, c: seq<Op>)
    ensures (a + b) + c == a + (b + c)
  {
  }

  /** The updates of two groups follow each other. */
  lemma {:induction false} OpsFollow(a: seq<Writer>, b: seq<Writer>)
    ensures AllOps(a + b) == AllOps(a) + AllOps(b)
    decreases |b|
  {
    if b == [] {
      assert a + b == a && AllOps(a) + [] == AllOps(a);
    } else {
      var front, last := b[..|b|-1], b[|b|-1];
      OpsFollow(a, front);
      assert (a + b)[..|a + b| - 1] == a + front && (a + b)[|a + b| - 1] == last;
      Regrouped(AllOps(a), AllOps(front), last.ops);
    }
  }

  /** The first n waiting writers may be committed together. */
  ghost predicate GoodGroup(ws: seq<Writer>, n: nat) {
    && 0 < n <= |ws|
    && (forall i :: 0 < i < n ==> (ws[i].sync ==> ws[0].sync))
    && (n > 1 ==> TotalBytes(ws[..n]) <= MaxSize(ws[0]))
  }

  lemma OneWriter(ws: seq<Writer>)
    requires ws != []
    ensures AllOps(ws[..1]) == ws[0].ops && TotalBytes(ws[..1]) == ws[0].bytes
  {
    assert ws[..1] == [ws[0]] && ws[..1][..0] == [];
    assert [] + ws[0].ops == ws[0].ops;
  }

  /** Takes in waiting writers until one wants a sync that the first does not, or the group
      would become too big. */
  method BuildBatchGroup(ws: seq<Writer>) returns (n: nat, ops: seq<Op>)
    requires ws != []
    ensures GoodGroup(ws, n) && ops == AllOps(ws[..n])
    ensures n > 1 && ws[0].bytes <= 0x2_0000 ==> TotalBytes(ws[..n]) <= ws[0].bytes + 0x2_0000
    ensures n > 1 && ws[0].bytes > 0x2_0000 ==> TotalBytes(ws[..n]) <= 0x10_0000
    ensures n < |ws| ==>
      || (ws[n].sync && !ws[0].sync)
      || TotalBytes(ws[..n+1]) > (if ws[0].bytes <= 0x2_0000 then ws[0].bytes + 0x2_0000 else 0x10_0000)
  {
    var first := ws[0];
    var size := first.bytes;
    ops := first.ops;
    n := 1;
    OneWriter(ws);
    while n < |ws|
      invariant GoodGroup(ws, n) && ops == AllOps(ws[..n]) && size == TotalBytes(ws[..n])
      decreases |ws| - n
    {
      var w := ws[n];
      assert ws[..n+1][..n] == ws[..n];
      if w.sync && !first.sync {
        break;
      }
      size := size + w.bytes;
      if size > MaxSize(first) {
        break;
      }
      ops := ops + w.ops;
      n := n + 1;
    }
  }

  // ----- steps

  ghost function WritersOf(ids: seq<Id>, writers: map<Id, Writer>): seq<Writer>
    requires forall id :: id in ids ==> id in writers
  {
    seq(|ids|, i requires 0 <= i < |ids| => writers[ids[i]])
  }

  ghost predicate Enqueue(st: State, st': State, id: Id, w: Writer) {
    && id !in st.writers && w.status == None
    && st' == st.(queue := st.queue + [id], writers := st.writers[id := w], arrivals := st.arrivals + [id])
  }

  /** The front writer takes the lead for the first n of the queue and releases the mutex. */
  ghost predicate Lead(st: State, st': State, n: nat) {
    && st.leader == None && !st.failed && (forall id :: id in st.queue ==> id in st.writers)
    && GoodGroup(WritersOf(st.queue, st.writers), n)
    && st' == st.(leader := Some(Leader(st.queue[..n], st.lastSequence + 1,
         AllOps(WritersOf(st.queue, st.writers)[..n]), st.writers[st.queue[0]].sync, Logging)))
  }

  /** No room could be made for the write: the front writer gives up alone. */
  ghost predicate Refuse(st: State, st': State) {
    && st.leader == None && st.queue != [] && st.queue[0] in st.writers
    && var id := st.queue[0];
    && st' == st.(queue := st.queue[1..], writers := st.writers[id := st.writers[id].(status := Some(false))],
                  groups := st.groups + [Group([id], st.lastSequence + 1, [], false, 0)])
  }

  /** The leader's log write; when it fails the record may still be there. */
  ghost predicate AddRecord(st: State, st': State, ok: bool) {
    && st.leader.Some? && st.leader.value.phase == Logging
    && var l := st.leader.value; var record := LogRecord(l.first, l.ops);
    && (if ok then st'.log == st.log + [record] else st'.log == st.log || st'.log == st.log + [record])
    && st' == st.(log := st'.log,
         leader := Some(l.(phase := if !ok then Finishing(false) else if l.sync then Syncing else Inserting(0))))
  }

  /** After a failed sync all later writes are refused. */
  ghost predicate Sync(st: State, st': State, ok: bool) {
    && st.leader.Some? && st.leader.value.phase == Syncing
    && var l := st.leader.value;
    && st' == st.(synced := if ok then |st.log| else st.synced, failed := st.failed || !ok,
                  leader := Some(l.(phase := if ok then Inserting(0) else Finishing(false))))
  }

  ghost predicate Insert(st: State, st': State) {
    && st.leader.Some? && st.leader.value.phase.Inserting?
    && var l := st.leader.value; var i := l.phase.inserted;
    && if i < |l.ops| then
         st' == st.(mem := st.mem + [Update(l.first + i, l.ops[i])], leader := Some(l.(phase := Inserting(i + 1))))
       else
         st' == st.(leader := Some(l.(phase := Finishing(true))))
  }

  ghost function Released(writers: map<Id, Writer>, ids: seq<Id>, ok: bool): map<Id, Writer> {
    map id | id in writers :: if id in ids then writers[id].(status := Some(ok)) else writers[id]
  }

  /** Back under the mutex: the sequence number advances and the whole group is released. */
  ghost predicate Finish(st: State, st': State) {
    && st.leader.Some? && st.leader.value.phase.Finishing?
    && var l := st.leader.value;
    && |l.ids| <= |st.queue|
    && st' == st.(
         lastSequence := st.lastSequence + |l.ops|,
         queue := st.queue[|l.ids|..],
         writers := Released(st.writers, l.ids, l.phase.ok),
         leader := None,
         groups := st.groups + [Group(l.ids, l.first, l.ops, l.phase.ok, if |st.log| > 0 then |st.log| - 1 else 0)])
  }

  ghost predicate Next(st: State, st': State) {
    || (exists id, w :: Enqueue(st, st', id, w))
    || (exists n :: Lead(st, st', n))
    || Refuse(st, st')
    || (exists ok :: AddRecord(st, st', ok))
    || (exists ok :: Sync(st, st', ok))
    || Insert(st, st')
    || Finish(st, st')
  }

  ghost predicate Init(st: State) {
    && st.queue == [] && st.writers == map[] && st.leader == None && st.log == [] && st.synced == 0
    && st.mem == [] && !st.failed && st.arrivals == [] && st.groups == [] && st.lastSequence == 0
  }

  // ----- the invariant

  /** All callers of the groups served, in order. */
  ghost function Served(groups: seq<Group>): seq<Id> {
    if groups == [] then [] else Served(groups[..|groups|-1]) + groups[|groups|-1].ids
  }

  /** How many sequence numbers the groups have used up. */
  ghost function Used(groups: seq<Group>): nat {
    if groups == [] then 0 else Used(groups[..|groups|-1]) + |groups[|groups|-1].ops|
  }

  /** The updates of all groups that succeeded, each under its own sequence number. */
  ghost function Committed(groups: seq<Group>): seq<Update> {
    if groups == [] then []
    else
      var g := groups[|groups|-1];
      Committed(groups[..|groups|-1]) + if g.ok then Numbered(g.ops, g.first) else []
  }

  ghost predicate Distinct(ids: seq<Id>) {
    forall i, j :: 0 <= i < j < |ids| ==> ids[i] != ids[j]
  }

  ghost predicate KnownIds(ids: seq<Id>, writers: map<Id, Writer>) {
    forall id :: id in ids ==> id in writers
  }

  /** Callers are served in order of arrival, and have a status exactly when they were served. */
  ghost predicate InOrder(st: State) {
    && st.arrivals == Served(st.groups) + st.queue && Distinct(st.arrivals)
    && (forall id :: id in st.arrivals <==> id in st.writers)
    && (forall id :: id in st.queue ==> st.writers[id].status == None)
  }

  /** A group's share of the log and of the statuses. */
  ghost predicate GroupDone(st: State, k: nat)
    requires k < |st.groups|
  {
    var g := st.groups[k];
    && g.first == Used(st.groups[..k]) + 1
    && KnownIds(g.ids, st.writers)
    && (forall id :: id in g.ids ==> st.writers[id].status == Some(g.ok))
    && (g.ok ==>
          && g.ops == AllOps(WritersOf(g.ids, st.writers))
          && g.logIndex < |st.log| && st.log[g.logIndex] == LogRecord(g.first, g.ops)
          && forall id :: id in g.ids && st.writers[id].sync ==> g.logIndex < st.synced)
  }

  ghost predicate RecordWritten(phase: Phase) {
    phase.Syncing? || phase.Inserting? || phase == Finishing(true)
  }

  ghost predicate LeaderReady(st: State) {
    match st.leader
    case None => true
    case Some(l) =>
      && l.ids != [] && l.ids <= st.queue && KnownIds(l.ids, st.writers)
      && l.first == st.lastSequence + 1 && l.ops == AllOps(WritersOf(l.ids, st.writers))
      && (forall id :: id in l.ids && st.writers[id].sync ==> l.sync)
      && (RecordWritten(l.phase) ==> |st.log| > 0 && st.log[|st.log|-1] == LogRecord(l.first, l.ops))
      && (l.sync && (l.phase.Inserting? || l.phase == Finishing(true)) ==> st.synced == |st.log|)
      && (l.phase.Inserting? ==> l.phase.inserted <= |l.ops|)
  }

  /** What the leader has inserted so far. */
  ghost function InFlight(st: State): seq<Update> {
    match st.leader
    case Some(l) =>
      (match l.phase
       case Inserting(i) => if i <= |l.ops| then Numbered(l.ops, l.first)[..i] else []
       case Finishing(ok) => if ok then Numbered(l.ops, l.first) else []
       case _ => [])
    case None => []
  }

  ghost predicate Inv(st: State) {
    && InOrder(st) && LeaderReady(st)
    && (forall k :: 0 <= k < |st.groups| ==> GroupDone(st, k))
    && st.lastSequence == Used(st.groups)
    && st.mem == Committed(st.groups) + InFlight(st)
    && st.synced <= |st.log|
  }

  // ----- each step keeps the invariant

  lemma {:induction false} SameOps(a: seq<Writer>, b: seq<Writer>)
    requires |a| == |b| && forall i :: 0 <= i < |a| ==> a[i].ops == b[i].ops
    ensures AllOps(a) == AllOps(b)
  {
    if a != [] {
      SameOps(a[..|a|-1], b[..|b|-1]);
    }
  }

  lemma SameWriters(ids: seq<Id>, a: map<Id, Writer>, b: map<Id, Writer>)
    requires KnownIds(ids, a) && KnownIds(ids, b)
    requires forall id :: id in ids ==> a[id].ops == b[id].ops
    ensures AllOps(WritersOf(ids, a)) == AllOps(WritersOf(ids, b))
  {
    SameOps(WritersOf(ids, a), WritersOf(ids, b));
  }

  /** Groups already served are not affected by steps that keep their callers' records, extend
      the log and sync more of it. */
  lemma GroupStaysDone(st: State, st': State, k: nat)
    requires k < |st.groups| <= |st'.groups| && st'.groups[..|st.groups|] == st.groups && GroupDone(st, k)
    requires st.log <= st'.log && st.synced <= st'.synced
    requires forall id :: id in st.groups[k].ids ==> id in st'.writers && st'.writers[id] == st.writers[id]
    ensures GroupDone(st', k)
  {
    var g := st.groups[k];
    assert st'.groups[k] == st'.groups[..|st.groups|][k] == g;
    assert st'.groups[..k] == st.groups[..k];
    SameWriters(g.ids, st.writers, st'.writers);
  }

  lemma {:induction false} ServedMember(groups: seq<Group>, k: nat, id: Id)
    requires k < |groups| && id in groups[k].ids
    ensures id in Served(groups)
  {
    if k < |groups| - 1 {
      ServedMember(groups[..|groups|-1], k, id);
    }
  }

  /** A caller that was served is no longer in the queue. */
  lemma ServedNotQueued(st: State, k: nat, id: Id)
    requires InOrder(st) && k < |st.groups| && id in st.groups[k].ids
    ensures id !in st.queue && id in st.arrivals
  {
    ServedMember(st.groups, k, id);
    var served := Served(st.groups);
    var i :| 0 <= i < |served| && served[i] == id;
    assert st.arrivals[i] == id;
    forall j | 0 <= j < |st.queue|
      ensures st.queue[j] != id
    {
      assert st.arrivals[|served| + j] == st.queue[j];
    }
  }

  lemma EnqueueKeepsInv(st: State, st': State, id: Id, w: Writer)
    requires Inv(st) && Enqueue(st, st', id, w)
    ensures Inv(st')
  {
    hide Served, Committed, Used, AllOps;
    assert st.arrivals + [id] == Served(st.groups) + (st.queue + [id]);
    forall k | 0 <= k < |st.groups|
      ensures GroupDone(st', k)
    {
      assert st'.groups[..|st.groups|] == st.groups;
      GroupStaysDone(st, st', k);
    }
    if st.leader.Some? {
      SameWriters(st.leader.value.ids, st.writers, st'.writers);
    }
  }

  /** Steps that only move the leader on, extend the log or sync it keep the groups done. */
  lemma KeepGroups(st: State, st': State)
    requires forall k :: 0 <= k < |st.groups| ==> GroupDone(st, k)
    requires st'.groups == st.groups && st'.writers == st.writers && st.log <= st'.log && st.synced <= st'.synced
    ensures forall k :: 0 <= k < |st'.groups| ==> GroupDone(st', k)
  {
    forall k | 0 <= k < |st.groups|
      ensures GroupDone(st', k)
    {
      assert st'.groups[..|st.groups|] == st.groups;
      GroupStaysDone(st, st', k);
    }
  }

  lemma LeadKeepsInv(st: State, st': State, n: nat)
    requires Inv(st) && Lead(st, st', n)
    ensures Inv(st')
  {
    var ids := st.queue[..n];
    var ws := WritersOf(st.queue, st.writers);
    assert WritersOf(ids, st.writers) == ws[..n];
    forall id | id in ids && st.writers[id].sync
      ensures st.writers[st.queue[0]].sync
    {
      var i :| 0 <= i < n && ids[i] == id;
      assert ws[i] == st.writers[id];
    }
    KeepGroups(st, st');
  }

  lemma AddRecordKeepsInv(st: State, st': State, ok: bool)
    requires Inv(st) && AddRecord(st, st', ok)
    ensures Inv(st')
  {
    KeepGroups(st, st');
    var all := Numbered(st.leader.value.ops, st.leader.value.first);
    assert all[..0] == [];
  }

  lemma SyncKeepsInv(st: State, st': State, ok: bool)
    requires Inv(st) && Sync(st, st', ok)
    ensures Inv(st')
  {
    KeepGroups(st, st');
    var all := Numbered(st.leader.value.ops, st.leader.value.first);
    assert all[..0] == [];
  }

  lemma InsertExtendsMem(st: State, st': State)
    requires LeaderReady(st) && Insert(st, st') && st.mem == Committed(st.groups) + InFlight(st)
    ensures st'.mem == Committed(st'.groups) + InFlight(st')
  {
    hide Committed, AllOps;
    var l := st.leader.value;
    var all, i := Numbered(l.ops, l.first), l.phase.inserted;
    if i < |l.ops| {
      assert all[..i+1] == all[..i] + [all[i]];
      assert st.mem + [all[i]] == Committed(st.groups) + (all[..i] + [all[i]]);
    } else {
      assert all[..i] == all;
    }
  }

  lemma InsertKeepsInv(st: State, st': State)
    requires Inv(st) && Insert(st, st')
    ensures Inv(st')
  {
    hide Served, Committed, Used, AllOps, GroupDone, InFlight, Numbered;
    KeepGroups(st, st');
    InsertExtendsMem(st, st');
  }

  lemma GroupsExtended(groups: seq<Group>, g: Group)
    ensures (groups + [g])[..|groups|] == groups
    ensures Served(groups + [g]) == Served(groups) + g.ids
    ensures Used(groups + [g]) == Used(groups) + |g.ops|
    ensures Committed(groups + [g]) == Committed(groups) + if g.ok then Numbered(g.ops, g.first) else []
  {
    assert (groups + [g])[..|groups|] == groups;
  }

  /** The callers of a prefix of the queue have not been served. */
  lemma OldGroupsUntouched(st: State, st': State, k: nat)
    requires InOrder(st) && k < |st.groups| && GroupDone(st, k)
    requires |st'.groups| == |st.groups| + 1 && st'.groups[..|st.groups|] == st.groups
    requires st.log == st'.log && st.synced == st'.synced
    requires forall id :: id in st.writers && id !in st.queue ==> id in st'.writers && st'.writers[id] == st.writers[id]
    ensures GroupDone(st', k)
  {
    forall id | id in st.groups[k].ids
      ensures id in st'.writers && st'.writers[id] == st.writers[id]
    {
      ServedNotQueued(st, k, id);
    }
    GroupStaysDone(st, st', k);
  }

  lemma QueuePrefixServed(st: State, ids: seq<Id>, st': State)
    requires InOrder(st) && ids <= st.queue && st'.queue == st.queue[|ids|..] && st'.arrivals == st.arrivals
    requires Served(st'.groups) == Served(st.groups) + ids
    requires st'.writers.Keys == st.writers.Keys
    requires forall id :: id in st.writers && id !in ids ==> st'.writers[id] == st.writers[id]
    ensures InOrder(st')
  {
    hide Served;
    assert ids + st'.queue == st.queue;
    assert Served(st.groups) + (ids + st'.queue) == Served(st'.groups) + st'.queue;
    var n := |Served(st.groups)|;
    forall id | id in st'.queue
      ensures id !in ids
    {
      var j :| 0 <= j < |st'.queue| && st'.queue[j] == id;
      assert st.arrivals[n + |ids| + j] == id;
      forall i | 0 <= i < |ids|
        ensures ids[i] != id
      {
        assert st.arrivals[n + i] == ids[i];
      }
    }
  }

  lemma RefuseKeepsInv(st: State, st': State)
    requires Inv(st) && Refuse(st, st')
    ensures Inv(st')
  {
    var id := st.queue[0];
    var g := Group([id], st.lastSequence + 1, [], false, 0);
    GroupsExtended(st.groups, g);
    QueuePrefixServed(st, [id], st');
    forall k | 0 <= k < |st.groups|
      ensures GroupDone(st', k)
    {
      OldGroupsUntouched(st, st', k);
    }
    assert GroupDone(st', |st.groups|);
    assert Committed(st.groups) + [] == Committed(st.groups);
  }

  lemma NewGroupDone(st: State, st': State)
    requires Inv(st) && Finish(st, st')
    ensures GroupDone(st', |st.groups|)
  {
    var l := st.leader.value;
    assert st'.groups[..|st.groups|] == st.groups;
    SameWriters(l.ids, st.writers, st'.writers);
  }

  lemma FinishKeepsInv(st: State, st': State)
    requires Inv(st) && Finish(st, st')
    ensures Inv(st')
  {
    var l := st.leader.value;
    var g := st'.groups[|st.groups|];
    GroupsExtended(st.groups, g);
    QueuePrefixServed(st, l.ids, st');
    forall k | 0 <= k < |st.groups|
      ensures GroupDone(st', k)
    {
      OldGroupsUntouched(st, st', k);
    }
    NewGroupDone(st, st');
    assert Committed(st.groups) + [] == Committed(st.groups);
  }

  lemma NextKeepsInv(st: State, st': State)
    requires Inv(st) && Next(st, st')
    ensures Inv(st')
  {
    hide Inv, Enqueue, Lead, Refuse, AddRecord, Sync, Insert, Finish;
    if id, w :| Enqueue(st, st', id, w) {
      EnqueueKeepsInv(st, st', id, w);
    } else if n :| Lead(st, st', n) {
      LeadKeepsInv(st, st', n);
    } else if Refuse(st, st') {
      RefuseKeepsInv(st, st');
    } else if ok :| AddRecord(st, st', ok) {
      AddRecordKeepsInv(st, st', ok);
    } else if ok :| Sync(st, st', ok) {
      SyncKeepsInv(st, st', ok);
    } else if Insert(st, st') {
      InsertKeepsInv(st, st');
    } else {
      FinishKeepsInv(st, st');
    }
  }

  // ----- each record is in the log once

  function End(r: LogRecord): nat {
    r.first + |r.ops|
  }

  /** The record is the one the leader has just written, or tried to. */
  ghost predicate LeadersRecord(st: State, i: nat)
    requires i < |st.log|
  {
    && i == |st.log| - 1 && st.leader.Some? && st.leader.value.phase != Logging
    && st.log[i] == LogRecord(st.leader.value.first, st.leader.value.ops)
  }

  /** Records take sequence numbers in the order of the log, all below those of the next group,
      and each successful group has a later record than the successful groups before it. */
  ghost predicate LogInOrder(st: State) {
    && (forall i, j :: 0 <= i < j < |st.log| ==> End(st.log[i]) <= st.log[j].first)
    && (forall i :: 0 <= i < |st.log| && !LeadersRecord(st, i) ==> End(st.log[i]) <= st.lastSequence + 1)
    && (forall k, m :: 0 <= k < m < |st.groups| && st.groups[k].ok && st.groups[m].ok ==> st.groups[k].logIndex < st.groups[m].logIndex)
    && (st.leader.Some? && RecordWritten(st.leader.value.phase) ==>
          forall k :: 0 <= k < |st.groups| && st.groups[k].ok ==> st.groups[k].logIndex < |st.log| - 1)
  }

  lemma AddRecordKeepsLog(st: State, st': State, ok: bool)
    requires LeaderReady(st) && LogInOrder(st) && AddRecord(st, st', ok)
    requires forall k :: 0 <= k < |st.groups| ==> GroupDone(st, k)
    ensures LogInOrder(st')
  {
    assert forall i :: 0 <= i < |st.log| ==> !LeadersRecord(st, i);
    forall k | 0 <= k < |st.groups| && st.groups[k].ok
      ensures st.groups[k].logIndex < |st.log|
    {
      assert GroupDone(st, k);
    }
  }

  lemma FinishKeepsLog(st: State, st': State)
    requires LeaderReady(st) && LogInOrder(st) && Finish(st, st')
    ensures LogInOrder(st')
  {
    forall i | 0 <= i < |st.log|
      ensures End(st.log[i]) <= st'.lastSequence + 1
    {
      if LeadersRecord(st, i) {
        assert st.log[i].first == st.lastSequence + 1;
      }
    }
  }

  /** The log stays, no group succeeds, and the leader's record is written no sooner or later. */
  ghost predicate LeavesLog(st: State, st': State) {
    && st'.log == st.log && st'.lastSequence == st.lastSequence
    && (st'.groups == st.groups || exists g: Group :: !g.ok && st'.groups == st.groups + [g])
    && (st.leader.Some? && st.leader.value.phase != Logging ==>
          && st'.leader.Some? && st'.leader.value.phase != Logging
          && st'.leader.value.first == st.leader.value.first && st'.leader.value.ops == st.leader.value.ops)
    && (st'.leader.Some? && RecordWritten(st'.leader.value.phase) ==>
          st.leader.Some? && RecordWritten(st.leader.value.phase))
  }

  lemma LeavesLogInOrder(st: State, st': State)
    requires LogInOrder(st) && LeavesLog(st, st')
    ensures LogInOrder(st')
  {
  }

  lemma NextKeepsLog(st: State, st': State)
    requires Inv(st) && LogInOrder(st) && Next(st, st')
    ensures LogInOrder(st')
  {
    hide LogInOrder, InOrder, AllOps, WritersOf, Committed, InFlight;
    if ok :| AddRecord(st, st', ok) {
      AddRecordKeepsLog(st, st', ok);
    } else if Finish(st, st') {
      FinishKeepsLog(st, st');
    } else {
      assert LeavesLog(st, st');
      LeavesLogInOrder(st, st');
    }
  }

  // ----- whole runs

  ghost predicate Run(run: seq<State>) {
    |run| > 0 && Init(run[0]) && forall i :: 0 <= i < |run| - 1 ==> Next(run[i], run[i+1])
  }

  lemma NothingLogged(st: State)
    requires Init(st)
    ensures LogInOrder(st)
  {
  }

  /** In every interleaving, callers are served in order of arrival, groups take consecutive
      ranges of sequence numbers, and the memtable holds the updates of the groups that
      succeeded, each once, followed by what the leader has inserted so far. */
  lemma {:induction false} EveryRunCommits(run: seq<State>, n: nat)
    requires Run(run) && n < |run|
    ensures Inv(run[n]) && LogInOrder(run[n])
  {
    hide Next, LogInOrder;
    if n > 0 {
      EveryRunCommits(run, n - 1);
      NextKeepsInv(run[n-1], run[n-1+1]);
      NextKeepsLog(run[n-1], run[n-1+1]);
    } else {
      NothingLogged(run[0]);
    }
  }

  lemma {:induction false} CommittedBelow(st: State, n: nat)
    requires n <= |st.groups| && forall k :: 0 <= k < |st.groups| ==> GroupDone(st, k)
    ensures forall u :: u in Committed(st.groups[..n]) ==> u.seqno <= Used(st.groups[..n])
  {
    if n > 0 {
      CommittedBelow(st, n - 1);
      assert st.groups[..n][..n-1] == st.groups[..n-1];
      assert GroupDone(st, n - 1);
    }
  }

  /** A reader at the last sequence number sees all updates of every group that succeeded and
      none of the group in flight. */
  lemma ReadersSeeWholeGroups(st: State)
    requires Inv(st)
    ensures st.mem == Committed(st.groups) + InFlight(st)
    ensures forall u :: u in Committed(st.groups) ==> u.seqno <= st.lastSequence
    ensures forall u :: u in InFlight(st) ==> u.seqno > st.lastSequence
  {
    CommittedBelow(st, |st.groups|);
    assert st.groups[..|st.groups|] == st.groups;
  }

  lemma {:induction false} ServedPrefix(groups: seq<Group>, n: nat)
    requires n <= |groups|
    ensures Served(groups[..n]) <= Served(groups)
    decreases |groups| - n
  {
    if n < |groups| {
      ServedPrefix(groups, n + 1);
      assert groups[..n+1][..n] == groups[..n];
    } else {
      assert groups[..n] == groups;
    }
  }

  lemma {:induction false} ServedOnce(st: State, n: nat)
    requires InOrder(st) && n <= |st.groups|
    ensures forall m, k, id :: 0 <= m < k < n && id in st.groups[m].ids ==> id !in st.groups[k].ids
  {
    if n > 0 {
      ServedOnce(st, n - 1);
      ServedPrefix(st.groups, n);
      ServedPrefix(st.groups, |st.groups|);
      assert st.groups[..|st.groups|] == st.groups;
      var before := Served(st.groups[..n-1]);
      assert st.groups[..n][..n-1] == st.groups[..n-1];
      forall m, id | 0 <= m < n - 1 && id in st.groups[m].ids
        ensures id !in st.groups[n-1].ids
      {
        assert st.groups[..n-1][m] == st.groups[m];
        ServedMember(st.groups[..n-1], m, id);
        var i :| 0 <= i < |before| && before[i] == id;
        assert st.arrivals[i] == id;
        var ids := st.groups[n-1].ids;
        forall j | 0 <= j < |ids|
          ensures ids[j] != id
        {
          assert st.arrivals[|before| + j] == ids[j];
        }
      }
    }
  }

  lemma {:induction false} GroupOf(groups: seq<Group>, id: Id) returns (k: nat)
    requires id in Served(groups)
    ensures k < |groups| && id in groups[k].ids
  {
    if id in groups[|groups|-1].ids {
      k := |groups| - 1;
    } else {
      k := GroupOf(groups[..|groups|-1], id);
    }
  }

  lemma {:induction false} GroupInCommitted(groups: seq<Group>, k: nat)
    requires k < |groups| && groups[k].ok
    ensures forall u :: u in Numbered(groups[k].ops, groups[k].first) ==> u in Committed(groups)
  {
    if k < |groups| - 1 {
      GroupInCommitted(groups[..|groups|-1], k);
    }
  }

  /** A caller whose Write returned: its group was served once, and if it got OK then its batch
      is in the log and in the memtable, and in the synced part of the log if it asked for that.
      No other group has that place in the log, nor is there an equal record unless it is empty. */
  lemma WriteOutcome(st: State, id: Id) returns (k: nat)
    requires Inv(st) && LogInOrder(st) && id in st.writers && st.writers[id].status.Some?
    ensures k < |st.groups| && id in st.groups[k].ids && st.groups[k].ok == st.writers[id].status.value
    ensures forall m :: 0 <= m < |st.groups| && id in st.groups[m].ids ==> m == k
    ensures st.writers[id].status == Some(true) ==>
      && var g := st.groups[k];
      && g.logIndex < |st.log| && st.log[g.logIndex] == LogRecord(g.first, g.ops)
      && (st.writers[id].sync ==> g.logIndex < st.synced)
      && (forall m :: 0 <= m < |st.groups| && m != k && st.groups[m].ok ==> st.groups[m].logIndex != g.logIndex)
      && (g.ops != [] ==> forall i :: 0 <= i < |st.log| && st.log[i] == LogRecord(g.first, g.ops) ==> i == g.logIndex)
      && forall u :: u in Numbered(g.ops, g.first) ==> u in st.mem
  {
    assert id in st.arrivals && id !in st.queue;
    ServedOnce(st, |st.groups|);
    assert st.groups[..|st.groups|] == st.groups;
    k := GroupOf(st.groups, id);
    assert GroupDone(st, k);
    if st.groups[k].ok {
      GroupInCommitted(st.groups, k);
    }
  }

  /** Within a group, each batch gets the sequence numbers that follow those of the batch before. */
  lemma {:induction false} BatchRange(ws: seq<Writer>, j: nat, first: nat)
    requires j < |ws|
    ensures var a := |AllOps(ws[..j])|;
      && a + |ws[j].ops| <= |AllOps(ws)|
      && Numbered(AllOps(ws), first)[a..a+|ws[j].ops|] == Numbered(ws[j].ops, first + a)
  {
    var rest := ws[..|ws|-1];
    if j < |ws| - 1 {
      BatchRange(rest, j, first);
      assert rest[..j] == ws[..j];
      var a := |AllOps(ws[..j])|;
      assert Numbered(AllOps(ws), first)[a..a+|ws[j].ops|] == Numbered(AllOps(rest), first)[a..a+|ws[j].ops|];
    } else {
      assert ws[..j] == rest;
    }
  }
}
