/** The skip list under one writer and any number of lock-free readers. Every pointer load and
    store is one atomic step, and steps of different threads interleave freely. */
module SkipList {
  import opened Keys

  const MAX_HEIGHT: nat := 12

  /** A key stands for its rank under the list's comparator. */
  type Key = real

  datatype Node = Head | At(key: Key)

  /** A pointer to the node with a key, or null. */
  type Link = Option<Key>

  predicate After(n: Node, k: Key) {
    n.Head? || n.key < k
  }

  // ----- state

  /** The thread running Insert: searching from the top level down while it fills in prev, done
      searching and about to raise the height of the list if it must, then linking the new node in from the bottom level up; copied tells whether the node's own
      pointer at level i has been set already. */
  datatype Writer =
    | Idle
    | Searching(key: Key, x: Node, level: nat, prev: map<nat, Node>)
    | Found(key: Key, prev: map<nat, Node>)
    | Linking(key: Key, height: nat, i: nat, copied: bool, prev: map<nat, Node>)

  datatype Goal = GreaterOrEqual(key: Key) | LessThan(key: Key) | Last
  datatype Reader = Reading(goal: Goal, x: Node, level: nat) | Done(goal: Goal, result: Option<Node>)

  /** next holds the pointers of all nodes; linked is the set of keys reachable at each level. */
  datatype State = State(
    next: map<(Node, nat), Link>,
    maxHeight: nat,
    writer: Writer,
    readers: map<nat, Reader>,
    ghost linked: seq<set<Key>>)

  // ----- the structure of the list

  /** l is the pointer that a node n in a sorted list of the keys s must have. */
  ghost predicate IsSuccessor(s: set<Key>, n: Node, l: Link) {
    match l
    case Some(k) => k in s && After(n, k) && forall x :: x in s && After(n, x) ==> k <= x
    case None => forall x :: x in s ==> !After(n, x)
  }

  /** n is where key belongs in a sorted list of the keys s. */
  ghost predicate IsPredecessor(s: set<Key>, n: Node, key: Key) {
    && (n.At? ==> n.key in s) && After(n, key)
    && forall x :: x in s && After(n, x) ==> key < x
  }

  ghost predicate InLevel(st: State, level: nat, n: Node)
    requires level < |st.linked|
  {
    n.Head? || n.key in st.linked[level]
  }

  ghost predicate LevelSorted(st: State, level: nat)
    requires level < |st.linked|
  {
    forall n :: InLevel(st, level, n) ==> (n, level) in st.next && IsSuccessor(st.linked[level], n, st.next[(n, level)])
  }

  /** Every level is a sorted list, made of nodes of the level below. */
  ghost predicate WellLinked(st: State) {
    && |st.linked| == MAX_HEIGHT && 1 <= st.maxHeight <= MAX_HEIGHT
    && (forall l :: 0 <= l < MAX_HEIGHT ==> LevelSorted(st, l))
    && (forall l :: 0 <= l < MAX_HEIGHT - 1 ==> st.linked[l+1] <= st.linked[l])
    && (forall l :: st.maxHeight <= l < MAX_HEIGHT ==> st.linked[l] == {})
  }

  // ----- steps of the writer

  ghost predicate StartInsert(st: State, st': State, key: Key) {
    && st.writer == Idle && |st.linked| == MAX_HEIGHT && key !in st.linked[0] && st.maxHeight >= 1
    && st' == st.(writer := Searching(key, Head, st.maxHeight - 1, map[]))
  }

  /** One load of FindGreaterOrEqual inside Insert. */
  ghost predicate SearchStep(st: State, st': State) {
    && st.writer.Searching?
    && var w := st.writer;
    && (w.x, w.level) in st.next
    && var next := st.next[(w.x, w.level)];
    if next.Some? && next.value < w.key then
      st' == st.(writer := w.(x := At(next.value)))
    else if w.level > 0 then
      st' == st.(writer := w.(level := w.level - 1, prev := w.prev[w.level := w.x]))
    else
      st' == st.(writer := Found(w.key, w.prev[0 := w.x]))
  }

  /** The store of max_height_, when the new node is to be higher than the list. */
  ghost predicate RaiseStep(st: State, st': State, height: nat) {
    && st.writer.Found? && 1 <= height <= MAX_HEIGHT
    && var w := st.writer;
    && var prev := map l | 0 <= l < MAX_HEIGHT :: if l < st.maxHeight && l in w.prev then w.prev[l] else Head;
    st' == st.(writer := Linking(w.key, height, 0, false, prev),
               maxHeight := if height > st.maxHeight then height else st.maxHeight)
  }

  /** The new node's own pointer, not yet visible to readers. */
  ghost predicate CopyStep(st: State, st': State) {
    && st.writer.Linking? && !st.writer.copied
    && var w := st.writer;
    && w.i in w.prev && (w.prev[w.i], w.i) in st.next
    && st' == st.(next := st.next[(At(w.key), w.i) := st.next[(w.prev[w.i], w.i)]], writer := w.(copied := true))
  }

  /** The store that publishes the node at level i. */
  ghost predicate PublishStep(st: State, st': State) {
    && st.writer.Linking? && st.writer.copied && st.writer.i < |st.linked|
    && var w := st.writer;
    && w.i in w.prev
    && st' == st.(
         next := st.next[(w.prev[w.i], w.i) := Some(w.key)],
         linked := st.linked[w.i := st.linked[w.i] + {w.key}],
         writer := if w.i + 1 == w.height then Idle else w.(i := w.i + 1, copied := false))
  }

  // ----- steps of readers

  ghost predicate StartRead(st: State, st': State, r: nat, goal: Goal) {
    && st.maxHeight >= 1 && (r in st.readers ==> st.readers[r].Done?)
    && st' == st.(readers := st.readers[r := Reading(goal, Head, st.maxHeight - 1)])
  }

  /** Whether a reader at a node follows the pointer it has loaded. */
  ghost predicate Follows(goal: Goal, next: Link) {
    next.Some? && (goal.Last? || next.value < goal.key)
  }

  ghost function LinkNode(next: Link): Option<Node> {
    match next
    case Some(k) => Some(At(k))
    case None => None
  }

  /** One load: go on at this level, drop to the next one, or answer. */
  ghost predicate ReadStep(st: State, st': State, r: nat) {
    && r in st.readers && st.readers[r].Reading?
    && var reader := st.readers[r];
    && (reader.x, reader.level) in st.next
    && var next := st.next[(reader.x, reader.level)];
    && st' == st.(readers := st.readers[r :=
         if Follows(reader.goal, next) then reader.(x := At(next.value))
         else if reader.level > 0 then reader.(level := reader.level - 1)
         else Done(reader.goal, if reader.goal.GreaterOrEqual? then LinkNode(next) else Some(reader.x))])
  }

  ghost predicate Next(st: State, st': State) {
    || (exists key :: StartInsert(st, st', key))
    || SearchStep(st, st')
    || (exists height :: RaiseStep(st, st', height))
    || CopyStep(st, st')
    || PublishStep(st, st')
    || (exists r, goal :: StartRead(st, st', r, goal))
    || (exists r :: ReadStep(st, st', r))
  }

  ghost predicate Init(st: State) {
    && st.maxHeight == 1 && st.writer == Idle && st.readers == map[]
    && |st.linked| == MAX_HEIGHT && (forall l :: 0 <= l < MAX_HEIGHT ==> st.linked[l] == {})
    && forall l: nat :: l < MAX_HEIGHT ==> (Head, l) in st.next && st.next[(Head, l)] == None
  }

  // ----- the invariant

  ghost predicate WriterReady(st: State)
    requires |st.linked| == MAX_HEIGHT
  {
    match st.writer
    case Idle => true
    case Searching(key, x, level, prev) =>
      && level < st.maxHeight <= MAX_HEIGHT && InLevel(st, level, x) && After(x, key) && key !in st.linked[0]
      && forall l :: level < l < st.maxHeight ==> l in prev && IsPredecessor(st.linked[l], prev[l], key)
    case Found(key, prev) =>
      && key !in st.linked[0] && 1 <= st.maxHeight <= MAX_HEIGHT
      && forall l :: 0 <= l < st.maxHeight ==> l in prev && IsPredecessor(st.linked[l], prev[l], key)
    case Linking(key, height, i, copied, prev) =>
      && i < height <= st.maxHeight <= MAX_HEIGHT
      && (forall l :: 0 <= l < i ==> key in st.linked[l])
      && (forall l :: i <= l < height ==> key !in st.linked[l] && l in prev && IsPredecessor(st.linked[l], prev[l], key))
      && (forall l :: height <= l < MAX_HEIGHT ==> key !in st.linked[l])
      && (copied ==> (At(key), i) in st.next && (prev[i], i) in st.next && st.next[(At(key), i)] == st.next[(prev[i], i)])
  }

  ghost predicate ReaderPlaced(st: State, reader: Reader)
    requires |st.linked| == MAX_HEIGHT
  {
    reader.Reading? ==>
      && reader.level < MAX_HEIGHT && InLevel(st, reader.level, reader.x)
      && (!reader.goal.Last? ==> After(reader.x, reader.goal.key))
  }

  ghost predicate Inv(st: State) {
    && WellLinked(st) && WriterReady(st)
    && forall r :: r in st.readers ==> ReaderPlaced(st, st.readers[r])
  }

  // ----- what a read answers

  /** The answer a search must give over the keys s. */
  ghost predicate Answers(s: set<Key>, goal: Goal, result: Option<Node>) {
    match goal
    case GreaterOrEqual(key) =>
      (match result
       case Some(n) => n.At? && n.key in s && n.key >= key && forall x :: x in s && x >= key ==> n.key <= x
       case None => forall x :: x in s ==> x < key)
    case LessThan(key) =>
      (match result
       case Some(n) => if n.At? then n.key in s && n.key < key && forall x :: x in s && x < key ==> x <= n.key
                       else forall x :: x in s ==> x >= key
       case None => false)
    case Last =>
      (match result
       case Some(n) => if n.At? then n.key in s && forall x :: x in s ==> x <= n.key else forall x :: x !in s
       case None => false)
  }

  /** A search is linearizable at its last load: the answer is right for the keys in the list at
      that instant, whatever an insert is in the middle of. */
  lemma ReadLinearizes(st: State, st': State, r: nat)
    requires Inv(st) && ReadStep(st, st', r) && st'.readers[r].Done?
    ensures Answers(st.linked[0], st'.readers[r].goal, st'.readers[r].result)
  {
    var reader := st.readers[r];
    assert LevelSorted(st, 0);
    assert IsSuccessor(st.linked[0], reader.x, st.next[(reader.x, 0)]);
  }

  // ----- each step keeps the invariant

  /** Steps that leave pointers and keys alone keep the structure. */
  lemma SameStructure(st: State, st': State)
    requires WellLinked(st) && st'.next == st.next && st'.linked == st.linked && st'.maxHeight == st.maxHeight
    ensures WellLinked(st')
    ensures WriterReady(st) && st'.writer == st.writer ==> WriterReady(st')
    ensures forall reader :: ReaderPlaced(st, reader) ==> ReaderPlaced(st', reader)
  {
    forall l | 0 <= l < MAX_HEIGHT
      ensures LevelSorted(st', l)
    {
      assert LevelSorted(st, l);
    }
  }

  lemma ReadKeepsInv(st: State, st': State, r: nat)
    requires Inv(st) && ReadStep(st, st', r)
    ensures Inv(st')
  {
    var reader := st.readers[r];
    assert LevelSorted(st, reader.level);
    assert IsSuccessor(st.linked[reader.level], reader.x, st.next[(reader.x, reader.level)]);
    SameStructure(st, st');
  }

  lemma StartKeepsInv(st: State, st': State, r: nat, goal: Goal)
    requires Inv(st) && StartRead(st, st', r, goal)
    ensures Inv(st')
  {
    SameStructure(st, st');
  }

  lemma StartInsertKeepsInv(st: State, st': State, key: Key)
    requires Inv(st) && StartInsert(st, st', key)
    ensures Inv(st')
  {
    SameStructure(st, st');
  }

  lemma {:induction false} LowerLevel(st: State, l: nat, m: nat)
    requires WellLinked(st) && l <= m < MAX_HEIGHT
    ensures st.linked[m] <= st.linked[l]
  {
    if l < m {
      LowerLevel(st, l, m - 1);
    }
  }

  /** A key missing from the lowest level is missing everywhere. */
  lemma NotAbove(st: State, key: Key)
    requires WellLinked(st) && key !in st.linked[0]
    ensures forall l :: 0 <= l < MAX_HEIGHT ==> key !in st.linked[l]
  {
    forall l | 0 <= l < MAX_HEIGHT
      ensures key !in st.linked[l]
    {
      LowerLevel(st, 0, l);
    }
  }

  lemma SearchKeepsInv(st: State, st': State)
    requires Inv(st) && SearchStep(st, st')
    ensures Inv(st')
  {
    var w := st.writer;
    NotAbove(st, w.key);
    assert LevelSorted(st, w.level);
    assert IsSuccessor(st.linked[w.level], w.x, st.next[(w.x, w.level)]);
    if w.level > 0 { assert st.linked[w.level-1+1] <= st.linked[w.level-1]; }
    SameStructure(st, st');
  }

  lemma RaiseKeepsWriter(st: State, st': State, height: nat)
    requires WellLinked(st) && WriterReady(st) && RaiseStep(st, st', height)
    ensures |st'.linked| == MAX_HEIGHT && WriterReady(st')
  {
    NotAbove(st, st.writer.key);
  }

  lemma RaiseKeepsStructure(st: State, st': State, height: nat)
    requires WellLinked(st) && RaiseStep(st, st', height)
    ensures WellLinked(st') && st'.readers == st.readers
    ensures forall reader :: ReaderPlaced(st, reader) ==> ReaderPlaced(st', reader)
  {
    forall l | 0 <= l < MAX_HEIGHT
      ensures LevelSorted(st', l)
    {
      assert LevelSorted(st, l);
    }
  }

  lemma RaiseKeepsInv(st: State, st': State, height: nat)
    requires Inv(st) && RaiseStep(st, st', height)
    ensures Inv(st')
  {
    hide WellLinked, WriterReady, ReaderPlaced;
    RaiseKeepsWriter(st, st', height);
    RaiseKeepsStructure(st, st', height);
  }

  lemma CopyKeepsInv(st: State, st': State)
    requires Inv(st) && CopyStep(st, st')
    ensures Inv(st')
  {
    forall l | 0 <= l < MAX_HEIGHT
      ensures LevelSorted(st', l)
    {
      assert LevelSorted(st, l);
    }
    var w := st.writer;
    assert st.linked[w.i] == st'.linked[w.i];
  }

  /** Publishing the node makes it part of its level, in order. */
  lemma PublishSortsLevel(st: State, st': State)
    requires Inv(st) && PublishStep(st, st')
    ensures LevelSorted(st', st.writer.i)
  {
    hide ReaderPlaced;
    var w := st.writer;
    var s, p := st.linked[w.i], w.prev[w.i];
    assert LevelSorted(st, w.i) && IsPredecessor(s, p, w.key);
    forall n | InLevel(st', w.i, n)
      ensures (n, w.i) in st'.next && IsSuccessor(s + {w.key}, n, st'.next[(n, w.i)])
    {
      if n == At(w.key) {
        assert IsSuccessor(s, p, st.next[(p, w.i)]);
      } else {
        assert InLevel(st, w.i, n);
        assert IsSuccessor(s, n, st.next[(n, w.i)]);
      }
    }
  }

  lemma PublishKeepsInv(st: State, st': State)
    requires Inv(st) && PublishStep(st, st')
    ensures Inv(st')
  {
    PublishSortsLevel(st, st');
    forall l | 0 <= l < MAX_HEIGHT && l != st.writer.i
      ensures LevelSorted(st', l)
    {
      assert LevelSorted(st, l);
      assert st'.linked[l] == st.linked[l];
    }
  }

  lemma NextKeepsInv(st: State, st': State)
    requires Inv(st) && Next(st, st')
    ensures Inv(st')
  {
    hide Inv, StartInsert, SearchStep, RaiseStep, CopyStep, PublishStep, StartRead, ReadStep;
    if key :| StartInsert(st, st', key) {
      StartInsertKeepsInv(st, st', key);
    } else if SearchStep(st, st') {
      SearchKeepsInv(st, st');
    } else if height :| RaiseStep(st, st', height) {
      RaiseKeepsInv(st, st', height);
    } else if CopyStep(st, st') {
      CopyKeepsInv(st, st');
    } else if PublishStep(st, st') {
      PublishKeepsInv(st, st');
    } else if r, goal :| StartRead(st, st', r, goal) {
      StartKeepsInv(st, st', r, goal);
    } else {
      var r :| ReadStep(st, st', r);
      ReadKeepsInv(st, st', r);
    }
  }

  // ----- whole runs

  ghost predicate Run(run: seq<State>) {
    |run| > 0 && Init(run[0]) && forall i :: 0 <= i < |run| - 1 ==> Next(run[i], run[i+1])
  }

  /** In every interleaving, every level is a sorted list within the one below. */
  lemma {:induction false} EveryRunWellLinked(run: seq<State>, n: nat)
    requires Run(run) && n < |run|
    ensures Inv(run[n])
  {
    if n > 0 {
      EveryRunWellLinked(run, n - 1);
      NextKeepsInv(run[n-1], run[n-1+1]);
    }
  }

  /** In every interleaving, a search that answers in step n answers for the keys present at
      that step. */
  lemma EveryReadLinearizes(run: seq<State>, n: nat, r: nat)
    requires Run(run) && n + 1 < |run| && ReadStep(run[n], run[n+1], r) && run[n+1].readers[r].Done?
    ensures |run[n].linked| == MAX_HEIGHT
    ensures Answers(run[n].linked[0], run[n+1].readers[r].goal, run[n+1].readers[r].result)
  {
    EveryRunWellLinked(run, n);
    ReadLinearizes(run[n], run[n+1], r);
  }

  /** The keys of the list change in one step only: the store that links a node at level zero. */
  lemma KeysChangeAtPublish(st: State, st': State)
    requires Inv(st) && Next(st, st')
    ensures st'.linked[0] == st.linked[0] || (PublishStep(st, st') && st.writer.i == 0
      && st'.linked[0] == st.linked[0] + {st.writer.key} && st.writer.key !in st.linked[0])
  {
  }

  // ----- each level as a list

  ghost function Ahead(s: set<Key>, n: Node): set<Key> {
    set x | x in s && After(n, x)
  }

  lemma AheadShrinks(s: set<Key>, n: Node, k: Key)
    requires k in s && After(n, k)
    ensures Ahead(s, At(k)) < Ahead(s, n)
  {
    assert k in Ahead(s, n) && k !in Ahead(s, At(k));
  }

  /** The keys met by following the pointers of a level from node n. */
  ghost function Walk(st: State, level: nat, n: Node): seq<Key>
    requires WellLinked(st) && level < MAX_HEIGHT && InLevel(st, level, n)
    decreases Ahead(st.linked[level], n)
  {
    assert LevelSorted(st, level);
    var l := st.next[(n, level)];
    if l.None? then []
    else
      AheadShrinks(st.linked[level], n, l.value);
      [l.value] + Walk(st, level, At(l.value))
  }

  /** Following a level's pointers visits all its keys from n on, in increasing order. */
  lemma {:induction false} WalkIsSorted(st: State, level: nat, n: Node)
    requires WellLinked(st) && level < MAX_HEIGHT && InLevel(st, level, n)
    ensures forall i, j :: 0 <= i < j < |Walk(st, level, n)| ==> Walk(st, level, n)[i] < Walk(st, level, n)[j]
    ensures forall x :: x in Walk(st, level, n) <==> x in st.linked[level] && After(n, x)
    decreases Ahead(st.linked[level], n)
  {
    assert LevelSorted(st, level);
    var l := st.next[(n, level)];
    assert IsSuccessor(st.linked[level], n, l);
    if l.Some? {
      AheadShrinks(st.linked[level], n, l.value);
      WalkIsSorted(st, level, At(l.value));
      var rest := Walk(st, level, At(l.value));
      assert forall j :: 0 <= j < |rest| ==> rest[j] in rest;
    }
  }
}
