/** The user-facing iterator: a cursor over the map visible at a snapshot, built on a cursor
    over all versions of all keys. */
module DbIterator {
  import opened Keys
  import opened InternalIterators

  // ----- which entries a snapshot shows

  ghost predicate Seen(es: seq<Entry>, s: nat, i: int) {
    0 <= i < |es| && es[i].key.seqno <= s
  }

  /** Entry i is what the snapshot shows of its user key: a value with no newer seen entry. */
  ghost predicate Live(es: seq<Entry>, s: nat, i: int) {
    && Seen(es, s, i) && es[i].key.kind.Value?
    && forall j :: 0 <= j < i && es[j].key.user == es[i].key.user ==> !Seen(es, s, j)
  }

  ghost predicate VisibleKey(es: seq<Entry>, s: nat, k: UserKey) {
    Visible(Elements(es), k, s).Some?
  }

  ghost predicate Run(es: seq<Entry>) {
    StrictlySorted(es) && UniqueVersions(Elements(es))
  }

  lemma UserOrder(es: seq<Entry>, i: int, j: int)
    requires StrictlySorted(es) && 0 <= i <= j < |es|
    ensures es[i].key.user <= es[j].key.user
    ensures es[i].key.user == es[j].key.user ==> es[i].key.seqno >= es[j].key.seqno
  {
    if i < j { assert Less(es[i].key, es[j].key); }
  }

  lemma LiveIsVisible(es: seq<Entry>, s: nat, i: int)
    requires Run(es) && Live(es, s, i)
    ensures Visible(Elements(es), es[i].key.user, s) == Some(es[i].value)
  {
    forall x | x in Elements(es) && x.key.user == es[i].key.user && x.key.seqno <= s
      ensures x.key.seqno <= es[i].key.seqno
    {
      var j :| 0 <= j < |es| && es[j] == x;
      assert Seen(es, s, j) && !(j < i);
      UserOrder(es, i, j);
    }
    VisibleIsNewest(Elements(es), es[i].key.user, s, es[i]);
  }

  lemma VisibleHasLive(es: seq<Entry>, s: nat, k: UserKey) returns (i: int)
    requires Run(es) && VisibleKey(es, s, k)
    ensures Live(es, s, i) && es[i].key.user == k
  {
    var e :| Newest(Elements(es), k, s, e);
    VisibleIsNewest(Elements(es), k, s, e);
    i :| 0 <= i < |es| && es[i] == e;
    forall j | 0 <= j < i && es[j].key.user == k
      ensures !Seen(es, s, j)
    {
      UserOrder(es, j, i);
      assert Less(es[j].key, es[i].key);
      assert es[j] in Elements(es) && es[j] != es[i];
    }
  }

  // ----- positions in the visible map

  function AnyKey(): UserKey -> bool { k => true }
  function AtLeast(a: UserKey): UserKey -> bool { k => k >= a }
  function Above(a: UserKey): UserKey -> bool { k => k > a }
  function Below(a: UserKey): UserKey -> bool { k => k < a }

  ghost predicate LeastVisible(es: seq<Entry>, s: nat, p: UserKey -> bool, r: Option<UserKey>) {
    match r
    case Some(k) => p(k) && VisibleKey(es, s, k) && forall j :: p(j) && VisibleKey(es, s, j) ==> k <= j
    case None => forall j :: p(j) ==> !VisibleKey(es, s, j)
  }

  ghost predicate GreatestVisible(es: seq<Entry>, s: nat, p: UserKey -> bool, r: Option<UserKey>) {
    match r
    case Some(k) => p(k) && VisibleKey(es, s, k) && forall j :: p(j) && VisibleKey(es, s, j) ==> j <= k
    case None => forall j :: p(j) ==> !VisibleKey(es, s, j)
  }

  /** From live entries to visible keys: q is the first live entry whose key satisfies p. */
  lemma LeastFromLive(es: seq<Entry>, s: nat, p: UserKey -> bool, q: int)
    requires Run(es) && 0 <= q <= |es|
    requires q < |es| ==> Live(es, s, q) && p(es[q].key.user)
    requires forall i :: 0 <= i < q && Live(es, s, i) ==> !p(es[i].key.user)
    ensures LeastVisible(es, s, p, if q < |es| then Some(es[q].key.user) else None)
  {
    if q < |es| { LiveIsVisible(es, s, q); }
    forall j | p(j) && VisibleKey(es, s, j)
      ensures q < |es| && es[q].key.user <= j
    {
      var i := VisibleHasLive(es, s, j);
      UserOrder(es, q, i);
    }
  }

  lemma GreatestFromLive(es: seq<Entry>, s: nat, p: UserKey -> bool, q: int)
    requires Run(es) && -1 <= q < |es|
    requires q >= 0 ==> Live(es, s, q) && p(es[q].key.user)
    requires forall i :: q < i < |es| && Live(es, s, i) ==> !p(es[i].key.user)
    ensures GreatestVisible(es, s, p, if q >= 0 then Some(es[q].key.user) else None)
  {
    if q >= 0 { LiveIsVisible(es, s, q); }
    forall j | p(j) && VisibleKey(es, s, j)
      ensures q >= 0 && j <= es[q].key.user
    {
      var i := VisibleHasLive(es, s, j);
      UserOrder(es, i, q);
    }
  }

  // ----- scanning forward

  /** Every seen version of a key lying on both sides of position p is of a key to be skipped. */
  ghost predicate Fresh(es: seq<Entry>, s: nat, p: int, skip: Option<UserKey>) {
    forall j, i :: 0 <= j < p && p <= i < |es| && es[j].key.user == es[i].key.user && Seen(es, s, j)
      ==> skip.Some? && es[i].key.user <= skip.value
  }

  /** Where a forward scan may start: nothing seen at or after p sorts before the key to skip. */
  ghost predicate ScanStart(es: seq<Entry>, s: nat, p: int, skip: Option<UserKey>) {
    && 0 <= p <= |es| && Fresh(es, s, p, skip)
    && (skip.Some? ==> forall i :: p <= i < |es| && es[i].key.user < skip.value ==> !Seen(es, s, i))
  }

  /** A scan from p0 with skip0 has reached p, now skipping skip, and passed no live entry. */
  ghost predicate Scanning(es: seq<Entry>, s: nat, p0: int, skip0: Option<UserKey>, p: int, skip: Option<UserKey>) {
    && 0 <= p0 <= p && ScanStart(es, s, p, skip)
    && (forall i :: p0 <= i < p && Live(es, s, i) ==> skip0.Some? && es[i].key.user <= skip0.value)
    && (forall i :: p <= i < |es| && Live(es, s, i) && skip.Some? && es[i].key.user <= skip.value
          ==> skip0.Some? && es[i].key.user <= skip0.value)
    && (skip0.Some? ==> skip.Some? && skip0.value <= skip.value)
  }

  lemma PassEntry(es: seq<Entry>, s: nat, p0: int, skip0: Option<UserKey>, p: int, skip: Option<UserKey>)
    requires StrictlySorted(es) && Scanning(es, s, p0, skip0, p, skip) && p < |es|
    requires Seen(es, s, p) ==> es[p].key.kind.Value? && skip.Some? && es[p].key.user <= skip.value
    ensures Scanning(es, s, p0, skip0, p + 1, skip)
  {
  }

  lemma PassTombstone(es: seq<Entry>, s: nat, p0: int, skip0: Option<UserKey>, p: int, skip: Option<UserKey>)
    requires StrictlySorted(es) && Scanning(es, s, p0, skip0, p, skip) && p < |es|
    requires Seen(es, s, p) && es[p].key.kind.Deletion?
    ensures Scanning(es, s, p0, skip0, p + 1, Some(es[p].key.user))
  {
    forall j, i | 0 <= j <= p && p + 1 <= i < |es| && es[j].key.user == es[i].key.user
      ensures es[i].key.user == es[p].key.user
    {
      UserOrder(es, j, p);
      UserOrder(es, p, i);
    }
    forall i | p + 1 <= i < |es|
      ensures es[p].key.user <= es[i].key.user
    {
      UserOrder(es, p, i);
    }
  }

  lemma AcceptEntry(es: seq<Entry>, s: nat, p0: int, skip0: Option<UserKey>, p: int, skip: Option<UserKey>)
    requires StrictlySorted(es) && Scanning(es, s, p0, skip0, p, skip) && p < |es|
    requires Seen(es, s, p) && es[p].key.kind.Value? && !(skip.Some? && es[p].key.user <= skip.value)
    ensures Live(es, s, p) && (skip0.Some? ==> es[p].key.user > skip0.value)
  {
  }

  // ----- scanning backward

  /** Where a backward scan may start: no seen version of a key lies beyond p unless all do. */
  ghost predicate BackStart(es: seq<Entry>, s: nat, p: int) {
    && -1 <= p < |es|
    && forall j, i :: 0 <= j <= p < i < |es| && es[j].key.user == es[i].key.user ==> !Seen(es, s, i)
  }

  /** A backward scan from p0 has reached p. c is the last seen entry it passed, or p0 + 1
      when it has passed none; no entry beyond c is live. */
  ghost predicate BackScanning(es: seq<Entry>, s: nat, p0: int, p: int, c: int) {
    && BackStart(es, s, p0) && -1 <= p <= p0 && p < c <= p0 + 1
    && (forall i :: p < i < c ==> !Seen(es, s, i))
    && (c <= p0 ==> Seen(es, s, c))
    && (forall i :: c < i <= p0 ==> !Live(es, s, i))
  }

  /** Once the entries before it have other keys, a value candidate is live. */
  lemma CandidateLive(es: seq<Entry>, s: nat, p0: int, p: int, c: int)
    requires StrictlySorted(es) && BackScanning(es, s, p0, p, c) && c <= p0
    requires p >= 0 ==> es[p].key.user < es[c].key.user
    requires es[c].key.kind.Value?
    ensures Live(es, s, c)
  {
    forall j | 0 <= j < c && es[j].key.user == es[c].key.user
      ensures !Seen(es, s, j)
    {
      if p >= 0 { UserOrder(es, if j <= p then j else p, p); }
    }
  }

  /** Moving the candidate to a seen entry p is right when the old candidate was a tombstone or
      has the same key. */
  lemma MoveCandidate(es: seq<Entry>, s: nat, p0: int, p: int, c: int)
    requires StrictlySorted(es) && BackScanning(es, s, p0, p, c) && p >= 0 && Seen(es, s, p)
    requires c <= p0 && es[c].key.kind.Value? ==> es[p].key.user >= es[c].key.user
    ensures BackScanning(es, s, p0, p - 1, p)
  {
    if c <= p0 {
      UserOrder(es, p, c);
    }
  }

  /** What the backward scan remembers of its candidate. */
  ghost predicate Candidate(es: seq<Entry>, p0: int, c: int, kind: Kind, key: Option<UserKey>, value: string) {
    && (kind.Value? ==> 0 <= c <= p0 < |es| && es[c].key.kind.Value? && key == Some(es[c].key.user) && value == es[c].value)
    && (kind.Deletion? && 0 <= c <= p0 < |es| ==> es[c].key.kind.Deletion?)
  }

  /** Where a reverse iterator leaves its cursor: before every entry of the key, with nothing
      seen between the cursor and those entries. */
  ghost predicate Paused(es: seq<Entry>, s: nat, p: int, k: UserKey, value: string) {
    && -1 <= p < |es|
    && (exists q :: Live(es, s, q) && es[q].key.user == k && es[q].value == value)
    && (forall i :: 0 <= i <= p ==> es[i].key.user < k)
    && (forall i :: p < i < |es| && es[i].key.user < k ==> !Seen(es, s, i))
  }

  /** q is the last live entry up to start, or -1. */
  ghost predicate FoundPrev(es: seq<Entry>, s: nat, start: int, q: int) {
    && -1 <= q <= start < |es| && (q >= 0 ==> Live(es, s, q))
    && (forall i :: q < i <= start ==> !Live(es, s, i))
  }

  lemma CandidatePaused(es: seq<Entry>, s: nat, p0: int, p: int, c: int)
    requires StrictlySorted(es) && BackScanning(es, s, p0, p, c) && c <= p0 && es[c].key.kind.Value?
    requires p >= 0 ==> es[p].key.user < es[c].key.user
    ensures Live(es, s, c) && FoundPrev(es, s, p0, c) && Paused(es, s, p, es[c].key.user, es[c].value)
  {
    CandidateLive(es, s, p0, p, c);
    forall i | 0 <= i <= p
      ensures es[i].key.user < es[c].key.user
    {
      UserOrder(es, i, p);
    }
    forall i | c <= i < |es|
      ensures es[i].key.user >= es[c].key.user
    {
      UserOrder(es, c, i);
    }
  }

  /** q is the first live entry from start on that is not of a key at or before skip. */
  ghost predicate FoundNext(es: seq<Entry>, s: nat, start: int, skip: Option<UserKey>, q: int) {
    && start <= q <= |es|
    && (q < |es| ==> Live(es, s, q) && (skip.Some? ==> es[q].key.user > skip.value))
    && (forall i :: start <= i < q && Live(es, s, i) ==> skip.Some? && es[i].key.user <= skip.value)
  }

  ghost predicate FoundPrevKey(es: seq<Entry>, s: nat, start: int, key: Option<UserKey>) {
    exists q :: 0 <= q && FoundPrev(es, s, start, q) && key == Some(es[q].key.user)
  }

  ghost function FoundIndex(es: seq<Entry>, s: nat, start: int, key: Option<UserKey>): (q: int)
    requires FoundPrevKey(es, s, start, key)
    ensures 0 <= q && FoundPrev(es, s, start, q) && key == Some(es[q].key.user)
  {
    var q :| 0 <= q && FoundPrev(es, s, start, q) && key == Some(es[q].key.user);
    q
  }

  /** One iteration of the forward scan: accept the entry at p, or go on past it. */
  method ExamineNext(e: Entry, sequence: nat, skipping: Option<UserKey>,
                     ghost es: seq<Entry>, ghost start: int, ghost skip: Option<UserKey>, ghost p: int)
    returns (accept: bool, skipping': Option<UserKey>)
    requires StrictlySorted(es) && 0 <= p < |es| && e == es[p] && Scanning(es, sequence, start, skip, p, skipping)
    ensures accept ==> FoundNext(es, sequence, start, skip, p)
    ensures !accept ==> Scanning(es, sequence, start, skip, p + 1, skipping')
    ensures !accept && p + 1 == |es| ==> FoundNext(es, sequence, start, skip, |es|)
  {
    accept, skipping' := false, skipping;
    if e.key.seqno <= sequence {
      match e.key.kind
      case Deletion =>
        PassTombstone(es, sequence, start, skip, p, skipping);
        skipping' := Some(e.key.user);
      case Value =>
        if skipping.Some? && e.key.user <= skipping.value {
          PassEntry(es, sequence, start, skip, p, skipping);
        } else {
          AcceptEntry(es, sequence, start, skip, p, skipping);
          accept := true;
        }
    } else {
      PassEntry(es, sequence, start, skip, p, skipping);
    }
  }

  // ----- where the operations start their scans

  lemma SeekStart(es: seq<Entry>, s: nat, target: UserKey, p: int)
    requires StrictlySorted(es) && s <= MAX_SEQUENCE && 0 <= p <= |es|
    requires forall i :: 0 <= i < p ==> Less(es[i].key, InternalKey(target, s, Value))
    requires p < |es| ==> !Less(es[p].key, InternalKey(target, s, Value))
    ensures ScanStart(es, s, p, None)
    ensures forall i :: 0 <= i < p && Live(es, s, i) ==> es[i].key.user < target
    ensures forall i :: p <= i < |es| ==> es[i].key.user >= target
  {
    forall i | p <= i < |es|
      ensures es[i].key.user >= target
    {
      UserOrder(es, p, i);
    }
    forall j, i | 0 <= j < p && p <= i < |es| && es[j].key.user == es[i].key.user
      ensures !Seen(es, s, j)
    {
      assert es[i].key.user >= target;
    }
  }

  lemma FirstLive(es: seq<Entry>, s: nat, p: UserKey -> bool, start: int, q: int)
    requires Run(es) && 0 <= start && FoundNext(es, s, start, None, q)
    requires forall i :: 0 <= i < start && Live(es, s, i) ==> !p(es[i].key.user)
    requires forall i :: start <= i < |es| ==> p(es[i].key.user)
    ensures LeastVisible(es, s, p, if q < |es| then Some(es[q].key.user) else None)
  {
    LeastFromLive(es, s, p, q);
  }

  lemma CurrentStart(es: seq<Entry>, s: nat, p: int)
    requires StrictlySorted(es) && Live(es, s, p)
    ensures ScanStart(es, s, p, Some(es[p].key.user))
    ensures forall i :: 0 <= i < p ==> es[i].key.user <= es[p].key.user
  {
    forall i | p <= i < |es|
      ensures es[p].key.user <= es[i].key.user
    {
      UserOrder(es, p, i);
    }
    forall i | 0 <= i <= p
      ensures es[i].key.user <= es[p].key.user
    {
      UserOrder(es, i, p);
    }
  }

  lemma ResumeStart(es: seq<Entry>, s: nat, p: int, k: UserKey, value: string)
    requires Run(es) && Paused(es, s, p, k, value)
    ensures ScanStart(es, s, p + 1, Some(k)) && p + 1 < |es|
  {
    forall j, i | 0 <= j <= p && p < i < |es| && es[j].key.user == es[i].key.user
      ensures es[i].key.user <= k
    {
    }
  }

  lemma LiveAfter(es: seq<Entry>, s: nat, k0: UserKey, start: int, q: int)
    requires Run(es) && 0 <= start && FoundNext(es, s, start, Some(k0), q)
    requires forall i :: 0 <= i < start ==> es[i].key.user <= k0
    ensures LeastVisible(es, s, Above(k0), if q < |es| then Some(es[q].key.user) else None)
  {
    LeastFromLive(es, s, Above(k0), q);
  }

  lemma NothingBefore(es: seq<Entry>, s: nat, k0: UserKey, p: int)
    requires Run(es) && p == 0 < |es| && es[0].key.user == k0
    ensures GreatestVisible(es, s, Below(k0), None)
  {
    forall i | 0 <= i < |es|
      ensures es[i].key.user >= k0
    {
      UserOrder(es, 0, i);
    }
    GreatestFromLive(es, s, Below(k0), -1);
  }

  /** The cursor stands before the entries of k0, and nothing seen lies in between. */
  ghost predicate BeforeKey(es: seq<Entry>, s: nat, p: int, k0: UserKey) {
    && -1 <= p < |es|
    && (forall i :: 0 <= i <= p ==> es[i].key.user < k0)
    && (forall i :: p < i < |es| && es[i].key.user < k0 ==> !Seen(es, s, i))
  }

  lemma SteppedBefore(es: seq<Entry>, s: nat, k0: UserKey, p: int)
    requires StrictlySorted(es) && 0 <= p < |es| - 1 && es[p].key.user < k0 && es[p+1].key.user == k0
    ensures BeforeKey(es, s, p, k0)
  {
    forall i | 0 <= i <= p
      ensures es[i].key.user < k0
    {
      UserOrder(es, i, p);
    }
    forall i | p < i < |es|
      ensures es[i].key.user >= k0
    {
      UserOrder(es, p + 1, i);
    }
  }

  lemma BackFromKey(es: seq<Entry>, s: nat, k0: UserKey, p: int)
    requires StrictlySorted(es) && BeforeKey(es, s, p, k0)
    ensures BackStart(es, s, p)
  {
  }

  lemma LiveBefore(es: seq<Entry>, s: nat, k0: UserKey, start: int, q: int)
    requires Run(es) && BeforeKey(es, s, start, k0) && FoundPrev(es, s, start, q)
    ensures GreatestVisible(es, s, Below(k0), if q >= 0 then Some(es[q].key.user) else None)
  {
    GreatestFromLive(es, s, Below(k0), q);
  }

  class DBIter {
    const iter: InternalIterator
    const sequence: nat
    var savedKey: Option<UserKey>  // None stands for the cleared string
    var savedValue: string
    var forward: bool
    var valid: bool

    /** Forward: the cursor is on the live entry shown. Reverse: key and value are saved, and
        the cursor is before all entries of the key with nothing seen in between. */
    ghost predicate Inv()
      reads this, iter, iter.merger, iter.merger.children
    {
      var es := iter.entries;
      && Run(es) && iter.InBounds()
      && (valid && forward ==> Live(es, sequence, iter.pos))
      && (valid && !forward ==> savedKey.Some? && Paused(es, sequence, iter.pos, savedKey.value, savedValue))
    }

    constructor (iter: InternalIterator, sequence: nat)
      requires Run(iter.entries) && iter.InBounds()
      ensures this.iter == iter && this.sequence == sequence && Inv() && !valid
    {
      this.iter, this.sequence := iter, sequence;
      savedKey, savedValue, forward, valid := None, "", true, false;
    }

    function Key(): UserKey
      reads this, iter, iter.merger, iter.merger.children
      requires Inv() && valid
    {
      if forward then iter.Current().key.user else savedKey.value
    }

    function CurrentValue(): string
      reads this, iter, iter.merger, iter.merger.children
      requires Inv() && valid
    {
      if forward then iter.Current().value else savedValue
    }

    function Position(): Option<UserKey>
      reads this, iter, iter.merger, iter.merger.children
      requires Inv()
    {
      if valid then Some(Key()) else None
    }

    /** The iterator shows what its snapshot shows of the key it is on. */
    lemma ShowsVisible()
      requires Inv() && valid
      ensures Visible(Elements(iter.entries), Key(), sequence) == Some(CurrentValue())
    {
      if forward {
        LiveIsVisible(iter.entries, sequence, iter.pos);
      } else {
        var q :| Live(iter.entries, sequence, q) && iter.entries[q].key.user == savedKey.value && iter.entries[q].value == savedValue;
        LiveIsVisible(iter.entries, sequence, q);
      }
    }

    method FindNextUserEntry(skip: Option<UserKey>)
      requires Run(iter.entries) && iter.InBounds() && iter.Valid() && forward
      requires ScanStart(iter.entries, sequence, iter.pos, skip)
      modifies this, iter, iter.merger, iter.merger.children
      ensures Inv() && forward
      ensures FoundNext(iter.entries, sequence, old(iter.pos), skip, if valid then iter.pos else |iter.entries|)
    {
      hide InternalIterator.InBounds, StrictlySorted, UniqueVersions;
      ghost var start := iter.pos;
      var skipping := skip;
      while true
        invariant forward && iter.InBounds() && iter.Valid()
        invariant Scanning(iter.entries, sequence, start, skip, iter.pos, skipping)
        decreases |iter.entries| - iter.pos
      {
        var accept;
        accept, skipping := ExamineNext(iter.Current(), sequence, skipping, iter.entries, start, skip, iter.pos);
        iter.Stands();
        if accept {
          valid := true;
          savedKey := None;
          return;
        }
        iter.Next();
        iter.Stands();
        if !iter.Valid() {
          break;
        }
      }
      savedKey := None;
      valid := false;
    }

    method FindPrevUserEntry()
      requires Run(iter.entries) && iter.InBounds() && !forward
      requires BackStart(iter.entries, sequence, iter.pos)
      modifies this, iter, iter.merger, iter.merger.children
      ensures Inv()
      ensures valid ==> !forward && FoundPrevKey(iter.entries, sequence, old(iter.pos), savedKey)
      ensures !valid ==> FoundPrev(iter.entries, sequence, old(iter.pos), -1)
    {
      hide InternalIterator.InBounds, StrictlySorted, UniqueVersions;
      iter.Stands();
      ghost var start := iter.pos;
      ghost var c := iter.pos + 1;
      var valueType := Deletion;
      while iter.Valid()
        invariant iter.InBounds() && !forward && (iter.Valid() <==> 0 <= iter.pos)
        invariant BackScanning(iter.entries, sequence, start, iter.pos, c)
        invariant Candidate(iter.entries, start, c, valueType, savedKey, savedValue)
        decreases iter.pos
      {
        var e := iter.Current();
        if e.key.seqno <= sequence {
          if valueType != Deletion && e.key.user < savedKey.value {
            break;
          }
          MoveCandidate(iter.entries, sequence, start, iter.pos, c);
          c := iter.pos;
          valueType := e.key.kind;
          if valueType == Deletion {
            savedKey, savedValue := None, "";
          } else {
            savedKey, savedValue := Some(e.key.user), e.value;
          }
        } else {
          assert BackScanning(iter.entries, sequence, start, iter.pos - 1, c);
        }
        iter.Prev();
        iter.Stands();
      }
      if valueType == Deletion {
        valid := false;
        savedKey, savedValue := None, "";
        forward := true;
      } else {
        valid := true;
        CandidatePaused(iter.entries, sequence, start, iter.pos, c);
      }
    }

    // ----- the public operations

    method Seek(target: UserKey)
      requires Inv() && sequence <= MAX_SEQUENCE
      modifies this, iter, iter.merger, iter.merger.children
      ensures Inv() && LeastVisible(iter.entries, sequence, AtLeast(target), Position())
    {
      hide InternalIterator.InBounds, StrictlySorted, UniqueVersions;
      forward := true;
      savedKey, savedValue := None, "";
      iter.Seek(InternalKey(target, sequence, Value));
      iter.Stands();
      SeekStart(iter.entries, sequence, target, iter.pos);
      if iter.Valid() {
        ghost var start := iter.pos;
        FindNextUserEntry(None);
        FirstLive(iter.entries, sequence, AtLeast(target), start, if valid then iter.pos else |iter.entries|);
      } else {
        valid := false;
        LeastFromLive(iter.entries, sequence, AtLeast(target), |iter.entries|);
      }
    }

    method SeekToFirst()
      requires Inv()
      modifies this, iter, iter.merger, iter.merger.children
      ensures Inv() && LeastVisible(iter.entries, sequence, AnyKey(), Position())
    {
      hide InternalIterator.InBounds, StrictlySorted, UniqueVersions;
      forward := true;
      savedValue := "";
      iter.SeekToFirst();
      iter.Stands();
      if iter.Valid() {
        FindNextUserEntry(None);
        FirstLive(iter.entries, sequence, AnyKey(), 0, if valid then iter.pos else |iter.entries|);
      } else {
        valid := false;
        LeastFromLive(iter.entries, sequence, AnyKey(), 0);
      }
    }

    method SeekToLast()
      requires Inv()
      modifies this, iter, iter.merger, iter.merger.children
      ensures Inv() && GreatestVisible(iter.entries, sequence, AnyKey(), Position())
    {
      hide InternalIterator.InBounds, StrictlySorted, UniqueVersions;
      forward := false;
      savedValue := "";
      iter.SeekToLast();
      iter.Stands();
      FindPrevUserEntry();
      ghost var q := if valid then FoundIndex(iter.entries, sequence, |iter.entries| - 1, savedKey) else -1;
      GreatestFromLive(iter.entries, sequence, AnyKey(), q);
    }

    /** Moves to the next visible key, after either kind of move. */
    method Next()
      requires Inv() && valid
      modifies this, iter, iter.merger, iter.merger.children
      ensures Inv() && LeastVisible(iter.entries, sequence, Above(old(Key())), Position())
    {
      hide InternalIterator.InBounds, StrictlySorted, UniqueVersions;
      ghost var es, k0 := iter.entries, Key();
      iter.Stands();
      if !forward {
        forward := true;
        ResumeStart(es, sequence, iter.pos, k0, savedValue);
        if !iter.Valid() {
          iter.SeekToFirst();
        } else {
          iter.Next();
        }
        iter.Stands();
        assert iter.Valid();  // the entries of the current key are still ahead
      } else {
        savedKey := Some(iter.Current().key.user);
        CurrentStart(es, sequence, iter.pos);
      }
      ghost var start := iter.pos;
      FindNextUserEntry(savedKey);
      LiveAfter(es, sequence, k0, start, if valid then iter.pos else |es|);
    }

    /** Moves to the previous visible key, after either kind of move. */
    method Prev()
      requires Inv() && valid
      modifies this, iter, iter.merger, iter.merger.children
      ensures Inv() && GreatestVisible(iter.entries, sequence, Below(old(Key())), Position())
    {
      hide InternalIterator.InBounds, StrictlySorted, UniqueVersions;
      ghost var es, k0, p0 := iter.entries, Key(), iter.pos;
      iter.Stands();
      if forward {
        savedKey := Some(iter.Current().key.user);
        while true
          invariant iter.InBounds() && iter.Valid() && 0 <= iter.pos <= p0 && es[iter.pos].key.user == k0
          invariant savedKey == Some(k0) && forward && valid
          decreases iter.pos
        {
          iter.Prev();
          iter.Stands();
          if !iter.Valid() {
            valid := false;
            savedKey, savedValue := None, "";
            NothingBefore(es, sequence, k0, 0);
            return;
          }
          UserOrder(es, iter.pos, iter.pos + 1);
          if iter.Current().key.user < savedKey.value {
            SteppedBefore(es, sequence, k0, iter.pos);
            break;
          }
        }
        forward := false;
      }
      BackFromKey(es, sequence, k0, iter.pos);
      ghost var start := iter.pos;
      FindPrevUserEntry();
      ghost var q := if valid then FoundIndex(es, sequence, start, savedKey) else -1;
      LiveBefore(es, sequence, k0, start, q);
    }
  }
}
