/** Internal keys, their order, and the one meaning every layer of the store must
    agree on: which value of a user key is visible at a snapshot.

    A user key is represented by its rank under the user's comparator. The store
    only ever compares user keys, and every countable total order embeds in the
    reals, so nothing about the comparator (density, bounds, gaps) is assumed. */
module Keys {

  datatype Option<+T> = None | Some(value: T)
  type UserKey = real
  const MAX_SEQUENCE: nat := 0x100_0000_0000_0000 - 1

  /** Sequence numbers share a 64-bit word with the 8-bit type. */
  type SequenceNumber = n: nat | n <= MAX_SEQUENCE

  datatype Kind = Deletion | Value

  datatype InternalKey = InternalKey(user: UserKey, seqno: SequenceNumber, kind: Kind) {
    /** Sequence number and type packed in one number, as stored on disk. */
    function Tag(): nat {
      256 * seqno + if kind.Value? then 1 else 0
    }
  }

  /** User key ascending, then tag descending: newer entries come first. */
  predicate Less(a: InternalKey, b: InternalKey) {
    a.user < b.user || (a.user == b.user && a.Tag() > b.Tag())
  }

  datatype Entry = Entry(key: InternalKey, value: string)

  ghost predicate StrictlySorted(es: seq<Entry>) {
    forall i, j {:trigger Less(es[i].key, es[j].key)} :: 0 <= i < j < |es| ==> Less(es[i].key, es[j].key)
  }

  ghost function Elements(es: seq<Entry>): set<Entry> {
    set e | e in es
  }

  /** No two entries of one user key carry the same sequence number. */
  ghost predicate UniqueVersions(es: set<Entry>) {
    forall a, b :: a in es && b in es && a.key.user == b.key.user && a.key.seqno == b.key.seqno ==> a == b
  }

  /** e is the newest entry of user key k among those written at or before snapshot s. */
  ghost predicate Newest(es: set<Entry>, k: UserKey, s: nat, e: Entry) {
    && e in es && e.key.user == k && e.key.seqno <= s
    && forall x :: x in es && x.key.user == k && x.key.seqno <= s ==> x.key.seqno <= e.key.seqno
  }

  /** What a reader of k at snapshot s must see: nothing if the newest entry is a
      deletion or there is no entry at all. */
  ghost function Visible(es: set<Entry>, k: UserKey, s: nat): Option<string> {
    if exists e :: Newest(es, k, s, e) then
      var e :| Newest(es, k, s, e);
      if e.key.kind.Value? then Some(e.value) else None
    else
      None
  }

  lemma NewestUnique(es: set<Entry>, k: UserKey, s: nat, a: Entry, b: Entry)
    requires UniqueVersions(es) && Newest(es, k, s, a) && Newest(es, k, s, b)
    ensures a == b
  {
    assert a.key.seqno <= b.key.seqno && b.key.seqno <= a.key.seqno;
  }

  lemma VisibleIsNewest(es: set<Entry>, k: UserKey, s: nat, e: Entry)
    requires UniqueVersions(es) && Newest(es, k, s, e)
    ensures Visible(es, k, s) == if e.key.kind.Value? then Some(e.value) else None
  {
    forall x | Newest(es, k, s, x)
      ensures x == e
    {
      NewestUnique(es, k, s, x, e);
    }
  }

  lemma {:induction false} NewestExists(es: set<Entry>, k: UserKey, s: nat, x: Entry) returns (e: Entry)
    requires x in es && x.key.user == k && x.key.seqno <= s
    ensures Newest(es, k, s, e)
    decreases es
  {
    var rest := es - {x};
    if y :| y in rest && y.key.user == k && y.key.seqno <= s {
      e := NewestExists(rest, k, s, y);
      if e.key.seqno < x.key.seqno {
        e := x;
      }
    } else {
      e := x;
    }
  }

  /** Without any entry of k at or before s there is nothing to see. */
  lemma VisibleNone(es: set<Entry>, k: UserKey, s: nat)
    requires forall x :: x in es && x.key.user == k ==> x.key.seqno > s
    ensures Visible(es, k, s) == None
  {
  }

  /** In a sorted run, entries of one user key get older from left to right. */
  lemma SortedAges(es: seq<Entry>, i: nat, j: nat)
    requires StrictlySorted(es) && i < j < |es| && es[i].key.user == es[j].key.user
    ensures es[i].key.seqno >= es[j].key.seqno
    ensures forall m :: i <= m <= j ==> es[m].key.user == es[i].key.user
  {
    assert Less(es[i].key, es[j].key);
    forall m | i < m < j
      ensures es[m].key.user == es[i].key.user
    {
      assert Less(es[i].key, es[m].key) && Less(es[m].key, es[j].key);
    }
  }
}
