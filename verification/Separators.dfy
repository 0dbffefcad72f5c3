/** The order of byte strings and of encoded internal keys, and short keys in the gap between two. */
module Separators {
  import opened Coding

  // ----- user keys, byte by byte

  predicate BytesLess(a: Bytes, b: Bytes) {
    b != [] && (a == [] || a[0] < b[0] || (a[0] == b[0] && BytesLess(a[1..], b[1..])))
  }

  lemma {:induction false} BytesLessTransitive(a: Bytes, b: Bytes, c: Bytes)
    requires BytesLess(a, b) && BytesLess(b, c)
    ensures BytesLess(a, c)
  {
    if a != [] && a[0] == b[0] == c[0] {
      BytesLessTransitive(a[1..], b[1..], c[1..]);
    }
  }

  lemma {:induction false} BytesLessTotal(a: Bytes, b: Bytes)
    ensures BytesLess(a, b) || BytesLess(b, a) || a == b
    ensures !(BytesLess(a, b) && BytesLess(b, a)) && !BytesLess(a, a)
  {
    if a != [] && b != [] && a[0] == b[0] {
      BytesLessTotal(a[1..], b[1..]);
      BytesLessTotal(a[1..], a[1..]);
      assert a == [a[0]] + a[1..] && b == [b[0]] + b[1..];
    } else if a != [] {
      BytesLessTotal(a[1..], a[1..]);
    }
  }

  /** Two strings that differ first at position n. */
  lemma {:induction false} LessAt(a: Bytes, b: Bytes, n: nat)
    requires n < |a| && n < |b| && a[..n] == b[..n] && a[n] != b[n]
    ensures BytesLess(a, b) <==> a[n] < b[n]
  {
    if n > 0 {
      assert a[0] == a[..n][0] == b[..n][0] == b[0];
      assert a[1..][..n-1] == a[..n][1..] && b[1..][..n-1] == b[..n][1..];
      LessAt(a[1..], b[1..], n - 1);
    }
  }

  /** The first n bytes of start and limit agree, and at the next one limit is more than one
      ahead. */
  predicate RoomAt(start: Bytes, limit: Bytes, n: nat) {
    && n < |start| && n < |limit| && start[..n] == limit[..n]
    && start[n] < 0xff && start[n] + 1 < limit[n]
  }

  /** A string that lies where both ends start alike starts so too. */
  lemma {:induction false} BetweenStartsAlike(start: Bytes, limit: Bytes, n: nat, x: Bytes)
    requires n < |start| && n < |limit| && start[..n] == limit[..n]
    requires !BytesLess(x, start) && BytesLess(x, limit)
    ensures |x| > n && x[..n] == start[..n]
  {
    if n > 0 {
      assert start[0] == start[..n][0] == limit[..n][0] == limit[0];
      assert start[1..][..n-1] == start[..n][1..] && limit[1..][..n-1] == limit[..n][1..];
      BetweenStartsAlike(start[1..], limit[1..], n - 1, x[1..]);
      assert x[..n] == [x[0]] + x[1..][..n-1] && start[..n] == [start[0]] + start[1..][..n-1];
    }
  }

  /** Where there is room, start is cut after the first difference and its last byte raised by one:
      no string in the gap is shorter. Where there is none, start stays. */
  method FindShortestSeparator(start: Bytes, limit: Bytes) returns (key: Bytes)
    ensures |key| <= |start|
    ensures key == start || (BytesLess(start, key) && BytesLess(key, limit))
    ensures forall n: nat :: RoomAt(start, limit, n) ==> |key| == n + 1 && key[..n] == start[..n] && key[n] == start[n] + 1
    ensures (forall n: nat :: !RoomAt(start, limit, n)) ==> key == start
    ensures key != start ==> forall x: Bytes :: !BytesLess(x, start) && BytesLess(x, limit) ==> |x| >= |key|
  {
    key := start;
    var minLength := if |start| < |limit| then |start| else |limit|;
    var diffIndex := 0;
    while diffIndex < minLength && start[diffIndex] == limit[diffIndex]
      invariant diffIndex <= minLength && start[..diffIndex] == limit[..diffIndex]
    {
      diffIndex := diffIndex + 1;
    }
    if diffIndex < minLength {
      var diffByte := start[diffIndex];
      if diffByte < 0xff && diffByte + 1 < limit[diffIndex] {
        assert RoomAt(start, limit, diffIndex);
        key := start[..diffIndex] + [diffByte + 1];
        LessAt(start, key, diffIndex);
        LessAt(key, limit, diffIndex);
        forall x: Bytes | !BytesLess(x, start) && BytesLess(x, limit)
          ensures |x| >= |key|
        {
          BetweenStartsAlike(start, limit, diffIndex, x);
        }
      }
    }
  }

  /** Every byte before n is the largest there is, and the one at n is not. */
  predicate RaisableAt(start: Bytes, n: nat) {
    n < |start| && start[n] != 0xff && forall i :: 0 <= i < n ==> start[i] == 0xff
  }

  /** A string shorter than a run of largest bytes and some more is less. */
  lemma {:induction false} ShorterIsLess(start: Bytes, n: nat, x: Bytes)
    requires n <= |start| && (forall i :: 0 <= i < n ==> start[i] == 0xff) && |x| <= n && |x| < |start|
    ensures BytesLess(x, start)
  {
    if x != [] && x[0] == start[0] {
      ShorterIsLess(start[1..], n - 1, x[1..]);
    }
  }

  /** Start is cut after the first byte that can be raised, and that byte raised by one; a run of
      largest bytes stays. No string at or after start is shorter. */
  method FindShortSuccessor(start: Bytes) returns (key: Bytes)
    ensures |key| <= |start|
    ensures key == start || BytesLess(start, key)
    ensures forall n: nat :: RaisableAt(start, n) ==> |key| == n + 1 && key[..n] == start[..n] && key[n] == start[n] + 1
    ensures (forall n: nat :: !RaisableAt(start, n)) ==> key == start
    ensures forall x: Bytes :: !BytesLess(x, start) ==> |x| >= |key|
  {
    key := start;
    for i := 0 to |start|
      invariant forall j :: 0 <= j < i ==> start[j] == 0xff
    {
      if start[i] != 0xff {
        key := start[..i] + [start[i] + 1];
        LessAt(start, key, i);
        assert RaisableAt(start, i);
        forall x: Bytes | |x| < |key|
          ensures BytesLess(x, start)
        {
          ShorterIsLess(start, i, x);
        }
        return;
      }
    }
    forall x: Bytes | |x| < |key|
      ensures BytesLess(x, start)
    {
      ShorterIsLess(start, |start|, x);
    }
  }

  // ----- internal keys: a user key and eight bytes of sequence number and type

  function ExtractUserKey(key: Bytes): Bytes {
    if |key| >= 8 then key[..|key| - 8] else []
  }

  /** The sequence number and the type packed in one number. */
  function PackedTag(key: Bytes): nat {
    if |key| >= 8 then DecodeFixed64(key[|key| - 8..]) else 0
  }

  /** Ascending user keys, then descending sequence numbers. */
  predicate InternalLess(a: Bytes, b: Bytes) {
    var ua, ub := ExtractUserKey(a), ExtractUserKey(b);
    BytesLess(ua, ub) || (ua == ub && PackedTag(a) > PackedTag(b))
  }

  predicate IsInternal(key: Bytes) {
    |key| >= 8
  }

  lemma InternalLessTransitive(a: Bytes, b: Bytes, c: Bytes)
    requires InternalLess(a, b) && InternalLess(b, c)
    ensures InternalLess(a, c)
  {
    hide DecodeFixed64, BytesLess;
    var ua, ub, uc := ExtractUserKey(a), ExtractUserKey(b), ExtractUserKey(c);
    if BytesLess(ua, ub) && BytesLess(ub, uc) {
      BytesLessTransitive(ua, ub, uc);
    }
  }

  lemma InternalLessIrreflexive(a: Bytes)
    ensures !InternalLess(a, a)
  {
    BytesLessTotal(ExtractUserKey(a), ExtractUserKey(a));
    hide BytesLess;
  }

  lemma InternalLessWeak(a: Bytes, b: Bytes, c: Bytes)
    requires !InternalLess(b, a)
    ensures InternalLess(b, c) ==> InternalLess(a, c)
    ensures InternalLess(c, a) ==> InternalLess(c, b)
  {
    hide DecodeFixed64, BytesLess;
    var ua, ub, uc := ExtractUserKey(a), ExtractUserKey(b), ExtractUserKey(c);
    BytesLessTotal(ua, ub);
    if BytesLess(ua, ub) && BytesLess(ub, uc) {
      BytesLessTransitive(ua, ub, uc);
    }
    if BytesLess(uc, ua) && BytesLess(ua, ub) {
      BytesLessTransitive(uc, ua, ub);
    }
  }

  /** The largest sequence number with the type used for seeking. */
  const MAX_TAG: nat := 0xff_ffff_ffff_ffff * 256 + 1

  /** The first internal key of a user key. */
  function SeekKey(user: Bytes): (key: Bytes)
    ensures IsInternal(key) && ExtractUserKey(key) == user
  {
    user + Fixed64(MAX_TAG)
  }

  lemma SeekKeyBytes(user: Bytes)
    ensures SeekKey(user) == user + [1, 0xff, 0xff, 0xff, 0xff, 0xff, 0xff, 0xff]
  {
  }

  /** Nothing at or before key shares its user key with anything at or after limit,
      unless it is not after start. */
  ghost predicate Parts(start: Bytes, key: Bytes, limit: Bytes) {
    key == start || (BytesLess(ExtractUserKey(start), ExtractUserKey(key)) && BytesLess(ExtractUserKey(key), ExtractUserKey(limit)))
  }

  method FindShortestInternalSeparator(start: Bytes, limit: Bytes) returns (key: Bytes)
    requires IsInternal(start) && IsInternal(limit)
    ensures IsInternal(key) && |key| <= |start| && Parts(start, key, limit)
    ensures var us, ul := ExtractUserKey(start), ExtractUserKey(limit);
      && (forall n: nat :: RoomAt(us, ul, n) && n + 1 < |us| ==>
            key == us[..n] + [us[n] + 1, 1, 0xff, 0xff, 0xff, 0xff, 0xff, 0xff, 0xff])
      && ((forall n: nat :: RoomAt(us, ul, n) ==> n + 1 == |us|) ==> key == start)
  {
    hide BytesLess;
    key := start;
    var userStart, userLimit := ExtractUserKey(start), ExtractUserKey(limit);
    var tmp := FindShortestSeparator(userStart, userLimit);
    if |tmp| < |userStart| && BytesLess(userStart, tmp) {
      key := SeekKey(tmp);
      SeekKeyBytes(tmp);
    }
  }

  method FindShortInternalSuccessor(start: Bytes) returns (key: Bytes)
    requires IsInternal(start)
    ensures IsInternal(key) && |key| <= |start|
    ensures key == start || BytesLess(ExtractUserKey(start), ExtractUserKey(key))
    ensures var us := ExtractUserKey(start);
      && (forall n: nat :: RaisableAt(us, n) && n + 1 < |us| ==>
            key == us[..n] + [us[n] + 1, 1, 0xff, 0xff, 0xff, 0xff, 0xff, 0xff, 0xff])
      && ((forall n: nat :: RaisableAt(us, n) ==> n + 1 == |us|) ==> key == start)
  {
    hide BytesLess;
    key := start;
    var userKey := ExtractUserKey(start);
    var tmp := FindShortSuccessor(userKey);
    if |tmp| < |userKey| && BytesLess(userKey, tmp) {
      key := SeekKey(tmp);
      SeekKeyBytes(tmp);
    }
  }

  /** A separator lies at or after start and before limit. */
  lemma PartsBetween(start: Bytes, key: Bytes, limit: Bytes)
    requires Parts(start, key, limit) && InternalLess(start, limit)
    ensures !InternalLess(key, start) && InternalLess(key, limit)
  {
    hide BytesLess, DecodeFixed64;
    BytesLessTotal(ExtractUserKey(start), ExtractUserKey(key));
  }

  /** A key that a separator sends past start has no version at or after limit. */
  lemma PartsUserKeys(start: Bytes, key: Bytes, limit: Bytes, k: Bytes, e: Bytes)
    requires Parts(start, key, limit) && InternalLess(start, k) && !InternalLess(key, k)
    requires e == limit || InternalLess(limit, e)
    ensures ExtractUserKey(k) != ExtractUserKey(e)
  {
    hide BytesLess, DecodeFixed64;
    var us, uk, ul, u, ue := ExtractUserKey(start), ExtractUserKey(key), ExtractUserKey(limit), ExtractUserKey(k), ExtractUserKey(e);
    BytesLessTotal(u, uk);
    BytesLessTotal(us, u);
    if key != start && u == ue {
      assert BytesLess(uk, ul) && !BytesLess(uk, u);
      if BytesLess(ul, ue) {
        BytesLessTransitive(uk, ul, ue);
      }
    }
  }
}
