/**
  The activity store of broker/activity/bolt.go: per owner and box, a log with keys
  allocated from the bucket's sequence, and per user a mark of the last activity read.
  This module holds the states and the effect of each operation; ActivityDAO the methods.
 */
module ActivityBoxes {
  import opened Bytes
  import opened Results
  import opened Decimal
  import opened Bolt

  type Id = bytes

  datatype OwnerType = User | Node

  datatype BoxName = Inbox | Outbox | Subscriptions | LastRead | LastSent

  datatype Name = TypeBucket(t: OwnerType) | OwnerBucket(id: Id) | BoxBucket(box: BoxName)

  datatype Object = Object(id: string, kind: int, actor: Option<Id>, target: Option<Id>, updated: int, body: bytes)

  /**
    A stored value: the JSON of an activity, JSON that fails to parse after it has filled
    a part of the record, or bytes that fill nothing.
   */
  datatype Value = Activity(record: Object) | Broken(record: Object) | Raw(data: bytes)

  type Box = Bucket<Name, Value>

  type Log = seq<Entry<Value>>

  // ----- ids and keys

  const ID_PREFIX: string := "/activity-"

  function IdOf(k: nat): string { ID_PREFIX + Digits(k) }

  /** The number a client's activity id is taken for. */
  function IdToNumber(id: string): nat {
    ParseUint(if ID_PREFIX <= id then id[|ID_PREFIX|..] else id)
  }

  /** `bytesToUint`: too few bytes read as 0. */
  function NumberOf(key: bytes): nat {
    if |key| < 8 then 0 else FromBigEndian(key[..8])
  }

  lemma IdRoundTrip(k: nat)
    requires k <= MAX_UINT64
    ensures IdToNumber(IdOf(k)) == k
  {
    ParsePrinted(k);
    assert IdOf(k)[|ID_PREFIX|..] == Digits(k);
  }

  lemma KeyRoundTrip(k: nat)
    requires k <= MAX_UINT64
    ensures NumberOf(KeyOf(k)) == k
  {
    KeyDecodes(k);
    assert KeyOf(k)[..8] == KeyOf(k);
  }

  /** On keys of eight bytes, the order of the bucket is the order of the numbers. */
  lemma KeyOrder(a: bytes, b: bytes)
    requires |a| == |b| == 8
    ensures KeyLess(a, b) <==> NumberOf(a) < NumberOf(b)
    ensures a == b <==> NumberOf(a) == NumberOf(b)
  {
    KeyOrderIsNumericOrder(a, b);
    assert a[..8] == a && b[..8] == b;
  }

  // ----- buckets

  function GetBox(db: Box, t: OwnerType, owner: Id, x: BoxName): Option<Box> {
    if TypeBucket(t) !in db.subs then None
    else if OwnerBucket(owner) !in db.subs[TypeBucket(t)].subs then None
    else if BoxBucket(x) !in db.subs[TypeBucket(t)].subs[OwnerBucket(owner)].subs then None
    else Some(db.subs[TypeBucket(t)].subs[OwnerBucket(owner)].subs[BoxBucket(x)])
  }

  function SubOrEmpty(b: Box, n: Name): Box {
    if n in b.subs then b.subs[n] else Empty()
  }

  function WithSub(b: Box, n: Name, sub: Box): Box {
    b.(subs := b.subs[n := sub])
  }

  function BoxOrEmpty(db: Box, t: OwnerType, owner: Id, x: BoxName): Box {
    SubOrEmpty(SubOrEmpty(SubOrEmpty(db, TypeBucket(t)), OwnerBucket(owner)), BoxBucket(x))
  }

  /** Stores a box, creating the buckets on its path. */
  function SetBox(db: Box, t: OwnerType, owner: Id, x: BoxName, b: Box): Box {
    var typeBucket := SubOrEmpty(db, TypeBucket(t));
    var ownerBucket := SubOrEmpty(typeBucket, OwnerBucket(owner));
    WithSub(db, TypeBucket(t), WithSub(typeBucket, OwnerBucket(owner), WithSub(ownerBucket, BoxBucket(x), b)))
  }

  lemma GetSetBox(db: Box, t: OwnerType, owner: Id, x: BoxName, b: Box, t': OwnerType, owner': Id, x': BoxName)
    ensures GetBox(SetBox(db, t, owner, x, b), t', owner', x')
      == if t' == t && owner' == owner && x' == x then Some(b) else GetBox(db, t', owner', x')
  {
  }

  lemma WithSubOrdered(b: Box, n: Name, sub: Box)
    requires Ordered(b) && Ordered(sub)
    ensures Ordered(WithSub(b, n, sub)) && Ordered(SubOrEmpty(b, n))
  {
    EmptyOrdered();
  }

  lemma EmptyOrdered()
    ensures Ordered(Empty<Name, Value>())
  {
  }

  lemma SetBoxOrdered(db: Box, t: OwnerType, owner: Id, x: BoxName, b: Box)
    requires Ordered(db) && Ordered(b)
    ensures Ordered(SetBox(db, t, owner, x, b)) && Ordered(BoxOrEmpty(db, t, owner, x))
  {
    hide Ordered;
    var typeBucket := SubOrEmpty(db, TypeBucket(t));
    var ownerBucket := SubOrEmpty(typeBucket, OwnerBucket(owner));
    WithSubOrdered(db, TypeBucket(t), b);
    WithSubOrdered(typeBucket, OwnerBucket(owner), b);
    WithSubOrdered(ownerBucket, BoxBucket(x), b);
    WithSubOrdered(typeBucket, OwnerBucket(owner), WithSub(ownerBucket, BoxBucket(x), b));
    WithSubOrdered(db, TypeBucket(t), WithSub(typeBucket, OwnerBucket(owner), WithSub(ownerBucket, BoxBucket(x), b)));
  }

  // ----- the effect of the operations

  function NextSequence(b: Box): nat { (b.sequence + 1) % (MAX_UINT64 + 1) }

  /** The record as it is stored: under the next key, with the id of that key. */
  function Stamped(k: nat, o: Object): Value { Activity(o.(id := IdOf(k))) }

  function PostedBox(b: Box, o: Object): Box {
    var k := NextSequence(b);
    b.(sequence := k, entries := Put(b.entries, KeyOf(k), Stamped(k, o)))
  }

  function Posted(db: Box, t: OwnerType, owner: Id, x: BoxName, o: Object): Box {
    SetBox(db, t, owner, x, PostedBox(BoxOrEmpty(db, t, owner, x), o))
  }

  datatype Post = Post(t: OwnerType, owner: Id, box: BoxName, activity: Object)

  function PostedAll(db: Box, posts: seq<Post>): Box {
    if posts == [] then db
    else
      var last := posts[|posts| - 1];
      Posted(PostedAll(db, posts[..|posts| - 1]), last.t, last.owner, last.box, last.activity)
  }

  const LAST_KEY: bytes := [0x6C, 0x61, 0x73, 0x74]

  function StoredMark(b: Option<Box>): nat {
    if b.None? then 0
    else
      var v := Get(b.value.entries, LAST_KEY);
      if v.Some? && v.value.Raw? then NumberOf(v.value.data) else 0
  }

  function MarkOf(db: Box, user: Id, x: BoxName): nat { StoredMark(GetBox(db, User, user, x)) }

  function Marked(db: Box, user: Id, x: BoxName, last: bytes): Box {
    var b := BoxOrEmpty(db, User, user, x);
    SetBox(db, User, user, x, b.(entries := Put(b.entries, LAST_KEY, Raw(last))))
  }

  /** What an explicit "mark as read" request stores. */
  function MarkBytes(activityId: string): bytes {
    if activityId == "" then [] else KeyOf(IdToNumber(activityId))
  }

  /** The entries above a mark, all of them counted. */
  function CountAbove(es: Log, mark: nat): nat {
    if es == [] then 0
    else CountAbove(es[..|es| - 1], mark) + if NumberOf(es[|es| - 1].key) > mark then 1 else 0
  }

  function Entries(db: Box, t: OwnerType, owner: Id, x: BoxName): Log {
    var b := GetBox(db, t, owner, x);
    if b.None? then [] else b.value.entries
  }

  function SequenceOf(db: Box, t: OwnerType, owner: Id, x: BoxName): nat {
    var b := GetBox(db, t, owner, x);
    if b.None? then 0 else b.value.sequence
  }

  function UnreadCount(db: Box, user: Id): nat {
    CountAbove(Entries(db, User, user, Inbox), MarkOf(db, user, LastRead))
  }

  // ----- consistency

  /** A log: keys of eight bytes from 1 to the sequence, in order, each record with the id of its key. */
  ghost predicate LogOk(b: Box) {
    && b.sequence <= MAX_UINT64 && Sorted(b.entries)
    && forall i :: 0 <= i < |b.entries| ==> EntryOk(b.entries[i], b.sequence)
  }

  predicate EntryOk(e: Entry<Value>, sequence: nat) {
    && |e.key| == 8 && 1 <= NumberOf(e.key) <= sequence
    && (e.value.Activity? ==> e.value.record.id == IdOf(NumberOf(e.key)))
  }

  ghost predicate LogsOk(db: Box) {
    forall t, owner, x :: (x == Inbox || x == Outbox) && GetBox(db, t, owner, x).Some? ==>
      LogOk(GetBox(db, t, owner, x).value)
  }

  ghost predicate MarksOk(db: Box) {
    forall user :: MarkOf(db, user, LastRead) <= SequenceOf(db, User, user, Inbox)
  }

  ghost predicate Consistent(db: Box) {
    Ordered(db) && LogsOk(db) && MarksOk(db)
  }

  // ----- posting

  /** A box that is absent behaves as an empty log. */
  lemma BoxIsLog(db: Box, t: OwnerType, owner: Id, x: BoxName)
    requires LogsOk(db) && (x == Inbox || x == Outbox)
    ensures LogOk(BoxOrEmpty(db, t, owner, x))
    ensures BoxOrEmpty(db, t, owner, x).entries == Entries(db, t, owner, x)
    ensures BoxOrEmpty(db, t, owner, x).sequence == SequenceOf(db, t, owner, x)
  {
    var b := GetBox(db, t, owner, x);
    if b.Some? {
      assert b.value == BoxOrEmpty(db, t, owner, x);
    } else {
      assert BoxOrEmpty(db, t, owner, x) == Empty();
    }
  }

  /** A new record gets a key above all others, so `Put` appends it. */
  lemma PostAppends(b: Box, o: Object)
    requires LogOk(b) && b.sequence < MAX_UINT64
    ensures var k := b.sequence + 1;
      && NextSequence(b) == k
      && PostedBox(b, o) == b.(sequence := k, entries := b.entries + [Entry(KeyOf(k), Stamped(k, o))])
      && LogOk(PostedBox(b, o))
  {
    var k := b.sequence + 1;
    KeyRoundTrip(k);
    forall i | 0 <= i < |b.entries|
      ensures KeyLess(b.entries[i].key, KeyOf(k))
    {
      assert EntryOk(b.entries[i], b.sequence);
      KeyOrder(b.entries[i].key, KeyOf(k));
    }
    PutAtEnd(b.entries, KeyOf(k), Stamped(k, o));
    var es := b.entries + [Entry(KeyOf(k), Stamped(k, o))];
    forall i | 0 <= i < |es|
      ensures EntryOk(es[i], k)
    {
      assert i < |b.entries| ==> EntryOk(b.entries[i], b.sequence);
    }
  }

  /** Replacing one log by a sound one with at least its sequence keeps the store consistent. */
  lemma SetLogKeepsConsistent(db: Box, t: OwnerType, owner: Id, x: BoxName, b: Box)
    requires Consistent(db) && (x == Inbox || x == Outbox) && LogOk(b) && Ordered(b)
    requires SequenceOf(db, t, owner, x) <= b.sequence
    ensures Consistent(SetBox(db, t, owner, x, b))
  {
    var db' := SetBox(db, t, owner, x, b);
    SetBoxOrdered(db, t, owner, x, b);
    forall t', owner', x' | (x' == Inbox || x' == Outbox) && GetBox(db', t', owner', x').Some?
      ensures LogOk(GetBox(db', t', owner', x').value)
    {
      GetSetBox(db, t, owner, x, b, t', owner', x');
    }
    forall user
      ensures MarkOf(db', user, LastRead) <= SequenceOf(db', User, user, Inbox)
    {
      GetSetBox(db, t, owner, x, b, User, user, LastRead);
      GetSetBox(db, t, owner, x, b, User, user, Inbox);
      assert MarkOf(db, user, LastRead) <= SequenceOf(db, User, user, Inbox);
    }
  }

  lemma PostKeepsConsistent(db: Box, t: OwnerType, owner: Id, x: BoxName, o: Object)
    requires Consistent(db) && (x == Inbox || x == Outbox) && SequenceOf(db, t, owner, x) < MAX_UINT64
    ensures Consistent(Posted(db, t, owner, x, o))
  {
    var b := BoxOrEmpty(db, t, owner, x);
    BoxIsLog(db, t, owner, x);
    PostAppends(b, o);
    SetBoxOrdered(db, t, owner, x, Empty());
    assert Ordered(PostedBox(b, o));
    SetLogKeepsConsistent(db, t, owner, x, PostedBox(b, o));
  }

  lemma CountAppended(es: Log, k: nat, v: Value, mark: nat)
    requires k <= MAX_UINT64
    ensures CountAbove(es + [Entry(KeyOf(k), v)], mark) == CountAbove(es, mark) + if k > mark then 1 else 0
  {
    KeyRoundTrip(k);
    var all := es + [Entry(KeyOf(k), v)];
    assert all[..|all| - 1] == es;
  }

  lemma PostedEntries(db: Box, t: OwnerType, owner: Id, x: BoxName, o: Object)
    requires LogsOk(db) && (x == Inbox || x == Outbox) && SequenceOf(db, t, owner, x) < MAX_UINT64
    ensures var k, db' := SequenceOf(db, t, owner, x) + 1, Posted(db, t, owner, x, o);
      && SequenceOf(db', t, owner, x) == k
      && Entries(db', t, owner, x) == Entries(db, t, owner, x) + [Entry(KeyOf(k), Stamped(k, o))]
  {
    hide LogsOk, LogOk, PostedBox, SetBox, Sorted, Put;
    var b := BoxOrEmpty(db, t, owner, x);
    BoxIsLog(db, t, owner, x);
    PostAppends(b, o);
    GetSetBox(db, t, owner, x, PostedBox(b, o), t, owner, x);
  }

  lemma PostedFrame(db: Box, t: OwnerType, owner: Id, x: BoxName, o: Object, t': OwnerType, owner': Id, x': BoxName)
    requires t' != t || owner' != owner || x' != x
    ensures GetBox(Posted(db, t, owner, x, o), t', owner', x') == GetBox(db, t', owner', x')
  {
    hide PostedBox;
    GetSetBox(db, t, owner, x, PostedBox(BoxOrEmpty(db, t, owner, x), o), t', owner', x');
  }

  /** Posting to an inbox counts the new activity exactly when its key is above the mark. */
  lemma PostCountsAboveMark(db: Box, user: Id, o: Object)
    requires LogsOk(db) && SequenceOf(db, User, user, Inbox) < MAX_UINT64
    ensures UnreadCount(Posted(db, User, user, Inbox, o), user) == UnreadCount(db, user)
      + if SequenceOf(db, User, user, Inbox) + 1 > MarkOf(db, user, LastRead) then 1 else 0
  {
    hide LogsOk, Posted, GetBox, CountAbove, Stamped, KeyOf;
    var k := SequenceOf(db, User, user, Inbox) + 1;
    PostedEntries(db, User, user, Inbox, o);
    PostedFrame(db, User, user, Inbox, o, User, user, LastRead);
    CountAppended(Entries(db, User, user, Inbox), k, Stamped(k, o), MarkOf(db, user, LastRead));
  }

  /**
    Main result: a posted activity is stored under a fresh key after all others, so it
    overwrites nothing, and it adds one to the unread count of the inbox it goes to.
   */
  lemma PostIsNewAndUnread(db: Box, t: OwnerType, owner: Id, x: BoxName, o: Object)
    requires Consistent(db) && (x == Inbox || x == Outbox) && SequenceOf(db, t, owner, x) < MAX_UINT64
    ensures var k, db' := SequenceOf(db, t, owner, x) + 1, Posted(db, t, owner, x, o);
      && Entries(db', t, owner, x) == Entries(db, t, owner, x) + [Entry(KeyOf(k), Stamped(k, o))]
      && (forall e :: e in Entries(db, t, owner, x) ==> e.key != KeyOf(k))
      && (t == User && x == Inbox ==> UnreadCount(db', owner) == UnreadCount(db, owner) + 1)
  {
    var k := SequenceOf(db, t, owner, x) + 1;
    KeyRoundTrip(k);
    BoxIsLog(db, t, owner, x);
    PostedEntries(db, t, owner, x, o);
    forall e | e in Entries(db, t, owner, x)
      ensures e.key != KeyOf(k)
    {
      assert EntryOk(e, k - 1);
    }
    if t == User && x == Inbox {
      assert MarkOf(db, owner, LastRead) <= SequenceOf(db, User, owner, Inbox);
      PostCountsAboveMark(db, owner, o);
    }
  }

  /** A post leaves the unread count of every other inbox as it was. */
  lemma PostLeavesOtherCounts(db: Box, t: OwnerType, owner: Id, x: BoxName, o: Object, user: Id)
    requires (x == Inbox || x == Outbox) && (t != User || owner != user || x != Inbox)
    ensures UnreadCount(Posted(db, t, owner, x, o), user) == UnreadCount(db, user)
  {
    PostedFrame(db, t, owner, x, o, User, user, Inbox);
    PostedFrame(db, t, owner, x, o, User, user, LastRead);
  }

  // ----- marks

  lemma MarkedMark(db: Box, user: Id, x: BoxName, last: bytes, user': Id, x': BoxName)
    ensures MarkOf(Marked(db, user, x, last), user', x')
      == if user' == user && x' == x then NumberOf(last) else MarkOf(db, user', x')
  {
    var b := BoxOrEmpty(db, User, user, x);
    GetPut(b.entries, LAST_KEY, Raw(last), LAST_KEY);
    GetSetBox(db, User, user, x, b.(entries := Put(b.entries, LAST_KEY, Raw(last))), User, user', x');
  }

  lemma MarkedFrame(db: Box, user: Id, x: BoxName, last: bytes, t': OwnerType, owner': Id, x': BoxName)
    requires x != x'
    ensures GetBox(Marked(db, user, x, last), t', owner', x') == GetBox(db, t', owner', x')
  {
    var b := BoxOrEmpty(db, User, user, x);
    GetSetBox(db, User, user, x, b.(entries := Put(b.entries, LAST_KEY, Raw(last))), t', owner', x');
  }

  lemma MarkKeepsLogs(db: Box, user: Id, x: BoxName, last: bytes)
    requires Ordered(db) && LogsOk(db) && (x == LastRead || x == LastSent)
    ensures Ordered(Marked(db, user, x, last)) && LogsOk(Marked(db, user, x, last))
  {
    var db' := Marked(db, user, x, last);
    var b := BoxOrEmpty(db, User, user, x);
    SetBoxOrdered(db, User, user, x, Empty());
    PutKeepsSorted(b.entries, LAST_KEY, Raw(last));
    SetBoxOrdered(db, User, user, x, b.(entries := Put(b.entries, LAST_KEY, Raw(last))));
    forall t', owner', x' | (x' == Inbox || x' == Outbox) && GetBox(db', t', owner', x').Some?
      ensures LogOk(GetBox(db', t', owner', x').value)
    {
      MarkedFrame(db, user, x, last, t', owner', x');
    }
  }

  /** Storing a mark keeps the store consistent exactly when a read mark is not above the inbox sequence. */
  lemma MarkKeepsConsistentIff(db: Box, user: Id, x: BoxName, last: bytes)
    requires Consistent(db) && (x == LastRead || x == LastSent)
    ensures Consistent(Marked(db, user, x, last)) <==>
      (x == LastRead ==> NumberOf(last) <= SequenceOf(db, User, user, Inbox))
  {
    var db' := Marked(db, user, x, last);
    MarkKeepsLogs(db, user, x, last);
    forall user'
      ensures MarkOf(db', user', LastRead)
        == if user' == user && x == LastRead then NumberOf(last) else MarkOf(db, user', LastRead)
      ensures SequenceOf(db', User, user', Inbox) == SequenceOf(db, User, user', Inbox)
    {
      MarkedMark(db, user, x, last, user', LastRead);
      MarkedFrame(db, user, x, last, User, user', Inbox);
    }
    assert MarkOf(db', user, LastRead) <= SequenceOf(db', User, user, Inbox) || !MarksOk(db');
    assert MarksOk(db);
  }

  /** The number that a mark request stores: exactly that of a stored activity's id. */
  lemma MarkBytesNumber(activityId: string)
    ensures NumberOf(MarkBytes(activityId)) == if activityId == "" then 0 else IdToNumber(activityId)
  {
    if activityId != "" {
      var s := if ID_PREFIX <= activityId then activityId[|ID_PREFIX|..] else activityId;
      ParseFromBound(s, 0);
      KeyRoundTrip(IdToNumber(activityId));
    }
  }

  /**
    After a client marks an activity id as read, the next activity posted to the inbox is
    counted as unread exactly when the number in that id is not above the inbox sequence.
   */
  lemma NextPostIsUnreadIff(db: Box, user: Id, activityId: string, o: Object)
    requires Consistent(db) && SequenceOf(db, User, user, Inbox) < MAX_UINT64 && activityId != ""
    ensures var marked := Marked(db, user, LastRead, MarkBytes(activityId));
      UnreadCount(Posted(marked, User, user, Inbox, o), user) == UnreadCount(marked, user) + 1
      <==> IdToNumber(activityId) <= SequenceOf(db, User, user, Inbox)
  {
    hide LogsOk, Ordered, Marked, Posted, UnreadCount, MarkBytes, IdToNumber;
    var marked := Marked(db, user, LastRead, MarkBytes(activityId));
    MarkKeepsLogs(db, user, LastRead, MarkBytes(activityId));
    MarkedFrame(db, user, LastRead, MarkBytes(activityId), User, user, Inbox);
    MarkedMark(db, user, LastRead, MarkBytes(activityId), user, LastRead);
    MarkBytesNumber(activityId);
    PostCountsAboveMark(marked, user, o);
  }

  /** An id that was never issued hides the next post: on an empty store, "/activity-7" does. */
  lemma UnissuedMarkExample(o: Object)
    ensures var marked := Marked(Empty(), [], LastRead, MarkBytes("/activity-7"));
      UnreadCount(Posted(marked, User, [], Inbox, o), []) == UnreadCount(marked, []) == 0
  {
    hide LogsOk, Ordered, Marked, Posted, MarkBytes, IdToNumber;
    var db: Box := Empty();
    EmptyIsConsistent();
    IdRoundTrip(7);
    assert IdOf(7) == "/activity-7";
    var marked := Marked(db, [], LastRead, MarkBytes("/activity-7"));
    MarkKeepsLogs(db, [], LastRead, MarkBytes("/activity-7"));
    MarkedFrame(db, [], LastRead, MarkBytes("/activity-7"), User, [], Inbox);
    MarkedMark(db, [], LastRead, MarkBytes("/activity-7"), [], LastRead);
    MarkBytesNumber("/activity-7");
    PostCountsAboveMark(marked, [], o);
  }

  lemma EmptyIsConsistent()
    ensures Consistent(Empty())
  {
    EmptyOrdered();
  }
}
