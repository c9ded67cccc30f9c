/**
  The Bolt DAO of broker/activity/bolt.go and the batching cache of broker/activity/cache.go.
  Each method is proved against the effect that ActivityBoxes, ActivityLists and
  ActivityRuns give to it.
 */
module ActivityDAO {
  import opened Bytes
  import opened Results
  import Bolt
  import opened ActivityBoxes
  import opened ActivityLists
  import opened ActivityRuns

  /**
    Every bucket keeps its keys in order, as the store does and as every run keeps
    (`EveryRunIsConsistent`); the methods that rely on the order ask for it.
   */
  class BoltDAO {
    var db: Box

    constructor ()
      ensures db == Bolt.Empty()
    {
      db := Bolt.Empty();
    }

    method PostActivity(t: OwnerType, owner: Id, x: BoxName, o: Object)
      modifies this
      ensures db == Step(old(db), PostOp(Post(t, owner, x, o)))
    {
      var bucket := BoxOrEmpty(db, t, owner, x);
      var objectKey := NextSequence(bucket);
      bucket := bucket.(sequence := objectKey);
      var stored := o.(id := ID_PREFIX + Decimal.Digits(objectKey));
      bucket := bucket.(entries := Bolt.Put(bucket.entries, BigEndian(objectKey, 8), Activity(stored)));
      db := SetBox(db, t, owner, x, bucket);
    }

    method BatchPost(posts: seq<Post>)
      modifies this
      ensures db == Step(old(db), BatchOp(posts))
    {
      for i := 0 to |posts|
        invariant db == PostedAll(old(db), posts[..i])
      {
        assert posts[..i + 1][..i] == posts[..i];
        PostActivity(posts[i].t, posts[i].owner, posts[i].box, posts[i].activity);
      }
      assert posts[..|posts|] == posts;
    }

    method ReadLastUserInbox(user: Id, x: BoxName) returns (last: nat)
      ensures last == MarkOf(db, user, x)
    {
      var bucket := GetBox(db, User, user, x);
      if bucket.None? {
        return 0;
      }
      var data := Bolt.Get(bucket.value.entries, LAST_KEY);
      last := if data.Some? && data.value.Raw? then NumberOf(data.value.data) else 0;
    }

    /** Without key bytes, the mark is taken from an activity id. */
    method StoreLastUserInbox(user: Id, x: BoxName, last: Option<bytes>, activityId: string)
      modifies this
      ensures last.Some? ==> db == Marked(old(db), user, x, last.value)
      ensures last.None? ==> db == Step(old(db), MarkOp(user, x, activityId))
    {
      var stored := if last.Some? then last.value else [];
      if last.None? && activityId != "" {
        stored := KeyOf(IdToNumber(activityId));
      }
      var bucket := BoxOrEmpty(db, User, user, x);
      db := SetBox(db, User, user, x, bucket.(entries := Bolt.Put(bucket.entries, LAST_KEY, Raw(stored))));
    }

    /** Stops at the first key that is not above the mark; by the key order it misses none. */
    method CountUnreadForUser(user: Id) returns (unread: nat)
      requires Consistent(db)
      ensures unread == UnreadCount(db, user)
    {
      unread := 0;
      var lastRead := ReadLastUserInbox(user, LastRead);
      var bucket := GetBox(db, User, user, Inbox);
      if bucket.None? {
        return;
      }
      var es := bucket.value.entries;
      assert es[..|es|] == es;
      for i := |es| downto 0
        invariant unread + CountAbove(es[..i], lastRead) == CountAbove(es, lastRead)
      {
        CountAboveStep(es, i, lastRead);
        if NumberOf(es[i].key) <= lastRead {
          LogPrefixNoneAbove(bucket.value, i, lastRead);
          return;
        }
        unread := unread + 1;
      }
    }

    /** A box name is optional; the outbox is read without one. */
    method ActivitiesFor(t: OwnerType, owner: Id, boxName: Option<BoxName>, ref: Option<BoxName>,
                         reverseOffset: int, limit: int) returns (result: seq<Object>)
      modifies this
      ensures var x := if boxName.None? then Outbox else boxName.value;
        && result == Feed(Entries(old(db), t, owner, x),
                          if ref.None? then 0 else MarkOf(old(db), owner, ref.value), reverseOffset,
                          if limit == 0 && ref.None? then 20 else limit)
        && db == Step(old(db), ReadOp(t, owner, x, ref))
    {
      var x := if boxName.None? then Outbox else boxName.value;
      var offset := 0;
      if ref.Some? {
        offset := ReadLastUserInbox(owner, ref.value);
      }
      var bucket := GetBox(db, t, owner, x);
      result := [];
      if bucket.Some? {
        result := ReadNewest(bucket.value.entries, offset, reverseOffset, EffectiveLimit(limit, ref.Some?));
        var es := bucket.value.entries;
        var lastRead :=
          if es != [] && !(offset > 0 && NumberOf(es[|es| - 1].key) <= offset) then es[|es| - 1].key else [];
        if ref != Some(LastSent) && t == User && x == Inbox && Above(es, offset) != [] {
          StoreLastUserInbox(owner, LastRead, Some(lastRead), "");
        }
      }
    }

    method Purge(t: OwnerType, owner: Id, x: BoxName, args: PurgeArgs)
      modifies this
      ensures db == Step(old(db), PurgeOp(t, owner, x, args))
    {
      hide PurgedOwners;
      if TypeBucket(t) !in db.subs {
        return;
      }
      var main := db.subs[TypeBucket(t)];
      var purged := PurgeOwners(main.subs, owner, x, args);
      db := WithSub(db, TypeBucket(t), main.(subs := purged));
    }

    method Delete(t: OwnerType, owner: Id)
      requires Bolt.Ordered(db)
      modifies this
      ensures db == Step(old(db), DeleteOp(t, owner))
    {
      hide ClearedNode;
      ghost var before := db;
      if TypeBucket(t) in db.subs && OwnerBucket(owner) in db.subs[TypeBucket(t)].subs {
        var b := db.subs[TypeBucket(t)];
        db := WithSub(db, TypeBucket(t), b.(subs := b.subs - {OwnerBucket(owner)}));
      } else {
        AbsentOwner(db, t, owner);
      }
      if t != User || TypeBucket(Node) !in db.subs {
        return;
      }
      var main := db.subs[TypeBucket(Node)];
      DeletedOrdered(before, t, owner);
      SubOrdered(db, TypeBucket(Node));
      var cleared := ClearNodes(main.subs, owner);
      db := WithSub(db, TypeBucket(Node), main.(subs := cleared));
    }

    /** `events` are the marshalled event names, none for an empty list. */
    method UpdateSubscription(t: OwnerType, owner: Id, user: Id, events: bytes)
      requires Bolt.Ordered(db)
      modifies this
      ensures db == Step(old(db), SubscribeOp(t, owner, user, events))
      ensures SubscriptionOf(db, t, owner, user) == if events == [] then None else Some(events)
      ensures forall t', owner', user' :: t' != t || owner' != owner || user' != user ==>
        SubscriptionOf(db, t', owner', user') == SubscriptionOf(old(db), t', owner', user')
      ensures forall t', owner', x :: x != Subscriptions ==> GetBox(db, t', owner', x) == GetBox(old(db), t', owner', x)
    {
      SubscriptionChanges(db, t, owner, user, events);
      var bucket := BoxOrEmpty(db, t, owner, Subscriptions);
      if events == [] {
        bucket := bucket.(entries := Bolt.Remove(bucket.entries, user));
      } else {
        bucket := bucket.(entries := Bolt.Put(bucket.entries, user, Raw(events)));
      }
      db := SetBox(db, t, owner, Subscriptions, bucket);
    }

    method CompactStore()
      requires Bolt.Ordered(db)
      modifies this
      ensures db == Step(old(db), CompactOp)
    {
      db := Bolt.Compact(db);
    }
  }

  /** What an update of a subscription changes and what it leaves. */
  lemma SubscriptionChanges(db: Box, t: OwnerType, owner: Id, user: Id, events: bytes)
    requires Bolt.Ordered(db)
    ensures var db' := Subscribed(db, t, owner, user, events);
      && SubscriptionOf(db', t, owner, user) == (if events == [] then None else Some(events))
      && (forall t', owner', user' | t' != t || owner' != owner || user' != user ::
        SubscriptionOf(db', t', owner', user') == SubscriptionOf(db, t', owner', user'))
      && (forall t', owner', x :: x != Subscriptions ==> GetBox(db', t', owner', x) == GetBox(db, t', owner', x))
  {
    SubscriptionReadsBack(db, t, owner, user, events, t, owner, user);
    forall t', owner', user' | t' != t || owner' != owner || user' != user
      ensures SubscriptionOf(Subscribed(db, t, owner, user, events), t', owner', user')
        == SubscriptionOf(db, t', owner', user')
    {
      SubscriptionReadsBack(db, t, owner, user, events, t', owner', user');
    }
    var b := BoxOrEmpty(db, t, owner, Subscriptions);
    OtherBoxesStay(db, t, owner, b.(entries :=
      if events == [] then Bolt.Remove(b.entries, user) else Bolt.Put(b.entries, user, Raw(events))));
  }

  /** Browses the node buckets and removes what a user left in them. */
  method ClearNodes(nodes: map<Name, Box>, user: Id) returns (cleared: map<Name, Box>)
    requires forall n :: n in nodes ==> Bolt.Ordered(nodes[n])
    ensures cleared == map n | n in nodes :: ClearedNode(nodes[n], user)
  {
    hide ClearedNode;
    cleared := nodes;
    var names := nodes.Keys;
    while names != {}
      invariant names <= nodes.Keys == cleared.Keys
      invariant forall n :: n in nodes ==>
        cleared[n] == if n in names then nodes[n] else ClearedNode(nodes[n], user)
    {
      var n :| n in names;
      var node := ClearNode(nodes[n], user);
      cleared := cleared[n := node];
      names := names - {n};
    }
  }

  method ClearNode(node: Box, user: Id) returns (r: Box)
    requires Bolt.Ordered(node)
    ensures r == ClearedNode(node, user)
  {
    hide WithoutActor, Bolt.Remove;
    var subs := node.subs;
    if BoxBucket(Outbox) in subs {
      var outbox := subs[BoxBucket(Outbox)];
      SubOrdered(node, BoxBucket(Outbox));
      var left := ClearOutbox(outbox.entries, user);
      subs := subs[BoxBucket(Outbox) := outbox.(entries := left)];
    }
    if BoxBucket(Subscriptions) in subs {
      var subscriptions := subs[BoxBucket(Subscriptions)];
      SubOrdered(node, BoxBucket(Subscriptions));
      var left := ClearSubscriptions(subscriptions.entries, user);
      subs := subs[BoxBucket(Subscriptions) := subscriptions.(entries := left)];
    }
    r := node.(subs := subs);
    assert r.subs == ClearedNode(node, user).subs;
  }

  lemma WithoutActorCons(es: Log, user: Id)
    ensures WithoutActor(es, user) == if es == [] then []
      else (if CausedBy(es[0], user) then [] else [es[0]]) + WithoutActor(es[1..], user)
  {
  }

  /** Deleting the entry that the walk stands on leaves those kept before it and those after it. */
  lemma DeleteAtWalk(outbox: Log, done: Log, i: nat)
    requires Bolt.Sorted(outbox) && i < |outbox| && forall e :: e in done ==> e in outbox[..i]
    ensures Bolt.Remove(done + outbox[i..], outbox[i].key) == done + outbox[i + 1..]
  {
    forall k | 0 <= k < |done|
      ensures done[k].key != outbox[i].key
    {
      assert done[k] in outbox[..i];
      var j :| 0 <= j < i && outbox[j] == done[k];
      Bolt.SortedKeysDiffer(outbox, j, i);
    }
    assert outbox[i..] == [outbox[i]] + outbox[i + 1..];
    Bolt.RemoveAfter(done, outbox[i], outbox[i + 1..]);
  }

  /** Walks a node's outbox and deletes, by its key, each record that the user caused. */
  method ClearOutbox(outbox: Log, user: Id) returns (left: Log)
    requires Bolt.Sorted(outbox)
    ensures left == WithoutActor(outbox, user)
  {
    hide WithoutActor, Bolt.Remove, Bolt.Sorted;
    left := outbox;
    ghost var done: Log := [];
    assert outbox[0..] == outbox && [] + outbox == outbox;
    assert [] + WithoutActor(outbox, user) == WithoutActor(outbox, user);
    for i := 0 to |outbox|
      invariant left == done + outbox[i..] && forall e :: e in done ==> e in outbox[..i]
      invariant WithoutActor(outbox, user) == done + WithoutActor(outbox[i..], user)
    {
      var e := outbox[i];
      WithoutActorCons(outbox[i..], user);
      assert outbox[i..][0] == e && outbox[i..][1..] == outbox[i + 1..];
      if e.value.Activity? && e.value.record.actor.Some? && e.value.record.actor.value == user {
        DeleteAtWalk(outbox, done, i);
        left := Bolt.Remove(left, e.key);
        assert done + ([] + WithoutActor(outbox[i + 1..], user)) == done + WithoutActor(outbox[i + 1..], user);
      } else {
        assert done + ([e] + WithoutActor(outbox[i + 1..], user)) == (done + [e]) + WithoutActor(outbox[i + 1..], user);
        done := done + [e];
      }
    }
    WithoutActorCons([], user);
  }

  /** Walks a node's subscriptions and deletes the one whose key is the user. */
  method ClearSubscriptions(subscriptions: Log, user: Id) returns (left: Log)
    requires Bolt.Sorted(subscriptions)
    ensures left == Bolt.Remove(subscriptions, user)
  {
    hide Bolt.Remove;
    left := subscriptions;
    ghost var found := false;
    for i := 0 to |subscriptions|
      invariant found <==> exists j :: 0 <= j < i && subscriptions[j].key == user
      invariant left == if found then Bolt.Remove(subscriptions, user) else subscriptions
    {
      var k := subscriptions[i].key;
      if k == user {
        if found {
          var j :| 0 <= j < i && subscriptions[j].key == user;
          Bolt.SortedKeysDiffer(subscriptions, j, i);
        }
        left := Bolt.Remove(left, k);
        found := true;
      }
    }
    if !found {
      Bolt.GetAbsent(subscriptions, user);
    }
  }

  lemma CountAboveStep(es: Log, i: nat, mark: nat)
    requires i < |es|
    ensures CountAbove(es[..i + 1], mark) == CountAbove(es[..i], mark) + if NumberOf(es[i].key) > mark then 1 else 0
  {
    assert es[..i + 1][..i] == es[..i];
  }

  lemma LogPrefixNoneAbove(b: Box, i: nat, mark: nat)
    requires LogOk(b) && i < |b.entries| && NumberOf(b.entries[i].key) <= mark
    ensures CountAbove(b.entries[..i + 1], mark) == 0
  {
    var es := b.entries[..i + 1];
    assert forall j :: 0 <= j < |es| ==> es[j] == b.entries[j] && EntryOk(b.entries[j], b.sequence);
    NoneAbove(es, mark);
  }

  lemma AbsentOwner(db: Box, t: OwnerType, owner: Id)
    requires TypeBucket(t) !in db.subs || OwnerBucket(owner) !in db.subs[TypeBucket(t)].subs
    ensures WithoutOwner(db, t, owner) == db
  {
    if TypeBucket(t) in db.subs {
      var main := db.subs[TypeBucket(t)];
      assert main.subs - {OwnerBucket(owner)} == main.subs;
      assert db.subs[TypeBucket(t) := main] == db.subs;
    }
  }

  /** Purges the owner's box, or that of every owner. */
  method PurgeOwners(owners: map<Name, Box>, owner: Id, x: BoxName, args: PurgeArgs) returns (r: map<Name, Box>)
    ensures r == PurgedOwners(owners, owner, x, args)
  {
    hide PurgedOwner;
    r := owners;
    var names := if owner == EVERY_OWNER then owners.Keys else owners.Keys * {OwnerBucket(owner)};
    ghost var all := names;
    while names != {}
      invariant names <= all && r.Keys == owners.Keys
      invariant forall n :: n in owners ==>
        r[n] == if n in all && n !in names then PurgedOwner(owners[n], x, args) else owners[n]
    {
      var n :| n in names;
      var ownerBucket := PurgeOwner(owners[n], x, args);
      r := r[n := ownerBucket];
      names := names - {n};
    }
  }

  method PurgeOwner(ownerBucket: Box, x: BoxName, args: PurgeArgs) returns (r: Box)
    ensures r == PurgedOwner(ownerBucket, x, args)
  {
    hide Purged;
    r := ownerBucket;
    if BoxBucket(x) in ownerBucket.subs {
      var b := ownerBucket.subs[BoxBucket(x)];
      var left := PurgeBucket(b.entries, args);
      r := WithSub(ownerBucket, BoxBucket(x), b.(entries := left));
    }
  }

  /** The cursor loop of `Purge`, newest record first, deleting in place. */
  method PurgeBucket(es: Log, args: PurgeArgs) returns (left: Log)
    ensures left == Purged(es, args.minCount, args.maxCount, args.before)
    ensures Bolt.Sorted(es) ==> PurgeLeaves(es, left, args.minCount, args.maxCount, args.before)
  {
    hide Purged, PurgeLeaves;
    if Bolt.Sorted(es) {
      PurgeMeaning(es, args.minCount, args.maxCount, args.before);
    }
    left := es;
    var i, totalLeft, j := 0, 0, |es|;
    PurgeProtects([], args.minCount, args.maxCount, args.before);
    assert es[..|es|] + [] == es && es[|es|..] == [];
    while j > 0
      invariant 0 <= j <= |es|
      invariant left == es[..j] + Purged(es[j..], args.minCount, args.maxCount, args.before)
      invariant totalLeft == |Purged(es[j..], args.minCount, args.maxCount, args.before)|
      invariant if |es| - j < args.minCount then i == |es| - j else i >= args.minCount
    {
      j := j - 1;
      var e := es[j];
      assert es[j..] == [e] + es[j + 1..];
      PurgeStep(e, es[j + 1..], args.minCount, args.maxCount, args.before);
      DropOrKeep(es, j, Purged(es[j + 1..], args.minCount, args.maxCount, args.before));
      if args.minCount > 0 && i < args.minCount {
        i := i + 1;
        totalLeft := totalLeft + 1;
        continue;
      }
      if !e.value.Activity? {
        left := left[..j] + left[j + 1..];
        continue;
      }
      i := i + 1;
      if (args.maxCount > 0 && totalLeft >= args.maxCount)
        || (args.before.Some? && e.value.record.updated < args.before.value) {
        left := left[..j] + left[j + 1..];
        continue;
      }
      totalLeft := totalLeft + 1;
    }
  }

  lemma DropOrKeep(es: Log, j: nat, p: Log)
    requires j < |es|
    ensures es[..j + 1] + p == es[..j] + ([es[j]] + p)
    ensures (es[..j + 1] + p)[..j] + (es[..j + 1] + p)[j + 1..] == es[..j] + p
  {
  }

  lemma AboveStep(es: Log, j: nat, offset: nat)
    requires j < |es|
    ensures Above(es[..j + 1], offset) ==
      if offset > 0 && NumberOf(es[j].key) <= offset then [] else [es[j]] + Above(es[..j], offset)
  {
    assert es[..j + 1][..j] == es[..j];
  }

  lemma ReadableStep(e: Bolt.Entry<Value>, es: Log, prev: Option<Object>)
    ensures Readable([e] + es, prev) ==
      if !GoesOn(e.value, prev) then [] else [e.value.record] + Readable(es, Some(e.value.record))
  {
    assert ([e] + es)[1..] == es;
  }

  lemma SkipStep(e: Bolt.Entry<Value>, es: Log, n: int)
    requires n > 0
    ensures Skip([e] + es, n) == Skip(es, n - 1)
  {
  }

  lemma RunHeadsStep(s: seq<Object>, o: Object)
    ensures RunHeads(s + [o]) == RunHeads(s) + if s == [] || !Similar(s[|s| - 1], o) then [o] else []
  {
    assert (s + [o])[..|s|] == s;
  }

  lemma {:induction false} RunHeadsGrow(s: seq<Object>, more: seq<Object>)
    ensures RunHeads(s) <= RunHeads(s + more)
    decreases |more|
  {
    if more == [] {
      assert s + more == s;
    } else {
      var init := more[..|more| - 1];
      RunHeadsGrow(s, init);
      assert s + more == (s + init) + [more[|more| - 1]];
      RunHeadsStep(s + init, more[|more| - 1]);
    }
  }

  function Last(objects: seq<Object>): Option<Object> {
    if objects == [] then None else Some(objects[|objects| - 1])
  }

  /** The cursor stands before entry `j`; `objects` are the records read so far, none while skipping. */
  ghost predicate Reading(es: Log, offset: nat, r: int, i: int, j: nat, objects: seq<Object>)
    requires j <= |es|
  {
    if r > 0 && i < r then objects == [] && Skip(Above(es, offset), r) == Skip(Above(es[..j], offset), r - i)
    else Readable(Skip(Above(es, offset), r), None) == objects + Readable(Above(es[..j], offset), Last(objects))
  }

  lemma ReadingStarts(es: Log, offset: nat, r: int)
    ensures Reading(es, offset, r, 0, |es|, [])
  {
    assert es[..|es|] == es;
  }

  lemma ReadingSkips(es: Log, offset: nat, r: int, i: int, j: nat)
    requires j < |es| && 0 <= i < r && Reading(es, offset, r, i, j + 1, [])
    requires !(offset > 0 && NumberOf(es[j].key) <= offset)
    ensures Reading(es, offset, r, i + 1, j, [])
  {
    AboveStep(es, j, offset);
    SkipStep(es[j], Above(es[..j], offset), r - i);
    assert [] + Readable(Above(es[..j], offset), None) == Readable(Above(es[..j], offset), None);
  }

  lemma ReadingRecord(es: Log, offset: nat, r: int, i: int, j: nat, objects: seq<Object>)
    requires j < |es| && !(r > 0 && i < r) && Reading(es, offset, r, i, j + 1, objects)
    requires !(offset > 0 && NumberOf(es[j].key) <= offset) && GoesOn(es[j].value, Last(objects))
    ensures Reading(es, offset, r, i, j, objects + [es[j].value.record])
    ensures Reading(es, offset, r, i + 1, j, objects + [es[j].value.record])
  {
    hide Above, Readable;
    AboveStep(es, j, offset);
    ReadableStep(es[j], Above(es[..j], offset), Last(objects));
    var o, rest := es[j].value.record, Readable(Above(es[..j], offset), Some(es[j].value.record));
    assert objects + ([o] + rest) == (objects + [o]) + rest;
  }

  /** Where the cursor stops: past the oldest record, at the reference number, or where it cannot go on. */
  lemma ReadingEnds(es: Log, offset: nat, r: int, i: int, j: nat, objects: seq<Object>)
    requires j <= |es| && Reading(es, offset, r, i, j, objects)
    requires j == 0 || (offset > 0 && NumberOf(es[j - 1].key) <= offset)
      || (!(r > 0 && i < r) && !GoesOn(es[j - 1].value, Last(objects)))
    ensures Readable(Skip(Above(es, offset), r), None) == objects
  {
    hide Above, Readable, NumberOf, GoesOn;
    assert objects + [] == objects;
    NothingAbove(es, offset, Last(objects));
    NothingAbove(es, offset, None);
    if j > 0 {
      AboveStep(es, j - 1, offset);
      ReadableStep(es[j - 1], Above(es[..j - 1], offset), Last(objects));
    }
  }

  lemma NothingAbove(es: Log, offset: nat, prev: Option<Object>)
    ensures Above(es[..0], offset) == [] && Readable([], prev) == []
  {
  }

  lemma FeedAtEnd(es: Log, offset: nat, r: int, limit: int, i: int, j: nat, objects: seq<Object>)
    requires j <= |es| && Reading(es, offset, r, i, j, objects)
    requires j == 0 || (offset > 0 && NumberOf(es[j - 1].key) <= offset)
      || (!(r > 0 && i < r) && !GoesOn(es[j - 1].value, Last(objects)))
    requires limit > 0 ==> |RunHeads(objects)| < limit
    ensures Feed(es, offset, r, limit) == RunHeads(objects)
  {
    ReadingEnds(es, offset, r, i, j, objects);
  }

  lemma FeedAtLimit(es: Log, offset: nat, r: int, limit: int, i: int, j: nat, objects: seq<Object>)
    requires j <= |es| && Reading(es, offset, r, i, j, objects) && objects != []
    requires 0 < limit == |RunHeads(objects)|
    ensures Feed(es, offset, r, limit) == RunHeads(objects)
  {
    RunHeadsGrow(objects, Readable(Above(es[..j], offset), Last(objects)));
  }

  /** The cursor loop of `ActivitiesFor`: skips, collapses similar records, stops at the limit. */
  method ReadNewest(es: Log, offset: nat, reverseOffset: int, limit: int) returns (result: seq<Object>)
    ensures result == Feed(es, offset, reverseOffset, limit)
  {
    hide Feed, Reading, RunHeads, Similar;
    var i, total, j := 0, 0, |es|;
    var prev: Option<Object> := None;
    ghost var objects: seq<Object> := [];
    result := [];
    ReadingStarts(es, offset, reverseOffset);
    NoHeads();
    while j > 0
      invariant 0 <= i && 0 <= j <= |es| && total == |result| && (limit > 0 ==> total < limit)
      invariant Reading(es, offset, reverseOffset, i, j, objects)
      invariant reverseOffset > 0 && i < reverseOffset ==> objects == []
      invariant result == RunHeads(objects)
      invariant prev == Last(objects)
    {
      j := j - 1;
      var e := es[j];
      if offset > 0 && NumberOf(e.key) <= offset {
        FeedAtEnd(es, offset, reverseOffset, limit, i, j + 1, objects);
        return;
      }
      if reverseOffset > 0 && i < reverseOffset {
        ReadingSkips(es, offset, reverseOffset, i, j);
        i := i + 1;
        continue;
      }
      var similar := !e.value.Raw? && prev.Some? && Similar(prev.value, e.value.record);
      if !similar && !e.value.Activity? {
        FeedAtEnd(es, offset, reverseOffset, limit, i, j + 1, objects);
        return;
      }
      ReadingRecord(es, offset, reverseOffset, i, j, objects);
      RunHeadsStep(objects, e.value.record);
      objects := objects + [e.value.record];
      if similar {
        prev := Some(e.value.record);
        continue;
      }
      i := i + 1;
      total := total + 1;
      result := result + [e.value.record];
      prev := Some(e.value.record);
      if limit > 0 && total >= limit {
        FeedAtLimit(es, offset, reverseOffset, limit, i, j, objects);
        return;
      }
    }
    FeedAtEnd(es, offset, reverseOffset, limit, i, 0, objects);
  }

  lemma NoHeads()
    ensures RunHeads([]) == []
  {
  }

  // ----- batching

  /** What can happen to the cache: a post, or the timer. */
  datatype Event = Posting(post: Post) | Timer

  /** The store with the posts that wait for it. */
  datatype CacheState = CacheState(db: Box, inner: seq<Post>)

  const BATCH_SIZE: nat := 500

  function Flushed(s: CacheState): CacheState {
    CacheState(PostedAll(s.db, s.inner), [])
  }

  function Handled(s: CacheState, event: Event): CacheState {
    match event
    case Timer => Flushed(s)
    case Posting(post) =>
      var s' := s.(inner := s.inner + [post]);
      if |s'.inner| >= BATCH_SIZE then Flushed(s') else s'
  }

  function HandledAll(s: CacheState, events: seq<Event>): CacheState {
    if events == [] then s else Handled(HandledAll(s, events[..|events| - 1]), events[|events| - 1])
  }

  lemma FlushingNothing(db: Box)
    ensures Flushed(CacheState(db, [])) == CacheState(db, [])
  {
  }

  /** The batching decorator: posts wait in `inner` until 500 are there or a timer fires. */
  class Cache {
    const dao: BoltDAO
    var inner: seq<Post>

    constructor (dao: BoltDAO)
      ensures this.dao == dao && inner == []
    {
      this.dao, inner := dao, [];
    }

    function State(): CacheState
      reads this, dao
    {
      CacheState(dao.db, inner)
    }

    method FlushBatch()
      modifies this, dao
      ensures State() == Flushed(old(State()))
      ensures inner == [] && dao.db == PostedAll(old(dao.db), old(inner))
    {
      if |inner| == 0 {
        FlushingNothing(dao.db);
        return;
      }
      dao.BatchPost(inner);
      inner := inner[..0];
    }

    /** A post that arrives: it waits, unless it is the one that fills the batch. */
    method PostActivity(post: Post)
      modifies this, dao
      ensures State() == Handled(old(State()), Posting(post))
      ensures old(|inner|) < 499 ==> inner == old(inner) + [post] && dao.db == old(dao.db)
      ensures old(|inner|) == 499 ==> inner == [] && dao.db == PostedAll(old(dao.db), old(inner) + [post])
    {
      inner := inner + [post];
      if |inner| >= BATCH_SIZE {
        FlushBatch();
      }
    }

    /** The batching loop over everything that happens until it is told to stop; then a last flush. */
    method StartBatching(events: seq<Event>)
      modifies this, dao
      ensures State() == Flushed(HandledAll(old(State()), events))
    {
      hide Handled, Flushed;
      for i := 0 to |events|
        invariant State() == HandledAll(old(State()), events[..i])
      {
        assert events[..i + 1][..i] == events[..i];
        match events[i]
        case Posting(post) => PostActivity(post);
        case Timer =>
          FlushBatch();
          TimerFlushes(HandledAll(old(State()), events[..i]));
      }
      assert events[..|events|] == events;
      FlushBatch();
    }
  }

  lemma TimerFlushes(s: CacheState)
    ensures Handled(s, Timer) == Flushed(s)
  {
  }

  function PostsOf(events: seq<Event>): seq<Post> {
    if events == [] then []
    else
      var e := events[|events| - 1];
      PostsOf(events[..|events| - 1]) + if e.Posting? then [e.post] else []
  }

  lemma {:induction false} PostedAllConcat(db: Box, a: seq<Post>, b: seq<Post>)
    ensures PostedAll(db, a + b) == PostedAll(PostedAll(db, a), b)
    decreases |b|
  {
    hide Posted;
    if b == [] {
      assert a + b == a;
    } else {
      PostedAllConcat(db, a, b[..|b| - 1]);
      assert (a + b)[..|a + b| - 1] == a + b[..|b| - 1];
    }
  }

  /** All posts but the newest `|s.inner|` are stored, as if each had been posted directly; these wait, in order. */
  ghost predicate Batched(db: Box, posts: seq<Post>, s: CacheState) {
    && |s.inner| < 500 && |s.inner| <= |posts|
    && s.inner == posts[|posts| - |s.inner|..]
    && s.db == PostedAll(db, posts[..|posts| - |s.inner|])
  }

  lemma BatchedFlush(db: Box, posts: seq<Post>, inner: seq<Post>, stored: Box)
    requires |inner| <= |posts| && inner == posts[|posts| - |inner|..]
    requires stored == PostedAll(db, posts[..|posts| - |inner|])
    ensures Flushed(CacheState(stored, inner)) == CacheState(PostedAll(db, posts), [])
    ensures Batched(db, posts, Flushed(CacheState(stored, inner)))
  {
    hide PostedAll;
    PostedAllConcat(db, posts[..|posts| - |inner|], inner);
    assert posts == posts[..|posts| - |inner|] + inner && posts[..|posts|] == posts;
  }

  lemma HandledBatches(db: Box, posts: seq<Post>, s: CacheState, event: Event)
    requires Batched(db, posts, s)
    ensures Batched(db, posts + if event.Posting? then [event.post] else [], Handled(s, event))
  {
    hide PostedAll;
    match event
    case Timer =>
      BatchedFlush(db, posts, s.inner, s.db);
      assert posts + [] == posts;
    case Posting(post) =>
      var more, inner := posts + [post], s.inner + [post];
      assert more[..|more| - |inner|] == posts[..|posts| - |s.inner|];
      if |inner| >= BATCH_SIZE {
        BatchedFlush(db, more, inner, s.db);
      }
  }

  lemma {:induction false} HandledAllBatches(db: Box, events: seq<Event>)
    ensures Batched(db, PostsOf(events), HandledAll(CacheState(db, []), events))
    decreases |events|
  {
    hide PostedAll, Handled, Batched;
    if events == [] {
      NothingBatched(db);
    } else {
      var init := events[..|events| - 1];
      HandledAllBatches(db, init);
      HandledBatches(db, PostsOf(init), HandledAll(CacheState(db, []), init), events[|events| - 1]);
    }
  }

  lemma NothingBatched(db: Box)
    ensures Batched(db, PostsOf([]), CacheState(db, []))
  {
    assert PostsOf([])[..0] == [];
  }

  /**
    Main result: whatever the interleaving of posts, size-triggered flushes and timers, after
    every step fewer than 500 posts wait, they are the newest ones in order, and the store is
    the one that posting all others directly, in order, leaves. The final flush leaves the
    store that posting each activity directly would have left.
   */
  lemma BatchingRefinesPosting(db: Box, events: seq<Event>)
    ensures forall k :: 0 <= k <= |events| ==> BatchedAfter(db, events, k)
    ensures Flushed(HandledAll(CacheState(db, []), events)) == CacheState(PostedAll(db, PostsOf(events)), [])
  {
    forall k | 0 <= k <= |events|
      ensures BatchedAfter(db, events, k)
    {
      HandledAllBatches(db, events[..k]);
    }
    LastFlush(db, events);
  }

  ghost predicate BatchedAfter(db: Box, events: seq<Event>, k: nat)
    requires k <= |events|
  {
    Batched(db, PostsOf(events[..k]), HandledAll(CacheState(db, []), events[..k]))
  }

  lemma LastFlush(db: Box, events: seq<Event>)
    ensures Flushed(HandledAll(CacheState(db, []), events)) == CacheState(PostedAll(db, PostsOf(events)), [])
  {
    hide HandledAll, PostedAll, PostsOf;
    HandledAllBatches(db, events);
    var s := HandledAll(CacheState(db, []), events);
    BatchedFlush(db, PostsOf(events), s.inner, s.db);
  }
}
