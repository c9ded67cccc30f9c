/**
  Every operation of the activity store as a step, and what all runs of steps keep.
 */
module ActivityRuns {
  import opened Bytes
  import opened Results
  import opened Decimal
  import opened Bolt
  import opened ActivityBoxes
  import opened ActivityLists

  /** An owner id that stands for every owner in a purge. */
  const EVERY_OWNER: Id := [0x2A]

  datatype PurgeArgs = PurgeArgs(minCount: int, maxCount: int, before: Option<int>)

  datatype Op =
    | PostOp(post: Post)
    | BatchOp(posts: seq<Post>)
    | ReadOp(t: OwnerType, owner: Id, box: BoxName, ref: Option<BoxName>)
    | MarkOp(user: Id, markBox: BoxName, activityId: string)
    | PurgeOp(t: OwnerType, owner: Id, box: BoxName, args: PurgeArgs)
    | DeleteOp(t: OwnerType, owner: Id)
    | SubscribeOp(t: OwnerType, owner: Id, user: Id, events: bytes)
    | CompactOp

  // ----- purge, delete, read, subscribe

  function PurgedBox(b: Box, args: PurgeArgs): Box {
    b.(entries := Purged(b.entries, args.minCount, args.maxCount, args.before))
  }

  /** Purges one box of an owner, when it exists. */
  function PurgedOwner(ownerBucket: Box, x: BoxName, args: PurgeArgs): Box {
    if BoxBucket(x) in ownerBucket.subs
    then WithSub(ownerBucket, BoxBucket(x), PurgedBox(ownerBucket.subs[BoxBucket(x)], args))
    else ownerBucket
  }

  function PurgedOwners(owners: map<Name, Box>, owner: Id, x: BoxName, args: PurgeArgs): map<Name, Box> {
    map n | n in owners ::
      if owner == EVERY_OWNER || n == OwnerBucket(owner) then PurgedOwner(owners[n], x, args) else owners[n]
  }

  function PurgedDb(db: Box, t: OwnerType, owner: Id, x: BoxName, args: PurgeArgs): Box {
    if TypeBucket(t) !in db.subs then db
    else
      var main := db.subs[TypeBucket(t)];
      WithSub(db, TypeBucket(t), main.(subs := PurgedOwners(main.subs, owner, x, args)))
  }

  /** A record that parses and names this user as its actor. */
  predicate CausedBy(e: Entry<Value>, user: Id) {
    e.value.Activity? && e.value.record.actor == Some(user)
  }

  /** The entries of a node's log that were not caused by this user. */
  function WithoutActor(es: Log, user: Id): Log {
    if es == [] then []
    else (if CausedBy(es[0], user) then [] else [es[0]]) + WithoutActor(es[1..], user)
  }

  /** A node's buckets after a user is gone: neither their activities nor their subscription. */
  function ClearedNode(node: Box, user: Id): Box {
    node.(subs := map n | n in node.subs ::
      var b := node.subs[n];
      if n == BoxBucket(Outbox) then b.(entries := WithoutActor(b.entries, user))
      else if n == BoxBucket(Subscriptions) then b.(entries := Remove(b.entries, user))
      else b)
  }

  function WithoutOwner(db: Box, t: OwnerType, owner: Id): Box {
    if TypeBucket(t) !in db.subs then db
    else
      var main := db.subs[TypeBucket(t)];
      WithSub(db, TypeBucket(t), main.(subs := main.subs - {OwnerBucket(owner)}))
  }

  function ClearedNodes(db: Box, user: Id): Box {
    if TypeBucket(Node) !in db.subs then db
    else
      var main := db.subs[TypeBucket(Node)];
      WithSub(db, TypeBucket(Node), main.(subs := map n | n in main.subs :: ClearedNode(main.subs[n], user)))
  }

  function Deleted(db: Box, t: OwnerType, owner: Id): Box {
    var db' := WithoutOwner(db, t, owner);
    if t == User then ClearedNodes(db', owner) else db'
  }

  /** The reference number of a read: the mark of the given box, 0 without one. */
  function ReadOffset(db: Box, owner: Id, ref: Option<BoxName>): nat {
    if ref.None? then 0 else MarkOf(db, owner, ref.value)
  }

  /** Reading a user's inbox marks its newest record as read, unless mails are being prepared. */
  function AfterRead(db: Box, t: OwnerType, owner: Id, x: BoxName, ref: Option<BoxName>): Box {
    var shown := Above(Entries(db, t, owner, x), ReadOffset(db, owner, ref));
    if ref != Some(LastSent) && t == User && x == Inbox && shown != []
    then Marked(db, owner, LastRead, shown[0].key)
    else db
  }

  /** The events a user follows an object for, if any. */
  function SubscriptionOf(db: Box, t: OwnerType, owner: Id, user: Id): Option<bytes> {
    var v := Get(Entries(db, t, owner, Subscriptions), user);
    if v.Some? && v.value.Raw? then Some(v.value.data) else None
  }

  function Subscribed(db: Box, t: OwnerType, owner: Id, user: Id, events: bytes): Box {
    var b := BoxOrEmpty(db, t, owner, Subscriptions);
    SetBox(db, t, owner, Subscriptions, b.(entries :=
      if events == [] then Remove(b.entries, user) else Put(b.entries, user, Raw(events))))
  }

  function Step(db: Box, op: Op): Box {
    match op
    case PostOp(p) => Posted(db, p.t, p.owner, p.box, p.activity)
    case BatchOp(posts) => PostedAll(db, posts)
    case ReadOp(t, owner, x, ref) => AfterRead(db, t, owner, x, ref)
    case MarkOp(user, x, id) => Marked(db, user, x, MarkBytes(id))
    case PurgeOp(t, owner, x, args) => PurgedDb(db, t, owner, x, args)
    case DeleteOp(t, owner) => Deleted(db, t, owner)
    case SubscribeOp(t, owner, user, events) => Subscribed(db, t, owner, user, events)
    case CompactOp => Compacted(db)
  }

  predicate PostAllowed(db: Box, p: Post) {
    (p.box == Inbox || p.box == Outbox) && SequenceOf(db, p.t, p.owner, p.box) < MAX_UINT64
  }

  predicate BatchAllowed(db: Box, posts: seq<Post>) {
    posts == [] ||
    (BatchAllowed(db, posts[..|posts| - 1]) && PostAllowed(PostedAll(db, posts[..|posts| - 1]), posts[|posts| - 1]))
  }

  /**
    What the callers of the store respect: activities go to logs with room in their
    sequence, marks to mark boxes and, for reads, not above what was issued.
   */
  predicate Allowed(db: Box, op: Op) {
    match op
    case PostOp(p) => PostAllowed(db, p)
    case BatchOp(posts) => BatchAllowed(db, posts)
    case MarkOp(user, x, id) =>
      (x == LastRead || x == LastSent)
      && (x == LastRead && id != "" ==> IdToNumber(id) <= SequenceOf(db, User, user, Inbox))
    case PurgeOp(t, owner, x, args) => x == Inbox || x == Outbox
    case _ => true
  }

  // ----- every operation keeps the store consistent

  lemma {:induction false} BatchKeepsConsistent(db: Box, posts: seq<Post>)
    requires Consistent(db) && BatchAllowed(db, posts)
    ensures Consistent(PostedAll(db, posts))
    decreases |posts|
  {
    hide Consistent, Posted;
    if posts != [] {
      var init, p := posts[..|posts| - 1], posts[|posts| - 1];
      BatchKeepsConsistent(db, init);
      PostKeepsConsistent(PostedAll(db, init), p.t, p.owner, p.box, p.activity);
    }
  }

  lemma AllSubsOrdered(b: Box, subs: map<Name, Box>)
    requires Ordered(b) && forall n :: n in subs ==> Ordered(subs[n])
    ensures Ordered(b.(subs := subs))
  {
  }

  lemma SubOrdered(b: Box, n: Name)
    requires Ordered(b) && n in b.subs
    ensures Ordered(b.subs[n])
  {
  }

  ghost predicate SameMarkAndSequence(db: Box, db': Box, user: Id) {
    && SequenceOf(db', User, user, Inbox) == SequenceOf(db, User, user, Inbox)
    && MarkOf(db', user, LastRead) == MarkOf(db, user, LastRead)
  }

  /** A change that keeps logs sound, sequences and marks keeps the store consistent. */
  lemma FrameKeepsConsistent(db: Box, db': Box)
    requires Consistent(db) && Ordered(db')
    requires forall t, owner, x :: (x == Inbox || x == Outbox) && GetBox(db', t, owner, x).Some? ==>
      LogOk(GetBox(db', t, owner, x).value)
    requires forall user :: MarkOf(db', user, LastRead) == 0 || SameMarkAndSequence(db, db', user)
    ensures Consistent(db')
  {
    forall user
      ensures MarkOf(db', user, LastRead) <= SequenceOf(db', User, user, Inbox)
    {
      assert MarkOf(db, user, LastRead) <= SequenceOf(db, User, user, Inbox);
    }
  }

  lemma PurgedBoxOk(b: Box, args: PurgeArgs)
    requires Ordered(b)
    ensures Ordered(PurgedBox(b, args))
    ensures LogOk(b) ==> LogOk(PurgedBox(b, args))
  {
    PurgeKeepsOrder(b.entries, args.minCount, args.maxCount, args.before);
    AllSubsOrdered(b, b.subs);
  }

  lemma PurgedOwnerOrdered(ownerBucket: Box, x: BoxName, args: PurgeArgs)
    requires Ordered(ownerBucket)
    ensures Ordered(PurgedOwner(ownerBucket, x, args))
  {
    if BoxBucket(x) in ownerBucket.subs {
      SubOrdered(ownerBucket, BoxBucket(x));
      PurgedBoxOk(ownerBucket.subs[BoxBucket(x)], args);
      WithSubOrdered(ownerBucket, BoxBucket(x), PurgedBox(ownerBucket.subs[BoxBucket(x)], args));
    }
  }

  /** A purge touches the named boxes only, and each of them as the filter says. */
  lemma PurgedFrame(db: Box, t: OwnerType, owner: Id, x: BoxName, args: PurgeArgs,
                    t': OwnerType, owner': Id, x': BoxName)
    ensures GetBox(PurgedDb(db, t, owner, x, args), t', owner', x') ==
      var b := GetBox(db, t', owner', x');
      if b.Some? && t' == t && x' == x && (owner == EVERY_OWNER || owner' == owner)
      then Some(PurgedBox(b.value, args)) else b
  {
    hide PurgedBox;
  }

  lemma PurgedOrdered(db: Box, t: OwnerType, owner: Id, x: BoxName, args: PurgeArgs)
    requires Ordered(db)
    ensures Ordered(PurgedDb(db, t, owner, x, args))
  {
    if TypeBucket(t) in db.subs {
      var main := db.subs[TypeBucket(t)];
      SubOrdered(db, TypeBucket(t));
      forall n | n in main.subs
        ensures Ordered(PurgedOwner(main.subs[n], x, args)) && Ordered(main.subs[n])
      {
        SubOrdered(main, n);
        PurgedOwnerOrdered(main.subs[n], x, args);
      }
      var main' := PurgedDb(db, t, owner, x, args).subs[TypeBucket(t)];
      AllSubsOrdered(main, main'.subs);
      WithSubOrdered(db, TypeBucket(t), main');
    }
  }

  lemma PurgeKeepsConsistent(db: Box, t: OwnerType, owner: Id, x: BoxName, args: PurgeArgs)
    requires Consistent(db) && (x == Inbox || x == Outbox)
    ensures Consistent(PurgedDb(db, t, owner, x, args))
  {
    var db' := PurgedDb(db, t, owner, x, args);
    PurgedOrdered(db, t, owner, x, args);
    forall t', owner', x' | (x' == Inbox || x' == Outbox) && GetBox(db', t', owner', x').Some?
      ensures LogOk(GetBox(db', t', owner', x').value)
    {
      PurgedFrame(db, t, owner, x, args, t', owner', x');
      BoxOrdered(db, t', owner', x');
      PurgedBoxOk(GetBox(db, t', owner', x').value, args);
    }
    forall user
      ensures SequenceOf(db', User, user, Inbox) == SequenceOf(db, User, user, Inbox)
      ensures MarkOf(db', user, LastRead) == MarkOf(db, user, LastRead)
    {
      PurgedFrame(db, t, owner, x, args, User, user, Inbox);
      PurgedFrame(db, t, owner, x, args, User, user, LastRead);
    }
    FrameKeepsConsistent(db, db');
  }

  lemma BoxOrdered(db: Box, t: OwnerType, owner: Id, x: BoxName)
    requires Ordered(db) && GetBox(db, t, owner, x).Some?
    ensures Ordered(GetBox(db, t, owner, x).value)
  {
    SubOrdered(db, TypeBucket(t));
    SubOrdered(db.subs[TypeBucket(t)], OwnerBucket(owner));
    SubOrdered(db.subs[TypeBucket(t)].subs[OwnerBucket(owner)], BoxBucket(x));
  }

  lemma {:induction false} WithoutActorKeepsOrder(es: Log, user: Id)
    requires Sorted(es)
    ensures Sorted(WithoutActor(es, user))
    ensures forall i :: 0 <= i < |WithoutActor(es, user)| ==> WithoutActor(es, user)[i] in es
  {
    hide KeyLess;
    if es != [] {
      var p := WithoutActor(es[1..], user);
      WithoutActorKeepsOrder(es[1..], user);
      FirstIsLess(es, p);
      SortedConcat(es[0], p);
      assert [] + p == p;
    }
  }

  /** Exactly what the user caused is taken out. */
  lemma {:induction false} WithoutActorIsFilter(es: Log, user: Id, e: Entry<Value>)
    ensures e in WithoutActor(es, user) <==> e in es && !CausedBy(e, user)
  {
    if es != [] {
      WithoutActorIsFilter(es[1..], user, e);
      assert es == [es[0]] + es[1..];
    }
  }

  lemma ClearedNodeOrdered(node: Box, user: Id)
    requires Ordered(node)
    ensures Ordered(ClearedNode(node, user))
  {
    forall n | n in node.subs
      ensures Ordered(ClearedNode(node, user).subs[n])
    {
      var b := node.subs[n];
      SubOrdered(node, n);
      WithoutActorKeepsOrder(b.entries, user);
      RemoveKeepsSorted(b.entries, user);
      AllSubsOrdered(b, b.subs);
    }
    AllSubsOrdered(node, ClearedNode(node, user).subs);
  }

  lemma DeletedOrdered(db: Box, t: OwnerType, owner: Id)
    requires Ordered(db)
    ensures Ordered(WithoutOwner(db, t, owner)) && Ordered(ClearedNodes(db, owner))
  {
    if TypeBucket(t) in db.subs {
      var main := db.subs[TypeBucket(t)];
      SubOrdered(db, TypeBucket(t));
      AllSubsOrdered(main, main.subs - {OwnerBucket(owner)});
      WithSubOrdered(db, TypeBucket(t), main.(subs := main.subs - {OwnerBucket(owner)}));
    }
    if TypeBucket(Node) in db.subs {
      var main := db.subs[TypeBucket(Node)];
      SubOrdered(db, TypeBucket(Node));
      forall n | n in main.subs
        ensures Ordered(ClearedNode(main.subs[n], owner))
      {
        SubOrdered(main, n);
        ClearedNodeOrdered(main.subs[n], owner);
      }
      var main' := ClearedNodes(db, owner).subs[TypeBucket(Node)];
      AllSubsOrdered(main, main'.subs);
      WithSubOrdered(db, TypeBucket(Node), main');
    }
  }

  /** What a deletion leaves of each box: nothing of the owner's, and of nodes what the user did not cause. */
  lemma DeletedFrame(db: Box, t: OwnerType, owner: Id, t': OwnerType, owner': Id, x': BoxName)
    ensures GetBox(Deleted(db, t, owner), t', owner', x') ==
      var b := GetBox(db, t', owner', x');
      if b.None? || (t' == t && owner' == owner) then None
      else if t == User && t' == Node && x' == Outbox
      then Some(b.value.(entries := WithoutActor(b.value.entries, owner)))
      else if t == User && t' == Node && x' == Subscriptions
      then Some(b.value.(entries := Remove(b.value.entries, owner)))
      else b
  {
    hide WithoutActor, Remove;
  }

  /** The log of a node's outbox after its user's deletion, entry by entry. */
  lemma DeletedOutbox(db: Box, user: Id, node: Id, e: Entry<Value>)
    ensures e in Entries(Deleted(db, User, user), Node, node, Outbox)
      <==> e in Entries(db, Node, node, Outbox) && !CausedBy(e, user)
  {
    hide Deleted, GetBox, WithoutActor, CausedBy;
    DeletedFrame(db, User, user, Node, node, Outbox);
    WithoutActorIsFilter(Entries(db, Node, node, Outbox), user, e);
  }

  lemma DeletedSubscription(db: Box, user: Id, node: Id, other: Id)
    requires Ordered(db)
    ensures SubscriptionOf(Deleted(db, User, user), Node, node, other)
      == if other == user then None else SubscriptionOf(db, Node, node, other)
  {
    hide Deleted, GetBox, Ordered, Get, Remove;
    DeletedFrame(db, User, user, Node, node, Subscriptions);
    if GetBox(db, Node, node, Subscriptions).Some? {
      BoxOrdered(db, Node, node, Subscriptions);
      EntriesSorted(GetBox(db, Node, node, Subscriptions).value);
      GetRemove(Entries(db, Node, node, Subscriptions), user, other);
    } else {
      NothingStored(other);
    }
  }

  lemma EntriesSorted(b: Box)
    requires Ordered(b)
    ensures Sorted(b.entries)
  {
  }

  lemma NothingStored(key: bytes)
    ensures Get<Value>([], key) == None
  {
  }

  /**
    Main result: deleting a user leaves none of the user's boxes, takes out of every node's
    outbox exactly the records the user caused, ends exactly the user's subscriptions to
    nodes, and keeps the entries in order.
   */
  lemma DeleteTakesExactly(db: Box, user: Id, node: Id)
    requires Ordered(db)
    ensures var db' := Deleted(db, User, user);
      && (forall x :: GetBox(db', User, user, x) == None)
      && (forall e :: e in Entries(db', Node, node, Outbox) <==>
        e in Entries(db, Node, node, Outbox) && !CausedBy(e, user))
      && Sorted(Entries(db', Node, node, Outbox))
      && (forall other :: SubscriptionOf(db', Node, node, other)
                       == if other == user then None else SubscriptionOf(db, Node, node, other))
  {
    var db' := Deleted(db, User, user);
    forall x
      ensures GetBox(db', User, user, x) == None
    {
      DeletedFrame(db, User, user, User, user, x);
    }
    forall e
      ensures e in Entries(db', Node, node, Outbox) <==> e in Entries(db, Node, node, Outbox) && !CausedBy(e, user)
    {
      DeletedOutbox(db, user, node, e);
    }
    forall other
      ensures SubscriptionOf(db', Node, node, other)
        == if other == user then None else SubscriptionOf(db, Node, node, other)
    {
      DeletedSubscription(db, user, node, other);
    }
    DeletedOutboxSorted(db, user, node);
  }

  lemma DeletedOutboxSorted(db: Box, user: Id, node: Id)
    requires Ordered(db)
    ensures Sorted(Entries(Deleted(db, User, user), Node, node, Outbox))
  {
    hide Deleted, GetBox, Ordered, WithoutActor;
    DeletedFrame(db, User, user, Node, node, Outbox);
    if GetBox(db, Node, node, Outbox).Some? {
      BoxOrdered(db, Node, node, Outbox);
      EntriesSorted(GetBox(db, Node, node, Outbox).value);
      WithoutActorKeepsOrder(Entries(db, Node, node, Outbox), user);
    }
  }

  lemma DeleteKeepsConsistent(db: Box, t: OwnerType, owner: Id)
    requires Consistent(db)
    ensures Consistent(Deleted(db, t, owner))
  {
    var db' := Deleted(db, t, owner);
    DeletedOrdered(db, t, owner);
    DeletedOrdered(WithoutOwner(db, t, owner), t, owner);
    forall t', owner', x' | (x' == Inbox || x' == Outbox) && GetBox(db', t', owner', x').Some?
      ensures LogOk(GetBox(db', t', owner', x').value)
    {
      DeletedFrame(db, t, owner, t', owner', x');
      WithoutActorKeepsOrder(GetBox(db, t', owner', x').value.entries, owner);
    }
    forall user
      ensures (t == User && user == owner) || (GetBox(db', User, user, Inbox) == GetBox(db, User, user, Inbox)
        && MarkOf(db', user, LastRead) == MarkOf(db, user, LastRead))
      ensures t == User && user == owner ==> MarkOf(db', user, LastRead) == 0
    {
      DeletedFrame(db, t, owner, User, user, Inbox);
      DeletedFrame(db, t, owner, User, user, LastRead);
    }
    FrameKeepsConsistent(db, db');
  }

  lemma SubscribeKeepsConsistent(db: Box, t: OwnerType, owner: Id, user: Id, events: bytes)
    requires Consistent(db)
    ensures Consistent(Subscribed(db, t, owner, user, events))
  {
    hide GetBox, SetBox, Put, Remove, LogOk;
    var b := BoxOrEmpty(db, t, owner, Subscriptions);
    var b' := b.(entries := if events == [] then Remove(b.entries, user) else Put(b.entries, user, Raw(events)));
    SetBoxOrdered(db, t, owner, Subscriptions, Empty());
    PutKeepsSorted(b.entries, user, Raw(events));
    RemoveKeepsSorted(b.entries, user);
    AllSubsOrdered(b', b.subs);
    SetBoxOrdered(db, t, owner, Subscriptions, b');
    OtherBoxesStay(db, t, owner, b');
    FrameKeepsConsistent(db, Subscribed(db, t, owner, user, events));
  }

  /**
    Main result: after an update, this user follows this object for exactly the given
    events, for none of them without a subscription, and nobody else's subscription changes.
   */
  lemma SubscriptionReadsBack(db: Box, t: OwnerType, owner: Id, user: Id, events: bytes,
                              t': OwnerType, owner': Id, user': Id)
    requires Ordered(db)
    ensures SubscriptionOf(Subscribed(db, t, owner, user, events), t', owner', user') ==
      if t' == t && owner' == owner && user' == user then (if events == [] then None else Some(events))
      else SubscriptionOf(db, t', owner', user')
  {
    hide GetBox, SetBox, Put, Remove, Get, Ordered;
    var b := BoxOrEmpty(db, t, owner, Subscriptions);
    var b' := b.(entries := if events == [] then Remove(b.entries, user) else Put(b.entries, user, Raw(events)));
    EmptyOrdered();
    SetBoxOrdered(db, t, owner, Subscriptions, Empty());
    EntriesSorted(b);
    GetRemove(b.entries, user, user');
    GetPut(b.entries, user, Raw(events), user');
    GetSetBox(db, t, owner, Subscriptions, b', t', owner', Subscriptions);
    BoxOrEmptyEntries(db, t, owner, Subscriptions);
  }

  lemma BoxOrEmptyEntries(db: Box, t: OwnerType, owner: Id, x: BoxName)
    ensures BoxOrEmpty(db, t, owner, x).entries == Entries(db, t, owner, x)
  {
  }

  lemma OtherBoxesStay(db: Box, t: OwnerType, owner: Id, b: Box)
    ensures forall t', owner', x' :: x' != Subscriptions ==>
      GetBox(SetBox(db, t, owner, Subscriptions, b), t', owner', x') == GetBox(db, t', owner', x')
  {
    forall t', owner', x' | x' != Subscriptions
      ensures GetBox(SetBox(db, t, owner, Subscriptions, b), t', owner', x') == GetBox(db, t', owner', x')
    {
      GetSetBox(db, t, owner, Subscriptions, b, t', owner', x');
    }
  }

  /** Reading never marks more than what is there. */
  lemma ReadKeepsConsistent(db: Box, t: OwnerType, owner: Id, x: BoxName, ref: Option<BoxName>)
    requires Consistent(db)
    ensures Consistent(AfterRead(db, t, owner, x, ref))
  {
    var es := Entries(db, t, owner, x);
    if AfterRead(db, t, owner, x, ref) != db {
      assert es != [];
      var last := es[|es| - 1];
      assert EntryOk(last, SequenceOf(db, t, owner, x));
      MarkKeepsConsistentIff(db, owner, LastRead, last.key);
    }
  }

  /** Compaction changes no box, sequences included. */
  lemma CompactKeepsBoxes(db: Box, t: OwnerType, owner: Id, x: BoxName)
    ensures GetBox(Compacted(db), t, owner, x) == GetBox(db, t, owner, x)
  {
  }

  lemma CompactKeepsConsistent(db: Box)
    requires Consistent(db)
    ensures Consistent(Compacted(db))
  {
    forall n | n in db.subs
      ensures Ordered(db.subs[n].(sequence := 0))
    {
      SubOrdered(db, n);
      AllSubsOrdered(db.subs[n], db.subs[n].subs);
    }
    assert Sorted(Compacted(db).entries);
    forall t, owner, x
      ensures GetBox(Compacted(db), t, owner, x) == GetBox(db, t, owner, x)
    {
      CompactKeepsBoxes(db, t, owner, x);
    }
    FrameKeepsConsistent(db, Compacted(db));
  }

  /** One step. */
  lemma StepKeepsConsistent(db: Box, op: Op)
    requires Consistent(db) && Allowed(db, op)
    ensures Consistent(Step(db, op))
  {
    hide Consistent, AfterRead, PurgedDb, Deleted, Subscribed, Compacted, Posted, PostedAll, Marked;
    match op
    case PostOp(p) => PostKeepsConsistent(db, p.t, p.owner, p.box, p.activity);
    case BatchOp(posts) => BatchKeepsConsistent(db, posts);
    case ReadOp(t, owner, x, ref) => ReadKeepsConsistent(db, t, owner, x, ref);
    case MarkOp(user, x, id) =>
      MarkBytesNumber(id);
      MarkKeepsConsistentIff(db, user, x, MarkBytes(id));
    case PurgeOp(t, owner, x, args) => PurgeKeepsConsistent(db, t, owner, x, args);
    case DeleteOp(t, owner) => DeleteKeepsConsistent(db, t, owner);
    case SubscribeOp(t, owner, user, events) => SubscribeKeepsConsistent(db, t, owner, user, events);
    case CompactOp => CompactKeepsConsistent(db);
  }

  function Run(db: Box, ops: seq<Op>): Box {
    if ops == [] then db else Step(Run(db, ops[..|ops| - 1]), ops[|ops| - 1])
  }

  predicate RunAllowed(db: Box, ops: seq<Op>) {
    ops == [] || (RunAllowed(db, ops[..|ops| - 1]) && Allowed(Run(db, ops[..|ops| - 1]), ops[|ops| - 1]))
  }

  /** Main result: every state that a run of the operations reaches from an empty store is consistent. */
  lemma {:induction false} EveryRunIsConsistent(ops: seq<Op>)
    requires RunAllowed(Empty(), ops)
    ensures Consistent(Run(Empty(), ops))
    decreases |ops|
  {
    hide Consistent, Step, Allowed;
    if ops == [] {
      EmptyIsConsistent();
    } else {
      EveryRunIsConsistent(ops[..|ops| - 1]);
      StepKeepsConsistent(Run(Empty(), ops[..|ops| - 1]), ops[|ops| - 1]);
    }
  }

  /** After any run, a new inbox activity overwrites nothing and is unread. */
  lemma AfterAnyRunPostsAreNew(ops: seq<Op>, user: Id, o: Object)
    requires RunAllowed(Empty(), ops) && SequenceOf(Run(Empty(), ops), User, user, Inbox) < MAX_UINT64
    ensures var db := Run(Empty(), ops);
      var db' := Posted(db, User, user, Inbox, o);
      && |Entries(db', User, user, Inbox)| == |Entries(db, User, user, Inbox)| + 1
      && Entries(db, User, user, Inbox) <= Entries(db', User, user, Inbox)
      && UnreadCount(db', user) == UnreadCount(db, user) + 1
  {
    EveryRunIsConsistent(ops);
    PostIsNewAndUnread(Run(Empty(), ops), User, user, Inbox, o);
  }

  /** Reading an inbox from the start leaves nothing unread. */
  lemma ReadClearsUnread(db: Box, user: Id)
    requires Consistent(db)
    ensures UnreadCount(AfterRead(db, User, user, Inbox, None), user) == 0
  {
    var es := Entries(db, User, user, Inbox);
    if es != [] {
      var b := GetBox(db, User, user, Inbox).value;
      var last := es[|es| - 1];
      assert EntryOk(last, b.sequence);
      MarkedFrame(db, user, LastRead, last.key, User, user, Inbox);
      MarkedMark(db, user, LastRead, last.key, user, LastRead);
      forall i | 0 <= i < |es|
        ensures |es[i].key| == 8
      {
        assert EntryOk(es[i], b.sequence);
      }
      NoneAbove(es, NumberOf(last.key));
    }
  }
}
