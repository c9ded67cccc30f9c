/**
  What each operation of the activity store means to its caller, as a step of the runs of
  ActivityRuns, in terms of the records, keys and marks that can be read before and after.
 */
module ActivityMeaning {
  import opened Bytes
  import opened Results
  import opened Decimal
  import opened Bolt
  import opened ActivityBoxes
  import opened ActivityLists
  import opened ActivityRuns

  // ----- posting

  /** The last entry of a log is this activity under this number: every field but the id as it was posted. */
  ghost predicate StoredAs(e: Entry<Value>, k: nat, o: Object) {
    && e.key == BigEndian(k, 8) && e.value.Activity?
    && e.value.record.id == "/activity-" + Digits(k)
    && e.value.record.kind == o.kind && e.value.record.actor == o.actor && e.value.record.target == o.target
    && e.value.record.updated == o.updated && e.value.record.body == o.body
  }

  /** Main result: a post adds one entry, the posted activity under the next number, and changes no other box. */
  lemma {:induction false} PostMeaning(db: Box, p: Post)
    requires Consistent(db) && (p.box == Inbox || p.box == Outbox)
    requires SequenceOf(db, p.t, p.owner, p.box) < MAX_UINT64
    ensures var db' := Step(db, PostOp(p));
      var es, es' := Entries(db, p.t, p.owner, p.box), Entries(db', p.t, p.owner, p.box);
      var k := SequenceOf(db, p.t, p.owner, p.box) + 1;
      && |es'| == |es| + 1 && es'[..|es|] == es && StoredAs(es'[|es|], k, p.activity)
      && SequenceOf(db', p.t, p.owner, p.box) == k
    ensures forall t, owner, x :: t != p.t || owner != p.owner || x != p.box ==>
      GetBox(Step(db, PostOp(p)), t, owner, x) == GetBox(db, t, owner, x)
  {
    PostedEntries(db, p.t, p.owner, p.box, p.activity);
    forall t, owner, x | t != p.t || owner != p.owner || x != p.box
      ensures GetBox(Step(db, PostOp(p)), t, owner, x) == GetBox(db, t, owner, x)
    {
      PostedFrame(db, p.t, p.owner, p.box, p.activity, t, owner, x);
    }
  }

  /** And the next reading of the box begins with it. */
  lemma {:induction false} PostIsReadFirst(db: Box, p: Post, limit: int)
    requires Consistent(db) && (p.box == Inbox || p.box == Outbox)
    requires SequenceOf(db, p.t, p.owner, p.box) < MAX_UINT64
    ensures var k := SequenceOf(db, p.t, p.owner, p.box) + 1;
      var shown := Feed(Entries(Step(db, PostOp(p)), p.t, p.owner, p.box), 0, 0, limit);
      shown != [] && StoredAs(Entry(BigEndian(k, 8), Activity(shown[0])), k, p.activity)
  {
    hide Consistent, Step, Feed;
    PostMeaning(db, p);
    NewestIsShownFirst(Entries(Step(db, PostOp(p)), p.t, p.owner, p.box), limit);
  }

  lemma {:induction false} NewestIsShownFirst(es: Log, limit: int)
    requires es != [] && es[|es| - 1].value.Activity?
    ensures var shown := Feed(es, 0, 0, limit);
      shown != [] && shown[0] == es[|es| - 1].value.record
  {
    hide Feed;
    var n, stop, at := FeedMeaning(es, 0, 0, limit);
    assert !StopsReader(es, 0, 0);
    assert OpensHere(es, 0, 0);
    assert 0 in at;
    var k :| 0 <= k < |at| && at[k] == 0;
    assert at[0] == 0;
  }

  /** Main result: a batch does what its posts do one after the other. */
  lemma {:induction false} BatchMeaning(db: Box, posts: seq<Post>)
    ensures Step(db, BatchOp(posts)) == Run(db, PostOps(posts))
    decreases |posts|
  {
    hide Posted;
    if posts != [] {
      var init := posts[..|posts| - 1];
      BatchMeaning(db, init);
      assert PostOps(posts)[..|posts| - 1] == PostOps(init);
      assert Step(db, BatchOp(init)) == PostedAll(db, init);
      var p := posts[|posts| - 1];
      assert PostOps(posts)[|posts| - 1] == PostOp(p);
    }
  }

  ghost function PostOps(posts: seq<Post>): seq<Op> {
    seq(|posts|, i requires 0 <= i < |posts| => PostOp(posts[i]))
  }

  // ----- marks and unread counts

  /** The positions of the entries whose key, read as a number, is above a mark. */
  ghost function AboveMark(es: Log, mark: nat): set<nat> {
    set i: nat | i < |es| && (if |es[i].key| < 8 then 0 else FromBigEndian(es[i].key[..8])) > mark
  }

  /** Main result: the unread count is the number of inbox entries whose number is above the mark. */
  lemma {:induction false} UnreadCountIs(db: Box, user: Id)
    ensures UnreadCount(db, user) == |AboveMark(Entries(db, User, user, Inbox), MarkOf(db, user, LastRead))|
  {
    CountIsCardinality(Entries(db, User, user, Inbox), MarkOf(db, user, LastRead));
  }

  lemma {:induction false} CountIsCardinality(es: Log, mark: nat)
    ensures CountAbove(es, mark) == |AboveMark(es, mark)|
    decreases |es|
  {
    if es == [] {
      assert AboveMark(es, mark) == {};
    } else {
      var init, last := es[..|es| - 1], es[|es| - 1];
      CountIsCardinality(init, mark);
      if NumberOf(last.key) > mark {
        assert AboveMark(es, mark) == AboveMark(init, mark) + {|init|};
      } else {
        assert AboveMark(es, mark) == AboveMark(init, mark);
      }
    }
  }

  /** A printed number is taken for itself, with the prefix of activity ids or without. */
  lemma {:induction false} IdsAreNumbers(k: nat)
    requires k <= MAX_UINT64
    ensures IdToNumber("/activity-" + Digits(k)) == k && IdToNumber(Digits(k)) == k
  {
    IdRoundTrip(k);
    ParsePrinted(k);
    assert Digits(k)[0] != '/';
  }

  /**
    Main result: marking activity `k` puts the mark of this user and box at `k`, under the key
    "last", and changes no other box; so exactly the inbox entries above `k` are unread.
   */
  lemma {:induction false} MarkMeaning(db: Box, user: Id, x: BoxName, k: nat)
    requires k <= MAX_UINT64
    ensures var db' := Step(db, MarkOp(user, x, "/activity-" + Digits(k)));
      && MarkOf(db', user, x) == k
      && Get(Entries(db', User, user, x), [0x6C, 0x61, 0x73, 0x74]) == Some(Raw(BigEndian(k, 8)))
    ensures forall t, owner, y :: t != User || owner != user || y != x ==>
      GetBox(Step(db, MarkOp(user, x, "/activity-" + Digits(k))), t, owner, y) == GetBox(db, t, owner, y)
  {
    IdsAreNumbers(k);
    var last := BigEndian(k, 8);
    assert MarkBytes("/activity-" + Digits(k)) == last;
    assert Step(db, MarkOp(user, x, "/activity-" + Digits(k))) == Marked(db, user, x, last);
    MarkIsStored(db, user, x, last);
    KeyRoundTrip(k);
  }

  lemma {:induction false} MarkIsStored(db: Box, user: Id, x: BoxName, last: bytes)
    ensures MarkOf(Marked(db, user, x, last), user, x) == NumberOf(last)
    ensures Get(Entries(Marked(db, user, x, last), User, user, x), [0x6C, 0x61, 0x73, 0x74]) == Some(Raw(last))
    ensures forall t, owner, y :: t != User || owner != user || y != x ==>
      GetBox(Marked(db, user, x, last), t, owner, y) == GetBox(db, t, owner, y)
  {
    MarkedMark(db, user, x, last, user, x);
    var b := BoxOrEmpty(db, User, user, x);
    var b' := b.(entries := Put(b.entries, LAST_KEY, Raw(last)));
    GetPut(b.entries, LAST_KEY, Raw(last), LAST_KEY);
    GetSetBox(db, User, user, x, b', User, user, x);
    forall t, owner, y | t != User || owner != user || y != x
      ensures GetBox(Marked(db, user, x, last), t, owner, y) == GetBox(db, t, owner, y)
    {
      GetSetBox(db, User, user, x, b', t, owner, y);
    }
  }

  // ----- reading

  /**
    Main result: reading a user's inbox, from the start or from the last-read mark, puts that
    mark at the newest entry if there is one above where it reads from, and changes nothing
    else; every other read, and every read from the last-sent mark, leaves the store as it was.
   */
  lemma {:induction false} ReadMeaning(db: Box, t: OwnerType, owner: Id, x: BoxName, ref: Option<BoxName>)
    ensures t != User || x != Inbox || ref == Some(LastSent) ==> Step(db, ReadOp(t, owner, x, ref)) == db
    ensures t == User && x == Inbox && ref != Some(LastSent) ==>
      ReadMarks(db, Step(db, ReadOp(t, owner, x, ref)), owner, if ref.None? then 0 else MarkOf(db, owner, ref.value))
  {
    var es := Entries(db, t, owner, x);
    var offset := ReadOffset(db, owner, ref);
    if t == User && x == Inbox && ref != Some(LastSent) && es != [] {
      var last := es[|es| - 1].key;
      if offset == 0 || NumberOf(last) > offset {
        assert Above(es, offset)[0].key == last;
        MarkIsStored(db, owner, LastRead, last);
      }
    }
  }

  ghost predicate ReadMarks(db: Box, db': Box, user: Id, from: nat) {
    var es := Entries(db, User, user, Inbox);
    if es == [] || (from > 0 && NumberOf(es[|es| - 1].key) <= from) then db' == db
    else
      && MarkOf(db', user, LastRead) == NumberOf(es[|es| - 1].key)
      && forall t, owner, y :: t != User || owner != user || y != LastRead ==>
        GetBox(db', t, owner, y) == GetBox(db, t, owner, y)
  }

  // ----- purging, deleting, subscribing, compacting

  /** Main result: a purge, of one owner or with "*" of all, leaves exactly these records, and all else as it was. */
  lemma {:induction false} PurgeOpMeaning(db: Box, t: OwnerType, owner: Id, x: BoxName, args: PurgeArgs,
                                          t': OwnerType, owner': Id, x': BoxName)
    requires Ordered(db)
    ensures var b, b' := GetBox(db, t', owner', x'), GetBox(Step(db, PurgeOp(t, owner, x, args)), t', owner', x');
      if b.Some? && t' == t && x' == x && (owner == [0x2A] || owner' == owner)
      then
        && b'.Some? && b'.value.sequence == b.value.sequence && b'.value.subs == b.value.subs
        && PurgeLeaves(b.value.entries, b'.value.entries, args.minCount, args.maxCount, args.before)
      else b' == b
  {
    hide Purged, PurgeLeaves;
    PurgedFrame(db, t, owner, x, args, t', owner', x');
    var b := GetBox(db, t', owner', x');
    if b.Some? {
      BoxOrdered(db, t', owner', x');
      EntriesSorted(b.value);
      PurgeMeaning(b.value.entries, args.minCount, args.maxCount, args.before);
    }
  }

  /**
    Main result: deleting a user leaves none of the user's boxes, takes out of every node's
    outbox exactly the parseable records whose actor is the user, ends exactly the user's
    subscriptions to nodes, keeps entries in order, and changes no other box.
   */
  lemma {:induction false} DeleteUserMeaning(db: Box, user: Id, node: Id)
    requires Ordered(db)
    ensures var db' := Step(db, DeleteOp(User, user));
      && (forall x :: GetBox(db', User, user, x) == None)
      && (forall e :: e in Entries(db', Node, node, Outbox) <==>
            e in Entries(db, Node, node, Outbox) && !(e.value.Activity? && e.value.record.actor == Some(user)))
      && Sorted(Entries(db', Node, node, Outbox))
      && (forall other :: SubscriptionOf(db', Node, node, other)
                       == if other == user then None else SubscriptionOf(db, Node, node, other))
    ensures forall t, owner, x ::
      !(t == User && owner == user) && !(t == Node && (x == Outbox || x == Subscriptions)) ==>
      GetBox(Step(db, DeleteOp(User, user)), t, owner, x) == GetBox(db, t, owner, x)
  {
    DeleteTakesExactly(db, user, node);
    forall t, owner, x | !(t == User && owner == user) && !(t == Node && (x == Outbox || x == Subscriptions))
      ensures GetBox(Step(db, DeleteOp(User, user)), t, owner, x) == GetBox(db, t, owner, x)
    {
      DeletedFrame(db, User, user, t, owner, x);
    }
  }

  /** Deleting a node leaves none of its boxes and changes no other. */
  lemma {:induction false} DeleteNodeMeaning(db: Box, node: Id, t: OwnerType, owner: Id, x: BoxName)
    ensures GetBox(Step(db, DeleteOp(Node, node)), t, owner, x)
      == if t == Node && owner == node then None else GetBox(db, t, owner, x)
  {
    DeletedFrame(db, Node, node, t, owner, x);
  }

  /** Compaction changes no box. */
  lemma {:induction false} CompactMeaning(db: Box, t: OwnerType, owner: Id, x: BoxName)
    ensures GetBox(Step(db, CompactOp), t, owner, x) == GetBox(db, t, owner, x)
  {
    CompactKeepsBoxes(db, t, owner, x);
  }

  /** Main result: a subscription reads back as the given events, and nothing else changes. */
  lemma {:induction false} SubscribeMeaning(
    db: Box, t: OwnerType, owner: Id, user: Id, events: bytes, t': OwnerType, owner': Id, user': Id, x: BoxName)
    requires Ordered(db)
    ensures SubscriptionOf(Step(db, SubscribeOp(t, owner, user, events)), t', owner', user') ==
      if t' == t && owner' == owner && user' == user then (if events == [] then None else Some(events))
      else SubscriptionOf(db, t', owner', user')
    ensures x != Subscriptions ==>
      GetBox(Step(db, SubscribeOp(t, owner, user, events)), t', owner', x) == GetBox(db, t', owner', x)
  {
    hide Ordered, SubscriptionOf, GetBox, SetBox;
    SubscriptionReadsBack(db, t, owner, user, events, t', owner', user');
    var b := BoxOrEmpty(db, t, owner, Subscriptions);
    OtherBoxesStay(db, t, owner, b.(entries :=
      if events == [] then Remove(b.entries, user) else Put(b.entries, user, Raw(events))));
  }
}
