/**
  What Purge leaves of a log and what ActivitiesFor shows of it, stated without loops:
  a filter with a truncation, and the first record of every run of similar ones.
 */
module ActivityLists {
  import opened Bytes
  import opened Results
  import opened Bolt
  import opened ActivityBoxes

  // ----- purge

  /** Parseable, and not older than the given time when there is one. */
  predicate Fresh(e: Entry<Value>, before: Option<int>) {
    e.value.Activity? && (before.None? || e.value.record.updated >= before.value)
  }

  function KeepFresh(es: Log, before: Option<int>): Log {
    if es == [] then []
    else (if Fresh(es[0], before) then [es[0]] else []) + KeepFresh(es[1..], before)
  }

  function LastN(es: Log, n: nat): Log {
    if |es| <= n then es else es[|es| - n..]
  }

  function AtLeastZero(n: int): nat { if n < 0 then 0 else n }

  /** How many of the newest records are kept whatever they are. */
  function Protected(length: nat, minCount: int): (m: nat)
    ensures m <= length
  {
    if length <= AtLeastZero(minCount) then length else AtLeastZero(minCount)
  }

  /** The newest older records that a positive maximum still leaves room for. */
  function Truncated(kept: Log, maxCount: int, protected: nat): Log {
    if maxCount > 0 then LastN(kept, AtLeastZero(maxCount - protected)) else kept
  }

  /**
    What a purge leaves, oldest first: the newest `minCount` records, before them the
    fresh ones, of which only the newest `maxCount - minCount` when `maxCount` is positive.
   */
  function Purged(es: Log, minCount: int, maxCount: int, before: Option<int>): Log {
    var m := Protected(|es|, minCount);
    var kept := KeepFresh(es[..|es| - m], before);
    Truncated(kept, maxCount, m) + es[|es| - m..]
  }

  lemma TruncatedStep(e: Entry<Value>, kept: Log, maxCount: int, m: nat)
    ensures Truncated([e] + kept, maxCount, m) ==
      if maxCount > 0 && |Truncated(kept, maxCount, m)| + m >= maxCount then Truncated(kept, maxCount, m)
      else [e] + Truncated(kept, maxCount, m)
  {
  }

  lemma KeepFreshStep(e: Entry<Value>, es: Log, before: Option<int>)
    ensures KeepFresh([e] + es, before) == (if Fresh(e, before) then [e] else []) + KeepFresh(es, before)
  {
    assert ([e] + es)[1..] == es;
  }

  /** Among the newest `minCount`, every record is kept. */
  lemma PurgeProtects(es: Log, minCount: int, maxCount: int, before: Option<int>)
    requires |es| <= AtLeastZero(minCount)
    ensures Purged(es, minCount, maxCount, before) == es
  {
    NothingOlder(es, before);
  }

  lemma PurgeOlder(e: Entry<Value>, es: Log, minCount: int, maxCount: int, before: Option<int>)
    requires |es| >= AtLeastZero(minCount)
    ensures var p := Purged(es, minCount, maxCount, before);
      Purged([e] + es, minCount, maxCount, before) ==
        if !Fresh(e, before) || (maxCount > 0 && |p| >= maxCount) then p else [e] + p
  {
    hide KeepFresh, Truncated, Fresh, Purged;
    var m := AtLeastZero(minCount);
    var older, newest := es[..|es| - m], es[|es| - m..];
    PurgedParts(older, newest, minCount, maxCount, before);
    PurgedParts([e] + older, newest, minCount, maxCount, before);
    assert es == older + newest && [e] + es == ([e] + older) + newest;
    KeepFreshStep(e, older, before);
    var kept := KeepFresh(older, before);
    TruncatedStep(e, kept, maxCount, m);
    assert [] + kept == kept;
    var left := Truncated(kept, maxCount, m);
    assert ([e] + left) + newest == [e] + (left + newest);
  }

  lemma PurgedParts(older: Log, newest: Log, minCount: int, maxCount: int, before: Option<int>)
    requires |newest| == AtLeastZero(minCount)
    ensures Purged(older + newest, minCount, maxCount, before)
      == Truncated(KeepFresh(older, before), maxCount, |newest|) + newest
  {
    hide KeepFresh, Truncated;
    var es, m := older + newest, |newest|;
    assert Protected(|es|, minCount) == m;
    assert es[..|es| - m] == older && es[|es| - m..] == newest;
  }

  /** How one older record changes what is left. */
  lemma PurgeStep(e: Entry<Value>, es: Log, minCount: int, maxCount: int, before: Option<int>)
    ensures var p := Purged(es, minCount, maxCount, before);
      Purged([e] + es, minCount, maxCount, before) ==
        if |es| < minCount then [e] + p
        else if !Fresh(e, before) || (maxCount > 0 && |p| >= maxCount) then p
        else [e] + p
  {
    hide Purged, Fresh;
    if |es| < minCount {
      PurgeProtects(es, minCount, maxCount, before);
      PurgeProtects([e] + es, minCount, maxCount, before);
    } else {
      PurgeOlder(e, es, minCount, maxCount, before);
    }
  }

  lemma NothingOlder(es: Log, before: Option<int>)
    ensures KeepFresh(es[..0], before) == [] && es[0..] == es
    ensures forall max, m :: Truncated([], max, m) == []
    ensures [] + es == es
  {
  }

  lemma {:induction false} KeepFreshOfFresh(es: Log, before: Option<int>)
    requires forall i :: 0 <= i < |es| ==> Fresh(es[i], before)
    ensures KeepFresh(es, before) == es
  {
    if es != [] {
      KeepFreshOfFresh(es[1..], before);
    }
  }

  lemma {:induction false} KeepFreshIsFresh(es: Log, before: Option<int>)
    ensures forall i :: 0 <= i < |KeepFresh(es, before)| ==> Fresh(KeepFresh(es, before)[i], before)
  {
    if es != [] {
      KeepFreshIsFresh(es[1..], before);
    }
  }

  /** Purging again with the same arguments changes nothing. */
  lemma PurgeIsIdempotent(es: Log, minCount: int, maxCount: int, before: Option<int>)
    ensures var p := Purged(es, minCount, maxCount, before); Purged(p, minCount, maxCount, before) == p
  {
    hide Purged, KeepFresh, Fresh;
    var m := AtLeastZero(minCount);
    if |es| <= m {
      PurgeProtects(es, minCount, maxCount, before);
    } else {
      var older, newest := es[..|es| - m], es[|es| - m..];
      assert es == older + newest;
      PurgedParts(older, newest, minCount, maxCount, before);
      var kept := KeepFresh(older, before);
      var left := Truncated(kept, maxCount, m);
      KeepFreshIsFresh(older, before);
      assert forall i :: 0 <= i < |left| ==> Fresh(left[i], before);
      KeepFreshOfFresh(left, before);
      PurgedParts(left, newest, minCount, maxCount, before);
    }
  }

  /** A purge never removes the newest `minCount` records and keeps at most `maxCount` beyond them. */
  lemma PurgeBounds(es: Log, minCount: int, maxCount: int, before: Option<int>)
    ensures var p, m := Purged(es, minCount, maxCount, before), Protected(|es|, minCount);
      && m <= |p| && p[|p| - m..] == es[|es| - m..]
      && (maxCount > 0 ==> |p| <= m || |p| <= maxCount)
  {
  }

  /** What is left is sorted, and each entry of it was there before. */
  lemma {:induction false} PurgeKeepsOrder(es: Log, minCount: int, maxCount: int, before: Option<int>)
    requires Sorted(es)
    ensures var p := Purged(es, minCount, maxCount, before);
      Sorted(p) && forall i :: 0 <= i < |p| ==> p[i] in es
    decreases |es|
  {
    hide Purged, Fresh, KeyLess;
    if es == [] {
      PurgeProtects(es, minCount, maxCount, before);
    } else {
      var rest := es[1..];
      var p := Purged(rest, minCount, maxCount, before);
      assert es == [es[0]] + rest;
      PurgeStep(es[0], rest, minCount, maxCount, before);
      PurgeKeepsOrder(rest, minCount, maxCount, before);
      FirstIsLess(es, p);
      SortedConcat(es[0], p);
    }
  }

  lemma FirstIsLess(es: Log, p: Log)
    requires es != [] && Sorted(es) && forall i :: 0 <= i < |p| ==> p[i] in es[1..]
    ensures p != [] ==> KeyLess(es[0].key, p[0].key)
    ensures forall i :: 0 <= i < |p| ==> p[i] in es
  {
    if p != [] {
      var j :| 0 <= j < |es[1..]| && es[1..][j] == p[0];
      assert KeyLess(es[0].key, es[j + 1].key);
    }
  }

  lemma {:induction false} KeepFreshMembers(es: Log, before: Option<int>, e: Entry<Value>)
    ensures e in KeepFresh(es, before) <==> e in es && Fresh(e, before)
  {
    if es != [] {
      KeepFreshMembers(es[1..], before, e);
      assert es == [es[0]] + es[1..];
    }
  }

  lemma {:induction false} KeepFreshSorted(es: Log, before: Option<int>)
    requires Sorted(es)
    ensures Sorted(KeepFresh(es, before))
    ensures forall i :: 0 <= i < |KeepFresh(es, before)| ==> KeepFresh(es, before)[i] in es
  {
    hide Fresh, KeyLess;
    if es != [] {
      KeepFreshSorted(es[1..], before);
      var p := KeepFresh(es[1..], before);
      FirstIsLess(es, p);
      SortedConcat(es[0], p);
      assert [] + p == p;
    }
  }

  /**
    What a purge makes of the records older than the protected ones, in terms of their fields:
    only records that parse and are not older than the given time survive; all of those when
    there is no maximum, else as many as there is room for, the newest of them.
   */
  ghost predicate OlderLeft(older: Log, left: Log, room: nat, maxCount: int, before: Option<int>) {
    && (forall e :: e in left ==> e in older && e.value.Activity?)
    && (before.Some? ==> forall e :: e in left && e.value.Activity? ==> e.value.record.updated >= before.value)
    && (maxCount > 0 ==> |left| <= room)
    && (forall e | e in older && e.value.Activity? && e !in left ::
          (before.Some? && e.value.record.updated < before.value)
          || (maxCount > 0 && |left| == room && forall k :: k in left ==> KeyLess(e.key, k.key)))
  }

  /** What a purge leaves: the newest `minCount` records as they are, before them what is left of the older ones. */
  ghost predicate PurgeLeaves(es: Log, p: Log, minCount: int, maxCount: int, before: Option<int>) {
    var m := if minCount <= 0 then 0 else if minCount >= |es| then |es| else minCount;
    && Sorted(p) && m <= |p| && p[|p| - m..] == es[|es| - m..]
    && OlderLeft(es[..|es| - m], p[..|p| - m], if maxCount <= m then 0 else maxCount - m, maxCount, before)
  }

  lemma {:induction false} DroppedAreOlder(older: Log, maxCount: int, m: nat, before: Option<int>, e: Entry<Value>)
    requires Sorted(older) && e in older && Fresh(e, before)
    ensures var left := Truncated(KeepFresh(older, before), maxCount, m);
      e in left || (maxCount > 0 && |left| == (if maxCount <= m then 0 else maxCount - m)
                    && forall k :: k in left ==> KeyLess(e.key, k.key))
  {
    hide Fresh, KeyLess;
    var kept := KeepFresh(older, before);
    var left := Truncated(kept, maxCount, m);
    KeepFreshSorted(older, before);
    KeepFreshMembers(older, before, e);
    if e !in left {
      var i :| 0 <= i < |kept| && kept[i] == e;
      var cut := |kept| - |left|;
      assert left == kept[cut..];
      assert forall a :: cut <= a < |kept| ==> kept[a] == left[a - cut];
    }
  }

  lemma {:induction false} SurvivorIsFresh(older: Log, maxCount: int, m: nat, before: Option<int>, e: Entry<Value>)
    requires e in Truncated(KeepFresh(older, before), maxCount, m)
    ensures e in older && Fresh(e, before)
  {
    KeepFreshMembers(older, before, e);
  }

  lemma {:induction false} OlderMeaning(older: Log, maxCount: int, m: nat, before: Option<int>)
    requires Sorted(older)
    ensures OlderLeft(older, Truncated(KeepFresh(older, before), maxCount, m),
                      if maxCount <= m then 0 else maxCount - m, maxCount, before)
  {
    var left := Truncated(KeepFresh(older, before), maxCount, m);
    forall e | e in left
      ensures e in older && Fresh(e, before)
    {
      SurvivorIsFresh(older, maxCount, m, before, e);
    }
    forall e | e in older && Fresh(e, before) && e !in left
      ensures maxCount > 0 && |left| == (if maxCount <= m then 0 else maxCount - m)
      ensures forall k :: k in left ==> KeyLess(e.key, k.key)
    {
      DroppedAreOlder(older, maxCount, m, before, e);
    }
  }

  /** Main result: whatever the counts and the age, a purge leaves exactly these records. */
  lemma {:induction false} PurgeMeaning(es: Log, minCount: int, maxCount: int, before: Option<int>)
    requires Sorted(es)
    ensures PurgeLeaves(es, Purged(es, minCount, maxCount, before), minCount, maxCount, before)
  {
    hide KeepFresh, Truncated, KeyLess, OlderLeft;
    var m := Protected(|es|, minCount);
    var older, newest := es[..|es| - m], es[|es| - m..];
    var left, p := Truncated(KeepFresh(older, before), maxCount, m), Purged(es, minCount, maxCount, before);
    assert p == left + newest && p[..|p| - m] == left && p[|p| - m..] == newest;
    PurgeKeepsOrder(es, minCount, maxCount, before);
    OlderMeaning(older, maxCount, m, before);
  }

  // ----- feeds

  /** `activitiesAreSimilar`: same type, actor and object, all of them present. */
  predicate Similar(a: Object, b: Object) {
    && a.actor.Some? && a.target.Some? && b.actor.Some? && b.target.Some?
    && a.kind == b.kind && a.actor == b.actor && a.target == b.target
  }

  function Newest(es: Log): Log {
    if es == [] then [] else [es[|es| - 1]] + Newest(es[..|es| - 1])
  }

  /** The records, newest first, above a reference number; all of them when it is 0. */
  function Above(es: Log, offset: nat): Log {
    if es == [] then []
    else if offset > 0 && NumberOf(es[|es| - 1].key) <= offset then []
    else [es[|es| - 1]] + Above(es[..|es| - 1], offset)
  }

  /**
    A reader goes on over a record that parses. Whether a record is similar to the one before
    is asked first, so it also goes on over a broken one whose filled part is similar.
   */
  predicate GoesOn(v: Value, prev: Option<Object>) {
    v.Activity? || (v.Broken? && prev.Some? && Similar(prev.value, v.record))
  }

  /** The records up to the first one at which a reader stops. */
  function Readable(es: Log, prev: Option<Object>): seq<Object> {
    if es == [] || !GoesOn(es[0].value, prev) then []
    else [es[0].value.record] + Readable(es[1..], Some(es[0].value.record))
  }

  function Skip(es: Log, n: int): Log {
    if n <= 0 then es else if n >= |es| then [] else es[n..]
  }

  /** A record opens a run when it is the first or differs from the one before it. */
  predicate OpensRun(s: seq<Object>, i: nat)
    requires i < |s|
  {
    i == 0 || !Similar(s[i - 1], s[i])
  }

  /** The first record of every run. */
  function RunHeads(s: seq<Object>): seq<Object> {
    if s == [] then []
    else RunHeads(s[..|s| - 1]) + if OpensRun(s, |s| - 1) then [s[|s| - 1]] else []
  }

  function Limited(s: seq<Object>, limit: int): seq<Object> {
    if limit <= 0 || |s| <= limit then s else s[..limit]
  }

  /** The limit in force: 20 by default, none when reading from a reference mark. */
  function EffectiveLimit(limit: int, fromMark: bool): int {
    if limit == 0 && !fromMark then 20 else limit
  }

  function Feed(es: Log, offset: nat, reverseOffset: int, limit: int): seq<Object> {
    Limited(RunHeads(Readable(Skip(Above(es, offset), reverseOffset), None)), limit)
  }

  lemma {:induction false} ReadableAt(es: Log, prev: Option<Object>, i: nat)
    requires i < |Readable(es, prev)|
    ensures i < |es| && !es[i].value.Raw? && Readable(es, prev)[i] == es[i].value.record
    ensures es[i].value.Broken? ==>
      if i == 0 then prev.Some? && Similar(prev.value, es[0].value.record) else !OpensRun(Readable(es, prev), i)
  {
    hide Similar;
    if i > 0 {
      ReadableAt(es[1..], Some(es[0].value.record), i - 1);
      var r := Readable(es[1..], Some(es[0].value.record));
      assert Readable(es, prev) == [es[0].value.record] + r;
    }
  }

  /** `Readable` goes over the log until the first record at which a reader stops. */
  lemma {:induction false} ReadableEnds(es: Log, prev: Option<Object>)
    ensures var c := |Readable(es, prev)|;
      && c <= |es|
      && (c < |es| && c == 0 ==> !GoesOn(es[0].value, prev))
      && (c < |es| && c > 0 ==> !es[c - 1].value.Raw? && !GoesOn(es[c].value, Some(es[c - 1].value.record)))
  {
    hide Similar, GoesOn;
    if es != [] && GoesOn(es[0].value, prev) {
      GoesOnIsRecord(es[0].value, prev);
      ReadableEnds(es[1..], Some(es[0].value.record));
      var r := Readable(es[1..], Some(es[0].value.record));
      assert Readable(es, prev) == [es[0].value.record] + r;
    }
  }

  lemma GoesOnIsRecord(v: Value, prev: Option<Object>)
    requires GoesOn(v, prev)
    ensures !v.Raw?
  {
  }

  /** The positions at which runs open. */
  ghost function Openings(s: seq<Object>): seq<nat> {
    if s == [] then []
    else Openings(s[..|s| - 1]) + if OpensRun(s, |s| - 1) then [|s| - 1] else []
  }

  lemma {:induction false} OpeningsAre(s: seq<Object>)
    ensures |Openings(s)| == |RunHeads(s)|
    ensures forall k :: 0 <= k < |Openings(s)| ==> Openings(s)[k] < |s| && RunHeads(s)[k] == s[Openings(s)[k]]
    ensures forall k, l :: 0 <= k < l < |Openings(s)| ==> Openings(s)[k] < Openings(s)[l]
    decreases |s|
  {
    hide OpensRun;
    if s != [] {
      OpeningsAre(s[..|s| - 1]);
    }
  }

  lemma {:induction false} OpeningsHave(s: seq<Object>, i: nat)
    requires i < |s|
    ensures i in Openings(s) <==> OpensRun(s, i)
    decreases |s|
  {
    hide Similar;
    var init := s[..|s| - 1];
    if i < |init| {
      OpeningsHave(init, i);
      assert OpensRun(s, i) == OpensRun(init, i);
    } else {
      OpeningsAre(init);
    }
  }

  lemma {:induction false} AboveStops(es: Log, offset: nat)
    ensures var n := |Above(es, offset)|;
      n <= |es| && (n < |es| ==> offset > 0 && NumberOf(es[|es| - 1 - n].key) <= offset)
    decreases |es|
  {
    hide NumberOf;
    if es != [] && !(offset > 0 && NumberOf(es[|es| - 1].key) <= offset) {
      AboveStops(es[..|es| - 1], offset);
    }
  }

  lemma {:induction false} AboveAt(es: Log, offset: nat, j: nat)
    requires j < |Above(es, offset)|
    ensures j < |es| && Above(es, offset)[j] == NthNewest(es, j)
    ensures offset == 0 || NumberOf(NthNewest(es, j).key) > offset
    decreases |es|
  {
    hide NumberOf;
    if j > 0 {
      AboveAt(es[..|es| - 1], offset, j - 1);
    }
  }

  /** The j-th newest entry of a log. */
  function NthNewest(es: Log, j: nat): Entry<Value>
    requires j < |es|
  {
    es[|es| - 1 - j]
  }

  /** The same type, actor and object, with actor and object present. */
  ghost predicate Alike(a: Value, b: Value) {
    && !a.Raw? && !b.Raw? && a.record.kind == b.record.kind
    && a.record.actor.Some? && b.record.actor.Some? && a.record.actor.value == b.record.actor.value
    && a.record.target.Some? && b.record.target.Some? && a.record.target.value == b.record.target.value
  }

  /** Positions are counted from the newest entry: the first `n` are those above the reference, all when it is 0. */
  ghost predicate AboveReference(es: Log, offset: nat, n: nat) {
    && n <= |es|
    && (forall j :: 0 <= j < n ==> offset == 0 || NumberOf(NthNewest(es, j).key) > offset)
    && (n < |es| ==> 0 < offset && NumberOf(NthNewest(es, n).key) <= offset)
  }

  /** A record that does not parse, and is not like the one before it if that was read. */
  ghost predicate StopsReader(es: Log, first: nat, j: nat)
    requires first <= j < |es|
  {
    && !NthNewest(es, j).value.Activity?
    && (j > first ==> !Alike(NthNewest(es, j - 1).value, NthNewest(es, j).value))
  }

  /** A reader goes from `first` to `stop`: to the end, or to the first record that stops it. */
  ghost predicate ReadsUntil(es: Log, first: nat, stop: nat, n: nat) {
    && first <= stop <= n <= |es|
    && (forall j :: first <= j < stop ==> !StopsReader(es, first, j))
    && (stop < n ==> StopsReader(es, first, stop))
  }

  /** Of the records read, the first is shown and each one that is not like the record before it. */
  ghost predicate ShowsRuns(es: Log, first: nat, stop: nat, at: seq<nat>)
    requires first <= stop <= |es|
  {
    && (forall k, l :: 0 <= k < l < |at| ==> at[k] < at[l])
    && (forall k :: 0 <= k < |at| ==> first <= at[k] < stop)
    && (forall j: nat :: first <= j < stop && j in at ==> OpensHere(es, first, j))
    && (forall j: nat :: first <= j < stop && OpensHere(es, first, j) ==> j in at)
  }

  ghost predicate OpensHere(es: Log, first: nat, j: nat)
    requires first <= j < |es|
  {
    j == first || !Alike(NthNewest(es, j - 1).value, NthNewest(es, j).value)
  }

  /** What a feed shows: of the entries above the reference, skipping some, the first of each run, up to the limit. */
  ghost predicate FeedShows(
    es: Log, offset: nat, reverseOffset: int, limit: int, shown: seq<Object>, n: nat, stop: nat, at: seq<nat>) {
    var first := if reverseOffset <= 0 then 0 else if reverseOffset >= n then n else reverseOffset;
    && AboveReference(es, offset, n) && ReadsUntil(es, first, stop, n) && ShowsRuns(es, first, stop, at)
    && |shown| == (if limit > 0 && limit < |at| then limit else |at|)
    && forall k :: 0 <= k < |shown| ==>
      !NthNewest(es, at[k]).value.Raw? && shown[k] == NthNewest(es, at[k]).value.record
  }

  /** The part of a log that a reader walks over. */
  ghost predicate IsPart(part: Log, es: Log, first: nat, n: nat) {
    && first <= n <= |es| && |part| == n - first
    && forall j :: 0 <= j < |part| ==> part[j] == NthNewest(es, first + j)
  }

  lemma {:induction false} AboveIsReference(es: Log, offset: nat, reverseOffset: int) returns (first: nat, n: nat)
    ensures AboveReference(es, offset, n) && n == |Above(es, offset)|
    ensures first == if reverseOffset <= 0 then 0 else if reverseOffset >= n then n else reverseOffset
    ensures IsPart(Skip(Above(es, offset), reverseOffset), es, first, n)
  {
    var above := Above(es, offset);
    n := |above|;
    AboveStops(es, offset);
    forall j | 0 <= j < n
      ensures above[j] == NthNewest(es, j) && (offset == 0 || NumberOf(NthNewest(es, j).key) > offset)
    {
      AboveAt(es, offset, j);
    }
    first := if reverseOffset <= 0 then 0 else if reverseOffset >= n then n else reverseOffset;
  }

  lemma {:induction false} OpeningIsHere(part: Log, es: Log, first: nat, n: nat, i: nat)
    requires IsPart(part, es, first, n) && i < |Readable(part, None)|
    ensures i < |part| && !part[i].value.Raw? && Readable(part, None)[i] == part[i].value.record
    ensures OpensRun(Readable(part, None), i) == OpensHere(es, first, first + i)
    ensures !StopsReader(es, first, first + i)
  {
    var read := Readable(part, None);
    ReadableAt(part, None, i);
    assert part[i] == NthNewest(es, first + i);
    if i > 0 {
      ReadableAt(part, None, i - 1);
      assert part[i - 1] == NthNewest(es, first + i - 1);
    }
  }

  lemma {:induction false} PartReadsUntil(part: Log, es: Log, first: nat, n: nat)
    requires IsPart(part, es, first, n)
    ensures ReadsUntil(es, first, first + |Readable(part, None)|, n)
  {
    var c := |Readable(part, None)|;
    ReadableEnds(part, None);
    forall j | first <= j < first + c
      ensures !StopsReader(es, first, j)
    {
      OpeningIsHere(part, es, first, n, j - first);
    }
    if c < |part| {
      assert part[c] == NthNewest(es, first + c);
      if c > 0 {
        assert part[c - 1] == NthNewest(es, first + c - 1);
      }
    }
  }

  lemma {:induction false} PartShowsRuns(part: Log, es: Log, first: nat, n: nat) returns (at: seq<nat>)
    requires IsPart(part, es, first, n)
    ensures first + |Readable(part, None)| <= n
    ensures ShowsRuns(es, first, first + |Readable(part, None)|, at)
    ensures var heads := RunHeads(Readable(part, None));
      |at| == |heads| && forall k :: 0 <= k < |at| ==>
        !NthNewest(es, at[k]).value.Raw? && heads[k] == NthNewest(es, at[k]).value.record
  {
    hide RunHeads, Readable, OpensRun, OpensHere;
    var read := Readable(part, None);
    PartReadsUntil(part, es, first, n);
    at := Shifted(read, first);
    PositionsOpen(part, es, first, n);
    PositionsShow(part, es, first, n);
  }

  ghost function Shifted(read: seq<Object>, first: nat): seq<nat> {
    seq(|Openings(read)|, k requires 0 <= k < |Openings(read)| => first + Openings(read)[k])
  }

  lemma {:induction false} ShiftedHas(read: seq<Object>, first: nat, j: nat)
    requires first <= j < first + |read|
    ensures j in Shifted(read, first) <==> OpensRun(read, j - first)
  {
    hide OpensRun;
    OpeningsHave(read, j - first);
    var at := Shifted(read, first);
    if j in at {
      var k :| 0 <= k < |at| && at[k] == j;
      assert Openings(read)[k] == j - first;
    }
    if j - first in Openings(read) {
      var k :| 0 <= k < |Openings(read)| && Openings(read)[k] == j - first;
      assert at[k] == j;
    }
  }

  lemma {:induction false} PositionOpens(part: Log, es: Log, first: nat, n: nat, j: nat)
    requires IsPart(part, es, first, n) && first <= j < first + |Readable(part, None)| <= n
    ensures j in Shifted(Readable(part, None), first) <==> OpensHere(es, first, j)
  {
    ShiftedHas(Readable(part, None), first, j);
    OpeningIsHere(part, es, first, n, j - first);
  }

  lemma {:induction false} ShiftedIncreases(read: seq<Object>, first: nat)
    ensures var at := Shifted(read, first);
      && (forall k, l :: 0 <= k < l < |at| ==> at[k] < at[l])
      && (forall k :: 0 <= k < |at| ==> first <= at[k] < first + |read|)
  {
    OpeningsAre(read);
  }

  lemma {:induction false} PositionsOpen(part: Log, es: Log, first: nat, n: nat)
    requires IsPart(part, es, first, n) && first + |Readable(part, None)| <= n
    ensures var read := Readable(part, None);
      ShowsRuns(es, first, first + |read|, Shifted(read, first))
  {
    var read := Readable(part, None);
    var at := Shifted(read, first);
    ShiftedIncreases(read, first);
    forall j: nat | first <= j < first + |read|
      ensures j in at <==> OpensHere(es, first, j)
    {
      PositionOpens(part, es, first, n, j);
    }
  }

  lemma {:induction false} PositionsShow(part: Log, es: Log, first: nat, n: nat)
    requires IsPart(part, es, first, n) && first + |Readable(part, None)| <= n
    ensures var read := Readable(part, None);
      var at, heads := Shifted(read, first), RunHeads(read);
      |at| == |heads| && forall k :: 0 <= k < |at| ==>
        first <= at[k] < n && !NthNewest(es, at[k]).value.Raw? && heads[k] == NthNewest(es, at[k]).value.record
  {
    var read := Readable(part, None);
    var at := Shifted(read, first);
    OpeningsAre(read);
    forall k | 0 <= k < |at|
      ensures !NthNewest(es, at[k]).value.Raw? && RunHeads(read)[k] == NthNewest(es, at[k]).value.record
    {
      OpeningIsHere(part, es, first, n, Openings(read)[k]);
    }
  }

  /** Main result: every feed shows exactly these records. */
  lemma {:induction false} FeedMeaning(es: Log, offset: nat, reverseOffset: int, limit: int)
    returns (n: nat, stop: nat, at: seq<nat>)
    ensures FeedShows(es, offset, reverseOffset, limit, Feed(es, offset, reverseOffset, limit), n, stop, at)
  {
    hide Above, Skip, Readable, RunHeads, AboveReference, ReadsUntil, ShowsRuns, IsPart;
    var first;
    first, n := AboveIsReference(es, offset, reverseOffset);
    var part := Skip(Above(es, offset), reverseOffset);
    PartReadsUntil(part, es, first, n);
    at := PartShowsRuns(part, es, first, n);
    stop := first + |Readable(part, None)|;
  }

  lemma {:induction false} HeadOpensRun(s: seq<Object>, o: Object)
    requires o in RunHeads(s)
    ensures exists i :: 0 <= i < |s| && s[i] == o && OpensRun(s, i)
    decreases |s|
  {
    hide Similar;
    var init := s[..|s| - 1];
    if o in RunHeads(init) {
      HeadOpensRun(init, o);
      var i :| 0 <= i < |init| && init[i] == o && OpensRun(init, i);
      assert s[i] == o && OpensRun(s, i);
    }
  }

  /** Whatever is broken in a log, a feed shows only records that parse. */
  lemma FeedShowsParsed(es: Log, offset: nat, reverseOffset: int, limit: int, o: Object)
    requires o in Feed(es, offset, reverseOffset, limit)
    ensures exists e :: e in es && e.value == Activity(o)
  {
    hide RunHeads, Readable, OpensRun, Above;
    var shown := Skip(Above(es, offset), reverseOffset);
    HeadOpensRun(Readable(shown, None), o);
    var i :| 0 <= i < |Readable(shown, None)| && Readable(shown, None)[i] == o && OpensRun(Readable(shown, None), i);
    ReadableAt(shown, None, i);
    assert shown[i] in Above(es, offset);
    AboveIsPart(es, offset, shown[i]);
    assert shown[i].value == Activity(o);
  }

  lemma {:induction false} AboveIsPart(es: Log, offset: nat, e: Entry<Value>)
    requires e in Above(es, offset)
    ensures e in es
    decreases |es|
  {
    if e != es[|es| - 1] {
      AboveIsPart(es[..|es| - 1], offset, e);
    }
  }

  function Flatten(runs: seq<seq<Object>>): seq<Object> {
    if runs == [] then [] else Flatten(runs[..|runs| - 1]) + runs[|runs| - 1]
  }

  /** Consecutive records of a run are similar. */
  ghost predicate Chain(run: seq<Object>) {
    run != [] && forall i, j :: 0 <= i < |run| && j == i + 1 < |run| ==> Similar(run[i], run[j])
  }

  /** The list divided into runs that cannot be made longer. */
  ghost predicate MaximalRuns(runs: seq<seq<Object>>, s: seq<Object>) {
    && Flatten(runs) == s
    && (forall k :: 0 <= k < |runs| ==> Chain(runs[k]))
    && (forall k, l :: 0 <= k < |runs| && l == k + 1 < |runs| && runs[k] != [] && runs[l] != [] ==>
        !Similar(runs[k][|runs[k]| - 1], runs[l][0]))
  }

  /** One shown record per run: its first. */
  ghost predicate FirstOfEach(runs: seq<seq<Object>>, heads: seq<Object>) {
    |heads| == |runs| && forall k :: 0 <= k < |runs| ==> runs[k] != [] && heads[k] == runs[k][0]
  }

  /** Main result: the list divides into maximal runs, and exactly the first of each is shown. */
  lemma {:induction false} RunHeadsAreOnePerRun(s: seq<Object>) returns (runs: seq<seq<Object>>)
    ensures MaximalRuns(runs, s) && FirstOfEach(runs, RunHeads(s))
    decreases |s|
  {
    hide Similar, Chain, MaximalRuns;
    if s == [] {
      runs := [];
      NoRuns();
    } else {
      var x, shorter := s[|s| - 1], s[..|s| - 1];
      var rs := RunHeadsAreOnePerRun(shorter);
      assert shorter + [x] == s;
      if OpensRun(s, |s| - 1) {
        runs := OpenRun(rs, shorter, x);
      } else {
        runs := ExtendLast(rs, shorter, x);
        assert RunHeads(s) == RunHeads(shorter) + [];
      }
    }
  }

  lemma NoRuns()
    ensures MaximalRuns([], [])
  {
  }

  /** A record that differs from the one before it starts a run of its own. */
  lemma OpenRun(rs: seq<seq<Object>>, shorter: seq<Object>, x: Object) returns (runs: seq<seq<Object>>)
    requires MaximalRuns(rs, shorter) && (shorter == [] || !Similar(shorter[|shorter| - 1], x))
    ensures MaximalRuns(runs, shorter + [x]) && runs == rs + [[x]]
  {
    hide Similar;
    if rs != [] {
      assert Chain(rs[|rs| - 1]);
      LastOfFlatten(rs);
    }
    runs := rs + [[x]];
    assert runs[..|runs| - 1] == rs;
  }

  lemma LastOfFlatten(runs: seq<seq<Object>>)
    requires runs != [] && runs[|runs| - 1] != []
    ensures var r := runs[|runs| - 1]; Flatten(runs) != [] && Flatten(runs)[|Flatten(runs)| - 1] == r[|r| - 1]
  {
  }

  lemma ExtendLast(rs: seq<seq<Object>>, shorter: seq<Object>, x: Object) returns (runs: seq<seq<Object>>)
    requires MaximalRuns(rs, shorter) && shorter != [] && Similar(shorter[|shorter| - 1], x)
    ensures MaximalRuns(runs, shorter + [x])
    ensures |runs| == |rs| && forall k :: 0 <= k < |rs| ==> runs[k] != [] && rs[k] != [] && runs[k][0] == rs[k][0]
  {
    assert rs != [];
    var last := |rs| - 1;
    var r := rs[last];
    assert Chain(r);
    LastOfFlatten(rs);
    runs := rs[last := r + [x]];
    assert runs[..last] == rs[..last];
    assert Flatten(rs[..last]) + (r + [x]) == shorter + [x];
    assert Chain(r + [x]);
  }

  lemma {:induction false} RunHeadsLast(s: seq<Object>)
    requires s != []
    ensures RunHeads(s) != []
    ensures var h := RunHeads(s)[|RunHeads(s)| - 1]; h == s[|s| - 1] || Similar(h, s[|s| - 1])
    decreases |s|
  {
    if |s| > 1 {
      RunHeadsLast(s[..|s| - 1]);
    }
  }

  /** No two adjacent records of a feed are similar. */
  lemma {:induction false} AdjacentHeadsDiffer(s: seq<Object>)
    ensures forall k :: 0 < k < |RunHeads(s)| ==> !Similar(RunHeads(s)[k - 1], RunHeads(s)[k])
    decreases |s|
  {
    if s != [] {
      AdjacentHeadsDiffer(s[..|s| - 1]);
      if |s| > 1 {
        RunHeadsLast(s[..|s| - 1]);
      }
    }
  }

  /** A limited feed is a prefix of the unlimited one. */
  lemma LimitedIsPrefix(es: Log, offset: nat, reverseOffset: int, limit: int)
    ensures Feed(es, offset, reverseOffset, limit) <= Feed(es, offset, reverseOffset, -1)
  {
  }

  /**
    On a sorted log, the records above a mark are the newest ones, each with a greater
    key, and as many as there are greater keys: none is missed.
   */
  lemma {:induction false} AboveIsFilter(es: Log, offset: nat)
    requires Sorted(es) && forall i :: 0 <= i < |es| ==> |es[i].key| == 8 && NumberOf(es[i].key) >= 1
    ensures Above(es, offset) <= Newest(es)
    ensures forall i :: 0 <= i < |Above(es, offset)| ==> NumberOf(Above(es, offset)[i].key) > offset
    ensures |Above(es, offset)| == CountAbove(es, offset)
    decreases |es|
  {
    hide NumberOf, KeyLess;
    if es != [] {
      var init, last := es[..|es| - 1], es[|es| - 1];
      if offset > 0 && NumberOf(last.key) <= offset {
        NoneAbove(es, offset);
      } else {
        AboveIsFilter(init, offset);
        PrefixOfCons(last, Above(init, offset), Newest(init));
      }
    }
  }

  lemma PrefixOfCons(e: Entry<Value>, a: Log, b: Log)
    requires a <= b
    ensures [e] + a <= [e] + b
  {
  }

  lemma {:induction false} NoneAbove(es: Log, offset: nat)
    requires forall i :: 0 <= i < |es| ==> |es[i].key| == 8
    requires Sorted(es) && (es != [] ==> NumberOf(es[|es| - 1].key) <= offset)
    ensures CountAbove(es, offset) == 0
    decreases |es|
  {
    if |es| > 1 {
      KeyOrder(es[|es| - 2].key, es[|es| - 1].key);
      NoneAbove(es[..|es| - 1], offset);
    }
  }
}
