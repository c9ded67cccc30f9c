/**
  The mail queue of broker/mailer/boltQueue.go: pushes, batched consumption with retries,
  and what every run of them conserves.
 */
module MailQueue {
  import opened Bytes
  import opened Results
  import opened Bolt

  const MAX_SEND_RETRIES := 5

  datatype Mail = Mail(body: bytes, retries: int, sendErrors: seq<string>)

  /** A stored value: a mail, or bytes that do not parse as one. */
  datatype Stored = Parsed(mail: Mail) | Garbage(data: bytes)

  type Queue = seq<Entry<Stored>>

  /** What happens to an entry in a pass, with the mail that was sent; failed and exhausted ones returned an error. */
  datatype Event =
    | Delivered(key: bytes, mail: Mail)
    | Failed(key: bytes, mail: Mail, error: string)
    | Exhausted(key: bytes, mail: Mail, error: string)
    | Unparsed(key: bytes, data: bytes)

  /** What a sender answers for the mail under a key: nothing, or an error. */
  type Sender = (bytes, Mail) -> Option<string>

  // ----- one pass as a function

  datatype Pass = Pass(left: Queue, log: seq<Event>)

  function Retried(m: Mail, error: string): Mail {
    m.(retries := m.retries + 1, sendErrors := m.sendErrors + [error])
  }

  /** What becomes of one entry, and how it is stored if it is kept. */
  function EventOf(e: Entry<Stored>, send: Sender): Event {
    if e.value.Garbage? then Unparsed(e.key, e.value.data)
    else if send(e.key, e.value.mail).None? then Delivered(e.key, e.value.mail)
    else if e.value.mail.retries <= MAX_SEND_RETRIES then Failed(e.key, e.value.mail, send(e.key, e.value.mail).value)
    else Exhausted(e.key, e.value.mail, send(e.key, e.value.mail).value)
  }

  function KeptAs(e: Entry<Stored>, send: Sender): Queue {
    if EventOf(e, send).Failed?
    then [Entry(e.key, Parsed(Retried(e.value.mail, send(e.key, e.value.mail).value)))]
    else []
  }

  /** Removals that count towards the size of a batch. */
  predicate Counts(ev: Event) { ev.Delivered? || ev.Exhausted? }

  /** One pass over the queue; `i` counted removals came before. It stops after one more once `i` is above 100. */
  function Consumed(es: Queue, i: nat, send: Sender): Pass
    decreases |es|
  {
    if es == [] then Pass([], [])
    else
      var ev := EventOf(es[0], send);
      var rest := if Counts(ev) && i > 100 then Pass(es[1..], [])
        else Consumed(es[1..], if Counts(ev) then i + 1 else i, send);
      Pass(KeptAs(es[0], send) + rest.left, [ev] + rest.log)
  }

  class BoltQueue {
    var sequence: nat
    var entries: Queue

    constructor ()
      ensures sequence == 0 && entries == []
    {
      sequence, entries := 0, [];
    }

    method Push(v: Stored)
      modifies this
      ensures State(sequence, entries, [], [v]) == Pushed(State(old(sequence), old(entries), [], []), v)
    {
      sequence := (sequence + 1) % (MAX_UINT64 + 1);
      entries := Put(entries, KeyOf(sequence), v);
    }

    /** Walks the queue with a cursor: `j` stands on the next entry, those before it were kept. */
    method Consume(send: Sender) returns (log: seq<Event>)
      requires Sorted(entries)
      modifies this
      ensures Pass(entries, log) == Consumed(old(entries), 0, send)
      ensures AllAnswered(old(entries), send, log, entries)
      ensures sequence == old(sequence)
    {
      PassIsAnswered(entries, send);
      hide Consumed, KeyLess, Sorted, AllAnswered;
      log := [];
      var i, j := 0, 0;
      ghost var es, at := entries, 0;
      StartOfPass(es, send);
      while j < |entries|
        invariant sequence == old(sequence)
        invariant 0 <= j <= |entries| && at <= |es| && entries[j..] == es[at..]
        invariant Sorted(entries) && i >= 0
        invariant Consumed(es, 0, send) == After(entries[..j], log, Consumed(es[at..], i, send))
        decreases |entries| - j
      {
        var e := entries[j];
        ghost var kept, before := entries[..j], log;
        assert es[at..][0] == e && es[at..][1..] == es[at + 1..];
        assert entries[j + 1..] == es[at + 1..];
        ConsumedStep(kept, before, es[at..], i, send);
        DropFromSorted(entries, j);
        at := at + 1;
        if e.value.Garbage? {
          log := log + [Unparsed(e.key, e.value.data)];
          entries := entries[..j] + entries[j + 1..];
          continue;
        }
        var answer := send(e.key, e.value.mail);
        if answer.Some? {
          if e.value.mail.retries <= MAX_SEND_RETRIES {
            var marsh := Parsed(Retried(e.value.mail, answer.value));
            PutReplaces(entries, j, marsh);
            entries := Put(entries, e.key, marsh);
            log := log + [Failed(e.key, e.value.mail, answer.value)];
            j := j + 1;
            continue;
          }
          log := log + [Exhausted(e.key, e.value.mail, answer.value)];
        } else {
          log := log + [Delivered(e.key, e.value.mail)];
        }
        entries := entries[..j] + entries[j + 1..];
        if i > 100 {
          assert entries == entries[..j] + entries[j..];
          return;
        }
        i := i + 1;
      }
      EndOfPass(entries, log, i, send);
    }
  }

  /** A pass with what was kept and logged before it. */
  function After(kept: Queue, log: seq<Event>, p: Pass): Pass {
    Pass(kept + p.left, log + p.log)
  }

  lemma StartOfPass(es: Queue, send: Sender)
    ensures es[0..] == es && Consumed(es, 0, send) == After(es[..0], [], Consumed(es, 0, send))
  {
  }

  lemma EndOfPass(es: Queue, log: seq<Event>, i: nat, send: Sender)
    ensures After(es[..|es|], log, Consumed([], i, send)) == Pass(es, log)
  {
  }

  lemma ConsumedStep(kept: Queue, log: seq<Event>, es: Queue, i: nat, send: Sender)
    requires es != []
    ensures var ev := EventOf(es[0], send);
      After(kept, log, Consumed(es, i, send)) ==
        if Counts(ev) && i > 100 then Pass(kept + es[1..], log + [ev])
        else After(kept + KeptAs(es[0], send), log + [ev], Consumed(es[1..], if Counts(ev) then i + 1 else i, send))
  {
    var ev := EventOf(es[0], send);
    var rest := Consumed(es, i, send);
    var tail := if Counts(ev) && i > 100 then Pass(es[1..], [])
      else Consumed(es[1..], if Counts(ev) then i + 1 else i, send);
    assert kept + (KeptAs(es[0], send) + tail.left) == (kept + KeptAs(es[0], send)) + tail.left;
    assert log + ([ev] + tail.log) == (log + [ev]) + tail.log;
    assert log + [ev] + [] == log + [ev];
  }

  lemma DropFromSorted(es: Queue, j: nat)
    requires Sorted(es) && j < |es|
    ensures Sorted(es[..j] + es[j + 1..])
    ensures (es[..j] + es[j + 1..])[..j] == es[..j] && (es[..j] + es[j + 1..])[j..] == es[j + 1..]
    ensures es[..j] + [] == es[..j]
  {
    var r := es[..j] + es[j + 1..];
    forall a, b | 0 <= a < b < |r|
      ensures KeyLess(r[a].key, r[b].key)
    {
      assert r[a] == es[if a < j then a else a + 1] && r[b] == es[if b < j then b else b + 1];
    }
  }

  /** Putting under the key of an entry replaces that entry and keeps the order. */
  lemma PutReplaces(es: Queue, j: nat, v: Stored)
    requires Sorted(es) && j < |es|
    ensures Put(es, es[j].key, v) == es[j := Entry(es[j].key, v)]
    ensures Sorted(es[j := Entry(es[j].key, v)])
    ensures es[j := Entry(es[j].key, v)][j + 1..] == es[j + 1..]
    ensures es[j := Entry(es[j].key, v)][..j + 1] == es[..j] + [Entry(es[j].key, v)]
  {
    PutFindsEntry(es, j, v);
    SameKeysSorted(es, es[j := Entry(es[j].key, v)]);
  }

  lemma SameKeysSorted(es: Queue, fs: Queue)
    requires Sorted(es) && |es| == |fs| && forall i :: 0 <= i < |es| ==> fs[i].key == es[i].key
    ensures Sorted(fs)
  {
  }

  lemma {:induction false} PutFindsEntry(es: Queue, j: nat, v: Stored)
    requires Sorted(es) && j < |es|
    ensures Put(es, es[j].key, v) == es[j := Entry(es[j].key, v)]
    decreases |es|
  {
    hide KeyLess;
    if j > 0 {
      assert KeyLess(es[0].key, es[j].key);
      KeyLessAsymmetric(es[0].key, es[j].key);
      KeyLessIrreflexive(es[0].key);
      PutFindsEntry(es[1..], j - 1, v);
    }
  }

  // ----- runs

  /** The queue with everything that happened in it, and everything that was ever pushed. */
  datatype State = State(sequence: nat, queue: Queue, log: seq<Event>, pushed: seq<Stored>)

  function Pushed(s: State, v: Stored): State {
    var id := (s.sequence + 1) % (MAX_UINT64 + 1);
    State(id, Put(s.queue, KeyOf(id), v), s.log, s.pushed + [v])
  }

  function AfterPass(s: State, send: Sender): State {
    var p := Consumed(s.queue, 0, send);
    State(s.sequence, p.left, s.log + p.log, s.pushed)
  }

  datatype Op = PushOp(v: Stored) | ConsumeOp(send: Sender)

  function Step(s: State, op: Op): State {
    match op
    case PushOp(v) => Pushed(s, v)
    case ConsumeOp(send) => AfterPass(s, send)
  }

  function Run(ops: seq<Op>): State {
    if ops == [] then State(0, [], [], []) else Step(Run(ops[..|ops| - 1]), ops[|ops| - 1])
  }

  /** Mails are pushed with no retry counted, and fewer of them than there are ids. */
  predicate GoodOps(ops: seq<Op>) {
    && |ops| < MAX_UINT64
    && forall i :: 0 <= i < |ops| && ops[i].PushOp? && ops[i].v.Parsed? ==> ops[i].v.mail.retries == 0
  }

  function Keys(es: Queue): seq<bytes> {
    if es == [] then [] else [es[0].key] + Keys(es[1..])
  }

  /** The keys taken out of the queue: delivered, exhausted or unparsed. */
  function Gone(log: seq<Event>): seq<bytes> {
    if log == [] then []
    else (if log[0].Failed? then [] else [log[0].key]) + Gone(log[1..])
  }

  /** The failed sends of a mail. */
  function Fails(log: seq<Event>, key: bytes): nat {
    if log == [] then 0
    else (if (log[0].Failed? || log[0].Exhausted?) && log[0].key == key then 1 else 0) + Fails(log[1..], key)
  }

  /** All keys given out so far. */
  function Issued(sequence: nat): seq<bytes> {
    if sequence == 0 then [] else Issued(sequence - 1) + [KeyOf(sequence)]
  }

  /** The retry counter of a queued mail is the number of its failed sends, at most 6. */
  ghost predicate CounterOk(e: Entry<Stored>, log: seq<Event>) {
    e.value.Parsed? ==> e.value.mail.retries == Fails(log, e.key) <= 6
  }

  ghost predicate CountersOk(es: Queue, log: seq<Event>) {
    forall i :: 0 <= i < |es| ==> CounterOk(es[i], log)
  }

  /** A mail that was given up had seven failed sends. */
  ghost predicate ExhaustedOk(all: seq<Event>, log: seq<Event>) {
    forall i :: 0 <= i < |all| && all[i].Exhausted? ==> Fails(log, all[i].key) == 7
  }

  /** Every issued key is in exactly one place, once. */
  ghost predicate Conserved(s: State) {
    multiset(Keys(s.queue)) + multiset(Gone(s.log)) == multiset(Issued(s.sequence))
  }

  ghost predicate KnownKeys(s: State) {
    && (forall i :: 0 <= i < |s.queue| ==> |s.queue[i].key| == 8 && FromBigEndian(s.queue[i].key) <= s.sequence)
    && (forall i :: 0 <= i < |s.log| ==> |s.log[i].key| == 8 && FromBigEndian(s.log[i].key) <= s.sequence)
  }

  /** This mail is the one that was pushed, with one more error for each retry. */
  predicate SameMail(m: Mail, pushed: Stored) {
    && pushed.Parsed? && m.body == pushed.mail.body && pushed.mail.sendErrors <= m.sendErrors
    && |m.sendErrors| == |pushed.mail.sendErrors| + m.retries
  }

  /** What the push that gave out this key stored. */
  function PushedUnder(key: bytes, pushed: seq<Stored>): Option<Stored> {
    var k := FromBigEndian(key);
    if 1 <= k <= |pushed| then Some(pushed[k - 1]) else None
  }

  predicate EntryHolds(e: Entry<Stored>, pushed: seq<Stored>) {
    var p := PushedUnder(e.key, pushed);
    p.Some? && if e.value.Parsed? then SameMail(e.value.mail, p.value) else e.value == p.value
  }

  predicate EventHolds(ev: Event, pushed: seq<Stored>) {
    var p := PushedUnder(ev.key, pushed);
    p.Some? && if ev.Unparsed? then p.value == Garbage(ev.data) else SameMail(ev.mail, p.value)
  }

  /** Everything queued and everything sent is what was pushed under its key. */
  ghost predicate Faithful(queue: Queue, log: seq<Event>, pushed: seq<Stored>) {
    && (forall i :: 0 <= i < |queue| ==> EntryHolds(queue[i], pushed))
    && (forall i :: 0 <= i < |log| ==> EventHolds(log[i], pushed))
  }

  ghost predicate Consistent(s: State) {
    && |s.pushed| == s.sequence && Faithful(s.queue, s.log, s.pushed)
    && s.sequence <= MAX_UINT64 && Sorted(s.queue) && KnownKeys(s) && Conserved(s)
    && CountersOk(s.queue, s.log) && ExhaustedOk(s.log, s.log)
  }

  // ----- the lists under concatenation

  lemma KeysCons(e: Entry<Stored>, es: Queue)
    ensures Keys([e] + es) == [e.key] + Keys(es)
  {
    assert ([e] + es)[1..] == es;
  }

  lemma KeysOfNothing()
    ensures Keys([]) == []
  {
  }

  lemma {:induction false} KeysConcat(a: Queue, b: Queue)
    ensures Keys(a + b) == Keys(a) + Keys(b)
  {
    hide Keys;
    if a == [] {
      assert a + b == b;
      KeysOfNothing();
    } else {
      var rest := a[1..];
      KeysConcat(rest, b);
      assert a == [a[0]] + rest && a + b == [a[0]] + (rest + b);
      KeysCons(a[0], rest);
      KeysCons(a[0], rest + b);
    }
  }

  lemma {:induction false} GoneConcat(a: seq<Event>, b: seq<Event>)
    ensures Gone(a + b) == Gone(a) + Gone(b)
  {
    hide Gone;
    if a == [] {
      assert a + b == b;
      NothingGone(b);
    } else {
      var head := if a[0].Failed? then [] else [a[0].key];
      GoneConcat(a[1..], b);
      GoneUnfolds(a[0], a[1..]);
      GoneUnfolds(a[0], a[1..] + b);
      assert a == [a[0]] + a[1..] && a + b == [a[0]] + (a[1..] + b);
      assert head + (Gone(a[1..]) + Gone(b)) == (head + Gone(a[1..])) + Gone(b);
    }
  }

  lemma NothingGone(log: seq<Event>)
    ensures Gone([]) + Gone(log) == Gone(log)
  {
  }

  lemma {:induction false} FailsConcat(a: seq<Event>, b: seq<Event>, key: bytes)
    ensures Fails(a + b, key) == Fails(a, key) + Fails(b, key)
  {
    if a == [] {
      assert a + b == b;
    } else {
      FailsConcat(a[1..], b, key);
      assert (a + b)[1..] == a[1..] + b;
    }
  }

  lemma {:induction false} NoFailsOf(log: seq<Event>, key: bytes)
    requires forall i :: 0 <= i < |log| ==> log[i].key != key
    ensures Fails(log, key) == 0
  {
    if log != [] {
      NoFailsOf(log[1..], key);
    }
  }

  // ----- one pass

  /** Keys are distinct in a sorted queue. */
  lemma HeadKeyIsNotInTail(es: Queue)
    requires es != [] && Sorted(es)
    ensures Sorted(es[1..]) && forall i :: 0 <= i < |es[1..]| ==> es[1..][i].key != es[0].key
  {
    KeyLessIrreflexive(es[0].key);
    assert forall i :: 0 <= i < |es[1..]| ==> KeyLess(es[0].key, es[1..][i].key) by {
      assert forall i :: 0 <= i < |es[1..]| ==> es[1..][i] == es[i + 1];
    }
  }

  /** The rest of a pass, after its first entry. */
  function Rest(es: Queue, i: nat, send: Sender): Pass
    requires es != []
  {
    var ev := EventOf(es[0], send);
    if Counts(ev) && i > 100 then Pass(es[1..], []) else Consumed(es[1..], if Counts(ev) then i + 1 else i, send)
  }

  lemma PassUnfolds(es: Queue, i: nat, send: Sender)
    ensures es == [] ==> Consumed(es, i, send) == Pass([], [])
    ensures es != [] ==>
      var r := Rest(es, i, send);
      Consumed(es, i, send) == Pass(KeptAs(es[0], send) + r.left, [EventOf(es[0], send)] + r.log)
  {
  }

  predicate SameEntries(left: Queue, log: seq<Event>, es: Queue) {
    && (forall i :: 0 <= i < |left| ==> left[i].key in Keys(es))
    && (forall i :: 0 <= i < |log| ==> log[i].key in Keys(es))
  }

  lemma {:induction false} KeysAt(es: Queue, i: nat)
    requires i < |es|
    ensures es[i].key in Keys(es)
  {
    if i > 0 {
      KeysAt(es[1..], i - 1);
    }
  }

  lemma {:induction false} KeysFrom(es: Queue, key: bytes)
    requires key in Keys(es)
    ensures exists i :: 0 <= i < |es| && es[i].key == key
  {
    if es[0].key != key {
      KeysFrom(es[1..], key);
      var i :| 0 <= i < |es[1..]| && es[1..][i].key == key;
      assert es[i + 1].key == key;
    }
  }

  lemma {:induction false} AllKeysIn(es: Queue)
    ensures SameEntries(es, [], es)
  {
    forall i | 0 <= i < |es|
      ensures es[i].key in Keys(es)
    {
      KeysAt(es, i);
    }
  }

  /** A pass invents no key, and loses none. */
  lemma {:induction false} PassConserves(es: Queue, i: nat, send: Sender)
    ensures var p := Consumed(es, i, send);
      && SameEntries(p.left, p.log, es)
      && multiset(Keys(p.left)) + multiset(Gone(p.log)) == multiset(Keys(es))
    decreases |es|
  {
    hide Consumed;
    PassUnfolds(es, i, send);
    if es != [] {
      var p, r := Consumed(es, i, send), Rest(es, i, send);
      var ev := EventOf(es[0], send);
      if Counts(ev) && i > 100 {
        AllKeysIn(es[1..]);
      } else {
        PassConserves(es[1..], if Counts(ev) then i + 1 else i, send);
      }
      ConserveStep(es, send, r);
    }
  }

  lemma ConserveStep(es: Queue, send: Sender, r: Pass)
    requires es != [] && SameEntries(r.left, r.log, es[1..])
    requires multiset(Keys(r.left)) + multiset(Gone(r.log)) == multiset(Keys(es[1..]))
    ensures var left, log := KeptAs(es[0], send) + r.left, [EventOf(es[0], send)] + r.log;
      && SameEntries(left, log, es)
      && multiset(Keys(left)) + multiset(Gone(log)) == multiset(Keys(es))
  {
    hide Keys, Gone, EventOf;
    KeysUnfold(es);
    KeysOfKept(es[0], send, r.left);
    GoneUnfolds(EventOf(es[0], send), r.log);
    KeyOfEvent(es[0], send);
  }

  lemma KeysUnfold(es: Queue)
    ensures es != [] ==> Keys(es) == [es[0].key] + Keys(es[1..])
  {
  }

  lemma KeyOfEvent(e: Entry<Stored>, send: Sender)
    ensures EventOf(e, send).key == e.key
  {
  }

  lemma GoneUnfolds(ev: Event, log: seq<Event>)
    ensures Gone([ev] + log) == (if ev.Failed? then [] else [ev.key]) + Gone(log)
  {
    assert ([ev] + log)[1..] == log;
  }

  lemma KeysOfKept(e: Entry<Stored>, send: Sender, left: Queue)
    ensures Keys(KeptAs(e, send) + left) == (if EventOf(e, send).Failed? then [e.key] else []) + Keys(left)
  {
    if EventOf(e, send).Failed? {
      assert (KeptAs(e, send) + left)[1..] == left;
    } else {
      assert KeptAs(e, send) + left == left;
    }
  }

  /** The kept entries are in their old order. */
  lemma {:induction false} PassKeepsOrder(es: Queue, i: nat, send: Sender)
    requires Sorted(es)
    ensures Sorted(Consumed(es, i, send).left)
    decreases |es|
  {
    hide Consumed, KeyLess;
    PassUnfolds(es, i, send);
    if es != [] {
      HeadKeyIsNotInTail(es);
      var r, ev, kept := Rest(es, i, send), EventOf(es[0], send), KeptAs(es[0], send);
      if !(Counts(ev) && i > 100) {
        PassKeepsOrder(es[1..], if Counts(ev) then i + 1 else i, send);
        PassConserves(es[1..], if Counts(ev) then i + 1 else i, send);
      } else {
        AllKeysIn(es[1..]);
      }
      if ev.Failed? {
        if r.left != [] {
          KeysFrom(es[1..], r.left[0].key);
          var k :| 0 <= k < |es[1..]| && es[1..][k].key == r.left[0].key;
          assert KeyLess(es[0].key, es[k + 1].key);
        }
        SortedConcat(kept[0], r.left);
        assert kept == [kept[0]];
      } else {
        assert kept + r.left == r.left;
      }
    }
  }

  lemma FailsSkip(log: seq<Event>, ev: Event, tail: seq<Event>, key: bytes)
    requires ev.key != key
    ensures Fails(log + ([ev] + tail), key) == Fails(log + tail, key)
  {
    FailsConcat(log, [ev] + tail, key);
    FailsConcat(log, tail, key);
    assert ([ev] + tail)[1..] == tail;
  }

  lemma FailsOwn(log: seq<Event>, ev: Event, tail: seq<Event>)
    requires forall i :: 0 <= i < |tail| ==> tail[i].key != ev.key
    ensures Fails(log + ([ev] + tail), ev.key) == Fails(log, ev.key) + if ev.Failed? || ev.Exhausted? then 1 else 0
  {
    FailsConcat(log, [ev] + tail, ev.key);
    NoFailsOf(tail, ev.key);
    assert ([ev] + tail)[1..] == tail;
  }

  /** A pass counts each failed send once, and gives a mail up at its seventh. */
  lemma {:induction false} PassCounts(es: Queue, i: nat, send: Sender, log: seq<Event>)
    requires Sorted(es) && CountersOk(es, log)
    ensures var p := Consumed(es, i, send);
      CountersOk(p.left, log + p.log) && ExhaustedOk(p.log, log + p.log)
    decreases |es|
  {
    hide Consumed, KeyLess, Sorted, Fails;
    PassUnfolds(es, i, send);
    if es != [] {
      HeadKeyIsNotInTail(es);
      var r, ev := Rest(es, i, send), EventOf(es[0], send);
      assert CounterOk(es[0], log);
      if Counts(ev) && i > 100 {
        AllKeysIn(es[1..]);
        assert log + [] == log;
      } else {
        PassCounts(es[1..], if Counts(ev) then i + 1 else i, send, log);
        PassConserves(es[1..], if Counts(ev) then i + 1 else i, send);
      }
      CountStep(es, send, log, r);
    }
  }

  lemma CountStep(es: Queue, send: Sender, log: seq<Event>, r: Pass)
    requires es != [] && CounterOk(es[0], log) && SameEntries(r.left, r.log, es[1..])
    requires forall i :: 0 <= i < |es[1..]| ==> es[1..][i].key != es[0].key
    requires CountersOk(r.left, log + r.log) && ExhaustedOk(r.log, log + r.log)
    ensures var left, more := KeptAs(es[0], send) + r.left, [EventOf(es[0], send)] + r.log;
      CountersOk(left, log + more) && ExhaustedOk(more, log + more)
  {
    CountLeft(es, send, log, r);
    CountExhausted(es, send, log, r);
  }

  lemma CountLeft(es: Queue, send: Sender, log: seq<Event>, r: Pass)
    requires es != [] && CounterOk(es[0], log) && SameEntries(r.left, r.log, es[1..])
    requires forall i :: 0 <= i < |es[1..]| ==> es[1..][i].key != es[0].key
    requires CountersOk(r.left, log + r.log)
    ensures CountersOk(KeptAs(es[0], send) + r.left, log + ([EventOf(es[0], send)] + r.log))
  {
    var ev, kept := EventOf(es[0], send), KeptAs(es[0], send);
    var left, more := kept + r.left, [ev] + r.log;
    if es[0].key in Keys(es[1..]) {
      KeysFrom(es[1..], es[0].key);
    }
    FailsOwn(log, ev, r.log);
    forall i | 0 <= i < |left|
      ensures CounterOk(left[i], log + more)
    {
      if i >= |kept| {
        assert left[i] == r.left[i - |kept|];
        assert CounterOk(r.left[i - |kept|], log + r.log);
        FailsSkip(log, ev, r.log, left[i].key);
      }
    }
  }

  lemma CountExhausted(es: Queue, send: Sender, log: seq<Event>, r: Pass)
    requires es != [] && CounterOk(es[0], log) && SameEntries(r.left, r.log, es[1..])
    requires forall i :: 0 <= i < |es[1..]| ==> es[1..][i].key != es[0].key
    requires ExhaustedOk(r.log, log + r.log)
    ensures ExhaustedOk([EventOf(es[0], send)] + r.log, log + ([EventOf(es[0], send)] + r.log))
  {
    var ev := EventOf(es[0], send);
    var more := [ev] + r.log;
    if es[0].key in Keys(es[1..]) {
      KeysFrom(es[1..], es[0].key);
    }
    FailsOwn(log, ev, r.log);
    forall i | 0 <= i < |more| && more[i].Exhausted?
      ensures Fails(log + more, more[i].key) == 7
    {
      if i > 0 {
        assert more[i] == r.log[i - 1];
        FailsSkip(log, ev, r.log, more[i].key);
      }
    }
  }

  lemma EntryFaithful(e: Entry<Stored>, send: Sender, pushed: seq<Stored>)
    requires EntryHolds(e, pushed)
    ensures EventHolds(EventOf(e, send), pushed)
    ensures EventOf(e, send).Failed? ==> EntryHolds(KeptAs(e, send)[0], pushed)
  {
  }

  lemma FaithfulConcat(a: Queue, b: Queue, la: seq<Event>, lb: seq<Event>, pushed: seq<Stored>)
    requires Faithful(a, la, pushed) && Faithful(b, lb, pushed)
    ensures Faithful(a + b, la + lb, pushed)
  {
  }

  /** A pass sends each mail as it is stored, and stores a retried one under its own key. */
  lemma {:induction false} PassIsFaithful(es: Queue, i: nat, send: Sender, pushed: seq<Stored>)
    requires Faithful(es, [], pushed)
    ensures Faithful(Consumed(es, i, send).left, Consumed(es, i, send).log, pushed)
    decreases |es|
  {
    hide Consumed, EntryHolds, EventHolds;
    PassUnfolds(es, i, send);
    if es != [] {
      var r, ev := Rest(es, i, send), EventOf(es[0], send);
      EntryFaithful(es[0], send, pushed);
      if !(Counts(ev) && i > 100) {
        PassIsFaithful(es[1..], if Counts(ev) then i + 1 else i, send, pushed);
      }
      FaithfulConcat(KeptAs(es[0], send), r.left, [ev], r.log, pushed);
    }
  }

  // ----- every run

  lemma {:induction false} IssuedIsDistinct(n: nat, key: bytes)
    requires n <= MAX_UINT64
    ensures multiset(Issued(n))[key] <= 1
    ensures key in multiset(Issued(n)) ==> |key| == 8 && 1 <= FromBigEndian(key) <= n
  {
    if n > 0 {
      IssuedIsDistinct(n - 1, key);
      KeyDecodes(n);
    }
  }

  /** A key that left the queue is not in it any more. */
  lemma GoneIsNotQueued(s: State, key: bytes)
    requires Conserved(s) && s.sequence <= MAX_UINT64 && key in Gone(s.log)
    ensures key !in Keys(s.queue)
  {
    IssuedIsDistinct(s.sequence, key);
    assert multiset(Keys(s.queue))[key] + multiset(Gone(s.log))[key] == multiset(Issued(s.sequence))[key];
    assert key in multiset(Gone(s.log));
    assert key in Keys(s.queue) ==> key in multiset(Keys(s.queue));
  }

  lemma {:induction false} GoneAt(log: seq<Event>, i: nat)
    requires i < |log| && !log[i].Failed?
    ensures log[i].key in Gone(log)
  {
    if i > 0 {
      GoneAt(log[1..], i - 1);
    }
  }

  lemma PassKeepsConsistent(s: State, send: Sender)
    requires Consistent(s)
    ensures Consistent(AfterPass(s, send))
  {
    hide Consumed, Sorted, CountersOk, ExhaustedOk, KnownKeys, Faithful, Keys, Gone, Issued;
    var p := Consumed(s.queue, 0, send);
    PassConserves(s.queue, 0, send);
    PassKeepsOrder(s.queue, 0, send);
    PassCounts(s.queue, 0, send, s.log);
    GoneConcat(s.log, p.log);
    PassKnowsKeys(s, p);
    OldExhaustedStay(s, p);
    PassStaysFaithful(s, send);
  }

  lemma PassStaysFaithful(s: State, send: Sender)
    requires Faithful(s.queue, s.log, s.pushed)
    ensures var p := Consumed(s.queue, 0, send); Faithful(p.left, s.log + p.log, s.pushed)
  {
    hide Consumed, EntryHolds, EventHolds;
    var p := Consumed(s.queue, 0, send);
    PassIsFaithful(s.queue, 0, send, s.pushed);
    FaithfulConcat([], p.left, s.log, p.log, s.pushed);
    assert [] + p.left == p.left;
  }

  lemma PassKnowsKeys(s: State, p: Pass)
    requires KnownKeys(s) && SameEntries(p.left, p.log, s.queue)
    ensures KnownKeys(State(s.sequence, p.left, s.log + p.log, s.pushed))
  {
    forall key | key in Keys(s.queue)
      ensures |key| == 8 && FromBigEndian(key) <= s.sequence
    {
      KeysFrom(s.queue, key);
    }
  }

  lemma OldExhaustedStay(s: State, p: Pass)
    requires Conserved(s) && s.sequence <= MAX_UINT64 && ExhaustedOk(s.log, s.log)
    requires SameEntries(p.left, p.log, s.queue) && ExhaustedOk(p.log, s.log + p.log)
    ensures ExhaustedOk(s.log + p.log, s.log + p.log)
  {
    forall i | 0 <= i < |s.log + p.log| && (s.log + p.log)[i].Exhausted?
      ensures Fails(s.log + p.log, (s.log + p.log)[i].key) == 7
    {
      if i < |s.log| {
        var key := s.log[i].key;
        GoneAt(s.log, i);
        GoneIsNotQueued(s, key);
        NoFailsOf(p.log, key);
        FailsConcat(s.log, p.log, key);
      } else {
        assert (s.log + p.log)[i] == p.log[i - |s.log|];
      }
    }
  }

  lemma NewKeyGoesLast(s: State, key: bytes, v: Stored)
    requires Sorted(s.queue) && KnownKeys(s) && |key| == 8 && FromBigEndian(key) == s.sequence + 1
    ensures Put(s.queue, key, v) == s.queue + [Entry(key, v)]
    ensures forall i :: 0 <= i < |s.log| ==> s.log[i].key != key
  {
    forall i | 0 <= i < |s.queue|
      ensures KeyLess(s.queue[i].key, key)
    {
      KeyOrderIsNumericOrder(s.queue[i].key, key);
    }
    PutAtEnd(s.queue, key, v);
  }

  lemma AppendKeepsCounters(es: Queue, log: seq<Event>, e: Entry<Stored>)
    requires CountersOk(es, log) && CounterOk(e, log)
    ensures CountersOk(es + [e], log)
  {
    hide CounterOk;
  }

  lemma IssuedUnfolds(n: nat)
    ensures Issued(n + 1) == Issued(n) + [KeyOf(n + 1)] && |KeyOf(n + 1)| == 8
  {
  }

  lemma AppendConserves(s: State, e: Entry<Stored>, pushed: seq<Stored>)
    requires Conserved(s) && e.key == KeyOf(s.sequence + 1)
    ensures Conserved(State(s.sequence + 1, s.queue + [e], s.log, pushed))
  {
    hide KeyOf, Keys, Gone, Issued;
    KeysConcat(s.queue, [e]);
    KeyOfOne(e);
    IssuedUnfolds(s.sequence);
  }

  lemma KeyOfOne(e: Entry<Stored>)
    ensures Keys([e]) == [e.key]
  {
    assert [e][1..] == [];
  }

  lemma PushKeepsConsistent(s: State, v: Stored)
    requires Consistent(s) && s.sequence < MAX_UINT64 && (v.Parsed? ==> v.mail.retries == 0)
    ensures Consistent(Pushed(s, v))
  {
    hide Conserved, KeyOf, Put, ExhaustedOk, CountersOk, Sorted, Issued, Faithful, KnownKeys;
    var key := KeyOf(s.sequence + 1);
    KeyDecodes(s.sequence + 1);
    IssuedUnfolds(s.sequence);
    NewKeyGoesLast(s, key, v);
    PutKeepsSorted(s.queue, key, v);
    AppendConserves(s, Entry(key, v), s.pushed + [v]);
    NoFailsOf(s.log, key);
    AppendKeepsCounters(s.queue, s.log, Entry(key, v));
    assert (s.sequence + 1) % (MAX_UINT64 + 1) == s.sequence + 1;
    assert Pushed(s, v) == State(s.sequence + 1, s.queue + [Entry(key, v)], s.log, s.pushed + [v]);
    PushIsFaithful(s, key, v);
    PushKnowsKeys(s, Entry(key, v), s.pushed + [v]);
  }

  lemma PushKnowsKeys(s: State, e: Entry<Stored>, pushed: seq<Stored>)
    requires KnownKeys(s) && |e.key| == 8 && FromBigEndian(e.key) == s.sequence + 1
    ensures KnownKeys(State(s.sequence + 1, s.queue + [e], s.log, pushed))
  {
  }

  lemma PushIsFaithful(s: State, key: bytes, v: Stored)
    requires Faithful(s.queue, s.log, s.pushed) && FromBigEndian(key) == |s.pushed| + 1
    requires v.Parsed? ==> v.mail.retries == 0
    ensures Faithful(s.queue + [Entry(key, v)], s.log, s.pushed + [v])
  {
    forall i | 0 <= i < |s.queue|
      ensures EntryHolds(s.queue[i], s.pushed + [v])
    {
      assert EntryHolds(s.queue[i], s.pushed);
    }
    forall i | 0 <= i < |s.log|
      ensures EventHolds(s.log[i], s.pushed + [v])
    {
      assert EventHolds(s.log[i], s.pushed);
    }
    assert EntryHolds(Entry(key, v), s.pushed + [v]);
  }

  /**
    Main result: in every state that a run reaches, each issued mail is in exactly one
    place, the queue is in order of issue, its counters are the failed sends so far, every
    mail given up had exactly seven of them, and whatever is queued or was sent under a key
    is the mail that was pushed under it, with one error kept for each retry.
   */
  lemma {:induction false} EveryRunIsConsistent(ops: seq<Op>)
    requires GoodOps(ops)
    ensures Consistent(Run(ops)) && Run(ops).sequence <= |ops|
    decreases |ops|
  {
    hide Consistent, AfterPass, Put, KeyOf;
    if ops == [] {
      EmptyIsConsistent();
    } else {
      var s, op := Run(ops[..|ops| - 1]), ops[|ops| - 1];
      EveryRunIsConsistent(ops[..|ops| - 1]);
      match op
      case PushOp(v) =>
        PushKeepsConsistent(s, v);
      case ConsumeOp(send) =>
        PassKeepsConsistent(s, send);
        PassKeepsSequence(s, send);
    }
  }

  lemma PassKeepsSequence(s: State, send: Sender)
    ensures AfterPass(s, send).sequence == s.sequence
    ensures Consistent(s) ==> s.sequence <= MAX_UINT64
  {
  }

  lemma EmptyIsConsistent()
    ensures Consistent(State(0, [], [], []))
  {
  }

  /** Each issued mail is queued, delivered, given up or dropped as unreadable: once, in one place. */
  lemma EachMailIsInOnePlace(ops: seq<Op>, id: nat)
    requires GoodOps(ops) && 1 <= id <= Run(ops).sequence
    ensures multiset(Keys(Run(ops).queue))[KeyOf(id)] + multiset(Gone(Run(ops).log))[KeyOf(id)] == 1
  {
    EveryRunIsConsistent(ops);
    var s := Run(ops);
    IssuedIsDistinct(s.sequence, KeyOf(id));
    IssuedHas(s.sequence, id);
    var key := KeyOf(id);
    assert multiset(Keys(s.queue))[key] + multiset(Gone(s.log))[key] == multiset(Issued(s.sequence))[key];
  }

  /** Every mail a sender was ever given is the pushed one of its key. */
  lemma SentMailsArePushedMails(ops: seq<Op>, i: nat)
    requires GoodOps(ops) && i < |Run(ops).log| && !Run(ops).log[i].Unparsed?
    ensures var ev, id := Run(ops).log[i], FromBigEndian(Run(ops).log[i].key);
      && 1 <= id <= |PushesOf(ops)| && ev.key == KeyOf(id)
      && SameMail(ev.mail, PushesOf(ops)[id - 1])
  {
    hide Fails, Sorted, Conserved, CountersOk, ExhaustedOk;
    EveryRunIsConsistent(ops);
    PushesAreKept(ops);
    var s := Run(ops);
    assert EventHolds(s.log[i], s.pushed);
    EncodeDecode(s.log[i].key);
  }

  function PushesOf(ops: seq<Op>): seq<Stored> {
    if ops == [] then []
    else
      var op := ops[|ops| - 1];
      PushesOf(ops[..|ops| - 1]) + if op.PushOp? then [op.v] else []
  }

  lemma {:induction false} PushesAreKept(ops: seq<Op>)
    ensures Run(ops).pushed == PushesOf(ops)
    decreases |ops|
  {
    hide Consumed, Put, KeyOf;
    if ops != [] {
      PushesAreKept(ops[..|ops| - 1]);
    }
  }

  lemma {:induction false} IssuedHas(n: nat, id: nat)
    requires 1 <= id <= n
    ensures KeyOf(id) in multiset(Issued(n))
  {
    if id < n {
      IssuedHas(n - 1, id);
    }
  }

  // ----- what a sender's answers do

  /** What becomes of one entry, said by the answer of the sender alone. */
  ghost predicate AnsweredBy(e: Entry<Stored>, send: Sender, ev: Event, left: Queue) {
    match e.value
    case Garbage(data) => ev == Unparsed(e.key, data)
    case Parsed(m) =>
      match send(e.key, m)
      case None => ev == Delivered(e.key, m)
      case Some(error) =>
        if m.retries < 6 then
          && ev == Failed(e.key, m, error)
          && Entry(e.key, Parsed(Mail(m.body, m.retries + 1, m.sendErrors + [error]))) in left
        else ev == Exhausted(e.key, m, error)
  }

  ghost predicate AllAnswered(es: Queue, send: Sender, log: seq<Event>, left: Queue) {
    |log| <= |es| && forall k :: 0 <= k < |log| ==> AnsweredBy(es[k], send, log[k], left)
  }

  lemma {:induction false} AnsweredStep(es: Queue, send: Sender, r: Pass)
    requires es != [] && AllAnswered(es[1..], send, r.log, r.left)
    ensures AllAnswered(es, send, [EventOf(es[0], send)] + r.log, KeptAs(es[0], send) + r.left)
  {
    var left, log := KeptAs(es[0], send) + r.left, [EventOf(es[0], send)] + r.log;
    forall k | 0 <= k < |log|
      ensures AnsweredBy(es[k], send, log[k], left)
    {
      if k > 0 {
        assert AnsweredBy(es[1..][k - 1], send, r.log[k - 1], r.left);
      } else if EventOf(es[0], send).Failed? {
        assert left[0] in left;
      }
    }
  }

  /**
    Main result: a pass goes over the queue in order and the sender's answers alone decide: a
    mail answered with nothing is delivered, one answered with an error is queued again with
    one more retry and that error, or given up if it had six. What the pass does not reach
    stays as it was, and it stops short only after 102 removals.
   */
  lemma {:induction false} PassFollowsAnswers(es: Queue, i: nat, send: Sender)
    requires i <= 101
    ensures var p := Consumed(es, i, send);
      && AllAnswered(es, send, p.log, p.left)
      && |es| - |p.log| <= |p.left| && p.left[|p.left| - (|es| - |p.log|)..] == es[|p.log|..]
      && (|p.log| < |es| ==> Removals(p.log) == 102 - i)
    decreases |es|
  {
    hide Consumed, AllAnswered, KeptAs;
    PassUnfolds(es, i, send);
    if es == [] {
      NothingAnswered(send);
    } else {
      var r, ev := Rest(es, i, send), EventOf(es[0], send);
      if Counts(ev) && i > 100 {
        NothingReached(es[1..], send);
      } else {
        PassFollowsAnswers(es[1..], if Counts(ev) then i + 1 else i, send);
      }
      AnsweredStep(es, send, r);
      AnsweredIsShorter(es[1..], send, r.log, r.left);
      SuffixStays(es, KeptAs(es[0], send), r.left, |r.log|);
      assert ([ev] + r.log)[1..] == r.log;
    }
  }

  lemma SuffixStays(es: Queue, kept: Queue, left: Queue, n: nat)
    requires es != [] && n < |es| && |es| - 1 - n <= |left| && left[|left| - (|es| - 1 - n)..] == es[1..][n..]
    ensures (kept + left)[|kept + left| - (|es| - 1 - n)..] == es[n + 1..]
  {
    assert (kept + left)[|kept + left| - (|es| - 1 - n)..] == left[|left| - (|es| - 1 - n)..];
    assert es[1..][n..] == es[n + 1..];
  }

  lemma PassIsAnswered(es: Queue, send: Sender)
    ensures AllAnswered(es, send, Consumed(es, 0, send).log, Consumed(es, 0, send).left)
  {
    PassFollowsAnswers(es, 0, send);
  }

  lemma AnsweredIsShorter(es: Queue, send: Sender, log: seq<Event>, left: Queue)
    requires AllAnswered(es, send, log, left)
    ensures |log| <= |es|
  {
  }

  lemma NothingAnswered(send: Sender)
    ensures AllAnswered([], send, [], [])
  {
  }

  lemma NothingReached(es: Queue, send: Sender)
    ensures AllAnswered(es, send, [], es) && es[0..] == es && es[|es| - |es|..] == es && Removals([]) == 0
  {
  }

  /** What an event says was answered. */
  ghost predicate Witnesses(send: Sender, ev: Event) {
    match ev
    case Delivered(key, mail) => send(key, mail) == None
    case Failed(key, mail, error) => send(key, mail) == Some(error)
    case Exhausted(key, mail, error) => send(key, mail) == Some(error)
    case Unparsed(_, _) => true
  }

  /** Every event of a run was answered so by the sender of one of its passes. */
  lemma {:induction false} EventsAreAnswers(ops: seq<Op>, i: nat) returns (n: nat)
    requires i < |Run(ops).log|
    ensures n < |ops| && ops[n].ConsumeOp? && Witnesses(ops[n].send, Run(ops).log[i])
    decreases |ops|
  {
    hide Consumed, Put, KeyOf;
    var init, op := ops[..|ops| - 1], ops[|ops| - 1];
    var before := Run(init);
    if i < |before.log| {
      n := EventsAreAnswers(init, i);
      assert Run(ops).log[i] == before.log[i];
    } else {
      n := |ops| - 1;
      var p := Consumed(before.queue, 0, op.send);
      PassFollowsAnswers(before.queue, 0, op.send);
      var k := i - |before.log|;
      assert Run(ops).log[i] == p.log[k];
      assert AnsweredBy(before.queue[k], op.send, p.log[k], p.left);
    }
  }

  /**
    Main result: a parseable mail that has left the queue was delivered by a pass whose sender
    answered nothing, or given up after exactly seven sends that answered an error.
   */
  lemma MailLeavesOnlyAnswered(ops: seq<Op>, id: nat) returns (i: nat, n: nat)
    requires GoodOps(ops) && 1 <= id <= |PushesOf(ops)| && PushesOf(ops)[id - 1].Parsed?
    requires KeyOf(id) !in Keys(Run(ops).queue)
    ensures i < |Run(ops).log| && n < |ops| && ops[n].ConsumeOp? && Run(ops).log[i].key == KeyOf(id)
    ensures var ev := Run(ops).log[i];
      || (ev.Delivered? && ops[n].send(ev.key, ev.mail) == None)
      || (ev.Exhausted? && ops[n].send(ev.key, ev.mail) == Some(ev.error) && Fails(Run(ops).log, ev.key) == 7)
  {
    hide Fails, Sorted, CountersOk, Gone, Keys, Conserved, Run, PushesOf, KnownKeys;
    var s := Run(ops);
    EveryRunIsConsistent(ops);
    PushesAreKept(ops);
    EachMailIsInOnePlace(ops, id);
    assert KeyOf(id) in Gone(s.log);
    i := GoneFrom(s.log, KeyOf(id));
    KeyDecodes(id);
    assert EventHolds(s.log[i], s.pushed);
    n := EventsAreAnswers(ops, i);
  }

  lemma {:induction false} GoneFrom(log: seq<Event>, key: bytes) returns (i: nat)
    requires key in Gone(log)
    ensures i < |log| && log[i].key == key && !log[i].Failed?
  {
    if !log[0].Failed? && log[0].key == key {
      i := 0;
    } else {
      i := GoneFrom(log[1..], key);
      i := i + 1;
    }
  }

  // ----- batches and termination

  /** The mails that a pass took out of the queue after a send. */
  function Removals(log: seq<Event>): nat {
    if log == [] then 0 else (if log[0].Delivered? || log[0].Exhausted? then 1 else 0) + Removals(log[1..])
  }

  /** One pass removes at most 102 mails after a send. */
  lemma {:induction false} PassRemovesAtMost102(es: Queue, i: nat, send: Sender)
    requires i <= 101
    ensures Removals(Consumed(es, i, send).log) <= 102 - i
    decreases |es|
  {
    hide Consumed;
    PassUnfolds(es, i, send);
    if es != [] {
      var r, ev := Rest(es, i, send), EventOf(es[0], send);
      assert ([ev] + r.log)[1..] == r.log;
      if !(Counts(ev) && i > 100) {
        PassRemovesAtMost102(es[1..], if Counts(ev) then i + 1 else i, send);
      }
    }
  }

  /** The sends a queue can still take, an unreadable entry counting as one. */
  function Weight(es: Queue): int {
    if es == [] then 0
    else (if es[0].value.Parsed? then 7 - es[0].value.mail.retries else 1) + Weight(es[1..])
  }

  ghost predicate Countable(es: Queue) {
    forall i :: 0 <= i < |es| ==> (es[i].value.Parsed? ==> 0 <= es[i].value.mail.retries <= 6)
  }

  lemma WeightStep(e: Entry<Stored>, rest: Queue)
    ensures Weight([e] + rest) ==
      (if e.value.Parsed? then 7 - e.value.mail.retries else 1) + Weight(rest)
  {
    assert ([e] + rest)[1..] == rest;
  }

  /** Each pass over a non-empty queue strictly lowers its weight. */
  lemma {:induction false} PassLowersWeight(es: Queue, i: nat, send: Sender)
    requires Countable(es)
    ensures var left := Consumed(es, i, send).left;
      Countable(left) && 0 <= Weight(left) <= Weight(es) && (es != [] ==> Weight(left) < Weight(es))
    decreases |es|
  {
    hide Consumed;
    PassUnfolds(es, i, send);
    if es != [] {
      var r, ev, kept := Rest(es, i, send), EventOf(es[0], send), KeptAs(es[0], send);
      if Counts(ev) && i > 100 {
        WeightIsPositive(es[1..]);
      } else {
        PassLowersWeight(es[1..], if Counts(ev) then i + 1 else i, send);
      }
      WeightStep(es[0], es[1..]);
      if ev.Failed? {
        WeightStep(kept[0], r.left);
        assert kept == [kept[0]];
      } else {
        assert kept + r.left == r.left;
      }
    }
  }

  lemma {:induction false} WeightIsPositive(es: Queue)
    requires Countable(es)
    ensures Weight(es) >= |es|
    decreases |es|
  {
    if es != [] {
      WeightIsPositive(es[1..]);
    }
  }

  function Passes(es: Queue, sends: seq<Sender>): Queue {
    if sends == [] then es else Consumed(Passes(es, sends[..|sends| - 1]), 0, sends[|sends| - 1]).left
  }

  /** Without new pushes, whatever the senders answer, as many passes as the queue weighs empty it. */
  lemma {:induction false} PassesDrain(es: Queue, sends: seq<Sender>)
    requires Countable(es)
    ensures Countable(Passes(es, sends))
    ensures Passes(es, sends) == [] || Weight(Passes(es, sends)) + |sends| <= Weight(es)
    ensures |sends| >= Weight(es) ==> Passes(es, sends) == []
    decreases |sends|
  {
    hide Consumed;
    if sends != [] {
      var before := Passes(es, sends[..|sends| - 1]);
      PassesDrain(es, sends[..|sends| - 1]);
      PassLowersWeight(before, 0, sends[|sends| - 1]);
      PassUnfolds(before, 0, sends[|sends| - 1]);
    }
    WeightIsPositive(Passes(es, sends));
  }
}
