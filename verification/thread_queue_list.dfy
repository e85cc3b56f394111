/** The per-core ready queue: one FIFO bucket per priority level, bucket 0
    served first. Entries are thread ids; nothing stops an id from being
    queued twice, and the scheduler relies on that being possible. */
module ThreadQueueList {
  import opened Types

  /** THREADPRIO_LOWEST + 1 buckets. */
  const NUM_QUEUES: nat := 64

  type Queues = seq<seq<Tid>>

  predicate WellFormed(q: Queues) {
    |q| == NUM_QUEUES
  }

  /** Every bucket empty: the state a freshly constructed list starts in. */
  function Empty(): (q: Queues)
    ensures WellFormed(q)
    ensures forall i :: 0 <= i < |q| ==> q[i] == []
  {
    seq(NUM_QUEUES, _ => [])
  }

  /** All queued entries in service order: bucket 0 front to back, then
      bucket 1, and so on. */
  function Flatten(q: Queues): seq<Tid> {
    if q == [] then [] else q[0] + Flatten(q[1..])
  }

  lemma {:induction false} FlattenAppend(a: Queues, b: Queues)
    ensures Flatten(a + b) == Flatten(a) + Flatten(b)
  {
    if a == [] {
      assert a + b == b;
    } else {
      assert (a + b)[1..] == a[1..] + b;
      FlattenAppend(a[1..], b);
    }
  }

  /** Bucket i sits between the buckets before it and the buckets after it. */
  lemma {:induction false} FlattenSplit(q: Queues, i: nat)
    requires i < |q|
    ensures Flatten(q) == Flatten(q[..i]) + q[i] + Flatten(q[i + 1..])
  {
    if i == 0 {
      assert q[..0] == [];
    } else {
      FlattenSplit(q[1..], i - 1);
      assert q[1..][..i - 1] == q[..i][1..];
      assert q[1..][i..] == q[i + 1..];
    }
  }

  lemma {:induction false} FlattenAllEmpty(q: Queues)
    requires forall i :: 0 <= i < |q| ==> q[i] == []
    ensures Flatten(q) == []
  {
    if q != [] {
      FlattenAllEmpty(q[1..]);
    }
  }

  /** Replacing one bucket changes the multiset of queued entries by exactly
      the entries removed from and added to that bucket. */
  lemma FlattenUpdate(q: Queues, i: nat, s: seq<Tid>)
    requires i < |q|
    ensures multiset(Flatten(q[i := s])) + multiset(q[i]) == multiset(Flatten(q)) + multiset(s)
  {
    var q' := q[i := s];
    FlattenSplit(q, i);
    FlattenSplit(q', i);
    assert q'[..i] == q[..i] && q'[i + 1..] == q[i + 1..];
  }

  /** An entry is queued iff some bucket holds it. */
  lemma {:induction false} InFlatten(q: Queues, t: Tid)
    ensures t in Flatten(q) <==> exists i :: 0 <= i < |q| && t in q[i]
  {
    if q != [] {
      InFlatten(q[1..], t);
      if t in Flatten(q[1..]) {
        var i :| 0 <= i < |q[1..]| && t in q[1..][i];
        assert t in q[i + 1];
      }
      if exists i :: 0 <= i < |q| && t in q[i] {
        var i :| 0 <= i < |q| && t in q[i];
        if i > 0 {
          assert t in q[1..][i - 1];
        }
      }
    }
  }

  lemma MultisetCancel(a: multiset<Tid>, b: multiset<Tid>, c: multiset<Tid>)
    requires a + c == b + c
    ensures a == b
  {
    assert forall x :: a[x] == (a + c)[x] - c[x];
  }

  /** push_back: the entry joins the back of bucket p. */
  function PushBack(q: Queues, p: nat, t: Tid): (r: Queues)
    requires WellFormed(q) && p < NUM_QUEUES
    ensures WellFormed(r)
    ensures r[p] == q[p] + [t] && |r[p]| == |q[p]| + 1
    ensures forall i :: 0 <= i < NUM_QUEUES && i != p ==> r[i] == q[i]
    ensures multiset(Flatten(r)) == multiset(Flatten(q)) + multiset{t}
  {
    FlattenUpdate(q, p, q[p] + [t]);
    MultisetCancel(multiset(Flatten(q[p := q[p] + [t]])), multiset(Flatten(q)) + multiset{t}, multiset(q[p]));
    q[p := q[p] + [t]]
  }

  /** push_front: the entry joins the front of bucket p. */
  function PushFront(q: Queues, p: nat, t: Tid): (r: Queues)
    requires WellFormed(q) && p < NUM_QUEUES
    ensures WellFormed(r)
    ensures r[p] == [t] + q[p]
    ensures forall i :: 0 <= i < NUM_QUEUES && i != p ==> r[i] == q[i]
    ensures multiset(Flatten(r)) == multiset(Flatten(q)) + multiset{t}
  {
    FlattenUpdate(q, p, [t] + q[p]);
    MultisetCancel(multiset(Flatten(q[p := [t] + q[p]])), multiset(Flatten(q)) + multiset{t}, multiset(q[p]));
    q[p := [t] + q[p]]
  }

  /** Bucket contents with every occurrence of t erased, order kept. */
  function Erase(s: seq<Tid>, t: Tid): (r: seq<Tid>)
    ensures forall x :: x in r <==> x in s && x != t
    ensures t !in s ==> r == s
  {
    if s == [] then []
    else if s[0] == t then
      assert s == [s[0]] + s[1..];
      Erase(s[1..], t)
    else
      assert s == [s[0]] + s[1..];
      [s[0]] + Erase(s[1..], t)
  }

  /** Erasing drops every copy of t and keeps every other entry as often
      as it was there. */
  lemma {:induction false} EraseMultiset(s: seq<Tid>, t: Tid)
    ensures multiset(Erase(s, t)) == multiset(s)[t := 0]
  {
    if s != [] {
      assert s == [s[0]] + s[1..];
      EraseMultiset(s[1..], t);
    }
  }

  /** Erasing commutes with concatenation, so the entries that stay keep
      their relative order. */
  lemma {:induction false} EraseAppend(a: seq<Tid>, b: seq<Tid>, t: Tid)
    ensures Erase(a + b, t) == Erase(a, t) + Erase(b, t)
  {
    if a == [] {
      assert a + b == b;
    } else {
      assert (a + b)[0] == a[0];
      assert (a + b)[1..] == a[1..] + b;
      EraseAppend(a[1..], b, t);
    }
  }

  lemma EraseCounts(q: Queues, p: nat, t: Tid)
    requires p < |q|
    ensures forall x :: x != t ==> multiset(Flatten(q[p := Erase(q[p], t)]))[x] == multiset(Flatten(q))[x]
    ensures multiset(Flatten(q[p := Erase(q[p], t)]))[t] + multiset(q[p])[t] == multiset(Flatten(q))[t]
  {
    var s := Erase(q[p], t);
    EraseMultiset(q[p], t);
    FlattenUpdate(q, p, s);
    var after, before := multiset(Flatten(q[p := s])), multiset(Flatten(q));
    forall x
      ensures after[x] + multiset(q[p])[x] == before[x] + multiset(s)[x]
    {
      assert (after + multiset(q[p]))[x] == (before + multiset(s))[x];
    }
  }

  /** remove: erase t from bucket p; other buckets are untouched. */
  function Remove(q: Queues, p: nat, t: Tid): (r: Queues)
    requires WellFormed(q) && p < NUM_QUEUES
    ensures WellFormed(r)
    ensures forall x :: x in r[p] <==> x in q[p] && x != t
    ensures multiset(r[p]) == multiset(q[p])[t := 0]
    ensures forall i :: 0 <= i < NUM_QUEUES && i != p ==> r[i] == q[i]
    ensures forall x :: x != t ==> multiset(Flatten(r))[x] == multiset(Flatten(q))[x]
    ensures multiset(Flatten(r))[t] + multiset(q[p])[t] == multiset(Flatten(q))[t]
  {
    EraseCounts(q, p, t);
    EraseMultiset(q[p], t);
    q[p := Erase(q[p], t)]
  }

  /** The lowest-numbered non-empty bucket below `limit`, if any. */
  function FirstNonEmpty(q: Queues, from: nat, limit: nat): (r: Option<nat>)
    requires from <= limit <= |q|
    ensures r.Some? ==> from <= r.value < limit && q[r.value] != []
    ensures r.Some? ==> forall i :: from <= i < r.value ==> q[i] == []
    ensures r.None? ==> forall i :: from <= i < limit ==> q[i] == []
    decreases limit - from
  {
    if from == limit then None
    else if q[from] != [] then Some(from)
    else FirstNonEmpty(q, from + 1, limit)
  }

  /** What a pop returns: the entry taken (None for the null result) and
      the queue afterwards. */
  datatype Popped = Popped(entry: Option<Tid>, queues: Queues)

  /** The entries in buckets before i are empty, so serving starts at i. */
  lemma {:induction false} FlattenFrom(q: Queues, i: nat)
    requires i < |q|
    requires forall j :: 0 <= j < i ==> q[j] == []
    ensures Flatten(q) == q[i] + Flatten(q[i + 1..])
  {
    FlattenSplit(q, i);
    FlattenAllEmpty(q[..i]);
  }

  /** pop_first_better(p): the front of the first non-empty bucket strictly
      better (numerically lower) than p; nothing when every such bucket is
      empty. */
  function PopFirstBetter(q: Queues, p: nat): (r: Popped)
    requires WellFormed(q) && p <= NUM_QUEUES
    ensures WellFormed(r.queues)
    ensures r.entry.None? <==> forall i :: 0 <= i < p ==> q[i] == []
    ensures r.entry.None? ==> r.queues == q
    ensures r.entry.Some? ==>
              Flatten(q) != [] && r.entry.value == Flatten(q)[0] && Flatten(r.queues) == Flatten(q)[1..]
    ensures r.entry.Some? ==>
              FirstNonEmpty(q, 0, p).Some? &&
              var i := FirstNonEmpty(q, 0, p).value;
              r.entry.value == q[i][0] && r.queues == q[i := q[i][1..]]
  {
    match FirstNonEmpty(q, 0, p)
    case None => Popped(None, q)
    case Some(i) =>
      PopFrontFlatten(q, i);
      Popped(Some(q[i][0]), q[i := q[i][1..]])
  }

  /** Taking the front of the first non-empty bucket takes the first entry
      in service order and leaves the rest in order. */
  lemma PopFrontFlatten(q: Queues, i: nat)
    requires i < |q| && q[i] != []
    requires forall j :: 0 <= j < i ==> q[j] == []
    ensures Flatten(q) != [] && Flatten(q)[0] == q[i][0]
    ensures Flatten(q[i := q[i][1..]]) == Flatten(q)[1..]
  {
    var q' := q[i := q[i][1..]];
    FlattenFrom(q, i);
    FlattenFrom(q', i);
    assert q'[i + 1..] == q[i + 1..];
    assert Flatten(q)[1..] == q[i][1..] + Flatten(q[i + 1..]);
  }

  /** pop_first: the front of the lowest-numbered non-empty bucket. */
  function PopFirst(q: Queues): (r: Popped)
    requires WellFormed(q)
    ensures WellFormed(r.queues)
    ensures r.entry.None? <==> Flatten(q) == []
    ensures r.entry.None? ==> r.queues == q
    ensures r.entry.Some? ==> r.entry.value == Flatten(q)[0] && Flatten(r.queues) == Flatten(q)[1..]
    ensures r.entry.Some? ==>
              FirstNonEmpty(q, 0, NUM_QUEUES).Some? &&
              var i := FirstNonEmpty(q, 0, NUM_QUEUES).value;
              r.entry.value == q[i][0] && r.queues == q[i := q[i][1..]]
  {
    var r := PopFirstBetter(q, NUM_QUEUES);
    if r.entry.None? then
      FlattenAllEmpty(q);
      r
    else
      r
  }

  /** pop_first and pop_first_better agree whenever the better bucket wins,
      and pop_first_better returns nothing exactly when the first queued
      entry sits at priority p or worse. */
  lemma {:induction false} PopFirstBetterIsPopFirstBelow(q: Queues, p: nat)
    requires WellFormed(q) && p <= NUM_QUEUES
    ensures PopFirstBetter(q, p).entry.Some? ==> PopFirstBetter(q, p) == PopFirst(q)
    ensures PopFirstBetter(q, p).entry.None? && PopFirst(q).entry.Some? ==>
              exists i :: p <= i < NUM_QUEUES && q[i] != [] && PopFirst(q).entry.value == q[i][0]
  {
    var a := FirstNonEmpty(q, 0, p);
    var b := FirstNonEmpty(q, 0, NUM_QUEUES);
    if a.Some? {
      assert b.Some? && b.value == a.value;
    } else if b.Some? {
      FlattenFrom(q, b.value);
      assert p <= b.value;
    }
  }
}
