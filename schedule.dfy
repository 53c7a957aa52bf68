/** Spaced reinsertion of unlimited sessions: the interval each rating earns
    and where the rated card goes back into the queue. */
module Schedule {
  import opened Deck

  /** The three rating buttons of the study screen. */
  datatype Rating = Hard | Medium | Easy

  /** An inclusive range of integers. */
  datatype Range = Range(lo: int, hi: int) {
    predicate Contains(x: int) { lo <= x <= hi }
  }

  /** The interval range a rating draws from: Hard comes back soonest,
      Medium later, and every other rating (Easy) latest. */
  function IntervalRange(rating: Rating): (r: Range)
    ensures 1 <= r.lo <= r.hi
  {
    if rating == Hard then Range(10, 15)
    else if rating == Medium then Range(25, 30)
    else Range(45, 50)
  }

  /** A harder rating always brings the card back strictly sooner. */
  lemma IntervalsOrdered()
    ensures IntervalRange(Hard).hi < IntervalRange(Medium).lo
    ensures IntervalRange(Medium).hi < IntervalRange(Easy).lo
  {
  }

  /** A uniformly drawn integer of [lo, hi]; the generator is not modelled,
      so any integer of the range may come back. */
  method RandomInt(lo: int, hi: int) returns (r: int)
    requires lo <= hi
    ensures lo <= r <= hi
  {
    r :| lo <= r <= hi;
  }

  /** Where a card rated at `cursor` goes back: `cursor + interval` when that
      is a position of the queue, otherwise the end of the queue. */
  function InsertionIndex(cursor: nat, interval: nat, len: nat): (p: nat)
    ensures p <= len
    ensures p == len || p == cursor + interval
    ensures cursor + interval < len <==> p < len
  {
    if cursor + interval < len then cursor + interval else len
  }

  /** `queue.splice(at, 0, card)`: the card is inserted before position `at`;
      nothing before `at` moves, and everything from `at` on shifts up by one. */
  function Splice(queue: seq<Card>, at: nat, card: Card): (r: seq<Card>)
    requires at <= |queue|
    ensures |r| == |queue| + 1
    ensures r[at] == card
    ensures forall k :: 0 <= k < at ==> r[k] == queue[k]
    ensures forall k :: at <= k < |queue| ==> r[k + 1] == queue[k]
    ensures multiset(r) == multiset(queue) + multiset{card}
  {
    assert queue == queue[..at] + queue[at..];
    queue[..at] + [card] + queue[at..]
  }

  /** The queue after a rated card goes back: spliced in at `cursor + interval`
      when that is a position of the queue, pushed at the end otherwise. */
  function Reinsert(queue: seq<Card>, cursor: nat, interval: nat, card: Card): (r: seq<Card>)
    ensures |r| == |queue| + 1
    ensures var p := InsertionIndex(cursor, interval, |queue|);
      && r[p] == card
      && (forall k :: 0 <= k < p ==> r[k] == queue[k])
      && (forall k :: p <= k < |queue| ==> r[k + 1] == queue[k])
    ensures multiset(r) == multiset(queue) + multiset{card}
  {
    if cursor + interval < |queue| then Splice(queue, cursor + interval, card)
    else queue + [card]
  }

  /** Reinserting the card under the cursor with a positive interval keeps
      everything up to and including the cursor in place, and the card shows
      up again strictly after the cursor. */
  lemma ReinsertAfterCursor(queue: seq<Card>, cursor: nat, interval: nat)
    requires cursor < |queue| && 1 <= interval
    ensures var r := Reinsert(queue, cursor, interval, queue[cursor]);
      && r[..cursor + 1] == queue[..cursor + 1]
      && queue[cursor] in r[cursor + 1..]
  {
    var r := Reinsert(queue, cursor, interval, queue[cursor]);
    var p := InsertionIndex(cursor, interval, |queue|);
    assert cursor < p;
    assert r[p] == queue[cursor];
    assert r[cursor + 1..][p - cursor - 1] == r[p];
  }
}
