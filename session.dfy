/** The study session: the state the flashcard app keeps between user actions
    (loaded deck, chosen sections and mode, queue, cursor, rating history and
    Easy count) and the transitions that load, start, rate and finish. */
module Session {
  import opened Deck
  import opened Schedule

  /** A session size preset; every preset is a positive number of cards. */
  type Size = n: nat | 0 < n witness 1

  /** A fixed session stops after `size` cards; an unlimited one has no size
      and keeps reinserting rated cards. */
  datatype Mode = Fixed(size: Size) | Unlimited

  /** One rating event of the history. */
  datatype Entry = Entry(id: CardId, rating: Rating)

  /** Why a session did not start. */
  datatype StartError = NoSectionsSelected | NotEnoughCards(requested: nat, available: nat)

  datatype Outcome = Started | Refused(error: StartError)

  /** The number of Easy ratings in a history. */
  function CountEasy(history: seq<Entry>): (n: nat)
    ensures n <= |history|
    ensures n == |history| <==> forall k :: 0 <= k < |history| ==> history[k].rating == Easy
  {
    if history == [] then 0
    else CountEasy(history[..|history| - 1]) + (if history[|history| - 1].rating == Easy then 1 else 0)
  }

  /** The initial queue drawn from a shuffled pool: its first `size` cards in
      a fixed session, the whole pool in an unlimited one. */
  function TakeSession(mode: Mode, shuffled: seq<Card>): (queue: seq<Card>)
    requires mode.Fixed? ==> mode.size <= |shuffled|
    ensures |queue| == if mode.Fixed? then mode.size else |shuffled|
    ensures forall k :: 0 <= k < |queue| ==> queue[k] == shuffled[k]
    ensures multiset(queue) <= multiset(shuffled)
    ensures mode.Unlimited? ==> multiset(queue) == multiset(shuffled)
  {
    if mode.Fixed? then
      assert shuffled == shuffled[..mode.size] + shuffled[mode.size..];
      shuffled[..mode.size]
    else shuffled
  }

  /** A queue drawn for a session from `pool`: `size` cards in a fixed
      session and as many as the pool in an unlimited one, never more copies
      of a card than the pool has, and in an unlimited session exactly the
      pool's cards. */
  ghost predicate DrawnFrom(mode: Mode, pool: seq<Card>, queue: seq<Card>)
  {
    && |queue| == (if mode.Fixed? then mode.size else |pool|)
    && multiset(queue) <= multiset(pool)
    && (mode.Unlimited? ==> multiset(queue) == multiset(pool))
  }

  /** A queue cut from any permutation of the pool is drawn from the pool. */
  lemma DrawnFromPool(mode: Mode, pool: seq<Card>, shuffled: seq<Card>)
    requires multiset(shuffled) == multiset(pool)
    requires mode.Fixed? ==> mode.size <= |pool|
    ensures mode.Fixed? ==> mode.size <= |shuffled|
    ensures DrawnFrom(mode, pool, TakeSession(mode, shuffled))
  {
    assert |shuffled| == |multiset(shuffled)| == |pool|;
  }

  /** The session is over once the cursor has run off the queue, or, in a
      fixed session, once it has reached the session size. */
  predicate Complete(mode: Mode, queueLength: nat, index: nat)
    ensures mode.Unlimited? ==> (Complete(mode, queueLength, index) <==> queueLength <= index)
    ensures mode.Fixed? && queueLength <= mode.size ==>
      (Complete(mode, queueLength, index) <==> queueLength <= index)
  {
    index >= queueLength || (mode.Fixed? && index >= mode.size)
  }

  /** As long as the cursor never passes the queue and a fixed queue never
      holds more than `size` cards, a session is complete exactly when the
      cursor stands at the end of the queue. */
  lemma CompleteIffExhausted(mode: Mode, queueLength: nat, index: nat)
    requires index <= queueLength
    requires mode.Fixed? ==> queueLength <= mode.size
    ensures Complete(mode, queueLength, index) <==> index == queueLength
  {
  }

  /** The number of cards the completion message counts against. */
  function Total(mode: Mode, history: seq<Entry>): (total: nat)
    ensures mode.Unlimited? ==> CountEasy(history) <= total
    ensures total == 0 <==> mode.Unlimited? && history == []
  {
    if mode.Unlimited? then |history| else mode.size
  }

  function Min(a: real, b: real): real
  {
    if a < b then a else b
  }

  /** The width of the progress bar, in percent. */
  function Progress(mode: Mode, index: nat): (percent: real)
    ensures 0.0 <= percent <= 100.0
    ensures mode.Unlimited? ==> percent == 100.0
    ensures mode.Fixed? ==> (percent == 100.0 <==> index >= mode.size)
  {
    if mode.Fixed? then Min(index as real / mode.size as real * 100.0, 100.0) else 100.0
  }

  /** The progress bar never shrinks as the cursor advances. */
  lemma ProgressMonotone(mode: Mode, i: nat, j: nat)
    requires i <= j
    ensures Progress(mode, i) <= Progress(mode, j)
  {
    if mode.Fixed? {
      var s := mode.size as real;
      assert i as real / s <= j as real / s;
    }
  }

  /** The session invariant: the cursor stays within the queue and has one
      history entry per card it passed, recording that card; the Easy count
      agrees with the history; every queued card comes from the pool; a fixed
      queue is empty (the start was refused) or holds `size` cards; an
      unlimited queue has grown by one card per rating. */
  ghost predicate Consistent(mode: Mode, pool: seq<Card>, queue: seq<Card>,
                             history: seq<Entry>, index: nat, easyCount: nat)
  {
    && index <= |queue|
    && |history| == index
    && (forall k :: 0 <= k < index ==> history[k].id == queue[k].id)
    && easyCount == CountEasy(history)
    && (forall k :: 0 <= k < |queue| ==> queue[k] in pool)
    && (mode.Fixed? ==> queue == [] || |queue| == mode.size)
    && (mode.Unlimited? ==> |queue| == |pool| + index)
  }

  /** A freshly drawn queue, with an empty history and zeroed counters, is
      consistent. */
  lemma FreshSessionConsistent(mode: Mode, pool: seq<Card>, queue: seq<Card>)
    requires DrawnFrom(mode, pool, queue) || (mode.Fixed? && queue == [])
    ensures Consistent(mode, pool, queue, [], 0, 0)
  {
    if DrawnFrom(mode, pool, queue) {
      forall k | 0 <= k < |queue| ensures queue[k] in pool {
        assert queue[k] in multiset(queue);
      }
    }
  }

  /** Rating the card under the cursor keeps the session consistent: the
      history records that card, the Easy count follows the rating, and a
      reinsertion at a positive interval in an unlimited session leaves the
      cards already passed in place and brings in no card foreign to the pool. */
  lemma RatingKeepsConsistent(mode: Mode, pool: seq<Card>, queue: seq<Card>,
                              history: seq<Entry>, index: nat, easyCount: nat,
                              rating: Rating, interval: nat, queue': seq<Card>)
    requires Consistent(mode, pool, queue, history, index, easyCount)
    requires index < |queue|
    requires mode.Fixed? ==> queue' == queue
    requires mode.Unlimited? ==> 1 <= interval && queue' == Reinsert(queue, index, interval, queue[index])
    ensures Consistent(mode, pool, queue', history + [Entry(queue[index].id, rating)], index + 1,
                       easyCount + if rating == Easy then 1 else 0)
  {
    var history' := history + [Entry(queue[index].id, rating)];
    assert history'[..|history'| - 1] == history;
    if mode.Unlimited? {
      ReinsertAfterCursor(queue, index, interval);
      forall k | 0 <= k < index + 1
        ensures history'[k].id == queue'[k].id
      {
        assert queue'[k] == queue'[..index + 1][k];
      }
      forall k | 0 <= k < |queue'| ensures queue'[k] in pool {
        var p := InsertionIndex(index, interval, |queue|);
        if k < p {
          assert queue'[k] == queue[k];
        } else if k == p {
          assert queue'[k] == queue[index];
        } else {
          assert queue'[k] == queue[k - 1];
        }
      }
    }
  }

  /** The app's state. */
  class Study {
    var deck: seq<Card>
    var sections: set<string>
    var selected: seq<string>
    var mode: Mode
    var queue: seq<Card>
    var history: seq<Entry>
    var index: nat
    var easyCount: nat
    /** The filtered pool the current queue was drawn from. */
    ghost var pool: seq<Card>

    /** The session invariant holds of the current state. */
    ghost predicate Valid()
      reads this`mode, this`queue, this`history, this`index, this`easyCount, this`pool
    {
      Consistent(mode, pool, queue, history, index, easyCount)
    }

    /** The state after the deck has been filtered, shuffled and cut by
        `Start`, reporting `outcome`. */
    ghost predicate Restarted(outcome: Outcome)
      reads this
    {
      && pool == Filter(deck, selected)
      && history == [] && index == 0 && easyCount == 0
      && if mode.Fixed? && |pool| < mode.size then
           outcome == Refused(NotEnoughCards(mode.size, |pool|)) && queue == []
         else
           outcome == Started && DrawnFrom(mode, pool, queue)
    }

    /** The state before any deck has loaded. */
    constructor ()
      ensures Valid()
      ensures deck == [] && sections == {} && selected == [] && mode == Fixed(15)
      ensures queue == [] && history == [] && index == 0 && easyCount == 0
    {
      deck := [];
      sections := {};
      selected := [];
      mode := Fixed(15);
      queue := [];
      history := [];
      index := 0;
      easyCount := 0;
      pool := [];
    }

    /** The loaded deck replaces the current one and its tags become the
        sections offered for selection. */
    method Load(cards: seq<Card>)
      modifies this`deck, this`sections
      ensures deck == cards
      ensures forall t :: t in sections <==> IsTagOf(t, cards)
    {
      deck := cards;
      sections := CollectTags(cards);
    }

    /** The home form: the checked sections are recorded; with none checked
        nothing else changes, otherwise the chosen mode is set and a session
        starts. */
    method Submit(chosen: seq<string>, choice: Mode) returns (outcome: Outcome)
      requires Valid()
      modifies this`selected, this`mode, this`queue, this`history, this`index, this`easyCount, this`pool
      ensures Valid()
      ensures selected == chosen
      ensures chosen == [] ==>
        && outcome == Refused(NoSectionsSelected)
        && mode == old(mode) && queue == old(queue) && history == old(history)
        && index == old(index) && easyCount == old(easyCount) && pool == old(pool)
      ensures chosen != [] ==> mode == choice && Restarted(outcome)
    {
      selected := chosen;
      if |chosen| == 0 {
        return Refused(NoSectionsSelected);
      }
      mode := choice;
      outcome := Start();
    }

    /** A new session over the cards matching the selected sections: the
        counters are reset first; a fixed session larger than the pool is
        refused with an empty queue; otherwise the queue is some shuffle of
        the pool, cut to the session size in a fixed session. */
    method Start() returns (outcome: Outcome)
      modifies this`queue, this`history, this`index, this`easyCount, this`pool
      ensures Valid()
      ensures Restarted(outcome)
    {
      // The filter reads none of the session fields, so resetting them
      // together with recording the pool is the same as resetting them first.
      var filtered := Filter(deck, selected);
      queue, history, index, easyCount, pool := [], [], 0, 0, filtered;
      if mode.Fixed? && |filtered| < mode.size {
        FreshSessionConsistent(mode, pool, queue);
        return Refused(NotEnoughCards(mode.size, |filtered|));
      }

      var shuffled :| multiset(shuffled) == multiset(filtered);
      DrawnFromPool(mode, filtered, shuffled);
      queue := TakeSession(mode, shuffled);
      outcome := Started;
      FreshSessionConsistent(mode, pool, queue);
    }

    /** Rating the card under the cursor: the rating is recorded against that
        card, Easy ratings are counted, an unlimited session puts the card back
        at a rating-dependent distance ahead (or at the end), and the cursor
        moves on by one. */
    method Rate(rating: Rating) returns (ghost interval: nat)
      requires Valid() && index < |queue|
      modifies this`queue, this`history, this`index, this`easyCount
      ensures Valid()
      ensures history == old(history) + [Entry(old(queue[index]).id, rating)]
      ensures easyCount == old(easyCount) + (if rating == Easy then 1 else 0)
      ensures index == old(index) + 1
      ensures mode.Fixed? ==> queue == old(queue)
      ensures mode.Unlimited? ==>
        && IntervalRange(rating).Contains(interval)
        && queue == Reinsert(old(queue), old(index), interval, old(queue[index]))
    {
      // The new history, count and queue are computed first and stored
      // together; nothing reads the fields between the source's updates.
      var card := queue[index];
      var entries := history + [Entry(card.id, rating)];
      var easy := easyCount;
      if rating == Easy {
        easy := easy + 1;
      }

      var spliced := queue;
      interval := 0;
      if mode.Unlimited? {
        var range := IntervalRange(rating);
        var drawn := RandomInt(range.lo, range.hi);
        interval := drawn;
        if index + drawn < |spliced| {
          spliced := Splice(spliced, index + drawn, card);
        } else {
          spliced := spliced + [card];
        }
        assert spliced == Reinsert(queue, index, interval, card);
      }

      RatingKeepsConsistent(mode, pool, queue, history, index, easyCount, rating, interval, spliced);
      queue, history, index, easyCount := spliced, entries, index + 1, easy;
    }

    /** The completion test run before each card is shown: under the
        invariant the session is over exactly when the cursor has reached the
        end of the queue, whatever the mode. */
    method IsComplete() returns (done: bool)
      requires Valid()
      ensures done <==> index == |queue|
    {
      done := Complete(mode, |queue|, index);
      CompleteIffExhausted(mode, |queue|, index);
    }

    /** The completion message: how many cards were rated Easy out of the
        session total. The count never exceeds the total, and once a started
        session is complete the total is the number of ratings made. */
    method Finish() returns (easy: nat, total: nat)
      requires Valid()
      ensures easy == CountEasy(history)
      ensures total == Total(mode, history)
      ensures easy <= total
      ensures queue != [] && Complete(mode, |queue|, index) ==> total == |history|
    {
      easy := easyCount;
      total := Total(mode, history);
    }
  }
}
