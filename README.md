# Flashcard study sessions, modelled in Dafny

A model of the session-queue manager of a browser flashcard app. The app loads a deck of tagged question/answer cards. The user picks sections and a session size, either a fixed number of cards or unlimited. The app builds a shuffled queue of the matching cards and walks a cursor along it while the user rates each card Hard, Medium or Easy. In an unlimited session a rated card goes back into the queue: Hard cards come back 10 to 15 places ahead, Medium cards 25 to 30 places ahead and Easy cards 45 to 50 places ahead, or at the end of the queue when that is closer. At the end, a message says how many cards were rated Easy out of the session total.

- `deck.dfy`, module `Deck`: defines the card, the section filter and the union of all card tags. The home screen offers that union as the list of sections.
- `schedule.dfy`, module `Schedule`: defines the ratings, the interval range of each rating, the random draw from a range and the reinsertion splice.
- `session.dfy`, module `Session`: defines the class `Study`. Its fields are the app's module-level state: deck, sections, selection, mode, queue, history, cursor and Easy count. Its methods are the transitions: load, submit, start, rate and finish. The module also holds the pure completion test, the summary total and the progress percentage.

Randomness is modelled as a free choice, so every possible outcome is covered:
- the shuffle yields any permutation of the matching cards;
- an interval is any integer of its rating's range.

The class keeps an invariant, `Valid` (the value-level predicate `Consistent`):
- the cursor never passes the end of the queue;
- there is one history entry per card the cursor has passed, holding that card's id;
- the Easy count equals the number of Easy entries in the history;
- every queued card comes from the pool that matched the selection at the last start;
- a fixed queue is either empty (the start was refused) or holds exactly `size` cards;
- an unlimited queue is longer than the pool by the number of ratings made.

Two postconditions add the multiset facts. `Start` states that a fixed queue is a sub-multiset of the pool and an unlimited queue a permutation of it. `Rate` states that an unlimited queue gains exactly one copy of the rated card per rating.

A refused start still clears the previous session. The code resets the queue, the history and both counters (app.js:76-79) before it checks the pool size, so the model does the same.

## Model

| member | source | states |
|---|---|---|
| `Deck.MatchesIffTagsMeetSelection` | app.js:82 | A card belongs to the selection exactly when its set of tags and the set of selected sections have a tag in common. |
| `Deck.AnySelected` | app.js:82 | The `some` scan over a card's tags, testing each against the selection with `includes`, finds a tag exactly when some tag of the card is selected. |
| `Deck.Filter` | app.js:82 | The filter keeps a card when the scan finds a selected tag. The pool holds exactly the deck cards that have at least one selected tag. Each such card appears as often as in the deck, and no other card appears. |
| `Deck.CollectTags` | app.js:40-43 | The collected section set holds exactly the tags carried by some card of the deck. |
| `Schedule.IntervalRange` | app.js:150-153 | Every rating's interval range is non-empty, and its smallest interval is at least 1, so a reinsertion always lands after the cursor. |
| `Schedule.IntervalsOrdered` | app.js:151-153 | Hard's range lies wholly below Medium's, and Medium's wholly below the range of every other rating (Easy). |
| `Schedule.RandomInt` | app.js:217-219 | The drawn integer lies in the inclusive range [min, max]. |
| `Schedule.InsertionIndex` | app.js:155-159 | The reinsertion point is `cursor + interval` when that is an index of the queue, and the queue's end otherwise. It never lies past the end. |
| `Schedule.Splice` | app.js:156 | Inserting a card at a position of the queue makes it one longer. The card sits at that position, nothing before it moves, everything from it on shifts up by one, and the multiset of cards gains one copy of the card. |
| `Schedule.Reinsert` | app.js:155-159 | Splicing the card in (or pushing it at the end) makes the queue exactly one longer. Nothing before the insertion point moves, the card sits at the insertion point and the rest shifts up by one. The multiset of cards gains exactly one copy of the card. |
| `Schedule.ReinsertAfterCursor` | app.js:148-159 | Reinserting the card under the cursor with a positive interval keeps every card up to the cursor in place, and the card appears again strictly after the cursor. |
| `Session.CountEasy` | app.js:146 | The number of Easy ratings never exceeds the number of ratings. It equals that number exactly when every rating is Easy. |
| `Session.TakeSession` | app.js:90-95 | A fixed queue is the first `size` cards of the shuffle, and an unlimited queue is the whole shuffle. Either way the queue is a sub-multiset of the shuffle, and in unlimited mode it equals the shuffle as a multiset. |
| `Session.DrawnFromPool` | app.js:88-95 | A queue cut from any permutation of the pool has `size` cards (fixed) or as many cards as the pool (unlimited). It is a sub-multiset of the pool, and in unlimited mode it is a permutation of the pool. |
| `Session.FreshSessionConsistent` | app.js:76-95 | A queue drawn from the pool, or the empty queue of a refused fixed start, satisfies the session invariant once history and counters are reset. |
| `Session.RatingKeepsConsistent` | app.js:142-163 | One rating keeps the session invariant. The new history entry matches the card under the cursor, the Easy count follows the rating, and in unlimited mode the reinsertion at a positive interval moves no card already passed and adds no card from outside the pool. |
| `Session.Complete` | app.js:118 | The session is over once the cursor has run off the queue, or a fixed session has reached its size. In unlimited mode only the end of the queue counts. In fixed mode, when the queue is no longer than the size, the size clause adds nothing. |
| `Session.CompleteIffExhausted` | app.js:118 | Given the session invariant, the completion test holds exactly when the cursor is at the end of the queue, in both modes. |
| `Session.Total` | app.js:184 | The summary total is the number of ratings (unlimited) or the session size (fixed). It is 0 only for an unlimited session with no ratings, and in unlimited mode it is never below the Easy count. |
| `Session.Progress` | app.js:170-176 | The percentage lies in [0, 100]. It is always 100 in unlimited mode. In fixed mode it is 100 exactly when the cursor has reached the session size. |
| `Session.ProgressMonotone` | app.js:172 | The percentage never decreases as the cursor advances. |
| `Session.Study.constructor` | app.js:20-28 | The initial state is an empty deck, no sections, a fixed session of 15, an empty queue and history, and both counters at 0. |
| `Session.Study.Load` | app.js:33-43 | Loading stores the deck and sets the offered sections to the union of its tags. |
| `Session.Study.Submit` | app.js:53-72 | The checked sections are always recorded. With none checked the submit is refused with `NoSectionsSelected`, and mode and session are unchanged. Otherwise the chosen mode is set and a session starts as `Start` describes. |
| `Session.Study.Start` | app.js:75-95 | History, cursor and Easy count are reset. The start is refused with `NotEnoughCards(size, available)` and an empty queue exactly when the mode is fixed and fewer cards match than the size. Otherwise it succeeds: a fixed queue has `size` cards and is a sub-multiset of the matching pool, and an unlimited queue is a permutation of that pool. The invariant holds afterwards. |
| `Session.Study.Rate` | app.js:142-163 | The history gains exactly one entry: the id of the card under the cursor, with the rating. The Easy count grows by one exactly when the rating is Easy. The cursor advances by exactly one. A fixed queue is unchanged. An unlimited queue equals `Reinsert` of the rated card at the drawn interval, which is returned as a ghost result and lies in the rating's range. The invariant holds afterwards. |
| `Session.Study.IsComplete` | app.js:118 | Under the session invariant, the completion test before each card holds exactly when the cursor stands at the end of the queue, in both modes. |
| `Session.Study.Finish` | app.js:180-185 | The message reports the number of Easy entries in the history. The total is the number of ratings (unlimited) or the session size (fixed). The Easy count never exceeds the total, and once a started session is complete the total equals the number of ratings made. |

## Left out

- DOM rendering, screen switching, card flipping and button wiring are not modelled. They contain no session logic. The restart button only changes screens. The end-session button only calls `finishSession`, which is `Study.Finish`, callable in any state.
- Fetching the deck is not modelled. `Study.Load` receives the parsed deck as a value. A failed load just leaves the deck empty.
- Persistence to `localStorage` (`saveProgress` and the removal in `finishSession`) is not modelled. It is a side-effecting snapshot of the state.
- `alert` messages are not modelled as output. They become the `Refused` outcomes of `Submit` and `Start`.
- `Math.random` is not modelled. The biased comparator sort becomes a free choice of any permutation, and `getRandomInt` becomes a free choice of any integer in its range. The model says nothing about the distribution of either.
- `parseInt` of the form value and the `Infinity` size sentinel are not modelled. The mode is the datatype `Mode`, where a fixed size is a positive preset and unlimited has no size.
- Floating-point percentages and the CSS width string are not modelled. `Progress` computes the exact percentage as a `real`.
- Session.Mode: a fixed size of 0 cannot be represented, because every size preset is positive. In JavaScript such a size would make the progress `0/0`, which is `NaN`.
- Schedule.Rating: ratings are the three button values. Any other `data-rating` string would take the Easy interval range, as the final `else` branch of the source does, but no button produces one.
- Schedule.RandomInt: it requires `min <= max`. Every call in the source passes constant ranges that satisfy this.
- Session.Study.Rate: it requires a card under the cursor (`index < |queue|`). The source reads that card without a check, and the rating buttons are visible only while a card is shown.
- The redundant fixed-size clause of the completion test is kept as written. `CompleteIffExhausted` shows that, under the invariant, the cursor reaching the end of the queue already decides completion.
