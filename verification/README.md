# Data-structure exercises, modelled in Dafny

This project models a set of small C# data-structure exercises and proves
properties of them:

- a doubly linked list of integers (`week04/code/LinkedList.cs`): a class
  whose nodes are linked both ways, with head and tail references rewired in
  place;
- a priority queue (`week02/code/PriorityQueue.cs`): a list of (value,
  priority) items. Dequeue scans for the first item of highest priority and
  removes it;
- a first-in first-out person queue (`week02/code/PersonQueue.cs`) and the
  circular turn-taking queue built on it (`week02/code/TakingTurnsQueue.cs`);
- a maze walker (`week03/code/Maze.cs`): a position that moves one cell at a
  time through a read-only map of open directions;
- three string helpers (`week03/code/SetsAndMaps.cs`): symmetric two-letter
  pairs (`FindPairs`), a character histogram (`BuildCharFrequency`) and an
  anagram test (`IsAnagram`).

The C# exceptions become values (`Exceptions.Result`, `Exceptions.Outcome`),
defined in `Exceptions.dfy`:

- `InvalidOperation(message)` for `InvalidOperationException`;
- `KeyNotFound` for a missing dictionary key;
- `IndexOutOfRange` for an array or string index past the end.

Every method that can throw returns the exception instead and leaves the
state as the C# code leaves it.

Mutable objects stay classes. The linked list keeps its nodes, and it carries
ghost `Nodes`/`Contents` sequences tied together by `Valid()`. The queues
keep their backing list as a `seq` field. The turn-taking queue shares
`Person` objects with its callers. The maze keeps its coordinates as fields.
Each operation on these classes is proved against a function or a sequence
expression on values (`ListSpec.dfy`, `PriorityQueues.FirstMaxIndex`, `TakingTurns.NextTurn`,
`Mazes.Step`, `SetsAndMaps.Frequencies`, `SetsAndMaps.Pairs`). The lemmas
about those functions carry the properties the exercises promise.

## Model

| member | source | states |
|---|---|---|
| LinkedLists.LinkedList.constructor | week04/code/LinkedList.cs:6-7 | a new list is empty and satisfies the list invariant (head and tail null together, links consistent both ways) |
| LinkedLists.LinkedList.DistinctNodes | week04/code/LinkedList.cs:6-7 | in a valid list no node occurs at two positions, so rewiring one node touches one place |
| LinkedLists.LinkedList.InsertHead | week04/code/LinkedList.cs:12-26 | the contents become `[value] + old`; the new node is fresh and heads the old nodes; an empty list becomes one node that is both head and tail |
| LinkedLists.LinkedList.InsertTail | week04/code/LinkedList.cs:31-48 | the contents become `old + [value]`, with a fresh node after the old ones; an empty list becomes one node that is both head and tail |
| LinkedLists.LinkedList.InsertAfter | week04/code/LinkedList.cs:53-80 | the contents become `InsertAfterFirst(old, value, newValue)`: inserted right after the first match only, unchanged when there is none |
| LinkedLists.LinkedList.RemoveHead | week04/code/LinkedList.cs:86-98 | drops the first value and node; no-op on an empty list; a list of at most one node ends with head and tail null |
| LinkedLists.LinkedList.RemoveTail | week04/code/LinkedList.cs:103-116 | drops the last value and node; no-op on an empty list; a list of at most one node ends with head and tail null |
| LinkedLists.LinkedList.Remove | week04/code/LinkedList.cs:121-148 | the contents become `RemoveFirst(old, value)`: exactly the first match goes, everything else stays in order |
| LinkedLists.LinkedList.Replace | week04/code/LinkedList.cs:153-166 | the contents become `ReplaceAll(old, oldValue, newValue)`; the same nodes, head and tail (no link changes) |
| LinkedLists.LinkedList.Forward | week04/code/LinkedList.cs:179-187 | walking `next` from the head yields exactly the contents |
| LinkedLists.LinkedList.Backward | week04/code/LinkedList.cs:192-201 | walking `prev` from the tail yields exactly the reversed contents |
| LinkedLists.LinkedList.ToString | week04/code/LinkedList.cs:203-206 | the text is `<LinkedList>{`, the values joined by `, `, then `}` |
| LinkedLists.LinkedList.HeadAndTailAreNull | week04/code/LinkedList.cs:209-212 | true exactly when the list is empty |
| LinkedLists.LinkedList.HeadAndTailAreNotNull | week04/code/LinkedList.cs:215-218 | true exactly when the list is non-empty, and always the negation of HeadAndTailAreNull |
| LinkedLists.EditExample | week04/code/LinkedList.cs:31-166 | tail inserts of 1, 2, 3, insert 99 after 2, remove 1, replace 99 by 7 give 2, 7, 3 |
| LinkedLists.WalkExample | week04/code/LinkedList.cs:86-218 | from 2, 7, 3, removing the tail leaves 2, 7 forwards and 7, 2 backwards; removing the head empties the list, and once more is a no-op |
| ListSpec.InsertAfterFirstAt | week04/code/LinkedList.cs:57-75 | when the first match is at k, the new value lands at k + 1 and nothing else moves |
| ListSpec.InsertAfterFirstAbsent | week04/code/LinkedList.cs:57-79 | with no match the sequence is unchanged |
| ListSpec.InsertAfterLastIsAppend | week04/code/LinkedList.cs:61-65 | when the first match is the last element, inserting after it is appending (the InsertTail branch) |
| ListSpec.RemoveFirstAt | week04/code/LinkedList.cs:125-143 | when the first match is at k, removal takes out position k only |
| ListSpec.RemoveFirstAbsent | week04/code/LinkedList.cs:125-147 | with no match the sequence is unchanged |
| ListSpec.RemoveFirstMultiset | week04/code/LinkedList.cs:121-148 | a present value loses exactly one copy and the length drops by one; an absent value leaves the sequence alone |
| ListSpec.RemoveUndoesInsertAfter | week04/code/LinkedList.cs:53-148 | removing a fresh value just inserted after a target gives back the original sequence |
| ListSpec.FirstIndexOf | week04/code/LinkedList.cs:57-59 | the index reached by a forward scan for a present value is its first occurrence |
| ListSpec.ReplaceAllAt | week04/code/LinkedList.cs:153-166 | the length is kept; each position holding the old value now holds the new one, every other position keeps its value |
| ListSpec.ReplaceAllLeavesNoOld | week04/code/LinkedList.cs:153-166 | when the values differ, no occurrence of the old value survives |
| ListSpec.ReversedAt | week04/code/LinkedList.cs:192-201 | the reversal has the same length and position k holds element n - 1 - k |
| ListSpec.ReversedTwice | week04/code/LinkedList.cs:179-201 | reversing twice gives the original: the backward walk reversed is the forward walk |
| Text.IntToStringRoundTrip | week04/code/LinkedList.cs:205 | the decimal text of an integer is a numeral that parses back to it |
| Text.IntToStringInjective | week03/code/Maze.cs:91 | different integers have different decimal texts |
| Text.IntToStringNoSeparator | week03/code/Maze.cs:91 | a decimal text contains no comma and no space |
| Text.JoinIntsAppend | week04/code/LinkedList.cs:205 | joining one more value appends `, ` and its text |
| PriorityQueues.PriorityQueue.constructor | week02/code/PriorityQueue.cs:12 | a new queue is empty |
| PriorityQueues.PriorityQueue.Enqueue | week02/code/PriorityQueue.cs:19-23 | the item is appended at the back and the count grows by one |
| PriorityQueues.PriorityQueue.Dequeue | week02/code/PriorityQueue.cs:31-53 | empty: fails with "The queue is empty." and nothing changes; otherwise it returns the value at the first index of highest priority and removes exactly that item |
| PriorityQueues.FirstMaxIndex | week02/code/PriorityQueue.cs:38-48 | the index found has a priority at least every item's, and every earlier item has a strictly lower one (FIFO among ties) |
| PriorityQueues.FirstMaxIndexUnique | week02/code/PriorityQueue.cs:43-47 | any index with those two properties is the one the scan finds |
| PriorityQueues.RemoveAt | week02/code/PriorityQueue.cs:51 | removal keeps the items before k and shifts the ones after it down by one |
| PriorityQueues.RemoveAtMultiset | week02/code/PriorityQueue.cs:50-51 | removal takes out exactly the chosen item |
| PriorityQueues.DrainItemsPermutes | week02/code/PriorityQueue.cs:4-8 | repeated dequeues return exactly the enqueued items |
| PriorityQueues.DrainItemsBounded | week02/code/PriorityQueue.cs:7 | no dequeued item exceeds a bound that all queued items respect |
| PriorityQueues.DrainItemsOrdered | week02/code/PriorityQueue.cs:7 | successive dequeues come out in non-increasing priority |
| PriorityQueues.WithPriorityRemoveAt | week02/code/PriorityQueue.cs:41-51 | removing the first item of its priority keeps the order of every priority class and takes the head of its own |
| PriorityQueues.DrainItemsStable | week02/code/PriorityQueue.cs:8 | within each priority, items come out in enqueue order |
| PriorityQueues.DequeueIsDrainHead | week02/code/PriorityQueue.cs:31-53 | one dequeue takes the head of the drain order, and the rest is the drain order of what remains |
| PriorityQueues.DequeueExample | week02/code/PriorityQueue_Tests.cs:38-69 | A1, B5, C5, D3 dequeue as B, C, D, A; one more dequeue fails with "The queue is empty." |
| PriorityQueues.DequeueFirstTwo | week02/code/PriorityQueue_Tests.cs:46-47 | from A1, B5, C5, D3, two dequeues give B then C and leave A1, D3 |
| PriorityQueues.DequeueLastTwo | week02/code/PriorityQueue_Tests.cs:48-49 | from A1, D3, dequeues give D, then A, then the empty-queue failure |
| PersonQueues.PersonQueue.constructor | week02/code/PersonQueue.cs:6 | a new queue is empty |
| PersonQueues.PersonQueue.Enqueue | week02/code/PersonQueue.cs:17-20 | the person is appended at the back and Length grows by one |
| PersonQueues.PersonQueue.Dequeue | week02/code/PersonQueue.cs:26-36 | empty: fails with "Cannot dequeue from an empty queue." and nothing changes; otherwise returns the front person and leaves the rest in order, Length one less |
| PersonQueues.PersonQueue.IsEmpty | week02/code/PersonQueue.cs:42-45 | true exactly when Length is 0 |
| PersonQueues.FifoExample | week02/code/PersonQueue.cs:1-36 | two people enqueued come out in the same order, then the empty-queue failure |
| TakingTurns.NextTurn | week02/code/TakingTurnsQueue.cs:44-58 | the front person takes the turn: more than one turn left goes to the back with one fewer (length kept); exactly one leaves with 0 (length drops); zero or less goes to the back unchanged |
| TakingTurns.DistinctRotate | week02/code/TakingTurnsQueue.cs:42-58 | sending the front person to the back, or taking them out, keeps every person object queued at most once |
| TakingTurns.TakingTurnsQueue.constructor | week02/code/TakingTurnsQueue.cs:10 | a new queue is empty |
| TakingTurns.TakingTurnsQueue.AddPerson | week02/code/TakingTurnsQueue.cs:22-26 | a new person with the given name and turns joins at the back, behind the same person objects as before; Length grows by one |
| TakingTurns.TakingTurnsQueue.GiveTurn | week02/code/TakingTurnsQueue.cs:44-58 | the dequeued person's count and the line after it follow NextTurn; with exactly one turn left the queue of person objects is unchanged, otherwise that same object is appended |
| TakingTurns.TakingTurnsQueue.GetNextPerson | week02/code/TakingTurnsQueue.cs:35-61 | empty: fails with "No one in the queue."; otherwise returns the person object that was at the front, with count and line as NextTurn gives them; that same object goes to the back unless it had exactly one turn left, in which case it leaves |
| TakingTurns.NextTurnUsesOne | week02/code/TakingTurnsQueue.cs:44-53 | with only finite counts, a turn uses up exactly one turn of the total |
| TakingTurns.RunEmptiesAfterTotal | week02/code/TakingTurnsQueue.cs:44-53 | with only finite counts the queue empties after exactly as many turns as the counts add up to |
| TakingTurns.AloneForever | week02/code/TakingTurnsQueue.cs:54-58 | a person with unlimited turns who is alone takes every turn and keeps their count |
| TakingTurns.RunCompose | week02/code/TakingTurnsQueue_Tests.cs:62-82 | m turns then k more are m + k turns, the names concatenated |
| TakingTurns.RoundRobinOpening | week02/code/TakingTurnsQueue_Tests.cs:62-67 | Bob(2), Tim(5), Sue(3): the first five turns are Bob, Tim, Sue, Bob, Tim and leave Sue(2), Tim(3) |
| TakingTurns.RoundRobinEnding | week02/code/TakingTurnsQueue_Tests.cs:21 | Sue(2), Tim(3) take turns Sue, Tim, Sue, Tim, Tim and then nobody is left |
| TakingTurns.RoundRobinExample | week02/code/TakingTurnsQueue_Tests.cs:15-40 | Bob(2), Tim(5), Sue(3) take turns Bob, Tim, Sue, Bob, Tim, Sue, Tim, Sue, Tim, Tim and then nobody is left |
| TakingTurns.MidwayEnding | week02/code/TakingTurnsQueue_Tests.cs:55 | Tim(2), George(2) alternate and then nobody is left |
| TakingTurns.MidwayAfterJoin | week02/code/TakingTurnsQueue_Tests.cs:69-82 | Sue(2), Tim(3), George(3) take turns Sue, Tim, George, Sue, Tim, George, Tim, George |
| TakingTurns.AddPlayerMidwayExample | week02/code/TakingTurnsQueue_Tests.cs:48-83 | five turns, then George(3) joins at the back, then the rest of the expected order until nobody is left |
| TakingTurns.AlternateWithUnlimited | week02/code/TakingTurnsQueue_Tests.cs:127 | a person with unlimited turns and Sue(2) alternate until Sue is done; the unlimited person stays, unchanged |
| TakingTurns.ForeverNegativeExample | week02/code/TakingTurnsQueue_Tests.cs:120-141 | Tim(-3), Sue(3) take the expected ten turns; Tim stays with count -3 |
| TakingTurns.ForeverZeroExample | week02/code/TakingTurnsQueue_Tests.cs:89-113 | Bob(2), Tim(0), Sue(3) take the expected ten turns; Tim stays with count 0 |
| Mazes.Step | week03/code/Maze.cs:31-84 | a move succeeds exactly when the cell is mapped and its flag for the direction is set, reaching an adjacent cell; a missing cell, a short flag array and a wall ("Can't go that way!") each give their own failure |
| Mazes.StepBack | week03/code/Maze.cs:31-84 | when the way back is open, moving back returns to the starting cell |
| Mazes.StatusTextShape | week03/code/Maze.cs:91 | the status line is "Current location (x=", the x numeral, ", y=", the y numeral, ")" |
| Mazes.StatusTextInjective | week03/code/Maze.cs:89-92 | two positions with the same status line are the same position |
| Mazes.Maze.constructor | week03/code/Maze.cs:17-24 | a new maze holds the given map and starts at (1, 1) |
| Mazes.Maze.MoveLeft | week03/code/Maze.cs:31-39 | the outcome is Step with Left; on success x drops by one and y stays; on failure the position is unchanged |
| Mazes.Maze.MoveRight | week03/code/Maze.cs:46-54 | the outcome is Step with Right; on success x grows by one and y stays; on failure the position is unchanged |
| Mazes.Maze.MoveUp | week03/code/Maze.cs:61-69 | the outcome is Step with Up; on success y drops by one and x stays; on failure the position is unchanged |
| Mazes.Maze.MoveDown | week03/code/Maze.cs:76-84 | the outcome is Step with Down; on success y grows by one and x stays; on failure the position is unchanged |
| Mazes.Maze.GetStatus | week03/code/Maze.cs:89-92 | the status line is StatusText of the current position, which names that position and no other |
| Mazes.StatusTextNames | week03/code/Maze.cs:89-92 | no other position shares the status line of (x, y) |
| Mazes.WalkExample | week03/code/Maze.cs:21-54 | along a corridor: right succeeds, up hits a wall, right succeeds onto an unmapped cell, and the next move fails on the lookup |
| SetsAndMaps.PairPositions | week03/code/SetsAndMaps.cs:19-32 | every reported position completes a pair with an earlier word, and positions come in input order |
| SetsAndMaps.PairPositionsComplete | week03/code/SetsAndMaps.cs:26-31 | every position that completes a pair is reported |
| SetsAndMaps.Pairs | week03/code/SetsAndMaps.cs:14-35 | the entries are the pair texts of the reported positions, in order |
| SetsAndMaps.SeenReverse | week03/code/SetsAndMaps.cs:24-31 | the reverse is in the seen-set exactly when the word completes a pair |
| SetsAndMaps.FindPairs | week03/code/SetsAndMaps.cs:14-35 | fails with an index error exactly when some word reached has fewer than two letters; otherwise returns Pairs of the input |
| SetsAndMaps.PairsNeverSameLetters | week03/code/SetsAndMaps.cs:12-22 | no reported word has equal first two letters |
| SetsAndMaps.PairsComplete | week03/code/SetsAndMaps.cs:10-12 | every word whose first two letters differ and whose two-letter reverse appeared earlier is reported |
| SetsAndMaps.PairsExample | week03/code/SetsAndMaps.cs:10-35 | for xy, xz, xx, yx the only entry is "yx & xy" |
| SetsAndMaps.FindPairsExample | week03/code/SetsAndMaps.cs:10-35 | FindPairs on xy, xz, xx, yx returns just "yx & xy" |
| SetsAndMaps.WithoutSpaces | week03/code/SetsAndMaps.cs:88 | the result has no spaces and is no longer than the input |
| SetsAndMaps.FrequenciesCount | week03/code/SetsAndMaps.cs:83-95 | the histogram's keys are exactly the non-space characters, each mapped to its number of occurrences |
| SetsAndMaps.FrequenciesEqual | week03/code/SetsAndMaps.cs:83-95 | two histograms are equal exactly when the non-space characters agree as multisets |
| SetsAndMaps.BuildCharFrequency | week03/code/SetsAndMaps.cs:83-95 | the loop builds the histogram of the lower-cased word |
| SetsAndMaps.SameCountsIsEquality | week03/code/SetsAndMaps.cs:76 | equal counts and no pair of one map missing from the other is map equality |
| SetsAndMaps.IsAnagram | week03/code/SetsAndMaps.cs:71-77 | true exactly when the lower-cased, space-free words are permutations of each other |
| SetsAndMaps.WithoutSpacesKeeps | week03/code/SetsAndMaps.cs:88 | dropping spaces keeps every other character exactly as often as it occurs |
| SetsAndMaps.WithoutSpacesLength | week03/code/SetsAndMaps.cs:88 | dropping spaces shortens a word by its number of spaces |
| SetsAndMaps.FrequenciesTotal | week03/code/SetsAndMaps.cs:83-95 | the counts add up to the number of non-space characters |
| SetsAndMaps.FoldedIgnoresCase | week03/code/SetsAndMaps.cs:69 | upper-casing a word does not change what is compared |
| SetsAndMaps.WithoutSpacesAroundSpace | week03/code/SetsAndMaps.cs:88 | a space between two parts is dropped |
| SetsAndMaps.FoldedIgnoresSpace | week03/code/SetsAndMaps.cs:69 | removing a space does not change what is compared |
| SetsAndMaps.AnagramsProperties | week03/code/SetsAndMaps.cs:68-77 | the anagram relation is symmetric, and insensitive to letter case and spaces |

## Left out

- Laziness of `GetEnumerator` and `Reverse` (`yield return`): the traversals
  return the whole sequence of values (`Forward`, `Backward`). Changing the
  list during a traversal in progress is not modelled.
- The non-generic enumerator bridge (week04/code/LinkedList.cs:171-174) and
  `IntArrayExtensionMethods.AsString`: display and interface plumbing only.
- `ToString` of `PriorityQueue`, `PriorityItem`, `PersonQueue` and
  `TakingTurnsQueue`: they format objects whose own `ToString` is not part of
  this model.
- `Person` and `Node` source files are not part of this model. `Person` is
  modelled from its use (a name and a mutable turn count), and `Node` from
  its use in the list (data, next, previous).
- `SetsAndMaps.SummarizeDegrees` (file input) and
  `SetsAndMaps.EarthquakeDailySummary` (network, JSON, floating-point
  formatting).
- `week01/code/Arrays.cs`: `MultiplesOf` is floating-point arithmetic and
  `RotateListRight` has an empty body.
- Text.IntToString: integers render as in the invariant culture, with '-'
  as the sign. C# uses the current culture's negative sign, so under some
  cultures a negative value renders differently (for example with U+2212).
  This affects LinkedLists.LinkedList.ToString and Mazes.Maze.GetStatus.
- SetsAndMaps.ToLower: models culture-sensitive lower-casing as ASCII
  lower-casing only; other letters are unchanged.
- Mazes.Maze.constructor: the C# maze keeps a reference to the caller's
  dictionary, which the caller could still change; the model copies the map
  as an immutable value.
- Mazes.Maze.MoveLeft: coordinates are unbounded integers; 32-bit
  wrap-around of x at the low end of the `int` range is not modelled.
- Mazes.Maze.MoveRight: coordinates are unbounded integers; 32-bit
  wrap-around of x at the high end of the `int` range is not modelled.
- Mazes.Maze.MoveUp: coordinates are unbounded integers; 32-bit wrap-around
  of y at the low end of the `int` range is not modelled.
- Mazes.Maze.MoveDown: coordinates are unbounded integers; 32-bit
  wrap-around of y at the high end of the `int` range is not modelled.
- SetsAndMaps.FindPairs: strings are sequences of Unicode scalar values, not
  of UTF-16 code units. A word made of one character outside the Basic
  Multilingual Plane has length 2 in C#, whose two surrogate halves are
  compared and reversed. Here it has length 1 and fails with an index error.
- SetsAndMaps.BuildCharFrequency: for the same reason, a character outside
  the Basic Multilingual Plane is one key here. C# counts its two surrogate
  halves as two keys. IsAnagram inherits this difference.
- SetsAndMaps.BuildCharFrequency: counts are unbounded integers; a 32-bit
  overflow would need more than two billion copies of one character.
- PersonQueues.PersonQueue.Length and TakingTurns.TakingTurnsQueue.Length
  are plain count functions. Their meaning is stated by the Enqueue, Dequeue
  and AddPerson contracts rather than by their own ensures.
- SetsAndMaps.FrequenciesTotal: the sum of the counts is taken over a
  sequence that lists each key of the histogram once. There is no built-in
  sum over a map's values.
- TakingTurns.RoundRobinExample: like the other scenario lemmas, it is
  stated on the value-level line (`Run`, `Yields`), which GetNextPerson is
  proved to follow, rather than by calling the method repeatedly.
