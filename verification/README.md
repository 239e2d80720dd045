# Verified models of gpcl

gpcl is a C++ utility library. This project models, in Dafny 4.11, those parts of it whose
correctness is not evident from one function body, and proves what they promise, for all
inputs, all runs or all reachable states. Where the code does not keep a promise, the model
does what the code does, and the contract says exactly when the promise is kept.

`dafny verify dfyconfig.toml` checks the whole project.

| files | part of gpcl |
|---|---|
| `Basics` | what several of the models share |
| `Rings`, `StableSort`, `List` | `list`: circular doubly linked list with a sentinel, as heap objects |
| `JsonValues`, `JsonText`, `JsonParser`, `JsonBuilder`, `JsonLexing`, `JsonRoundTrip`, `JsonLayouts`, `JsonStrict` | JSON serializer, push parser and value builder |
| `Cow`, `CowPaths`, `CowRefs`, `CowSession` | JSON values with copy-on-write sharing |
| `RefCounts` | the reference counts under `shared_ptr` and `weak_ptr` |
| `FutexWait` | atomic wait and notify through a proxy futex word |
| `Storage`, `PoolBooks`, `Pool` | segregated storage in raw memory, and the pool on top of it |
| `Dynarray` | growing array over raw cells, with throwing constructors and allocators |
| `IntrusiveList` | any number of intrusive lists over one pool of nodes |
| `Split` | `split` and `split_old` |
| `FlatBuffer` | byte queue in one block |
| `Duration` | 64-bit durations |

How to read the models:

- An iterator of `list` is a node and its ghost position in the ghost sequence `ring`, the
  nodes in order with the sentinel first; `Valid` ties `ring` to the `prev`/`next` pointers.
- Exceptions are results or parameters. `failAt` and `luck` say how many element
  constructions return before one throws, `memory` and `given` what an allocator answers.
  A failed `GPCL_ASSERT` counts as an exception, since it is active in every build.
- The two concurrent protocols are state machines whose actions are single atomic accesses
  under sequential consistency. A run is any interleaving, with any number of threads.
- Raw memory is a map from addresses to words. The ghost `books` of a pool say for every
  chunk whether it is free, part of an array in use, or lost.
- Two readings of RFC 8259 stand beside the library's parser and serializer: `JsonLayouts` says
  which texts stand for a value, whatever their spacing and order of members, and `JsonStrict`
  is a reader of its own for what is written.
- The JSON parser, builder and serializer exist twice: as functions (`Run`, `Build`, `Text`)
  that the theorems are about, and as classes with the loops and the mutable state of the
  source, whose contracts equate them with the functions.

What does not hold of the code, with the exact condition:

- `list::splice` leaves no valid list in two cases: an empty range, unless it lies directly
  at `pos` in the same list, and a range of the same list that holds `pos`, as in
  `splice(it, self, it)` (`Lists.List.Splice`). `list::swap` works exactly when both lists have
  elements (`Lists.List.Swap`), and so the move constructor and move assignment exactly when
  the list they move from has elements (`Lists.List.MoveFrom`, `Lists.List.MoveAssign`).
- The JSON round trip holds for null and for arrays and objects without negative integers,
  without quotes and backslashes in strings and keys, and without empty keys; for no other
  value that has no reals (`JsonRoundTrip.RoundTrip`).
- What the serializer writes is a JSON text of the value by RFC 8259 exactly when no string or
  key has a control character, which it does not escape (`JsonStrict.TextIsJson`).
- Copy-on-write values behave like deep copies except where an edit loses its source, which
  needs source and target in one handle (`CowSession.OtherHandlesAreSafe`). `CowSession.EditFate`
  says from the state before the edit which ones do, and `CowSession.Session.Modify` what happens:
  - an assignment whose source lies strictly inside its target reads destroyed storage, unless
    the source is a string, array or object held inline (`CowSession.AssignFromInside`);
  - a source taken with the const overloads lies in a shared box, and is destroyed if the walk to
    the target, the reset of the target or the unsharing of `push_back` drops the last handle on
    that box, as in `x.push_back(std::as_const(x).at(0))` (`CowSession.PushOwnElement`) and
    `x.at(1) = std::as_const(x).at(0)` (`CowSession.AssignSibling`) on a value just parsed;
  - such a source is outdated if its box lives on and the walk to the target adds a key below
    it (`CowSession.AssignOutdated`).
- A futex waiter that was passed by a notification for another word never sleeps again; it
  spins until its own word changes (`FutexWait.StaleNeverSleeps`, `FutexWait.StaleSpins`).
- `ordered_malloc(n)` of a pool returns null although a block was obtained, when that block
  just fits (`Pool.MemoryPool.MallocArray`, `PoolBooks.WhenTooSmall`); freeing an array of two or
  more chunks loses its last one (`Pool.MemoryPool.FreeArray`).
- An ordered insertion keeps the free list sorted exactly when the list is empty or the
  insertion lies above its head (`Storage.OrderedInsertion`).
- `dynarray` keeps its strong guarantee unless the allocator throws, or elements were moved
  because they cannot be copied (`Dynarray.DynArray.Reserve`); `push_back` of an element of the
  array itself is right exactly when there is spare capacity (`Dynarray.DynArray.PushBackOwn`).
- `flat_buffer::prepare` reports a length error except when the sum of the sizes wraps
  around 64 bits (`FlatBuffer.Buffer.Prepare`).
- `duration` addition reports every overflow except one family (`Durations.AddIsExact`).

## Model

| member | source | states |
|---|---|---|
| Lists.List.Emplace | include/gpcl/list.hpp:579-587 | the new node, and nothing else, enters the ring at the position; all other nodes keep place and value |
| Lists.List.Erase | include/gpcl/list.hpp:703-713 | just the node at the position leaves the ring; the result is the position after it |
| Lists.List.EraseRange | include/gpcl/list.hpp:716-732 | the range leaves the ring and each of its nodes is destroyed once, in order |
| Lists.List.InsertRange | include/gpcl/list.hpp:633-656 | copies of all values in order in front of the position; if any construction throws, the ring is the very same as before |
| Lists.List.Splice | include/gpcl/list.hpp:771-798 | the range moves between two lists or within one, for every range and position; an empty range away from the position, or a position inside the range, leaves links and sizes that fit no ring |
| Lists.List.Swap | include/gpcl/list.hpp:738-754 | elements are exchanged if both lists have some; if one is empty, no pair of rings fits the two lists afterwards |
| Lists.SwapNodes | include/gpcl/list.hpp:96-118 | two sentinels change rings when neither ring is trivial |
| Lists.List.CopyAssign | include/gpcl/list.hpp:354-400 | for all pairs of lengths the values become those of the other list, and nodes of the common prefix are reused; if a new element cannot be constructed the list keeps its length, with the common prefix assigned |
| Lists.List.MoveFrom | include/gpcl/list.hpp:313-316 | the new list takes all nodes and the other is empty, if it had elements; otherwise no ring fits either list |
| Lists.List.MoveAssign | include/gpcl/list.hpp:403-417 | the same after clearing, for equal allocators; assigning a list to itself empties it |
| Lists.List.Sort | include/gpcl/list.hpp:803-825 | terminates for every list and comparison, keeps the same nodes, ring and size, and for a strict weak order the permutation is the stable sort |
| Lists.List.Select | include/gpcl/list.hpp:805-823 | one round of selection by splicing: the slot receives a least element of the rest, the first of its equals, and the order of the others is kept |
| StableSort.OneOrder | include/gpcl/list.hpp:803-825 | there is only one stable sort of given keys |
| StableSort.StableSortIsInsertionSort | include/gpcl/list.hpp:803-825 | an arrangement is the stable sort if and only if it is the one of an independent insertion sort |
| StableSort.PullKeepsScanning | include/gpcl/list.hpp:808-822 | moving an element over strictly greater ones keeps the scan invariant, hence stability |
| Rings.RingIsUnique | include/gpcl/list.hpp:96-118 | the pointers determine the ring that starts at a node |
| Rings.Exchanged | include/gpcl/list.hpp:785-797 | three joints relinked exchange two neighbouring segments and leave one ring |
| JsonText.Serializer.Visit | include/gpcl/json.hpp:272-338 | appends the text of the tree in the style and restores the indentation |
| JsonText.Serialize | include/gpcl/json.hpp:1239-1248 | the output of a stream insertion is the text of the tree |
| JsonStrict.TextIsJson | include/gpcl/json.hpp:215-338 | a strict RFC 8259 reader, with exactly one comma between elements, signs and escapes, gives every value without reals back from its text in both styles if and only if no string or key has a control character |
| JsonStrict.ReadOfText | include/gpcl/json.hpp:272-338 | the same for a value inside a text, whatever follows it |
| JsonStrict.CompressedIsTight | include/gpcl/json.hpp:220-262 | the compressed style has no space outside strings |
| JsonStrict.PrettyIsLaid | include/gpcl/json.hpp:220-262 | the pretty style has four spaces on each line for each bracket it is inside of, a line for each element, one space behind each colon, and no other space outside strings |
| JsonParser.AtMostTwoDispatches | include/gpcl/json.hpp:1393-1565 | a character that was not consumed leaves the parser idle, and the idle parser consumes it or reports the error |
| JsonParser.RunInTwo | include/gpcl/json.hpp:1546-1565 | feeding a text in two pieces gives the same events and state as feeding it at once, failures included |
| JsonParser.DivisionDoesNotMatter | include/gpcl/json.hpp:1546-1565 | the same for every division into successive `put` calls |
| JsonBuilder.Parser.PutChar | include/gpcl/json.hpp:1393-1563 | the dispatch loop of one character ends and does what `Feed` says, for every state and visitor stack |
| JsonBuilder.Parser.Put | include/gpcl/json.hpp:1546-1565 | the driver loop emits the events of `Run`, the visitor builds them, and it throws exactly when one of the two does |
| JsonBuilder.ValueBuilder.Handle | include/gpcl/json.hpp:1613-1653 | one event is one transition of the stack machine, and fails when that is undefined |
| JsonBuilder.ValueBuilder.HandleComplete | include/gpcl/json.hpp:1655-1678 | a complete value goes to the innermost context; an empty key trips the assertion |
| JsonBuilder.ParseDocument | include/gpcl/json.hpp:1707-1717 | `parse` as it runs is the function `Parse` |
| JsonLayouts.ParseOfLayout | include/gpcl/json.hpp:1393-1717 | every layout of an array or object is parsed as the value it means: any space between any two tokens, members in any order, the first of equal keys |
| JsonLayouts.EveryLayoutMeans | include/gpcl/json.hpp:1613-1670 | every layout means a value |
| JsonLayouts.StrayThrows | include/gpcl/json.hpp:1393-1448 | a character that begins no token, such as a minus sign, is refused wherever a token ends |
| JsonLayouts.UnknownWordThrows | include/gpcl/json.hpp:1451-1470 | so is a word that is none of the three names |
| JsonLayouts.BigNumberThrows | include/gpcl/json.hpp:1473-1488 | so is an integer beyond 64 bits |
| JsonLayouts.KeylessThrows | include/gpcl/json.hpp:1665-1670 | so is a value in an object without a key in front of it, or with an empty one |
| JsonLayouts.ParsedIsMatched | include/gpcl/json.hpp:1619-1690 | a text that is parsed has its brackets matched by kind and all closed |
| JsonValues.InsertIs | include/gpcl/json.hpp:1665-1670 | inserting into a map keeps it in order, adds the member if and only if its key was absent, and keeps all others |
| JsonValues.MapsAreEqual | include/gpcl/json.hpp:73-76 | a map is determined by what is found under each key |
| JsonValues.LessIsLexicographic | include/gpcl/json.hpp:1740 | keys are ordered by the first place where they differ |
| JsonLexing.TextEmits | include/gpcl/json.hpp:1393-1565 | reading a serialized value emits its events, up to a token that still waits for its end |
| JsonLexing.DigitsRoundTrip | include/gpcl/json.hpp:1473-1488 | the digits written for a number are read back as that number |
| JsonRoundTrip.EventsBuildValue | include/gpcl/json.hpp:1613-1678 | the events of a value make the builder add that value, whatever contexts are open |
| JsonRoundTrip.ParseOfText | include/gpcl/json.hpp:1393-1565 | the text of a readable array or object parses to it, with backslashes doubled, in both styles |
| JsonRoundTrip.ParseIsClean | include/gpcl/json.hpp:1393-1522 | whatever is parsed has no quotes in strings, no negative integers and no empty keys |
| JsonRoundTrip.EscapedIsSame | include/gpcl/json.hpp:278-281 | doubling backslashes changes a value exactly when it has some |
| JsonRoundTrip.ScalarsAreNotReported | include/gpcl/json.hpp:1546-1565 | a scalar document is never reported, as there is no flush at the end, and null is returned |
| JsonRoundTrip.RoundTrip | include/gpcl/json.hpp:215-338 | parsing the serialized value gives it back if and only if it is null or a readable array or object without backslashes |
| Cow.CloneShows | include/gpcl/json.hpp:86-110 | a copy, which shares boxes, shows the same tree as the original, and nothing else changes |
| Cow.UnshareShows | include/gpcl/json.hpp:153-177 | making a shared value inline does not change what it shows |
| Cow.ShowIsStable | include/gpcl/json.hpp:86-110 | new boxes do not change what existing values show |
| CowPaths.TouchShows | include/gpcl/json.hpp:1059-1092 | walking down a path with unsharing at each step shows what walking a deep tree shows, missing children included |
| CowRefs.PutShows | include/gpcl/json.hpp:866-879 | writing through the reference a walk returned changes just the subtree at the path |
| CowRefs.LookAroundPut | include/gpcl/json.hpp:866-879 | what is put at a place shows there, and nothing beside it changes |
| CowRefs.WalkAddsNull | include/gpcl/json.hpp:1089-1092 | a key that `operator[]` has added holds null |
| CowSession.AttachShows | include/gpcl/json.hpp:1131-1170 | assignment, `push_back` and `insert` of a copy show what they do on trees |
| CowSession.Session.Copy | include/gpcl/json.hpp:592 | the new handle shows what the old one shows |
| CowSession.Session.Modify | include/gpcl/json.hpp:790-796 | an assignment, `push_back` or `insert` at a nested path, from a nested path reached by mutable or const overloads: its fate is that of `EditFate`; a sound one shows what deep copying would show and fails in the same cases, a dangling one has done its walks, an outdated one assigns the value from before the walk, which is not what deep copying would show |
| CowSession.Session.Erase | include/gpcl/json.hpp:1197-1201 | erasing a key at a nested path shows the tree without it |
| CowSession.EraseIs | include/gpcl/json.hpp:1197-1201 | erasing from a map removes the member with the key and nothing else, in order |
| CowSession.EraseShows | include/gpcl/json.hpp:1197-1201 | after erasing at a nested path nothing is found under the key there, and every other place shows what it showed |
| CowSession.EditShows | include/gpcl/json.hpp:1131-1170 | after an assignment, `push_back` or `insert` the source is found at the place it fills, unless the key was taken, and every other place shows what it showed |
| CowSession.Session.Execute | include/gpcl/json.hpp:1059-1201 | every program of copies, destructions, assignments and mutations shows in every handle what it would show if each copy were deep, up to the first edit that loses its source; there, which edit it is, its fate and what the handles show |
| CowSession.OtherHandlesAreSafe | include/gpcl/json.hpp:1059-1170 | an edit loses its source only if that is in the handle it changes |
| CowSession.HeldElsewhere | include/gpcl/json.hpp:1064-1097 | a read-only source of an assignment does not dangle while another handle holds its box |
| CowSession.DeepReadOnly | include/gpcl/json.hpp:790-796 | reading the source before the walk to the target differs from deep copying exactly when that walk adds a key below the source |
| CowSession.PushOwnElement | include/gpcl/json.hpp:1131-1134 | an input on which `push_back` of an own element, read through a const reference, dangles |
| CowSession.AssignSibling | include/gpcl/json.hpp:790-796 | an input on which an assignment dangles whose source is not inside its target |
| CowSession.AssignThroughReset | include/gpcl/json.hpp:790-796 | an input on which the reset of the target destroys the source |
| CowSession.OneHolderIsReached | include/gpcl/json.hpp:592 | a program that comes to the store of these two inputs |
| CowSession.AssignOutdated | include/gpcl/json.hpp:790-796 | an input on which an assignment is outdated |
| CowRefs.NoContainer | include/gpcl/json.hpp:1064-1097 | a const walk ends in a box unless everything on the way is inline |
| CowRefs.ContainerIsHeld | include/gpcl/json.hpp:120-136 | a handle keeps every box on the way to a place alive |
| CowRefs.LookAfterWalk | include/gpcl/json.hpp:1089-1092 | a walk changes what is shown at a place exactly when it adds a key below it |
| CowRefs.HeldInlineAfter | include/gpcl/json.hpp:153-177 | a walk leaves the end of its path inline exactly when all of the path was inline before |
| CowSession.SpellingDoesNotMatter | include/gpcl/json.hpp:1069-1092 | `at(k)` and `[k]` name the same place when source and target are compared |
| CowSession.AssignFromInside | include/gpcl/json.hpp:790-796 | an input on which an assignment from inside dangles |
| CowSession.EditFindsBoth | include/gpcl/json.hpp:1059-1092 | after both walks of an edit have succeeded, source and target are there |
| CowRefs.AtShowsNothing | include/gpcl/json.hpp:1059-1072 | taking a mutable reference with `at` shows no change |
| CowRefs.TouchKeepsReferences | include/gpcl/json.hpp:1059-1092 | taking a second mutable reference leaves what the first one shows as it was, unless it is on the way; then the walk just goes on from there |
| RefCounts.AccessIsSafe | include/gpcl/detail/ref_count_base.hpp:29-101 | every access goes to a block that is not deleted, and the assertions of the code hold |
| RefCounts.CountsAfter | include/gpcl/shared_ptr.hpp:191-316 | how each step changes the numbers of `shared_ptr` and `weak_ptr` that refer to a block |
| RefCounts.StepKeepsInv | include/gpcl/detail/ref_count_base.hpp:29-101 | every step of every thread finds its block and keeps the invariant |
| RefCounts.RunKeepsInv | include/gpcl/weak_ptr.hpp:46-179 | the invariant holds in every state of every run |
| RefCounts.StepsAreDefined | include/gpcl/detail/ref_count_base.hpp:29-101 | in a reachable state every step a thread may take finds its control block |
| RefCounts.RunIsSafe | include/gpcl/detail/ref_count_base.hpp:40-79 | counts match handles; the object is destroyed at most once and not while a `shared_ptr` exists; the block is deleted at most once, after which nobody refers to it or is about to touch it |
| RefCounts.QuiescentIsClean | include/gpcl/detail/ref_count_base.hpp:40-79 | when no operation is under way, the object is gone iff it has no `shared_ptr`, the block iff it has no handle at all |
| RefCounts.NoRevival | include/gpcl/detail/ref_count_base.hpp:88-101 | once the use count is zero it stays zero: `lock` never revives the object |
| RefCounts.LockGivesAPointer | include/gpcl/detail/ref_count_base.hpp:88-101 | in every run, `lock` ends with a strong handle to the block of its weak_ptr, or the use count was zero at some moment since it began |
| RefCounts.LockTriesAgain | include/gpcl/detail/ref_count_base.hpp:93-98 | `lock` tries again if and only if it has read a positive count and the exchange failed, spuriously or because the count has changed |
| RefCounts.LockAlone | include/gpcl/detail/ref_count_base.hpp:88-101 | undisturbed it ends at once, with a pointer if and only if there is one already |
| RefCounts.CopyRefersToTheSame | include/gpcl/shared_ptr.hpp:191-316 | in every run, a copy refers to the block its original refers to from the beginning of the copying to its end |
| RefCounts.MoveAndSwap | include/gpcl/shared_ptr.hpp:191-316 | moving and swapping exchange what two handles refer to and touch no count |
| RefCounts.OtherHandleSteps | include/gpcl/shared_ptr.hpp:191-316 | what the steps do that make a first or an empty pointer, pass one on or drop an empty one |
| FutexWait.StepKeepsInv | include/gpcl/detail/futex_atomic_wait.hpp:38-117 | every step keeps the count of waiters and the two no-lost-wakeup conditions |
| FutexWait.RunKeepsInv | include/gpcl/detail/futex_atomic_wait.hpp:38-117 | they hold in every state of every run |
| FutexWait.SleeperIsOwedWakeup | include/gpcl/detail/futex_atomic_wait.hpp:76-117 | a sleeper whose word or event has changed is owed a wakeup by a thread that is still inside its notification |
| FutexWait.DutyWakes | include/gpcl/detail/futex_atomic_wait.hpp:100-117 | the next step of a notifier is enabled, and it wakes every sleeper or comes nearer to it |
| FutexWait.DischargeWakes | include/gpcl/detail/futex_atomic_wait.hpp:100-117 | a notifier that runs to its end has woken every sleeper |
| FutexWait.QuietSleepersAreRight | include/gpcl/detail/futex_atomic_wait.hpp:76-117 | when no notification is under way, whoever sleeps still finds the old value, and the count is the number of waiters |
| FutexWait.WaitReturnsAnotherValue | include/gpcl/detail/futex_atomic_wait.hpp:76-98 | in every run, `wait` returns only after its last load of the word has found another value than the old one |
| FutexWait.LoadDecides | include/gpcl/detail/futex_atomic_wait.hpp:86-96 | a load ends the wait if and only if it finds another value |
| FutexWait.CallSleeps | include/gpcl/detail/futex_atomic_wait.hpp:84-94 | in every run, the call to the kernel sleeps if and only if nobody has added to the proxy since the event was loaded |
| FutexWait.WordIsLastStored | include/gpcl/detail/futex_atomic_wait.hpp:100-117 | in every run, a word holds what was stored last |
| FutexWait.StaleNeverSleeps | include/gpcl/detail/futex_atomic_wait.hpp:84-97 | in every run, a waiter whose event has passed stays in its loop without sleeping until it finds another value |
| FutexWait.StaleSpins | include/gpcl/detail/futex_atomic_wait.hpp:92-96 | as long as the value is the old one, two steps lead it back to the very same state |
| FutexWait.NotificationMakesStale | include/gpcl/detail/futex_atomic_wait.hpp:100-107 | a notification for any word makes every waiter that is awake in its loop such a one |
| FutexWait.StaleSinceNotified | include/gpcl/detail/futex_atomic_wait.hpp:84-105 | in every run, a waiter awake in its loop is such a one if and only if somebody has added to the proxy since it loaded its event |
| Storage.Segregate | include/gpcl/simple_segregated_storage.hpp:41-59 | the block is threaded into a list of exactly the chunks of `ChunkTotal`, ending in `end`, and no other word changes |
| Storage.RowInBounds | include/gpcl/simple_segregated_storage.hpp:41-59 | the chunks lie inside the block, one behind the other |
| Storage.RowTotal | include/gpcl/simple_segregated_storage.hpp:41-59 | the loop makes max(1, (sz - 1) / partition) chunks, one fewer than fit when the size is a multiple |
| Storage.SegregatedStorage.Malloc | include/gpcl/simple_segregated_storage.hpp:116-123 | takes the first chunk of the free list |
| Storage.SegregatedStorage.MallocN | include/gpcl/simple_segregated_storage.hpp:136-166 | null exactly when no n + 1 chunks are consecutive both in the list and in memory; else the first such n leave the list, the order of the rest is kept |
| Storage.SegregatedStorage.Free | include/gpcl/simple_segregated_storage.hpp:174-178 | the chunk becomes the first of the free list |
| Storage.SegregatedStorage.OrderedFree | include/gpcl/simple_segregated_storage.hpp:201-206 | the chunk is inserted where `upper_bound` says |
| Storage.SegregatedStorage.AddBlock | include/gpcl/simple_segregated_storage.hpp:74-79 | all chunks of the block come in front of the free list |
| Storage.SegregatedStorage.AddOrderedBlock | include/gpcl/simple_segregated_storage.hpp:96-102 | they are inserted where `upper_bound` says |
| Storage.SegregatedStorage.UpperBoundSlot | include/gpcl/simple_segregated_storage.hpp:249-262 | returns the slot behind the head or a later one whose chunk lies above, never the head slot of a list with chunks |
| Storage.OrderedInsertion | include/gpcl/simple_segregated_storage.hpp:249-262 | insertion keeps a sorted list sorted if and only if it is empty or its head lies below |
| Pool.MemoryPool.RequestNewBlock | include/gpcl/pool.hpp:212-227 | the block has the size of the doubling loop, its chunks enter the free list, and nothing changes but the next size if the allocator has none |
| Pool.MemoryPool.AddBlock | include/gpcl/pool.hpp:229-238 | the new block is carved without touching other trailers and its own trailer names the block before it |
| Pool.MemoryPool.Malloc | include/gpcl/pool.hpp:107-136 | null exactly when the free list is empty and the allocator has nothing; else a chunk that was not in use is |
| Pool.MemoryPool.MallocArray | include/gpcl/pool.hpp:139-149 | null exactly when no run is free and the allocator has nothing or its block is too small; else the first run of the free list, grown by a block only if there was none, is in use |
| Pool.MemoryPool.Free | include/gpcl/pool.hpp:152-163 | the chunk is free again, first or where `upper_bound` says, and the rest of the books is unchanged |
| Pool.MemoryPool.FreeArray | include/gpcl/pool.hpp:166-170 | all chunks of the array but the last of two or more are free again; that one is lost |
| Pool.MemoryPool.UserWrite | include/gpcl/pool.hpp:107-149 | the owner may write anything in an array in use without harm to the free list or the trailers |
| Pool.MemoryPool.Destroy | include/gpcl/pool.hpp:91-101 | the walk over the trailers gives every block back exactly once |
| PoolBooks.Offset | include/gpcl/pool.hpp:240-244 | the trailer fits behind an aligned offset with less than a word to spare |
| PoolBooks.ChunkCount | include/gpcl/pool.hpp:246-252 | the least number of chunks that holds the array |
| PoolBooks.TakeKeepsBooks | include/gpcl/pool.hpp:107-149 | allocation keeps every chunk in exactly one place and arrays apart |
| PoolBooks.GiveKeepsBooks | include/gpcl/pool.hpp:152-170 | so does giving an array back |
| PoolBooks.GrowKeepsBooks | include/gpcl/pool.hpp:229-238 | so does a new block |
| PoolBooks.GrownDoubles | include/gpcl/pool.hpp:212-217 | the size of a new block is doubled as often as needed, and no more often |
| PoolBooks.LiveMissesTheRest | include/gpcl/pool.hpp:107-170 | an address in an array in use is in no other array, in no free or lost chunk and in no trailer |
| PoolBooks.NothingIsLostUncounted | include/gpcl/pool.hpp:107-170 | carved chunks = free + in use + lost |
| PoolBooks.RunsAfterGrowth | include/gpcl/pool.hpp:139-149 | after growth there is a run that was not there before if and only if the new block has more chunks than asked for |
| PoolBooks.WhenTooSmall | include/gpcl/pool.hpp:212-227 | the requested block is too small exactly when it is one chunk size larger than the array (two for chunks of 16 bytes), and never for chunks of 8 or 24 bytes |
| PoolBooks.FirstBlockTooSmall | include/gpcl/pool.hpp:139-149 | an instance: 31 objects of 32 bytes from a new pool |
| Dynarray.DynArray.Reserve | include/gpcl/dynarray.hpp:400-443 | contents are kept in a larger buffer; a throwing constructor restores them unless elements were moved, a throwing allocator leaves an invalid array, with the exact state in each case |
| Dynarray.DynArray.Relocate | include/gpcl/dynarray.hpp:414-421 | objects are constructed in raw cells only, in order, up to the one that throws |
| Dynarray.DynArray.Grow | include/gpcl/dynarray.hpp:445-460 | the capacity becomes the next multiple of the old one |
| Dynarray.DynArray.Resize | include/gpcl/dynarray.hpp:462-526 | cut or padded contents, or the original ones if a constructor throws at any point |
| Dynarray.DynArray.KeepFirst | include/gpcl/dynarray.hpp:197-206 | just the objects behind the first n are destroyed, each once |
| Dynarray.DynArray.Release | include/gpcl/dynarray.hpp:209-216 | at the end everything that was constructed has been destroyed and the buffer given back |
| Dynarray.DynArray.EmplaceBack | include/gpcl/dynarray.hpp:604-612 | the object is appended, or the contents are as before; how many elements were relocated |
| Dynarray.DynArray.PushBackOwn | include/gpcl/dynarray.hpp:614-618 | appending an element of the array itself succeeds exactly with spare capacity and reads a destroyed object after growth |
| Dynarray.GrownCapacity | include/gpcl/dynarray.hpp:452-457 | enough, and less than one old capacity too much |
| Dynarray.GrowthDoubles | include/gpcl/dynarray.hpp:445-460 | one element more than fits doubles the capacity |
| Dynarray.Fill | include/gpcl/dynarray.hpp:604-612 | m appends to an empty array relocate fewer than 2m elements in all |
| IntrusiveLists.DeleteEntry | include/gpcl/intrusive_list.hpp:76-86 | the node leaves whatever ring it is in; all rings stay consistent |
| IntrusiveLists.InsertBetween | include/gpcl/intrusive_list.hpp:66-74 | the node enters the ring at the position; all others are unchanged |
| IntrusiveLists.NewNode | include/gpcl/intrusive_list.hpp:32 | a new node is on its own and changes no ring |
| IntrusiveLists.DestroyNode | include/gpcl/intrusive_list.hpp:47 | a node on its own is in no list, and the rings without it are as before |
| IntrusiveLists.ReplaceHead | include/gpcl/intrusive_list.hpp:88-97 | the ring continues under the new head and the old head is on its own |
| IntrusiveLists.IntrusiveList.PushBack | include/gpcl/intrusive_list.hpp:263-267 | the node leaves any list that holds it, also this one, and becomes the last element |
| IntrusiveLists.IntrusiveList.PushFront | include/gpcl/intrusive_list.hpp:257-261 | the same with the first place |
| IntrusiveLists.PushMoves | include/gpcl/intrusive_list.hpp:257-267 | where the node is after a push and that all other elements and rings are as they were |
| IntrusiveLists.IntrusiveList.Erase | include/gpcl/intrusive_list.hpp:289-293 | the node is on its own, also if it was before |
| IntrusiveLists.IntrusiveList.Clear | include/gpcl/intrusive_list.hpp:316-322 | every element is on its own, other lists are unchanged |
| IntrusiveLists.ClearedIs | include/gpcl/intrusive_list.hpp:316-322 | clearing leaves the head and each of its elements on their own and changes nothing else |
| IntrusiveLists.IntrusiveList.MoveAssign | include/gpcl/intrusive_list.hpp:200-212 | the old elements are on their own and the whole ring of the other list is handed over; self-assignment changes nothing |
| IntrusiveLists.IntrusiveList.Reverse | include/gpcl/intrusive_list.hpp:324-342 | the list is the exact reverse, every other ring and the set of nodes are as before |
| IntrusiveLists.MoveToBack | include/gpcl/intrusive_list.hpp:324-342 | erasing from one list and appending to another changes these two lists only |
| IntrusiveLists.ShapeDetached | include/gpcl/intrusive_list.hpp:76-86 | without the node the others are still partitioned into rings |
| Split.Find | include/gpcl/string_utils.hpp:189 | the first place where the delimiter stands |
| Split.JoinOfPieces | include/gpcl/string_utils.hpp:178-203 | joining the pieces restores the input, and no piece contains the delimiter |
| Split.PiecesOfJoin | include/gpcl/string_utils.hpp:178-203 | splitting what was joined gives the pieces back if and only if no delimiter begins before its time |
| Split.SplitNew | include/gpcl/string_utils.hpp:178-203 | `split` returns the slices of the pieces, without the empty ones if they are skipped |
| Split.SplitOld | include/gpcl/string_utils.hpp:205-241 | `split_old` returns the same slices |
| Split.KeptIs | include/gpcl/string_utils.hpp:191-197 | skipping keeps the slices that are not empty, each once and in order, and no others |
| Split.CutsArePieces | include/gpcl/string_utils.hpp:178-203 | the slices are those of the pieces |
| FlatBuffer.Buffer.Prepare | include/gpcl/flat_buffer.hpp:71-104 | room for n bytes, by moving or reallocating exactly when needed, with the readable bytes unchanged; the three outcomes exactly |
| FlatBuffer.Buffer.Commit | include/gpcl/flat_buffer.hpp:106-111 | written bytes, at most to the end of the block, arrive behind the readable ones |
| FlatBuffer.Buffer.Consume | include/gpcl/flat_buffer.hpp:113-118 | at most the readable bytes go, from the front |
| FlatBuffer.Buffer.Feed | include/gpcl/flat_buffer.hpp:71-111 | prepare, fill and commit append exactly the bytes, or change nothing |
| Durations.OrderOfLengths | include/gpcl/time.hpp:213-218 | `operator<` is the order of the lengths in nanoseconds |
| Durations.AddIsExact | include/gpcl/time.hpp:123-136 | a sum is exact when representable and an overflow otherwise, except for the family `SlipsThrough`, whose result is given |
| Durations.SaturatingAddIsCheckedAdd | include/gpcl/time.hpp:138-152 | the saturating sum is the checked one, or the maximum where that overflows |
| Durations.SubIsExact | include/gpcl/time.hpp:154-186 | differences are exact, an overflow or zero below zero |
| Durations.SubUndoesAdd | include/gpcl/time.hpp:154-169 | subtraction undoes a checked addition if and only if the sum did not slip through |
| Durations.AddUndoesSub | include/gpcl/time.hpp:123-169 | addition undoes every checked subtraction |

## Left out

- JSON reals: the text of a floating point number is not modelled; a real that is read keeps its characters, and the serializer and the round trip are stated for values without reals.
- JSON input and output: stream failure states, formatting flags other than the style, and locales.
- JSON mutators that repeat the same pattern: `pop_back`, `clear`, `emplace`, erasing by index or iterator, and string `push_back`.
- JSON keys: the key of an object context after its value was inserted is modelled as empty, which is what the moved-from string is in practice.
- Memory orderings: all atomic accesses are sequentially consistent; the futex proxy counter and the reference counts do not wrap.
- `notify_one` on the proxy path, and the path for 4-byte words, where the awaited word is itself the futex and is loaded twice.
- The control block variants for other platforms, which repeat the protocol; the pointers stored next to the counts (aliasing changes them, not the counts).
- Managed objects that hold smart pointers themselves: destroying the object is one step, so the releases its destructor would run are not part of it.
- Progress of whole runs: fairness of the scheduler and the number of retries in `lock` are not modelled.
- `list`: the insertion of a count of copies, allocator-extended construction and allocator propagation; assignments are modelled for equal allocators and element assignments that do not throw.
- `pool`: the mutex, `is_from`, `set_next_size`, 64-bit overflow of block sizes; the chunk size is a parameter, of which the constructor asks what the least common multiple guarantees.
- `dynarray`: `pop_back`, whose body constructs instead of destroying, whole-array assignment, and `resize(n, x)` with `x` inside the array.
- `intrusive_list`: `exchange`, whose swap of pointers does not relink the neighbours, and `replace` of an element.
- `split`: trimming, and empty delimiters, for which neither loop ends on a non-empty input.
- `flat_buffer`: pointer overflow in `commit` and `consume` with sizes near the end of the address space.
- `duration`: conversions to and from other units and to `timespec`.
- POSIX, Windows and sqlite wrappers, processes, services, files, clocks, stack traces: foreign calls and input/output.
- `variant`, `optional`, `expected`, type traits and atomics facades: compile-time dispatch and finite case splits that would add easy members only.
