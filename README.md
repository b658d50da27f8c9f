# COMP 271 data structures and autograder helpers, modelled in Dafny

This project models the core of a Python teaching repository for a data
structures course:

- **Two-dimensional queues** (`two_dimensional_q.dfy`,
  `naive_two_dimensional_q.dfy`). The midterm's bounded FIFO stores its
  elements in an n x n grid, in two versions.
  - `TwoDimensionalQ` keeps a front cursor, a back cursor and a usage count.
    Both cursors move in row-major order around the grid.
  - `NaiveTwoDimensionalQ` always keeps the front at cell (0, 0). It shifts
    every element one cell forward on each dequeue.

  Both classes are proved against one abstract bounded FIFO (`fifo.dfy`).
  They are also proved to agree with each other on any sequence of calls
  (`queue_equivalence.dfy`). The midterm's grading scenarios are replayed in
  `queue_scenarios.dfy`. The row-major cursor arithmetic lives in `grid.dfy`.
- **`MyList`** (`mylist.dfy`): a growable list over a fixed-size block of
  slots. A full block is replaced by one twice as large.
- **The collision hotel** (`hotel.dfy`): N rooms, a polynomial string hash
  taken modulo N, and no probing. The week-08 and week-09 solution files hold
  the same code; the week-08 copy sits at
  Sakai-week-08/SOLUTIONS_simulate_collisions.py lines 42-72.
- **`EuropeanTrainLine` and `Station`** (`train_line.dfy`): a singly linked
  chain of stations with a head, a tail and a cached station count.
- **`DoublyLinkedList`** (`doubly_linked_list.dfy`): a doubly linked list
  with adds at either end and a `<->`-joined text form.
- **The autograder runners' string handling** (`submissions.dfy`):
  - reading "(uvid, name)" from a "First Last (uvid)" submission directory;
  - commenting out a trailing `main()` line in submitted code;
  - the "<uvid>_MyList.py" and "<uvid>_Rectangle.py" file names the uvid is
    later read back from.

  `parse_student_info_from_path` is identical in
  autograders/Ch9-RectangleOOP/main.py lines 20-32. One model covers both.

Shared pieces: `wrappers.dfy` holds `Option` and `Result`. `text.dfy` holds
Python's `str(int)`, `sep.join` and `startswith` as far as the model needs
them.

Python's `str` of an arbitrary element is a parameter `show`.

## Model

| member | source | states |
|---|---|---|
| Grid.LinearDivMod | MidtermExam/InefficientTwoDimensionalQ.py:39-40 | row and column are the quotient and remainder of a cell's linear position by n |
| Grid.LinearInRange | MidtermExam/InefficientTwoDimensionalQ.py:80-85 | every cell of the grid has a linear position in [0, n*n) |
| Grid.LinearInjective | MidtermExam/InefficientTwoDimensionalQ.py:58-64 | two cells share a linear position exactly when they are the same cell |
| Grid.CoordInGrid | MidtermExam/InefficientTwoDimensionalQ.py:58-62 | (k // n, k % n) is a cell of the grid whose linear position is k, for every k in [0, n*n) |
| Grid.NextLinear | autograders/Midterm/solution/two_dimensional_q.py:73-74 | the wrapped row-major step keeps a cursor on the grid and advances its linear position by one around the ring of n*n cells |
| Grid.NextAsWrittenDiffers | autograders/Midterm/solution/two_dimensional_q.py:89-90 | the front step as written agrees with the wrapped step on every cell except (n-1, n-1), from which it leaves the grid at (n, 0) |
| Grid.WrappedLap | autograders/Midterm/solution/two_dimensional_q.py:73-74 | k wrapped steps from (0, 0) reach linear position k for k < n*n, and n*n steps return to (0, 0) |
| Grid.AsWrittenLap | autograders/Midterm/solution/two_dimensional_q.py:89-90 | the front cursor as written matches the wrapped one for fewer than n*n steps, and after n*n steps sits at (n, 0), off the grid |
| Fifo.StepBounded | autograders/Midterm/solution/two_dimensional_q.py:63-92 | one enqueue or dequeue never takes the contents over capacity and changes the usage by at most one |
| Fifo.RunBounded | autograders/Midterm/solution/two_dimensional_q.py:65 | for every sequence of calls, 0 <= usage <= capacity |
| Fifo.RunConcat | autograders/Midterm/tests/test_mid.py:102-110 | running two batches of calls one after the other is running them concatenated |
| Fifo.Enqueues | autograders/Midterm/tests/test_mid.py:61 | one enqueue call per value, in the values' order |
| Fifo.Dequeues | autograders/Midterm/tests/test_mid.py:108 | k dequeue calls |
| Fifo.FillAppends | autograders/Midterm/solution/two_dimensional_q.py:63-76 | enqueueing values that fit appends them all, in order, and every call returns True |
| Fifo.DrainReturnsInOrder | autograders/Midterm/solution/two_dimensional_q.py:78-92 | k dequeues return the k oldest elements, oldest first, and leave the rest |
| Fifo.FillThenDrain | autograders/Midterm/solution/two_dimensional_q.py:63-92 | FIFO order: values enqueued into an empty queue come back in the same order and leave it empty |
| Text.NatToString | EuropeanTrainLine.py:67 | `str(k)` is a non-empty digit string without a leading zero, one digit long exactly when k < 10 |
| Text.NatToStringRoundTrip | EuropeanTrainLine.py:67 | reading back the decimal text of k gives k |
| Text.JoinCons | Sakai-week-07/DoublyLinkedList.py:19 | a join is the first part, the separator, then the join of the rest |
| Text.JoinLength | Sakai-week-07/DoublyLinkedList.py:19 | a join's length is the parts' total length plus one separator per gap |
| Text.JoinHasPartAt | Sakai-week-07/DoublyLinkedList.py:19 | every part appears verbatim in the join, at the offset after the earlier parts and separators |
| Text.JoinOffsetNext | Sakai-week-07/DoublyLinkedList.py:19 | the next part starts after this part and one separator |
| Text.Shown | Sakai-week-07/DoublyLinkedList.py:17 | `str` of each element, in order |
| TwoDimensionalQueue.PosText | autograders/Midterm/solution/two_dimensional_q.py:42 | a cursor prints as "(row, col)": the digits after "(" read back as the row, the digits between ", " and ")" as the column |
| TwoDimensionalQueue.OccupantAfterEnqueue | autograders/Midterm/solution/two_dimensional_q.py:70 | writing the back cell changes the occupant of that cell only |
| TwoDimensionalQueue.OccupantAfterDequeue | autograders/Midterm/solution/two_dimensional_q.py:86-91 | clearing the front cell and advancing the front leaves every other cell's occupant unchanged |
| TwoDimensionalQueue.OccupantAtStep | autograders/Midterm/solution/two_dimensional_q.py:99-104 | the cell i steps after the front holds the i-th oldest element |
| TwoDimensionalQueue.TwoDimensionalQ.constructor | autograders/Midterm/solution/two_dimensional_q.py:3-13 | capacity n*n, usage 0, both cursors at (0, 0), every cell empty, contents empty |
| TwoDimensionalQueue.TwoDimensionalQ.GetUsage | autograders/Midterm/solution/two_dimensional_q.py:17-18 | the usage is the number of elements and lies between 0 and the capacity |
| TwoDimensionalQueue.TwoDimensionalQ.GetCapacity | autograders/Midterm/solution/two_dimensional_q.py:20-21 | the capacity is n*n and at least 1 |
| TwoDimensionalQueue.TwoDimensionalQ.IsFull | autograders/Midterm/solution/two_dimensional_q.py:23-24 | full exactly when n*n elements are held |
| TwoDimensionalQueue.TwoDimensionalQ.IsEmpty | autograders/Midterm/solution/two_dimensional_q.py:26-27 | empty exactly when no element is held |
| TwoDimensionalQueue.TwoDimensionalQ.Length | autograders/Midterm/solution/two_dimensional_q.py:35-36 | `len` is the number of elements |
| TwoDimensionalQueue.TwoDimensionalQ.IsTruthy | autograders/Midterm/solution/two_dimensional_q.py:38-39 | truthy exactly when not empty |
| TwoDimensionalQueue.TwoDimensionalQ.Peek | autograders/Midterm/solution/two_dimensional_q.py:29-31 | the oldest element, or None when empty |
| TwoDimensionalQueue.TwoDimensionalQ.Repr | autograders/Midterm/solution/two_dimensional_q.py:41-45 | the text starts with the grid size and "capacity: " and is longer than 5 characters |
| TwoDimensionalQueue.TwoDimensionalQ.Enqueue | autograders/Midterm/solution/two_dimensional_q.py:63-76 | acts as the abstract FIFO's enqueue. It returns True exactly when not full, writes the back cell, advances only the back cursor one wrapped step and leaves every other cell alone |
| TwoDimensionalQueue.TwoDimensionalQ.Dequeue | autograders/Midterm/solution/two_dimensional_q.py:78-92 | acts as the abstract FIFO's dequeue. It returns the oldest element or None, clears the front cell, advances only the front cursor (with the row taken mod n) and leaves every other cell alone |
| TwoDimensionalQueue.TwoDimensionalQ.ListQueue | autograders/Midterm/solution/two_dimensional_q.py:94-105 | the wrapped walk of `usage` cells from the front returns exactly the elements, oldest first |
| TwoDimensionalQueue.TwoDimensionalQ.Items | autograders/Midterm/solution/two_dimensional_q.py:47-58 | `__iter__` yields exactly the elements, oldest first; the None guard never fires |
| TwoDimensionalQueue.TwoDimensionalQ.CursorsMeet | autograders/Midterm/tests/test_mid.py:161-178 | the cursors are equal exactly when the queue is empty or full |
| TwoDimensionalQueue.TwoDimensionalQ.EmptyOrFullCells | autograders/Midterm/tests/test_mid.py:188-195 | an empty queue has every cell None and a full one has every cell occupied |
| NaiveTwoDimensionalQueue.SlotAfterWrite | MidtermExam/InefficientTwoDimensionalQ.py:39-41 | writing at linear position `usage` changes that cell only |
| NaiveTwoDimensionalQueue.ShiftCell | MidtermExam/InefficientTwoDimensionalQ.py:58-64 | one shift step copies linear position i+1 into i and changes no other cell |
| NaiveTwoDimensionalQueue.ClearLast | MidtermExam/InefficientTwoDimensionalQ.py:66-68 | after the shift, clearing the last used cell leaves the grid holding the remaining elements |
| NaiveTwoDimensionalQueue.NaiveTwoDimensionalQ.constructor | MidtermExam/InefficientTwoDimensionalQ.py:9-16 | capacity n*n, usage 0, every cell empty, contents empty |
| NaiveTwoDimensionalQueue.NaiveTwoDimensionalQ.GetUsage | MidtermExam/InefficientTwoDimensionalQ.py:18-22 | the usage is the number of elements, between 0 and the capacity |
| NaiveTwoDimensionalQueue.NaiveTwoDimensionalQ.GetCapacity | MidtermExam/InefficientTwoDimensionalQ.py:24-28 | the capacity is n*n and at least 1 |
| NaiveTwoDimensionalQueue.NaiveTwoDimensionalQ.Enqueue | MidtermExam/InefficientTwoDimensionalQ.py:30-43 | acts as the abstract FIFO's enqueue: stores at cell (usage // n, usage % n) when not full, and no other cell changes |
| NaiveTwoDimensionalQueue.NaiveTwoDimensionalQ.Dequeue | MidtermExam/InefficientTwoDimensionalQ.py:45-71 | acts as the abstract FIFO's dequeue: returns cell (0, 0) or None, and the grid then holds the remaining elements from linear position 0 |
| NaiveTwoDimensionalQueue.NaiveTwoDimensionalQ.ShiftForward | MidtermExam/InefficientTwoDimensionalQ.py:56-64 | after the loop, each linear position below usage-1 holds the element that followed it; the rest are unchanged |
| NaiveTwoDimensionalQueue.NaiveTwoDimensionalQ.ListQueue | MidtermExam/InefficientTwoDimensionalQ.py:73-86 | the first `usage` linear cells are exactly the elements, oldest first |
| QueueEquivalence.StepBoth | MidtermExam/InefficientTwoDimensionalQ.py:30-71 | one call on each queue gives the same reply and the same contents |
| QueueEquivalence.RunBoth | autograders/Midterm/solution/two_dimensional_q.py:63-105 | on any sequence of calls, both queues give the abstract FIFO's replies and end with its contents |
| QueueScenarios.BackWrapContents | autograders/Midterm/tests/test_mid.py:102-107 | after a, b, one dequeue, c, d, a queue of capacity 4 holds b, c, d |
| QueueScenarios.FrontWrapContents | autograders/Midterm/tests/test_mid.py:108-110 | three more dequeues and e leave e alone in the queue |
| QueueScenarios.WrapAroundTwoByTwo | autograders/Midterm/tests/test_mid.py:102-110 | both 2x2 queues list Beth, Charlie, David after the back wraps, and then hold only Emma |
| QueueScenarios.FrontAfterTwoByTwoWrap | autograders/Midterm/tests/test_mid.py:111-113 | four wrapped steps on a 2x2 grid bring the front back to (0, 0). Four steps as written end at (2, 0), off the grid |
| QueueScenarios.WrapAroundThreeByThree | autograders/Midterm/tests/test_mid.py:116-131 | after nine enqueues and eight dequeues only Ivan is left; a ninth dequeue empties the queue, and Judy is then alone |
| QueueScenarios.FrontAfterThreeByThreeWrap | autograders/Midterm/tests/test_mid.py:128-130 | nine wrapped steps on a 3x3 grid return to (0, 0). Nine steps as written end at (3, 0) |
| QueueScenarios.RefillContents | autograders/Midterm/tests/test_mid.py:134-138 | filling capacity 4, dequeuing twice and enqueuing two more leaves c, d, e, f |
| QueueScenarios.ListQueueOnWrap | autograders/Midterm/tests/test_mid.py:134-140 | both 2x2 queues list Charlie, David, Emma, Frank |
| QueueScenarios.FullAndEmptyTwoByTwo | autograders/Midterm/tests/test_mid.py:85-99 | a full 2x2 queue refuses a fifth name, and its dequeue returns Abby. An empty queue's dequeue returns None |
| OwnList.RenderShape | autograders/Ch8-OwnList/solution/mylist_solution.py:29-47 | the text starts with "k/m; " where both numbers read back as the length and block size. An empty list adds "List is empty"; otherwise the text continues with "[ " and ends with " ]" |
| OwnList.RenderListsInOrder | autograders/Ch8-OwnList/solution/mylist_solution.py:40-46 | each element's text appears verbatim, in order, each after the previous one and a ", " |
| OwnList.MyList.constructor | autograders/Ch8-OwnList/solution/mylist_solution.py:13-23 | an empty list over a block of `maximum_size` empty slots |
| OwnList.MyList.Len | autograders/Ch8-OwnList/solution/mylist_solution.py:25-27 | `len` is the number of elements and never exceeds the block size |
| OwnList.MyList.EnsureCapacity | autograders/Ch8-OwnList/solution/mylist_solution.py:56-70 | the elements never change. A full block is replaced by a fresh one `factor` times larger; otherwise block and size stay |
| OwnList.MyList.Insert | autograders/Ch8-OwnList/solution/mylist_solution.py:72-87 | for 0 <= index <= len, the value is inserted at index, growing a full block by 2; any other index changes nothing |
| OwnList.MyList.ShiftRight | autograders/Ch8-OwnList/solution/mylist_solution.py:79-83 | slots index..len-1 move one slot right; earlier slots and the empty tail stay |
| OwnList.MyList.Append | autograders/Ch8-OwnList/solution/mylist_solution.py:49-54 | the value goes at the end, growing a full block by 2 |
| OwnList.MyList.Remove | autograders/Ch8-OwnList/solution/mylist_solution.py:89-105 | for 0 <= index < len, returns the element there and closes the gap; otherwise returns None and changes nothing. The block never shrinks |
| OwnList.MyList.Pop | autograders/Ch8-OwnList/solution/mylist_solution.py:107-111 | removes and returns the last element, or returns None when empty |
| OwnList.MyList.ToString | autograders/Ch8-OwnList/solution/mylist_solution.py:29-47 | the loop builds exactly the rendered text whose shape and order the two lemmas above state |
| Collisions.HashCode | Sakai-week-09/SOLUTIONS_simulate_collisions.py:44-49 | the fold h*31 + ord(c) over unbounded integers is never negative |
| Collisions.Power | Sakai-week-09/SOLUTIONS_simulate_collisions.py:48 | a power of a positive base is positive |
| Collisions.HashCodeConcat | Sakai-week-09/SOLUTIONS_simulate_collisions.py:44-49 | hash(a + b) == hash(a) * 31^len(b) + hash(b) |
| Collisions.DistinctNamesCollide | Sakai-week-09/SOLUTIONS_simulate_collisions.py:51-53 | "Aa" and "BB" differ but both hash to 2112, and so share a room in every hotel |
| Collisions.HashFunction | Sakai-week-09/SOLUTIONS_simulate_collisions.py:51-53 | the room is in [0, N) and is the remainder of the hash code divided by N |
| Collisions.ComputeHashCode | Sakai-week-09/SOLUTIONS_simulate_collisions.py:44-49 | the loop computes the fold |
| Collisions.Occupied | Sakai-week-09/SOLUTIONS_simulate_collisions.py:60 | the number of occupied rooms is at most the number of rooms, and zero exactly when all are empty |
| Collisions.OccupiedAfterFill | Sakai-week-09/SOLUTIONS_simulate_collisions.py:61-63 | filling a room adds one occupied room exactly when it was empty |
| Collisions.Vacant | Sakai-week-09/SOLUTIONS_simulate_collisions.py:27 | `[None] * N` has N rooms, none occupied |
| Collisions.CheckInOneSpec | Sakai-week-09/SOLUTIONS_simulate_collisions.py:55-64 | a check-in succeeds exactly when the name's room is empty. On success the name is placed there and no other room changes; on failure nothing changes. Occupancy rises by one exactly on success |
| Collisions.CheckInAll | Sakai-week-09/SOLUTIONS_simulate_collisions.py:66-76 | the success count equals the rooms newly occupied, is at most the number of guests and of empty rooms, and no guest is ever evicted |
| Collisions.AdmissionsBound | Sakai-week-09/SOLUTIONS_simulate_collisions.py:66-76 | on an empty hotel, admissions are at most min(guests, N) and equal the occupied rooms afterwards |
| Collisions.SecondOfCollidingPairTurnedAway | Sakai-week-09/SOLUTIONS_simulate_collisions.py:55-64 | of two colliding guests only the first is admitted, and it holds the room |
| Collisions.TotalAdmissions | Sakai-week-09/SOLUTIONS_simulate_collisions.py:78-89 | the total over the simulations is at most simulations * N |
| Collisions.TotalAdmissionsBound | Sakai-week-09/SOLUTIONS_simulate_collisions.py:78-89 | with g guests per simulation the total is at most simulations * g |
| Collisions.SimulateCollisions.constructor | Sakai-week-09/SOLUTIONS_simulate_collisions.py:19-30 | N, guests and trials are stored and the hotel is N empty rooms |
| Collisions.SimulateCollisions.Reset | Sakai-week-09/SOLUTIONS_simulate_collisions.py:32-34 | the hotel is replaced by a fresh list of N empty rooms |
| Collisions.SimulateCollisions.CheckIn | Sakai-week-09/SOLUTIONS_simulate_collisions.py:55-64 | the rooms and result are those of one check-in, whose meaning CheckInOneSpec states |
| Collisions.SimulateCollisions.SimulateCheckIn | Sakai-week-09/SOLUTIONS_simulate_collisions.py:66-76 | the loop's rooms and success count are those of checking in the guests in order, as CheckInAll states |
| Collisions.SimulateCollisions.RunSimulations | Sakai-week-09/SOLUTIONS_simulate_collisions.py:78-89 | the total is the sum of admissions over simulations on freshly reset hotels |
| TrainLine.Station.constructor | Station.py:3-7 | a new station has the given name and no next station |
| TrainLine.Station.SetNext | Station.py:9-11 | the next pointer becomes the given station |
| TrainLine.Station.GetNext | Station.py:13-15 | returns the next pointer |
| TrainLine.Station.GetName | Station.py:17-19 | returns the name fixed at construction |
| TrainLine.Station.HasNext | Station.py:21-23 | true exactly when there is a next station |
| TrainLine.NamesOf | EuropeanTrainLine.py:67 | the stations' names, one per station, in order |
| TrainLine.EuropeanTrainLine.constructor | EuropeanTrainLine.py:16-22 | a line with the given name, no head, no tail and count 0 |
| TrainLine.EuropeanTrainLine.Add | EuropeanTrainLine.py:24-47 | a name becomes a fresh station, and a station is used as given. It is linked after the tail, or becomes the head of an empty line. It becomes the tail with no next, the station sequence gains it at the end and the count rises by one, all with the chain invariant kept |
| TrainLine.EuropeanTrainLine.CountStations | EuropeanTrainLine.py:49-53 | the cached count is the number of stations on the chain |
| TrainLine.EuropeanTrainLine.Length | EuropeanTrainLine.py:55-57 | `len` is the number of stations |
| TrainLine.EuropeanTrainLine.ToString | EuropeanTrainLine.py:59-67 | "<name> has <count> <word>": the count reads back from its digits, and the word is "station" exactly for one station, "stations" otherwise (including none) |
| TrainLine.EuropeanTrainLine.IsTruthy | EuropeanTrainLine.py:69-70 | truthy exactly when the line has a station |
| TrainLine.EuropeanTrainLine.ChainFromHead | EuropeanTrainLine.py:49-53 | following `next` from the head i times reaches the i-th station, and count steps run off the end: the cached count is the chain's length |
| TrainLine.EuropeanTrainLine.FollowFrom | EuropeanTrainLine.py:41-45 | k steps along `next` from the i-th station reach station i+k, or the end |
| DoublyLinked.Node.constructor | Sakai-week-07/DoublyLinkedList.py:28 | a new node holds the data and has no neighbours |
| DoublyLinked.Node.GetNext | Sakai-week-07/DoublyLinkedList.py:18 | returns the next pointer |
| DoublyLinked.DataOf | Sakai-week-07/DoublyLinkedList.py:17 | the nodes' data, one per node, in order |
| DoublyLinked.DoublyLinkedList.constructor | Sakai-week-07/DoublyLinkedList.py:5-8 | an empty list: no head, no tail, size 0 |
| DoublyLinked.DoublyLinkedList.IsEmpty | Sakai-week-07/DoublyLinkedList.py:21-22 | empty exactly when the list holds no element |
| DoublyLinked.DoublyLinkedList.GetSize | Sakai-week-07/DoublyLinkedList.py:24-25 | the size is the number of elements |
| DoublyLinked.DoublyLinkedList.AddToBack | Sakai-week-07/DoublyLinkedList.py:27-35 | the data is appended in a fresh tail node, links in both directions are kept, and the size rises by one |
| DoublyLinked.DoublyLinkedList.AddToFront | Sakai-week-07/DoublyLinkedList.py:37-45 | the data is prepended in a fresh head node, links in both directions are kept, and the size rises by one |
| DoublyLinked.DoublyLinkedList.Repr | Sakai-week-07/DoublyLinkedList.py:13-19 | walking `next` from the head yields every element's text in order, joined by " <-> ", and "" when empty |
| Submissions.LStrip | autograders/Ch8-OwnList/runner_mylist.py:29 | lstrip drops a leading run of stripped characters and stops at the first other one |
| Submissions.RStrip | autograders/Ch8-OwnList/runner_mylist.py:29 | rstrip drops a trailing run of stripped characters and stops at the last other one |
| Submissions.Strip | autograders/Ch8-OwnList/runner_mylist.py:29-30 | the result is no longer than the text, and neither starts nor ends with a stripped character |
| Submissions.StripRemovesEnds | autograders/Ch8-OwnList/runner_mylist.py:29-30 | the text is a run of stripped characters, the result, and another such run |
| Submissions.StripFrame | autograders/Ch8-OwnList/runner_mylist.py:29-30 | a middle with no stripped character at either end, between two runs of stripped characters, is exactly what strip returns |
| Submissions.StripIdempotent | autograders/Ch8-OwnList/runner_mylist.py:29-30 | stripping twice is stripping once |
| Submissions.StripLacks | autograders/Ch8-OwnList/runner_mylist.py:30 | stripping introduces no character |
| Submissions.LastIndexOf | autograders/Ch8-OwnList/runner_mylist.py:28 | the position of the last occurrence |
| Submissions.RSplitOnce | autograders/Ch8-OwnList/runner_mylist.py:28 | rsplit(c, 1) gives the text before the last c and the c-free text after it |
| Submissions.LastIndexUnique | autograders/Ch8-OwnList/runner_mylist.py:28 | an occurrence with none after it is the last one |
| Submissions.RSplitJoined | autograders/Ch8-OwnList/runner_mylist.py:28 | rsplit undoes joining two texts with c when the second lacks c |
| Submissions.Split | autograders/Ch8-OwnList/runner_mylist.py:48 | split(c) gives at least one piece, and no piece holds c |
| Submissions.JoinSplit | autograders/Ch8-OwnList/runner_mylist.py:48-52 | joining the pieces of a split with the separator restores the text |
| Submissions.SplitJoin | autograders/Ch8-OwnList/runner_mylist.py:48-52 | splitting a join of separator-free pieces restores the pieces |
| Submissions.SplitFirst | autograders/Ch8-OwnList/runner_mylist.py:105 | split(c)[0] is the longest c-free prefix, followed by c when c occurs |
| Submissions.ParseStudentInfo | autograders/Ch8-OwnList/runner_mylist.py:19-31 | fewer than two parts is the too-short error. A directory lacking '(' or ')' is the no-uvid error. Otherwise the uvid holds no '(', and neither it nor the name starts or ends with what their strips remove |
| Submissions.ParseRoundTrip | autograders/Ch8-OwnList/runner_mylist.py:19-31 | any path whose second-to-last part is "<name> (<uvid>)" parses back to (uvid, name), for every name and uvid the parser can return |
| Submissions.SplitAndStrip | autograders/Ch8-OwnList/runner_mylist.py:28-30 | rsplit on '(' then strip of each half recovers the name and uvid of "<name> (<uvid>)" |
| Submissions.DisableLastLine | autograders/Ch8-OwnList/runner_mylist.py:49-51 | every line but the last stays. The last is replaced by the commented-out main exactly when it starts with "main()" |
| Submissions.DisableMainSpec | autograders/Ch8-OwnList/runner_mylist.py:48-52 | the lines of the rewritten code are the stripped code's lines with only the last rewritten. Code not ending in a main() line comes back stripped and otherwise unchanged |
| Submissions.RewriteLines | autograders/Ch8-OwnList/runner_mylist.py:48-52 | rewriting the last line and joining with newlines yields a text whose lines are the rewritten ones |
| Submissions.Stem | autograders/Ch8-OwnList/runner_mylist.py:105 | the stem is a prefix of the file name |
| Submissions.StemOfDestFileName | autograders/Ch8-OwnList/runner_mylist.py:43 | the stem of "<uvid>_<assignment>.py" is "<uvid>_<assignment>" |
| Submissions.FirstPieceIsUvid | autograders/Ch8-OwnList/runner_mylist.py:105 | a uvid without '_' is the first '_'-piece of its stem |
| Submissions.FirstPieceCutShort | autograders/Ch8-OwnList/runner_mylist.py:105 | a uvid holding '_' comes back truncated |
| Submissions.FileNameRoundTrip | autograders/Ch8-OwnList/runner_mylist.py:43-105 | the uvid read back from the destination file name equals the one written exactly when it holds no '_' |
| Submissions.RunnerFileNames | autograders/Ch9-RectangleOOP/main.py:82 | both runners (MyList and Rectangle) recover every '_'-free uvid |

## Left out

- Printing, logging, files, globbing, subprocesses, pytest runs and CSV or
  JSON reports are outside the model. They are all I/O around the modelled
  logic.
- Collisions.SimulateCollisions.SimulateCheckIn: the random guest names of
  `generate_random_string` are given as a parameter of `guests` names, and
  the random generator itself is not modelled.
- Collisions.SimulateCollisions.RunSimulations: returns the total admissions
  instead of printing their average, because the division is floating point
  output only.
- Collisions.SimulateCollisions.constructor: requires N >= 1. With N == 0
  the source's `% N` raises ZeroDivisionError, and negative N is not a
  hotel size.
- Collisions.HashCode uses exact integers, like Python; there is no
  wrap-around to model.
- OwnList.MyList.constructor: requires maximum_size >= 1. A block of 0 slots
  never grows (0 * 2 == 0), so the source's first insert raises IndexError,
  which the model does not represent.
- OwnList.MyList.EnsureCapacity: requires factor >= 1; the source only
  calls it with the default 2.
- Elements of `MyList` and `DoublyLinkedList` are generic. Python's `str`
  of an element is the parameter `show`.
- TrainLine.EuropeanTrainLine.Add: requires that a Station passed in is not
  already on the line. Re-adding one cuts off the stations after it (its
  next is reset to None) while the count still goes up by one, so the chain
  and the count disagree; re-adding the tail leaves the chain unchanged with
  a count one too high. The model does not represent that state.
- TrainLine.EuropeanTrainLine.Add takes `str | Station` as the datatype
  `NewStation`. The `isinstance` test becomes the choice of constructor.
- The `Node` class of `DoublyLinkedList` (Node.py) is not part of this
  model. Its constructor, links and `get_next` are assumed from their use,
  and `str(node)` is the parameter `show` applied to the node's data.
- TwoDimensionalQueue.TwoDimensionalQ.Repr: states the fixed prefix and the
  length bound that the tests check, not the whole text. The cursor pairs
  are rendered by `PosText`.
- TwoDimensionalQueue.TwoDimensionalQ.Dequeue advances the front row modulo
  n, the intended step; the step as written is modelled separately (see
  Findings).
- TwoDimensionalQueue.TwoDimensionalQ.Items: the generator `__iter__` is
  modelled as a method returning the whole sequence it yields.
- Both queues hold `str` payloads. Python's `None` as a payload is not a
  value the queues store, so it is not modelled.
- Both queue constructors require n >= 1. The source also accepts n == 0:
  a queue of capacity 0 that refuses every enqueue and answers every
  dequeue with None. The model leaves that degenerate grid out.
- Submissions.ParseStudentInfo: a `Path` is given as its list of parts, and
  the two ValueError messages are the two kinds of `ParseError`.
- Submissions.Stem models `Path.stem` on a plain file name: the text before
  the last '.', unless that dot is the first or last character.
- The rewrite in runner_mylist.py only happens when the destination file
  does not exist yet. That check is file I/O and is left out;
  `DisableMain` models the text transformation. The Rectangle runner copies
  the code unchanged.

## Findings

| source | as written | input that shows it | evidently intended | confidence | as-written member | corrected member |
|---|---|---|---|---|---|---|
| autograders/Midterm/solution/two_dimensional_q.py:90 | `dequeue` moves the front to the next row with `front_row + 1`, without `% n`, when the column wraps | n = 2: enqueue Abby and Beth, dequeue, enqueue Charlie and David, dequeue three times. The front becomes (2, 0), so the next `peek` (line 31) or `dequeue` (line 84) indexes row 2 of a 2-row grid. The midterm test (test_mid.py:102-113) expects (0, 0) and Emma. The same happens after nine dequeues on 3x3, where the front reaches (3, 0) | `front_row = (front_row + 1) % self._n`, as `enqueue` (line 74) and `list_queue` (line 104) do | high; not executed | QueueScenarios.FrontAfterTwoByTwoWrap | Grid.WrappedLap |
