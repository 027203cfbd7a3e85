# Smart Hospital patient registry — Dafny model

This project models the in-memory core of a small hospital registry written in C++
(`Smart_Hospital_Patient_Management_System.cpp`), with the console prompts and menu removed:

- **Admission and discharge.** Patients wait in an emergency deque or a normal queue. Each
  admission stamps `arrivalTime = ++timeCounter`. An emergency patient is pushed to the *front*
  of the deque and a normal patient to the *back* of the queue. Discharge always serves the
  emergency deque first, popping from its front. So the emergency class is served latest-first
  and the normal class first-in-first-out.
- **Archive list.** Every discharged record is prepended to a singly linked list, newest first.
- **Discharge index.** Every discharged record is also inserted into an unbalanced binary search
  tree keyed by id. Equal ids go right. Search stops at the first node with the id on the way down.
  The in-order walk is returned as a sequence instead of being printed.
- **Undo/redo history.** Two stacks of `{kind, patient}` operations. Admission pushes `ADMIT` and
  empties the redo stack. Undo and redo only move the top operation from one stack to the other.
  They never touch the queues, the index or the archive.
- **Sorting a list of records** in place by severity (most severe first), arrival time (earliest
  first) or department (lexicographic). Any other choice leaves the list unchanged.

Files:

- `patients.dfy` (module `Patients`): the `Patient` and `Operation` records and an `Option` type.
  `None` stands for the null pointer and for the "nothing to do" messages.
- `patient_tree.dfy` (module `PatientTree`): the search tree as a datatype, with `Insert`,
  `Search` and `Inorder`, the class `PatientBST` that owns the root, and their lemmas.
- `scheduler.dfy` (module `Scheduler`): the global state as a value `Registry`, and each operation
  as a function from the old state to the new one. Around them sit the invariant `Consistent` and
  the lemmas: per-call effects, emergency priority, order within each class, undo/redo symmetry,
  and whole runs of admissions and discharges.
- `hospital.dfy` (module `HospitalSystem`): the class `Hospital` whose fields are the source's
  globals. Its methods update those fields in place. Each method's postcondition says its new
  state and result are exactly what the matching `Scheduler` function gives. Each method also
  keeps `Valid()`. `DischargePatient` also inserts the record into the `PatientBST` passed in.
- `sorting.dfy` (module `Sorting`): the three comparators, a lexicographic string order with its
  order lemmas, and `SortPatients`, an in-place insertion sort over an `array`.

Representation: both waiting queues keep their front at index 0. Both history stacks keep their
top at the last index. The archive keeps its head (the newest discharge) at index 0.

Two behaviours of the code that are easy to misread:

- `push_front` (line 102) and `pop_front` (line 146) both act on the deque's front, so the latest
  emergency admission leaves first; only the normal class is first-in-first-out.
  `Scheduler.OrderWithinClass`, `Scheduler.AdmitAllEmergencyQueue` and `Scheduler.DischargeOrder`
  state this.
- `sortPatients` reorders the caller's vector in place, and so does `Sorting.SortPatients`.

## Model

| member | source | states |
|---|---|---|
| PatientTree.Insert | Smart_Hospital_Patient_Management_System.cpp:43-50 | the tree's records grow by exactly the inserted record, and a search tree stays a search tree (smaller ids left, equal or larger ids right) |
| PatientTree.PatientBST.InsertPatient | Smart_Hospital_Patient_Management_System.cpp:52-54 | the root becomes the result of inserting into the old root: exactly one more record, and the search-tree invariant `Valid()` is kept |
| PatientTree.Search | Smart_Hospital_Patient_Management_System.cpp:56-60 | a found record has the id sought and is in the tree; on a search tree, a record is found whenever some record has that id (so None means no such id); which duplicate is found is stated by `InsertKeepsFound` and `InsertFreshFound` |
| PatientTree.PatientBST.SearchById | Smart_Hospital_Patient_Management_System.cpp:62-64 | on the index (a search tree), a record is found exactly when some record has the id, and a found record has that id and is in the index |
| PatientTree.Inorder | Smart_Hospital_Patient_Management_System.cpp:66-71 | the traversal lists every record of the tree exactly once (same multiset) |
| PatientTree.InorderAscending | Smart_Hospital_Patient_Management_System.cpp:66-71 | on a search tree the traversal lists ids in non-decreasing order |
| PatientTree.PatientBST.InorderSequence | Smart_Hospital_Patient_Management_System.cpp:66-71 | the walk from the root lists every record of the index exactly once, with ids in non-decreasing order |
| PatientTree.InsertKeepsFound | Smart_Hospital_Patient_Management_System.cpp:43-60 | inserting a record never changes what a search for an id already found returns |
| PatientTree.InsertFreshFound | Smart_Hospital_Patient_Management_System.cpp:43-60 | after inserting a record whose id was not found, a search for that id returns that very record |
| PatientTree.InsertThenSearch | Smart_Hospital_Patient_Management_System.cpp:43-64 | after an insertion, a search for the new id returns the previously found record if there was one, and the new record otherwise; so among duplicates the first one inserted is returned |
| PatientTree.InsertScenario | Smart_Hospital_Patient_Management_System.cpp:43-50 | inserting ids 5, 3, 8, 1 builds the tree with 3 and 1 down the left and 8 on the right |
| PatientTree.InorderScenario | Smart_Hospital_Patient_Management_System.cpp:66-71 | that tree is walked as ids 1, 3, 5, 8 |
| Scheduler.InitialConsistent | Smart_Hospital_Patient_Management_System.cpp:79-84 | the empty start state satisfies the queue-order invariant, with nobody waiting and an empty archive |
| Scheduler.AdmitEffects | Smart_Hospital_Patient_Management_System.cpp:99-110 | one admission raises the counter by exactly 1 and stamps it as the arrival time; the record goes to the front of the emergency deque or the back of the normal queue, and the other queue is unchanged; the waiting multiset grows by exactly that record; `{ADMIT, p}` is pushed; the redo stack is empty; the archive is unchanged |
| Scheduler.AdmitStampsLatest | Smart_Hospital_Patient_Management_System.cpp:99 | the new arrival time is strictly larger than that of every waiting patient |
| Scheduler.AdmitKeepsConsistent | Smart_Hospital_Patient_Management_System.cpp:99-107 | admission keeps the invariant: normal queue in admission order, emergency deque in reverse admission order, no arrival time above the counter |
| Scheduler.AdmitClearsRedo | Smart_Hospital_Patient_Management_System.cpp:109-110 | right after an admission a redo reports nothing and changes nothing |
| Scheduler.EmergencyFirst | Smart_Hospital_Patient_Management_System.cpp:141-148 | while the emergency deque is non-empty, discharge returns its front and leaves the normal queue as it was; a discharged record that was not in the emergency deque means the deque was empty and the record is the normal queue's front |
| Scheduler.DischargeTakesFirst | Smart_Hospital_Patient_Management_System.cpp:141-148 | discharge returns the first of all waiting patients (emergency deque first) and leaves the others in their order |
| Scheduler.DischargeEffects | Smart_Hospital_Patient_Management_System.cpp:135-151 | with both queues empty nothing changes and nothing is returned; otherwise exactly one waiting record leaves, it becomes the archive's head with the old archive after it, and the counter and both stacks are unchanged |
| Scheduler.DischargeKeepsConsistent | Smart_Hospital_Patient_Management_System.cpp:141-151 | discharge keeps the queue-order invariant |
| Scheduler.OrderWithinClass | Smart_Hospital_Patient_Management_System.cpp:101-148 | in a consistent state, a discharged normal patient arrived before every normal patient still waiting, and a discharged emergency patient arrived after every emergency patient still waiting |
| Scheduler.UndoTransfers | Smart_Hospital_Patient_Management_System.cpp:113-122 | on an empty undo stack nothing changes and nothing is reported; otherwise the top operation is reported, removed from the undo stack and pushed on the redo stack, and nothing else changes |
| Scheduler.RedoTransfers | Smart_Hospital_Patient_Management_System.cpp:124-133 | the mirror image for redo |
| Scheduler.UndoRedoSymmetric | Smart_Hospital_Patient_Management_System.cpp:113-133 | undo then redo restores the whole state and reports the same operation, and so does redo then undo |
| Scheduler.UndoRedoKeepConsistent | Smart_Hospital_Patient_Management_System.cpp:113-133 | undo and redo keep the queue-order invariant |
| Scheduler.ArrivalsPartition | Smart_Hospital_Patient_Management_System.cpp:101-107 | every admission lands in exactly one of the two classes |
| Scheduler.AdmitAllNormalQueue | Smart_Hospital_Patient_Management_System.cpp:104-105 | a run of admissions appends the normal arrivals to the normal queue in admission order |
| Scheduler.AdmitAllEmergencyQueue | Smart_Hospital_Patient_Management_System.cpp:101-102 | a run of admissions puts the emergency arrivals in front of the emergency deque in reverse admission order |
| Scheduler.AdmitAllCounter | Smart_Hospital_Patient_Management_System.cpp:84-99 | a run of n admissions advances the counter by exactly n and leaves the archive unchanged |
| Scheduler.DischargeManyOrder | Smart_Hospital_Patient_Management_System.cpp:135-151 | discharging once per waiting patient returns the emergency deque front to back and then the normal queue front to back; both queues end empty; the archive receives them newest first |
| Scheduler.DischargeOrder | Smart_Hospital_Patient_Management_System.cpp:99-151 | from a state with nobody waiting, admissions followed by as many discharges release every emergency patient, latest admission first, and then every normal patient, in admission order |
| Scheduler.EmergencyOvertakesScenario | Smart_Hospital_Patient_Management_System.cpp:99-151 | admit normal P1, then emergency P2: discharges return P2, then P1, then nothing, and the archive lists P1 before P2 |
| HospitalSystem.Hospital.constructor | Smart_Hospital_Patient_Management_System.cpp:79-84 | empty queues, stacks and archive, counter 0, invariant holds |
| HospitalSystem.Hospital.ArchivePatient | Smart_Hospital_Patient_Management_System.cpp:33-37 | the record becomes the archive's head and the old archive follows it; nothing else changes |
| HospitalSystem.Hospital.AdmitPatient | Smart_Hospital_Patient_Management_System.cpp:86-111 | the new state is exactly `Scheduler.Admit` of the old one. The redo stack is emptied by a loop, as in the source. The invariant is kept |
| HospitalSystem.Hospital.Undo | Smart_Hospital_Patient_Management_System.cpp:113-122 | new state and reported operation are exactly `Scheduler.Undo` of the old state; invariant kept |
| HospitalSystem.Hospital.Redo | Smart_Hospital_Patient_Management_System.cpp:124-133 | new state and reported operation are exactly `Scheduler.Redo` of the old state; invariant kept |
| HospitalSystem.Hospital.DischargePatient | Smart_Hospital_Patient_Management_System.cpp:135-154 | new state and result are exactly `Scheduler.Discharge` of the old state. The discharged record is inserted into the index, which stays a search tree. The index is untouched when nobody waits. The invariant is kept |
| Sorting.LexLessIrreflexive | Smart_Hospital_Patient_Management_System.cpp:167 | no department name is lexicographically before itself |
| Sorting.LexLessAsymmetric | Smart_Hospital_Patient_Management_System.cpp:167 | two names are never each before the other |
| Sorting.LexLessTransitive | Smart_Hospital_Patient_Management_System.cpp:167 | the lexicographic order is transitive |
| Sorting.LexLessTrichotomous | Smart_Hospital_Patient_Management_System.cpp:167 | any two names are equal or ordered one way or the other |
| Sorting.BeforeAsymmetric | Smart_Hospital_Patient_Management_System.cpp:156-168 | each of the three comparators is asymmetric |
| Sorting.NotBeforeTransitive | Smart_Hospital_Patient_Management_System.cpp:156-168 | "not strictly before" is transitive for each comparator, so each is a strict weak order as sorting requires |
| Sorting.SortedBySeverity | Smart_Hospital_Patient_Management_System.cpp:157-159 | sorted with choice 1 means severities never increase along the list |
| Sorting.SortedByArrival | Smart_Hospital_Patient_Management_System.cpp:161-163 | sorted with choice 2 means arrival times never decrease along the list |
| Sorting.SortedByDepartment | Smart_Hospital_Patient_Management_System.cpp:165-167 | sorted with choice 3 means departments never decrease lexicographically along the list |
| Sorting.SortPatients | Smart_Hospital_Patient_Management_System.cpp:156-168 | for choice 1, 2 or 3 the array ends as a permutation of its old contents in which no record belongs strictly before an earlier one; for any other choice it is unchanged |

## Left out

- Console input and output: the prompts, field reads and messages. Field values are method
  parameters. Messages become returned values: `None` for "No patients to discharge", "Nothing to
  undo", "Nothing to redo" and "Patient not found", and the operation itself for "Undo/Redo
  operation performed".
- The menu loop in `main` (lines 170-221), a user-interface shell. Two sample runs of it are
  stated as lemmas instead (`Scheduler.EmergencyOvertakesScenario`,
  `PatientTree.InorderScenario`), and `HospitalSystem.HistoryRoundTrip` runs undo and redo on
  the class.
- Heap allocation and the nodes the source never frees. The archive is a sequence, and the index
  is a value tree owned by `PatientBST`. `insert` rewrites child pointers while it recurses; the
  model rebuilds the path as a value, so pointer aliasing is not modelled.
- PatientTree.Search: its own contract does not say which of several records with the same id is
  returned; `PatientTree.InsertThenSearch` states it for trees built by insertion (the first one
  inserted).
- PatientTree.Search also returns the found record, not a pointer to the node and its subtrees.
  PatientTree.Inorder returns whole records; the source prints only their ids and names.
- Sorting.SortPatients: the order of records with equal keys is not specified, because
  `std::sort` is not stable. Sorting is done by insertion. The source's `std::sort` algorithm is
  not modelled, only its result.
- Sorting.LexLess: compares characters by code point. The source compares `std::string` bytes as
  `unsigned char`. The two agree on ASCII. Text encodings are not modelled.
- HospitalSystem.Hospital.AdmitPatient: `timeCounter` and all ids and severities are unbounded
  integers. The source's 32-bit `int` counter would overflow after 2^31 - 1 admissions; that is
  not modelled.
- Validation that the source does not do either: duplicate ids and out-of-range severities are
  accepted. Undo and redo do not alter the queues.
