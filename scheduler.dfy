/**
 * The registry's global state as a value, and each operation of the admission
 * and discharge scheduler, the archive list and the undo/redo history as a
 * function from the state before to the state after. The class in module
 * HospitalSystem performs these operations in place and is specified by them.
 *
 * Layout: both waiting queues keep their front at index 0; both history stacks
 * keep their top at the last index; the archive keeps its head (the newest
 * discharge) at index 0.
 */
module Scheduler {
  import opened Patients

  datatype Registry = Registry(
    emergencyQueue: seq<Patient>,
    normalQueue: seq<Patient>,
    timeCounter: int,
    undoStack: seq<Operation>,
    redoStack: seq<Operation>,
    archive: seq<Patient>)

  /** What the caller supplies on admission; the arrival time is not among it. */
  datatype Request = Request(
    id: int,
    name: string,
    severity: int,
    department: string,
    emergency: bool)

  /** Empty containers and a counter at zero, as the program starts. */
  const Initial: Registry := Registry([], [], 0, [], [], [])

  /** The record built from a request once the scheduler has given it its arrival time. */
  function Stamp(req: Request, arrival: int): Patient
  {
    Patient(req.id, req.name, req.severity, req.department, arrival)
  }

  /** Everyone still waiting, emergency queue first, each queue front first. */
  function Waiting(s: Registry): seq<Patient>
  {
    s.emergencyQueue + s.normalQueue
  }

  function Reverse(s: seq<Patient>): (r: seq<Patient>)
    ensures |r| == |s|
    ensures forall k :: 0 <= k < |s| ==> r[k] == s[|s| - 1 - k]
  {
    if s == [] then [] else Reverse(s[1..]) + [s[0]]
  }

  // ---------------------------------------------------------------------------
  // The operations

  /** Prepending to the archive list. */
  function ArchivePatient(s: Registry, p: Patient): Registry
  {
    s.(archive := [p] + s.archive)
  }

  /**
   * Admission: the counter is advanced and becomes the arrival time; an
   * emergency goes to the front of the emergency deque, anyone else to the
   * back of the normal queue; an ADMIT operation is pushed and the redo stack
   * is emptied.
   */
  function Admit(s: Registry, req: Request): Registry
  {
    var p := Stamp(req, s.timeCounter + 1);
    s.(timeCounter := s.timeCounter + 1,
       emergencyQueue := if req.emergency then [p] + s.emergencyQueue else s.emergencyQueue,
       normalQueue := if req.emergency then s.normalQueue else s.normalQueue + [p],
       undoStack := s.undoStack + [Operation(AdmitKind, p)],
       redoStack := [])
  }

  /**
   * Discharge: the front of the emergency deque if it has one, else the front
   * of the normal queue; the record is archived. None when nobody waits.
   * (The index insertion is done by the caller that owns the tree.)
   */
  function Discharge(s: Registry): (Registry, Option<Patient>)
  {
    if s.emergencyQueue == [] && s.normalQueue == [] then (s, None)
    else if s.emergencyQueue != [] then
      var p := s.emergencyQueue[0];
      (ArchivePatient(s.(emergencyQueue := s.emergencyQueue[1..]), p), Some(p))
    else
      var p := s.normalQueue[0];
      (ArchivePatient(s.(normalQueue := s.normalQueue[1..]), p), Some(p))
  }

  /** Undo: the top of the undo stack moves onto the redo stack and is reported. */
  function Undo(s: Registry): (Registry, Option<Operation>)
  {
    if s.undoStack == [] then (s, None)
    else
      var op := s.undoStack[|s.undoStack| - 1];
      (s.(undoStack := s.undoStack[..|s.undoStack| - 1], redoStack := s.redoStack + [op]), Some(op))
  }

  /** Redo: the top of the redo stack moves back onto the undo stack and is reported. */
  function Redo(s: Registry): (Registry, Option<Operation>)
  {
    if s.redoStack == [] then (s, None)
    else
      var op := s.redoStack[|s.redoStack| - 1];
      (s.(redoStack := s.redoStack[..|s.redoStack| - 1], undoStack := s.undoStack + [op]), Some(op))
  }

  // ---------------------------------------------------------------------------
  // The invariant every reachable state keeps

  /** Arrival times strictly increase from front to back (admission order). */
  ghost predicate EarliestFirst(q: seq<Patient>)
  {
    forall i, j :: 0 <= i < j < |q| ==> q[i].arrivalTime < q[j].arrivalTime
  }

  /** Arrival times strictly decrease from front to back (reverse admission order). */
  ghost predicate LatestFirst(q: seq<Patient>)
  {
    forall i, j :: 0 <= i < j < |q| ==> q[i].arrivalTime > q[j].arrivalTime
  }

  /**
   * The normal queue is in admission order (front = earliest), the emergency
   * deque in reverse admission order (front = latest), and no waiting patient
   * arrived after the current counter value.
   */
  ghost predicate Consistent(s: Registry)
  {
    EarliestFirst(s.normalQueue) &&
    LatestFirst(s.emergencyQueue) &&
    (forall q :: q in Waiting(s) ==> q.arrivalTime <= s.timeCounter)
  }

  lemma InitialConsistent()
    ensures Consistent(Initial)
    ensures Waiting(Initial) == [] && Initial.archive == []
  {
  }

  lemma AdmitKeepsConsistent(s: Registry, req: Request)
    requires Consistent(s)
    ensures Consistent(Admit(s, req))
  {
    var r := Admit(s, req);
    forall q | q in Waiting(r)
      ensures q.arrivalTime <= r.timeCounter
    {
      assert q in Waiting(s) || q == Stamp(req, r.timeCounter);
    }
    if req.emergency {
      forall i, j | 0 <= i < j < |r.emergencyQueue|
        ensures r.emergencyQueue[i].arrivalTime > r.emergencyQueue[j].arrivalTime
      {
        if i == 0 {
          assert r.emergencyQueue[j] == s.emergencyQueue[j - 1];
          assert s.emergencyQueue[j - 1] in Waiting(s);
        } else {
          assert r.emergencyQueue[i] == s.emergencyQueue[i - 1];
          assert r.emergencyQueue[j] == s.emergencyQueue[j - 1];
        }
      }
    } else {
      forall i, j | 0 <= i < j < |r.normalQueue|
        ensures r.normalQueue[i].arrivalTime < r.normalQueue[j].arrivalTime
      {
        if j == |s.normalQueue| {
          assert r.normalQueue[i] == s.normalQueue[i];
          assert s.normalQueue[i] in Waiting(s);
        }
      }
    }
  }

  /** Discharge takes the first of everyone waiting and leaves the rest in place. */
  lemma DischargeTakesFirst(s: Registry)
    requires Waiting(s) != []
    ensures Discharge(s).1 == Some(Waiting(s)[0])
    ensures Waiting(s) == [Waiting(s)[0]] + Waiting(Discharge(s).0)
  {
  }

  lemma DischargeKeepsConsistent(s: Registry)
    requires Consistent(s)
    ensures Consistent(Discharge(s).0)
  {
  }

  lemma UndoRedoKeepConsistent(s: Registry)
    requires Consistent(s)
    ensures Consistent(Undo(s).0) && Consistent(Redo(s).0)
  {
  }

  // ---------------------------------------------------------------------------
  // Admission

  /**
   * One admission advances the counter by exactly one, stamps the new value as
   * the arrival time, adds exactly that one record to exactly one queue, pushes
   * its ADMIT operation and leaves the redo stack empty.
   */
  lemma AdmitEffects(s: Registry, req: Request)
    ensures var r := Admit(s, req);
            var p := Stamp(req, s.timeCounter + 1);
            r.timeCounter == s.timeCounter + 1 &&
            (req.emergency ==> r.emergencyQueue == [p] + s.emergencyQueue && r.normalQueue == s.normalQueue) &&
            (!req.emergency ==> r.normalQueue == s.normalQueue + [p] && r.emergencyQueue == s.emergencyQueue) &&
            multiset(Waiting(r)) == multiset(Waiting(s)) + multiset{p} &&
            r.undoStack == s.undoStack + [Operation(AdmitKind, p)] &&
            r.redoStack == [] &&
            r.archive == s.archive
  {
  }

  /** In a consistent state the arrival time of a new admission exceeds that of everyone waiting. */
  lemma AdmitStampsLatest(s: Registry, req: Request)
    requires Consistent(s)
    ensures forall q :: q in Waiting(s) ==> q.arrivalTime < Stamp(req, s.timeCounter + 1).arrivalTime
  {
  }

  /** Right after an admission there is nothing to redo. */
  lemma AdmitClearsRedo(s: Registry, req: Request)
    ensures Redo(Admit(s, req)) == (Admit(s, req), None)
  {
  }

  // ---------------------------------------------------------------------------
  // Discharge

  /**
   * Emergency priority: while the emergency deque is not empty its front is
   * discharged and the normal queue is left alone; a normal patient is
   * discharged only when no emergency patient waits.
   */
  lemma EmergencyFirst(s: Registry)
    ensures s.emergencyQueue != [] ==>
              Discharge(s).1 == Some(s.emergencyQueue[0]) &&
              Discharge(s).0.normalQueue == s.normalQueue
    ensures Discharge(s).1.Some? && Discharge(s).1.value !in s.emergencyQueue ==>
              s.emergencyQueue == [] && Discharge(s).1 == Some(s.normalQueue[0])
  {
  }

  /**
   * With nobody waiting nothing changes; otherwise exactly one waiting record
   * leaves, it becomes the head of the archive with the previous archive after
   * it, and the counter and both history stacks are untouched.
   */
  lemma DischargeEffects(s: Registry)
    ensures Waiting(s) == [] ==> Discharge(s) == (s, None)
    ensures Waiting(s) != [] ==>
              var (r, d) := Discharge(s);
              d.Some? &&
              multiset(Waiting(r)) + multiset{d.value} == multiset(Waiting(s)) &&
              r.archive == [d.value] + s.archive &&
              r.timeCounter == s.timeCounter &&
              r.undoStack == s.undoStack && r.redoStack == s.redoStack
  {
    if Waiting(s) != [] {
      DischargeTakesFirst(s);
      var r := Discharge(s).0;
      assert multiset(Waiting(s)) == multiset{Waiting(s)[0]} + multiset(Waiting(r));
    }
  }

  /**
   * Order within each class: a discharged normal patient arrived before every
   * normal patient still waiting (first in, first out), a discharged emergency
   * patient after every emergency patient still waiting (last in, first out).
   */
  lemma OrderWithinClass(s: Registry)
    requires Consistent(s)
    ensures s.emergencyQueue == [] && s.normalQueue != [] ==>
              forall q :: q in Discharge(s).0.normalQueue ==>
                Discharge(s).1.value.arrivalTime < q.arrivalTime
    ensures s.emergencyQueue != [] ==>
              forall q :: q in Discharge(s).0.emergencyQueue ==>
                q.arrivalTime < Discharge(s).1.value.arrivalTime
  {
  }

  // ---------------------------------------------------------------------------
  // Undo and redo

  /** Undo moves the top of the undo stack onto the redo stack; nothing else changes. */
  lemma UndoTransfers(s: Registry)
    ensures s.undoStack == [] ==> Undo(s) == (s, None)
    ensures s.undoStack != [] ==>
              var (r, op) := Undo(s);
              op == Some(s.undoStack[|s.undoStack| - 1]) &&
              r.undoStack + [op.value] == s.undoStack &&
              r.redoStack == s.redoStack + [op.value] &&
              r.(undoStack := s.undoStack, redoStack := s.redoStack) == s
  {
  }

  /** Redo moves the top of the redo stack onto the undo stack; nothing else changes. */
  lemma RedoTransfers(s: Registry)
    ensures s.redoStack == [] ==> Redo(s) == (s, None)
    ensures s.redoStack != [] ==>
              var (r, op) := Redo(s);
              op == Some(s.redoStack[|s.redoStack| - 1]) &&
              r.redoStack + [op.value] == s.redoStack &&
              r.undoStack == s.undoStack + [op.value] &&
              r.(undoStack := s.undoStack, redoStack := s.redoStack) == s
  {
  }

  /** An undo followed by a redo restores both stacks, and so does a redo followed by an undo. */
  lemma UndoRedoSymmetric(s: Registry)
    ensures s.undoStack != [] ==> Redo(Undo(s).0) == (s, Undo(s).1)
    ensures s.redoStack != [] ==> Undo(Redo(s).0) == (s, Redo(s).1)
  {
    if s.undoStack != [] {
      assert s.undoStack[..|s.undoStack| - 1] + [s.undoStack[|s.undoStack| - 1]] == s.undoStack;
    }
    if s.redoStack != [] {
      assert s.redoStack[..|s.redoStack| - 1] + [s.redoStack[|s.redoStack| - 1]] == s.redoStack;
    }
  }

  // ---------------------------------------------------------------------------
  // Runs of operations

  /** Admitting a list of requests one after the other. */
  function AdmitAll(s: Registry, reqs: seq<Request>): Registry
    decreases reqs
  {
    if reqs == [] then s else AdmitAll(Admit(s, reqs[0]), reqs[1..])
  }

  /**
   * The records that a run of admissions starting at counter value `t` puts
   * into one class (emergency or not), in admission order.
   */
  function Arrivals(reqs: seq<Request>, t: int, emergency: bool): seq<Patient>
  {
    if reqs == [] then []
    else
      (if reqs[0].emergency == emergency then [Stamp(reqs[0], t + 1)] else [])
      + Arrivals(reqs[1..], t + 1, emergency)
  }

  /** Discharging `k` times, collecting the records that leave. */
  function DischargeMany(s: Registry, k: nat): (Registry, seq<Patient>)
    decreases k
  {
    if k == 0 then (s, [])
    else
      var (s1, d) := Discharge(s);
      var (s2, rest) := DischargeMany(s1, k - 1);
      (s2, (if d.Some? then [d.value] else []) + rest)
  }

  /** Every request lands in exactly one class. */
  lemma {:induction false} ArrivalsPartition(reqs: seq<Request>, t: int)
    ensures |Arrivals(reqs, t, true)| + |Arrivals(reqs, t, false)| == |reqs|
  {
    if reqs != [] {
      ArrivalsPartition(reqs[1..], t + 1);
    }
  }

  /** A run of admissions appends the normal arrivals to the normal queue in admission order. */
  lemma {:induction false} AdmitAllNormalQueue(s: Registry, reqs: seq<Request>)
    ensures AdmitAll(s, reqs).normalQueue == s.normalQueue + Arrivals(reqs, s.timeCounter, false)
    decreases reqs
  {
    if reqs != [] {
      var t := s.timeCounter;
      var s1 := Admit(s, reqs[0]);
      var p := Stamp(reqs[0], t + 1);
      assert AdmitAll(s, reqs) == AdmitAll(s1, reqs[1..]);
      assert s1.timeCounter == t + 1;
      AdmitAllNormalQueue(s1, reqs[1..]);
      var n := Arrivals(reqs[1..], t + 1, false);
      if reqs[0].emergency {
        assert s1.normalQueue == s.normalQueue;
        assert Arrivals(reqs, t, false) == n;
      } else {
        assert s1.normalQueue == s.normalQueue + [p];
        assert Arrivals(reqs, t, false) == [p] + n;
      }
    }
  }

  /**
   * A run of admissions puts the emergency arrivals in front of the emergency
   * deque in reverse admission order.
   */
  lemma {:induction false} AdmitAllEmergencyQueue(s: Registry, reqs: seq<Request>)
    ensures AdmitAll(s, reqs).emergencyQueue ==
              Reverse(Arrivals(reqs, s.timeCounter, true)) + s.emergencyQueue
    decreases reqs
  {
    if reqs != [] {
      var t := s.timeCounter;
      var s1 := Admit(s, reqs[0]);
      var p := Stamp(reqs[0], t + 1);
      assert AdmitAll(s, reqs) == AdmitAll(s1, reqs[1..]);
      assert s1.timeCounter == t + 1;
      AdmitAllEmergencyQueue(s1, reqs[1..]);
      var e := Arrivals(reqs[1..], t + 1, true);
      if reqs[0].emergency {
        assert s1.emergencyQueue == [p] + s.emergencyQueue;
        assert Arrivals(reqs, t, true) == [p] + e;
        assert ([p] + e)[1..] == e;
        assert Reverse([p] + e) == Reverse(e) + [p];
      } else {
        assert s1.emergencyQueue == s.emergencyQueue;
        assert Arrivals(reqs, t, true) == e;
      }
    }
  }

  /** A run of admissions advances the counter once per admission and leaves the archive alone. */
  lemma {:induction false} AdmitAllCounter(s: Registry, reqs: seq<Request>)
    ensures AdmitAll(s, reqs).timeCounter == s.timeCounter + |reqs|
    ensures AdmitAll(s, reqs).archive == s.archive
    decreases reqs
  {
    if reqs != [] {
      AdmitAllCounter(Admit(s, reqs[0]), reqs[1..]);
    }
  }

  /**
   * Discharging as many times as there are waiting patients takes the emergency
   * deque front to back and then the normal queue front to back, empties both,
   * and leaves the archive newest-first on top of what it held before.
   */
  lemma {:induction false} DischargeManyOrder(s: Registry, k: nat)
    requires k == |Waiting(s)|
    ensures DischargeMany(s, k).1 == Waiting(s)
    ensures Waiting(DischargeMany(s, k).0) == []
    ensures DischargeMany(s, k).0.archive == Reverse(Waiting(s)) + s.archive
    decreases k
  {
    if k > 0 {
      var (s1, d) := Discharge(s);
      assert Waiting(s) == [d.value] + Waiting(s1);
      DischargeManyOrder(s1, k - 1);
      assert Waiting(s)[1..] == Waiting(s1);
    }
  }

  /**
   * From a state where nobody waits, a run of admissions followed by as many
   * discharges releases every emergency patient first, latest admission
   * first, and then every normal patient in admission order.
   */
  lemma DischargeOrder(s: Registry, reqs: seq<Request>)
    requires Waiting(s) == []
    ensures DischargeMany(AdmitAll(s, reqs), |reqs|).1 ==
              Reverse(Arrivals(reqs, s.timeCounter, true)) + Arrivals(reqs, s.timeCounter, false)
  {
    var admitted := AdmitAll(s, reqs);
    AdmitAllEmergencyQueue(s, reqs);
    AdmitAllNormalQueue(s, reqs);
    assert admitted.emergencyQueue == Reverse(Arrivals(reqs, s.timeCounter, true));
    assert admitted.normalQueue == Arrivals(reqs, s.timeCounter, false);
    ArrivalsPartition(reqs, s.timeCounter);
    DischargeManyOrder(admitted, |reqs|);
  }

  // ---------------------------------------------------------------------------
  // Scenarios

  /**
   * A normal admission followed by an emergency admission: the first discharge
   * releases the emergency patient, the second the normal one, the third finds
   * nobody, and the archive lists the two newest first.
   */
  lemma EmergencyOvertakesScenario()
    ensures var s1 := Admit(Initial, Request(1, "P1", 3, "Cardiology", false));
            var s2 := Admit(s1, Request(2, "P2", 9, "Surgery", true));
            var (s3, d1) := Discharge(s2);
            var (s4, d2) := Discharge(s3);
            var (s5, d3) := Discharge(s4);
            d1 == Some(Patient(2, "P2", 9, "Surgery", 2)) &&
            d2 == Some(Patient(1, "P1", 3, "Cardiology", 1)) &&
            d3 == None &&
            s5.archive == [d2.value, d1.value]
  {
  }
}
