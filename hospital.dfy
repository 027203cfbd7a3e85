/**
 * The registry's global state, updated in place: the emergency deque, the
 * normal queue, the admission counter, the undo and redo stacks and the head of
 * the archive list. Each method is specified by the function of module
 * Scheduler that gives its new state; the discharge index is the PatientBST
 * object the caller owns and passes in.
 */
module HospitalSystem {
  import opened Patients
  import opened PatientTree
  import opened Scheduler

  class Hospital {
    var emergencyQueue: seq<Patient>
    var normalQueue: seq<Patient>
    var timeCounter: int
    var undoStack: seq<Operation>
    var redoStack: seq<Operation>
    var archiveHead: seq<Patient>

    /** The value of the whole state. */
    function State(): Registry
      reads this
    {
      Registry(emergencyQueue, normalQueue, timeCounter, undoStack, redoStack, archiveHead)
    }

    ghost predicate Valid()
      reads this
    {
      Consistent(State())
    }

    constructor ()
      ensures State() == Initial && Valid()
    {
      emergencyQueue, normalQueue, timeCounter := [], [], 0;
      undoStack, redoStack, archiveHead := [], [], [];
    }

    method ArchivePatient(p: Patient)
      modifies this
      ensures State() == Scheduler.ArchivePatient(old(State()), p)
    {
      archiveHead := [p] + archiveHead;
    }

    method AdmitPatient(id: int, name: string, severity: int, department: string, emergency: bool)
      modifies this
      ensures State() == Admit(old(State()), Request(id, name, severity, department, emergency))
      ensures old(Valid()) ==> Valid()
    {
      ghost var req := Request(id, name, severity, department, emergency);
      timeCounter := timeCounter + 1;
      var p := Patient(id, name, severity, department, timeCounter);
      if emergency {
        emergencyQueue := [p] + emergencyQueue;
      } else {
        normalQueue := normalQueue + [p];
      }
      undoStack := undoStack + [Operation(AdmitKind, p)];
      while redoStack != []
        invariant State().(redoStack := []) == Admit(old(State()), req)
        decreases |redoStack|
      {
        redoStack := redoStack[..|redoStack| - 1];
      }
      if old(Valid()) {
        AdmitKeepsConsistent(old(State()), req);
      }
    }

    method Undo() returns (op: Option<Operation>)
      modifies this
      ensures (State(), op) == Scheduler.Undo(old(State()))
      ensures old(Valid()) ==> Valid()
    {
      if undoStack == [] {
        op := None;
      } else {
        var top := undoStack[|undoStack| - 1];
        undoStack := undoStack[..|undoStack| - 1];
        redoStack := redoStack + [top];
        op := Some(top);
      }
      if old(Valid()) {
        UndoRedoKeepConsistent(old(State()));
      }
    }

    method Redo() returns (op: Option<Operation>)
      modifies this
      ensures (State(), op) == Scheduler.Redo(old(State()))
      ensures old(Valid()) ==> Valid()
    {
      if redoStack == [] {
        op := None;
      } else {
        var top := redoStack[|redoStack| - 1];
        redoStack := redoStack[..|redoStack| - 1];
        undoStack := undoStack + [top];
        op := Some(top);
      }
      if old(Valid()) {
        UndoRedoKeepConsistent(old(State()));
      }
    }

    /**
     * Discharges the next patient, if any, into the index and the archive;
     * None stands for the "no patients to discharge" message.
     */
    method DischargePatient(bst: PatientBST) returns (discharged: Option<Patient>)
      requires bst.Valid()
      modifies this, bst
      ensures (State(), discharged) == Discharge(old(State()))
      ensures discharged.None? ==> bst.root == old(bst.root)
      ensures discharged.Some? ==> bst.root == Insert(old(bst.root), discharged.value)
      ensures bst.Valid()
      ensures old(Valid()) ==> Valid()
    {
      if emergencyQueue == [] && normalQueue == [] {
        discharged := None;
        return;
      }
      var p := if emergencyQueue != [] then emergencyQueue[0] else normalQueue[0];
      if emergencyQueue != [] {
        emergencyQueue := emergencyQueue[1..];
      } else {
        normalQueue := normalQueue[1..];
      }
      bst.InsertPatient(p);
      ArchivePatient(p);
      discharged := Some(p);
      if old(Valid()) {
        DischargeKeepsConsistent(old(State()));
      }
    }
  }

  /** Scenario: undo and redo of a single admission, and redo invalidated by a new admission. */
  method HistoryRoundTrip()
  {
    var h := new Hospital();
    var nothing := h.Undo();
    assert nothing == None;
    h.AdmitPatient(7, "P7", 5, "Neurology", false);
    var undone := h.Undo();
    assert undone.Some? && undone.value.kind == AdmitKind;
    var redone := h.Redo();
    assert redone == undone && |h.undoStack| == 1 && h.redoStack == [];
    undone := h.Undo();
    h.AdmitPatient(8, "P8", 4, "Neurology", false);
    redone := h.Redo();
    assert redone == None;
    assert |h.normalQueue| == 2;
  }
}
