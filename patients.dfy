/**
 * The records shared by every part of the registry: a patient, a recorded
 * operation of the undo/redo history, and an optional value standing for the
 * null pointer or the "nothing to do" answer of the source.
 */
module Patients {

  /** A patient record. `arrivalTime` is stamped by the scheduler on admission. */
  datatype Patient = Patient(
    id: int,
    name: string,
    severity: int,
    department: string,
    arrivalTime: int)

  /** An entry of the undo or redo stack: the kind of operation and a snapshot of its patient. */
  datatype Operation = Operation(kind: string, patient: Patient)

  /** The only kind of operation the registry records. */
  const AdmitKind: string := "ADMIT"

  datatype Option<T> = None | Some(value: T)
}
