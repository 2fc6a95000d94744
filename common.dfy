/** Small value types shared by several parts of the model. */
module Common {

  /** A value that may be absent: JavaScript's `null` (or `undefined`) for a nullable field. */
  datatype Option<+T> = None | Some(value: T)

  /** The four states of the patient group selection (PatientSelectionEnum). */
  datatype PatientSelection = NoGroup | GroupA | GroupB | Both
}
