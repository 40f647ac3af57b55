/** The record model of the enrolment log: one kept CSV row becomes a
    `Record` holding the instant of the event and what kind of event it was. */
module Records {

  /** Number of fields in a well-formed LMS export row
      (DATE, LAST_NAME, GIVEN_NAMES, STUDENT_NUMBER, USERNAME, ACTION). */
  const NUM_FIELDS: nat := 6

  const ADDED_LABEL: string := "Added"
  const REMOVED_LABEL: string := "Removed"

  /** The action of an event. `Other` carries any label that is neither
      "Added" nor "Removed"; the tally treats it as a no-op. */
  datatype Action = Added | Removed | Other(text: string)

  /** An event: its instant in whole seconds and its action. */
  datatype Record = Record(time: int, action: Action)

  /** Raised when a date-time text does not match the expected format;
      carries the offending text. */
  datatype ParseError = BadDate(text: string)

  /** True of the two labels the ingestion accepts. */
  predicate IsKnownLabel(text: string) {
    text == ADDED_LABEL || text == REMOVED_LABEL
  }

  /** An action is well formed when an `Other` does not smuggle in a known label. */
  predicate WellFormed(a: Action) {
    a.Other? ==> !IsKnownLabel(a.text)
  }

  /** The action a textual label denotes. */
  function ActionOf(text: string): (a: Action)
    ensures WellFormed(a)
  {
    if text == ADDED_LABEL then Added
    else if text == REMOVED_LABEL then Removed
    else Other(text)
  }

  /** The textual label of an action, as it appears in the last CSV field. */
  function LabelOf(a: Action): string {
    match a
    case Added => ADDED_LABEL
    case Removed => REMOVED_LABEL
    case Other(s) => s
  }

  /** Reading a label and printing it back gives the same text. */
  lemma LabelRoundTrip(text: string)
    ensures LabelOf(ActionOf(text)) == text
  {
  }

  /** Printing a well-formed action and reading it back gives the same action;
      in particular the known labels are exactly the non-`Other` actions. */
  lemma ActionRoundTrip(a: Action)
    requires WellFormed(a)
    ensures ActionOf(LabelOf(a)) == a
    ensures IsKnownLabel(LabelOf(a)) <==> !a.Other?
  {
  }

}
