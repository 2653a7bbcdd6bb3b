/** The minimal task record the modelled Go files work on.  The repository's
    task package is not part of this model: only the fields the modelled code
    reads or writes are kept, and the status is a plain integer so that a
    value outside the four named ones can be represented, as Go's
    `task.Status` allows.  The
    creation time and the review request and response are dropped, so two
    tasks equal here may differ in Go, where `slices.Index` compares whole
    records. */
module Tasks {

  /** A task status; Go declares it as an integer enumeration. */
  type Status = int

  const Pending: Status := 0
  const InProgress: Status := 1
  const NeedsReview: Status := 2
  const Completed: Status := 3

  /** The four statuses in the order the board shows them. */
  const BoardStatuses: seq<Status> := [Pending, InProgress, NeedsReview, Completed]

  predicate ValidStatus(s: Status) {
    Pending <= s <= Completed
  }

  /** The labels the task package gives the four statuses, in status order. */
  const StatusLabels: seq<string> := ["Pending", "In Progress", "In Review", "Completed"]

  /** The task package's status label, as its tests pin it down: the label
      of a named status, and "Unknown" for any other value. */
  function StatusString(s: Status): (text: string)
    ensures ValidStatus(s) ==> text == StatusLabels[s]
    ensures !ValidStatus(s) <==> text == "Unknown"
  {
    if s == Pending then "Pending"
    else if s == InProgress then "In Progress"
    else if s == NeedsReview then "In Review"
    else if s == Completed then "Completed"
    else "Unknown"
  }

  datatype Task = Task(
    id: string,
    name: string,
    status: Status,
    branchName: string,
    workInProgress: string,
    responseFile: string,
    worktreePath: string)

  /** Go's zero value of the task struct: every string empty, status 0. */
  const ZeroTask: Task := Task("", "", 0, "", "", "", "")
}
