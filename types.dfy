/** Values shared by the intake and the digest of the `hello` service: the
    submission and the stored entry, the error kinds, and the outcomes that the
    database and the mail relay report back. */
module Types {

  datatype Option<+T> = None | Some(value: T)

  datatype Result<+R, +E> = Ok(value: R) | Err(error: E)

  /** What an external collaborator (the SQL store, the mail relay) reports for
      one request. `cause` is the text of the error it returned. */
  datatype Outcome = Succeeded | Failed(cause: string)

  /** The step of a call that failed, as named by the text the service wraps
      around the collaborator's error ("could not update table: ...", ...). */
  datatype Stage =
    | UpdateTable   // the INSERT of the intake
    | QueryTable    // the SELECT of the digest
    | ScanRow       // reading the columns of one selected row
    | IterateRows   // the row cursor stopping on an error
    | SendMail      // the mail relay refusing the message
    | DeleteTable   // the DELETE after a sent digest

  datatype Error =
    | InvalidArgument(msg: string)         // a rejected submission
    | Failure(stage: Stage, cause: string) // a collaborator's error, wrapped
  {
    /** The text the caller sees: the message of a rejected submission, or
        the failed step's text, a colon and the collaborator's own error. */
    function Text(): (t: string)
      ensures InvalidArgument? ==> t == msg
      ensures Failure? ==> |t| > |StageText(stage)| + 1
      ensures Failure? ==> t[..|StageText(stage)|] == StageText(stage)
      ensures Failure? ==> t[|StageText(stage)| + 2..] == cause
    {
      match this
      case InvalidArgument(m) => m
      case Failure(s, c) => StageText(s) + ": " + c
    }
  }

  /** Every step's text reads "could not ...". */
  function StageText(s: Stage): (t: string)
    ensures |t| > 10 && t[..10] == "could not "
  {
    match s
    case UpdateTable => "could not update table"
    case QueryTable => "could not query table"
    case ScanRow => "could not scan row"
    case IterateRows => "could not iterate rows"
    case SendMail => "could not send email"
    case DeleteTable => "could not delete table"
  }

  /** No two steps share a text, so the text names the step that failed. */
  lemma StageTextNamesStage(s: Stage, s': Stage)
    requires StageText(s) == StageText(s')
    ensures s == s'
  {
    // the texts differ in length or in their eleventh character
    assert StageText(s)[10] == StageText(s')[10];
  }

  /** The request of the intake call. */
  datatype AskParams = AskParams(id: string, ask: string, anon: bool, name: string)

  /** The response of a successful intake call. */
  datatype AskResponse = AskResponse(message: string)

  /** One row of the `entries` table; `created` is the timestamp the store
      assigns on insert, kept as the text the digest prints. */
  datatype Entry = Entry(id: string, ask: string, anon: bool, name: string, created: string)
  {
    /** What the intake guarantees of every row it writes: a message, and a
        name that is empty exactly when the submission was anonymous. */
    predicate WellFormed() {
      ask != "" && (anon <==> name == "")
    }
  }

  /** What the store does while the digest reads the table: the query fails;
      the scan of row `at` fails (a position at or past the last row names no
      row, so nothing fails); the cursor stops with an error after delivering
      `at` rows (every row, when `at` is at or past the last one, which is an
      error reported after the read completed); or every row is delivered. */
  datatype Read =
    | QueryFails(cause: string)
    | ScanFailsAt(at: nat, cause: string)
    | IterationFailsAt(at: nat, cause: string)
    | AllRows
}
