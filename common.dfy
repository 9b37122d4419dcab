/** Shared vocabulary of the five windows: identifiers, dates, form fields,
    the outcome a handler reports, and the database failures a handler meets. */
module Common {

  datatype Option<+T> = None | Some(value: T)

  /** A row identifier assigned by a PostgreSQL serial column (the first is 1). */
  type Id = int

  /** A calendar date as a day number; the windows only store, compare and sort dates. */
  type Date = int

  /** Why a handler refused a request before touching the database (a warning box in the window). */
  datatype Rejection =
    | EmptyName          // a name field is empty once surrounding whitespace is stripped
    | MissingField       // a required combo box or text field is empty
    | WrittenOffLocked   // the equipment is written off, so it may not be edited or deleted

  /** What a handler reports: success with a value, a refusal, or a database exception
      (an error box in the window). */
  datatype Reply<+T> = Ok(value: T) | Rejected(why: Rejection) | Failed

  /** The database exceptions a handler runs into. Statements are numbered from 1 in the
      order the handler issues them; a COMMIT is a statement too. */
  datatype Failure = NoFailure | FailsAt(statement: nat)

  /** The handler's statements first..last include the one that raises. */
  predicate FailsWithin(f: Failure, first: nat, last: nat)
  {
    f.FailsAt? && first <= f.statement <= last
  }

  /** The same failure as seen by a callee that a handler calls after issuing n statements
      of its own: a failure among the first n has already happened and is not the callee's. */
  function After(f: Failure, n: nat): (g: Failure)
    ensures forall first: nat, last: nat {:trigger FailsWithin(g, first, last)} ::
      first >= 1 ==> (FailsWithin(g, first, last) <==> FailsWithin(f, first + n, last + n))
  {
    match f
    case NoFailure => NoFailure
    case FailsAt(k) => if k > n then FailsAt(k - n) else NoFailure
  }
}
