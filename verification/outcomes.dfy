/** The failure values of the habit tracker. Every ValueError the source raises
    becomes an `Err` carrying one of the `Error` cases below. */
module Outcomes {

  datatype Option<+T> = None | Some(value: T)

  datatype Error =
    | MalformedTimestamp(text: string)   // a completion that is not `YYYY-MM-DD HH:MM:SS`
    | MissingNameOrPeriodicity           // "Name and periodicity are required to create a habit."
    | DuplicateName(name: string)        // "The habit '<name>' already exists."
    | NoHabits                           // "No habits found in the database."
    | UnknownHabit(key: Option<int>)     // "No habit found with ID <key>."
    | FutureCompletion                   // "Completion date cannot be in the future."

  datatype Result<+T> = Ok(value: T) | Err(error: Error)
}
