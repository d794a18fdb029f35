/**
 The small vocabulary every other module speaks: optional values, results that
 carry an error, lookups in Python-style dictionaries, and the outcome of running
 an external command. Real processes never run in this model; a command is
 represented by what the caller would observe of it.
 */
module Outcomes {

  /** A value that may be absent (Python's `None`). */
  datatype Option<+T> = None | Some(value: T) {

    /** The carried value, or `default` when there is none. */
    function GetOr(default: T): T {
      match this
      case Some(v) => v
      case None => default
    }
  }

  /** Either a value or the error that took its place. */
  datatype Result<+T, +E> = Success(value: T) | Failure(error: E)

  /** `m.get(k)` of a Python dictionary, with `None` for a missing key. */
  function Get<K, V>(m: map<K, V>, k: K): (r: Option<V>)
    ensures r.Some? <==> k in m
    ensures r.Some? ==> r.value == m[k]
  {
    if k in m then Some(m[k]) else None
  }

  /** Why `subprocess.run` raised instead of returning. */
  datatype CommandError =
    | ToolMissing              // FileNotFoundError: the executable does not exist
    | TimedOut                 // subprocess.TimeoutExpired
    | OtherFailure(message: string)

  /** What a caller observes of one `subprocess.run(..., capture_output=True, text=True)`. */
  datatype CommandRun =
    | Exited(code: int, stdout: string, stderr: string)
    | Raised(error: CommandError)
  {
    /** The command ran to completion with exit code 0. */
    predicate Succeeded() {
      Exited? && code == 0
    }
  }
}
