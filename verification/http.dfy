/** What the scripts observe of an HTTP exchange through the `requests`
    library: status codes, the errors they raise, and how a run ends. */
module Http {

  /** `Response.raise_for_status()` raises for client errors (400-499) and
      server errors (500-599), and for no other status code. */
  predicate RaisesForStatus(status: int)
  {
    400 <= status < 600
  }

  /** The exceptions the model represents; transport errors of `requests`
      are not among them. */
  datatype Error =
    | HttpError(status: int)  // raised by raise_for_status
    | IndexError              // subscripting an empty JSON list

  /** How a script step ends: it returns a value, raises, or is still polling
      when the observed responses run out (the source polls without bound). */
  datatype Outcome<+T> = Returned(value: T) | Raised(error: Error) | Pending

  /** The requests a script issued, in order, and how it ended. */
  datatype Run<+R, +T> = Run(requests: seq<R>, outcome: Outcome<T>)
}
