/** Absence and failure as values: Kotlin's nullable results and the exceptions the bot raises. */
module Results {

  /** A Kotlin nullable value: `None` is `null`. */
  datatype Option<+T> = None | Some(value: T)

  /** The exceptions that the modelled code can raise or catch. */
  datatype Fault =
    | HttpStatus        // org.jsoup.HttpStatusException: the page answered with a non-success status
    | IndexOutOfBounds  // `list[i]` or `elements.get(i)` with `i` outside the list
    | NumberFormat      // `String.toInt()` on text that is not a 32-bit decimal integer
    | NullPointer       // `!!` applied to `null`
    | IllegalArgument   // `Random.nextInt(from, until)` with `until <= from`

  /** A computation that either yields a value or throws. */
  datatype Outcome<+T> = Done(value: T) | Threw(fault: Fault)
}
