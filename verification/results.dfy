/** Outcomes of the script's steps: the Python exceptions that can end it, and
    the non-finite quotient numpy produces instead of raising. */
module Results {

  /** The exceptions Python raises for the list operations and the complex
      reciprocal the script uses. */
  datatype PyError =
    | PopFromEmptyList        // IndexError: `[].pop(i)`
    | PopIndexOutOfRange      // IndexError: `s.pop(i)` with `i` outside `-len(s) .. len(s) - 1`
    | ListIndexOutOfRange     // IndexError: `s[i]` with `i` outside `-len(s) .. len(s) - 1`
    | ComplexDivisionByZero   // ZeroDivisionError: `1 / z` with `z == 0j`

  /** Either the value a step computed or the exception that ended the script. */
  datatype Result<+T> = Ok(value: T) | Fail(error: PyError)

  /** A value, or `None` where numpy would have produced `nan` or `inf`. */
  datatype Option<+T> = None | Some(value: T)
}
