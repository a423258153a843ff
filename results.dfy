/** Failure values shared by the geometry kernel and the grid container. */
module Results {

  /** The failures the kernel raises, named after what went wrong:
      a decreasing range (ValueError from Area), an access outside a grid
      (ValueError from Grid.swap), a matrix that is not rectangular or not
      two-dimensional (from Grid.from_objects), a search that found nothing
      (ValueError from Grid.get_position). */
  datatype Error = InvalidRange | OutOfBounds | ShapeMismatch | NotFound

  datatype Result<+T> = Ok(value: T) | Err(error: Error)

  /** Success or failure of an operation that returns nothing. */
  datatype Outcome = Pass | Fail(error: Error)

  datatype Option<+T> = None | Some(value: T)
}
