/** Matrix dimensions as NumPy and Sage check them: `np.hstack` and Sage's
    `augment` put two matrices side by side and need equal row counts,
    `np.vstack` stacks them and needs equal column counts, and a product needs
    the inner dimensions to agree. A mismatch raises; here it is
    `Err(ShapeMismatch)`. */
module Shapes {
  import opened Outcome

  datatype Shape = Shape(rows: nat, cols: nat)

  function Transpose(a: Shape): Shape
  {
    Shape(a.cols, a.rows)
  }

  /** `np.hstack((a, b))`, `a.augment(b)`. */
  function SideBySide(a: Shape, b: Shape): Result<Shape>
  {
    if a.rows == b.rows then Ok(Shape(a.rows, a.cols + b.cols)) else Err(ShapeMismatch)
  }

  /** `np.vstack((a, b))`. */
  function OneAbove(a: Shape, b: Shape): Result<Shape>
  {
    if a.cols == b.cols then Ok(Shape(a.rows + b.rows, a.cols)) else Err(ShapeMismatch)
  }

  /** `np.dot(a, b)`, `a * b`. */
  function Product(a: Shape, b: Shape): Result<Shape>
  {
    if a.cols == b.rows then Ok(Shape(a.rows, b.cols)) else Err(ShapeMismatch)
  }

  /** A product whose left factor failed to build fails too. */
  function ProductOf(a: Result<Shape>, b: Shape): Result<Shape>
  {
    match a
    case Err(e) => Err(e)
    case Ok(s) => Product(s, b)
  }
}
