/** The exceptions the coders raise, as values. */
module Outcome {

  datatype Error =
    | ShapeMismatch     // NumPy / Sage refuse a product whose dimensions do not agree
    | EmptyMessage      // ValueError("Message cannot be empty.")
    | MissingCodeTable  // ValueError("Code table must be provided for decoding")
    | Uncorrectable     // ValueError("Uncorrectable error detected.")
    | EmptyRange        // random.randint(a, b) with b < a
    | UnknownSymbol     // KeyError on a symbol that has no code
    | BadLiteral        // int('', 2): no digits to read

  datatype Result<+T> = Ok(value: T) | Err(error: Error)
}
