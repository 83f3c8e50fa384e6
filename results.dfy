/** Option and Result types, and the errors the extractor raises. */
module Results {

  datatype Option<+T> = None | Some(value: T)

  /** One constructor per kind of exception the extraction can raise. */
  datatype Error =
    | NoSpeciesHeader               // no cell of the sheet is exactly "Species"
    | NoRowWithCell(target: string) // no row holds the requested label cell
    | NoYearColumns                 // the species header row holds no year cell
    | MissingLabel(name: string)   // a required column label is absent from a header row
    | NotAnInteger(text: string)    // Python's int() refused a cell
    | NotAFloat(text: string)       // Python's float() refused a cell
    | NoCountIndexColumn            // pandas KeyError: a table built from no rows has no CountIndex column

  datatype Result<+T> = Ok(value: T) | Err(error: Error)
}
