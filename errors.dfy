/** The exceptions the job's helpers raise, one constructor per way of failing. */
module Errors {

  datatype Error =
    /** `video.pop(...)` on a `video` value that is not a JSON object. */
    | NotAnObject
    /** `int(u)` on a duration part that is not a decimal numeral. */
    | NotAnInteger(text: string)
    /** `s.split()[:2][1]` on a phrase with fewer than two words. */
    | TooFewWords(phrase: string)
    /** `float(amount)` on an amount that is not a decimal numeral. */
    | NotANumber(text: string)
    /** `float('')` when the view-count text holds no digit. */
    | NoDigits
    /** `.split` on a cell that is not text (a number, a timestamp or a missing value). */
    | NotText
    /** `data[name]` on a column the table does not have. */
    | MissingColumn(name: string)
    /** `reset_index()` when the index name is already a column. */
    | ColumnExists(name: string)
}
