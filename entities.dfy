/** The DTO that crosses the HTTP boundary and the JPA entity stored in the metadata table. */
module Entities {
  import opened Common

  /** A LocalDate, as a day number (epoch day): the order of days is the order of integers. */
  type Date = int

  /** PasteData: the submitted (or returned) text with its dates; the dates are nullable. */
  datatype PasteData = PasteData(text: string, createDate: Option<Date>, endDate: Option<Date>)

  /** Paste: one metadata row. `id` is the IDENTITY column; the generated id is not modelled,
      so every row keeps None there. The text itself is never part of the row. */
  datatype Paste = Paste(id: Option<int>, key: string, createDate: Date, endDate: Option<Date>)
}
