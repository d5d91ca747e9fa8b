/** The raw data the spreadsheet service returns: rows of string cells, of
    possibly different lengths. */
module Cells {

  type Row = seq<string>

  type Grid = seq<Row>
}
