/** A CSV file as csv.DictReader sees it: a header line naming the fields,
    then the data rows in file order. An absent file is `None`. */
module Csv {
  import opened Wrappers

  datatype Table<R> = Table(header: seq<string>, rows: seq<R>)

  /** The data rows of a file; an absent file has none. */
  function Rows<R>(file: Option<Table<R>>): seq<R>
  {
    if file.None? then [] else file.value.rows
  }

  /** The file after one csv.DictWriter write of `row`: an absent file is
      created holding the header and the row; an existing one keeps its
      header and all its rows, and gains `row` at the end. */
  function Appended<R>(file: Option<Table<R>>, header: seq<string>, row: R): (r: Option<Table<R>>)
    ensures r.Some?
    ensures r.value.header == if file.None? then header else file.value.header
    ensures Rows(r) == Rows(file) + [row]
  {
    match file
    case None => Some(Table(header, [row]))
    case Some(t) => Some(Table(t.header, t.rows + [row]))
  }
}
