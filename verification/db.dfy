/** The record store, seen as the sequence of rows it has committed, in insertion order. */
module Db {
  class Connection<R> {
    /** The database file the connection was opened on. */
    const name: string
    var rows: seq<R>

    constructor (name: string, rows: seq<R>)
      ensures this.name == name && this.rows == rows
    {
      this.name := name;
      this.rows := rows;
    }

    /** `insert_word_rows`: a bulk insert then a commit appends the batch. */
    method InsertWordRows(batch: seq<R>)
      modifies this
      ensures rows == old(rows) + batch
    {
      rows := rows + batch;
    }
  }
}
