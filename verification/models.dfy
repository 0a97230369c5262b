/** The persistent entity of the shortener and the database session that holds it. */
module Models {

  /**
   * One row of the `urls` table, with the columns crud.py reads and writes.
   * `isActive` and `clicks` are the table's defaults on insert (true and 0).
   */
  datatype Url = Url(key: string, secretKey: string, targetUrl: string, isActive: bool, clicks: nat)

  /**
   * The database session. The table's rows, in insertion order; the position of a
   * row stands for the identity of the ORM object that crud.py mutates in place.
   */
  class Session {
    var urls: seq<Url>

    constructor ()
      ensures urls == []
    {
      urls := [];
    }
  }
}
