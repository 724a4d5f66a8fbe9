/**
 * The database tables the gallery reads and writes, standing in for the
 * ORM's `db.media`, `db.photo`, `db.email` and `db.message` delegates.
 * Each table is an object whose rows the operations replace.
 */
module Store {
  import opened Types

  /**
   * Media rows in the database's natural retrieval order. The legacy photo
   * table uses the same class: its rows have the Photo type, an alias of Media.
   */
  class MediaTable {
    var rows: seq<Media>

    /** The primary key holds: ids are unique. */
    ghost predicate Valid()
      reads this
    {
      UniqueIds(rows)
    }

    constructor (rows: seq<Media>)
      requires UniqueIds(rows)
      ensures Valid() && this.rows == rows
    {
      this.rows := rows;
    }
  }

  /** E-mail rows keyed by the unique `email` column. */
  class EmailTable {
    var rows: map<string, Email>

    ghost predicate Valid()
      reads this
    {
      forall e :: e in rows ==> rows[e].email == e
    }

    constructor (rows: map<string, Email>)
      requires forall e :: e in rows ==> rows[e].email == e
      ensures Valid() && this.rows == rows
    {
      this.rows := rows;
    }
  }

  /** Guest-book messages in insertion order. */
  class MessageTable {
    var rows: seq<Message>

    constructor (rows: seq<Message>)
      ensures this.rows == rows
    {
      this.rows := rows;
    }
  }

  /** `deleteMany({ where: { id: { in: ids } } })`: the rows that survive. */
  function DeleteManyIdIn(rows: seq<Media>, ids: seq<string>): seq<Media> {
    Filter((m: Media) => m.id !in ids, rows)
  }
}
