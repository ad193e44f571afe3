/**
 * The stored review, with the columns the producer writes and the read
 * endpoint returns.
 */
module Schema {
  import opened Wrappers

  /** A clock reading; the clock itself is outside the model. */
  type Instant = int

  /** The discrete sentiment label, stored as "pos", "neu" or "neg". */
  datatype Label = Pos | Neu | Neg {
    function Name(): string {
      match this
      case Pos => "pos"
      case Neu => "neu"
      case Neg => "neg"
    }
  }

  /** The columns supplied by the producer when it builds a row. */
  datatype Review = Review(
    source: string,
    itemId: string,
    text: string,
    reviewUrl: string,
    author: string,
    lang: string,
    reviewRating: Option<nat>,
    tsReview: Option<Instant>,
    sentimentScore: real,
    sentimentLabel: Label)

  /** A committed row: the database adds the surrogate key and the ingestion time. */
  datatype Row = Row(id: nat, tsIngest: Instant, review: Review)

  /** The (source, item_id, text) triple that identifies one logical review. */
  datatype Key = Key(source: string, itemId: string, text: string)

  function KeyOf(r: Review): Key {
    Key(r.source, r.itemId, r.text)
  }

  /** Ids grow strictly in insertion order, as SQLite's rowid does. */
  predicate IdsAscending(rows: seq<Row>) {
    forall i, j :: 0 <= i < j < |rows| ==> rows[i].id < rows[j].id
  }

  /** No two rows share an id, as the primary key demands. */
  predicate UniqueIds(rows: seq<Row>) {
    forall i, j :: 0 <= i < |rows| && 0 <= j < |rows| && i != j ==> rows[i].id != rows[j].id
  }
}
