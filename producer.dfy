/**
 * One cycle of the producer's `main`: fetch the reviews of one film, label
 * each by its sentiment score, and store it through a database session,
 * committing each row on its own and rolling back the ones the database
 * rejects.
 *
 * The sentiment scorer, the language detector, the clock and the database's
 * integrity check are parameters: `score`, `detect`, `now` and `conflicts`.
 */
module Producer {
  import opened Wrappers
  import opened Schema
  import opened Extraction

  /** The origin tag written into every row. */
  const Source := "letterboxd"
  const PosThreshold: real := 0.1
  const NegThreshold: real := -0.1

  // ---------------------------------------------------------------------
  // Label
  // ---------------------------------------------------------------------

  /** The three-way threshold on the compound polarity score. */
  function LabelOf(score: real): (verdict: Label)
    ensures verdict == Pos <==> score >= PosThreshold
    ensures verdict == Neg <==> score <= NegThreshold
    ensures verdict == Neu <==> NegThreshold < score < PosThreshold
  {
    if score >= PosThreshold then Pos
    else if score <= NegThreshold then Neg
    else Neu
  }

  function Rank(l: Label): int {
    match l
    case Neg => -1
    case Neu => 0
    case Pos => 1
  }

  function Mirror(l: Label): Label {
    match l
    case Pos => Neg
    case Neu => Neu
    case Neg => Pos
  }

  /** A higher score never gets a lower label. */
  lemma LabelMonotone(a: real, b: real)
    requires a <= b
    ensures Rank(LabelOf(a)) <= Rank(LabelOf(b))
  {
  }

  /** The thresholds are symmetric: negating the score mirrors the label. */
  lemma LabelSymmetric(score: real)
    ensures LabelOf(-score) == Mirror(LabelOf(score))
  {
  }

  /** The boundary cases: 0.1 is positive, -0.1 negative, 0.05 neutral, -0.3 negative. */
  lemma LabelExamples()
    ensures LabelOf(0.1) == Pos && LabelOf(-0.1) == Neg
    ensures LabelOf(0.05) == Neu && LabelOf(-0.3) == Neg
  {
  }

  // ---------------------------------------------------------------------
  // Building a row
  // ---------------------------------------------------------------------

  /**
   * The `Review` built for one extracted record. The stored language is the
   * detector's verdict on the text, not the markup's `lang`.
   */
  function Candidate(rec: Record, score: string -> real, detect: string -> string): (r: Review)
    ensures KeyOf(r) == Key(Source, rec.itemId, rec.text)
    ensures r.sentimentScore == score(rec.text) && r.sentimentLabel == LabelOf(r.sentimentScore)
    ensures r.author == rec.author && r.reviewUrl == rec.reviewUrl && r.lang == detect(rec.text)
    ensures r.reviewRating == rec.reviewRating && r.tsReview == rec.tsReview
  {
    var s := score(rec.text);
    Review(Source, rec.itemId, rec.text, rec.reviewUrl, rec.author, detect(rec.text),
           rec.reviewRating, rec.tsReview, s, LabelOf(s))
  }

  function Candidates(reviews: seq<Record>, score: string -> real, detect: string -> string): (cs: seq<Review>)
    ensures |cs| == |reviews|
    ensures forall i :: 0 <= i < |reviews| ==> cs[i] == Candidate(reviews[i], score, detect)
  {
    seq(|reviews|, i requires 0 <= i < |reviews| => Candidate(reviews[i], score, detect))
  }

  // ---------------------------------------------------------------------
  // The table and the session
  // ---------------------------------------------------------------------

  /** The id the database gives the next row: one more than the largest so far. */
  function NextId(rows: seq<Row>): (id: nat)
    ensures forall k :: 0 <= k < |rows| && IdsAscending(rows) ==> rows[k].id < id
  {
    if rows == [] then 1 else rows[|rows| - 1].id + 1
  }

  function Append(rows: seq<Row>, r: Review, now: Instant): (rows': seq<Row>)
    ensures IdsAscending(rows) ==> IdsAscending(rows')
    ensures rows' == rows + [Row(NextId(rows), now, r)]
  {
    rows + [Row(NextId(rows), now, r)]
  }

  /** Every pending row passes the integrity check against the rows committed before it. */
  function Admissible(rows: seq<Row>, pending: seq<Review>, conflicts: (Review, seq<Row>) -> bool, now: Instant): bool
    decreases |pending|
  {
    pending == [] || (!conflicts(pending[0], rows) && Admissible(Append(rows, pending[0], now), pending[1..], conflicts, now))
  }

  /** The table once every pending row is written, in the order they were added. */
  function Flushed(rows: seq<Row>, pending: seq<Review>, now: Instant): (rows': seq<Row>)
    ensures IdsAscending(rows) ==> IdsAscending(rows')
    ensures |rows'| == |rows| + |pending| && rows'[..|rows|] == rows
    ensures forall k :: 0 <= k < |pending| ==> rows'[|rows| + k].review == pending[k]
    decreases |pending|
  {
    if pending == [] then rows
    else
      var next := Append(rows, pending[0], now);
      var rest := Flushed(next, pending[1..], now);
      assert rest[|rows|] == rest[..|next|][|rows|] == next[|rows|];
      assert forall k :: 1 <= k < |pending| ==> rest[|rows| + k] == rest[|next| + (k - 1)] && pending[k] == pending[1..][k - 1];
      rest
  }

  /** The database session: the committed rows and the rows added since the last commit or rollback. */
  class Session {
    var rows: seq<Row>
    var pending: seq<Review>
    /** Every review ever handed to `Add`, in order. */
    ghost var added: seq<Review>

    ghost predicate Valid()
      reads this
    {
      IdsAscending(rows)
    }

    constructor (committed: seq<Row>)
      requires IdsAscending(committed)
      ensures Valid() && rows == committed && pending == [] && added == []
    {
      rows := committed;
      pending := [];
      added := [];
    }

    /** `db.add(r)` */
    method Add(r: Review)
      modifies this
      ensures rows == old(rows) && pending == old(pending) + [r] && added == old(added) + [r]
    {
      pending := pending + [r];
      added := added + [r];
    }

    /**
     * `db.commit()`: all pending rows are written, or, when one fails the
     * integrity check, none is and the session keeps them until `Rollback`.
     */
    method Commit(conflicts: (Review, seq<Row>) -> bool, now: Instant) returns (ok: bool)
      requires Valid()
      modifies this
      ensures Valid() && added == old(added)
      ensures ok == Admissible(old(rows), old(pending), conflicts, now)
      ensures ok ==> rows == Flushed(old(rows), old(pending), now) && pending == []
      ensures !ok ==> rows == old(rows) && pending == old(pending)
    {
      ok := Admissible(rows, pending, conflicts, now);
      if ok {
        rows := Flushed(rows, pending, now);
        pending := [];
      }
    }

    /** `db.rollback()`: the pending rows are dropped and the committed table is untouched. */
    method Rollback()
      modifies this
      ensures rows == old(rows) && pending == [] && added == old(added)
    {
      pending := [];
    }
  }

  // ---------------------------------------------------------------------
  // The insert loop, as a function of the table before it
  // ---------------------------------------------------------------------

  /** One attempt: a rejected row leaves the table as it was. */
  function Step(rows: seq<Row>, c: Review, conflicts: (Review, seq<Row>) -> bool, now: Instant): (rows': seq<Row>)
    ensures |rows'| == |rows| + (if conflicts(c, rows) then 0 else 1) && rows'[..|rows|] == rows
    ensures !conflicts(c, rows) ==> rows'[|rows|].review == c && rows'[|rows|].tsIngest == now
    ensures IdsAscending(rows) ==> IdsAscending(rows')
  {
    if conflicts(c, rows) then rows else Append(rows, c, now)
  }

  /** The table after attempting every candidate in order. */
  function Stored(rows: seq<Row>, cs: seq<Review>, conflicts: (Review, seq<Row>) -> bool, now: Instant): (rows': seq<Row>)
    ensures |rows| <= |rows'| <= |rows| + |cs|
    decreases |cs|
  {
    if cs == [] then rows
    else Step(Stored(rows, cs[..|cs| - 1], conflicts, now), cs[|cs| - 1], conflicts, now)
  }

  /** How many of those attempts committed. */
  function InsertedCount(rows: seq<Row>, cs: seq<Review>, conflicts: (Review, seq<Row>) -> bool, now: Instant): (n: nat)
    ensures n <= |cs|
    decreases |cs|
  {
    if cs == [] then 0
    else
      var before := Stored(rows, cs[..|cs| - 1], conflicts, now);
      InsertedCount(rows, cs[..|cs| - 1], conflicts, now) + (if conflicts(cs[|cs| - 1], before) then 0 else 1)
  }

  /** Attempting one more candidate is one more `Step`, counted when it commits. */
  lemma StoredSnoc(rows: seq<Row>, cs: seq<Review>, i: nat, conflicts: (Review, seq<Row>) -> bool, now: Instant)
    requires i < |cs|
    ensures cs[..i + 1] == cs[..i] + [cs[i]]
    ensures Stored(rows, cs[..i + 1], conflicts, now) == Step(Stored(rows, cs[..i], conflicts, now), cs[i], conflicts, now)
    ensures InsertedCount(rows, cs[..i + 1], conflicts, now)
            == InsertedCount(rows, cs[..i], conflicts, now) + (if conflicts(cs[i], Stored(rows, cs[..i], conflicts, now)) then 0 else 1)
  {
    assert cs[..i + 1][..i] == cs[..i];
  }

  /** Committing a single pending row is one `Step`. */
  lemma CommitOne(rows: seq<Row>, r: Review, conflicts: (Review, seq<Row>) -> bool, now: Instant)
    ensures Admissible(rows, [r], conflicts, now) == !conflicts(r, rows)
    ensures Flushed(rows, [r], now) == Append(rows, r, now)
  {
    assert [r][1..] == [];
  }

  /**
   * The loop only appends: the old rows stay as they were, it adds exactly
   * as many rows as it counts, at most one per candidate, each new row holds
   * one of the candidates, and ids keep growing.
   */
  lemma {:induction false} StoredGrowth(rows: seq<Row>, cs: seq<Review>, conflicts: (Review, seq<Row>) -> bool, now: Instant)
    ensures |Stored(rows, cs, conflicts, now)| == |rows| + InsertedCount(rows, cs, conflicts, now)
    ensures InsertedCount(rows, cs, conflicts, now) <= |cs|
    ensures Stored(rows, cs, conflicts, now)[..|rows|] == rows
    ensures forall k :: |rows| <= k < |Stored(rows, cs, conflicts, now)| ==> Stored(rows, cs, conflicts, now)[k].review in cs
    ensures IdsAscending(rows) ==> IdsAscending(Stored(rows, cs, conflicts, now))
    decreases |cs|
  {
    if cs != [] {
      var init := cs[..|cs| - 1];
      var c := cs[|cs| - 1];
      StoredGrowth(rows, init, conflicts, now);
      var before := Stored(rows, init, conflicts, now);
      assert before[..|rows|] == rows;
      if !conflicts(c, before) {
        var after := Append(before, c, now);
        assert after[..|rows|] == before[..|rows|];
        forall k | |rows| <= k < |after| ensures after[k].review in cs {
          if k < |before| {
            assert after[k] == before[k];
            assert before[k].review in init;
          } else {
            assert after[k].review == c;
          }
        }
      } else {
        forall k | |rows| <= k < |before| ensures before[k].review in cs {
          assert before[k].review in init;
        }
      }
    }
  }

  /**
   * The `try` block for one row: add and commit it, and roll back when the
   * commit is rejected. The table afterwards is one `Step`.
   */
  method Attempt(db: Session, r: Review, conflicts: (Review, seq<Row>) -> bool, now: Instant) returns (ok: bool)
    requires db.Valid() && db.pending == []
    modifies db
    ensures db.Valid() && db.pending == []
    ensures ok == !conflicts(r, old(db.rows))
    ensures db.rows == Step(old(db.rows), r, conflicts, now)
    ensures db.added == old(db.added) + [r]
  {
    CommitOne(db.rows, r, conflicts, now);
    db.Add(r);
    ok := db.Commit(conflicts, now);
    if !ok {
      db.Rollback();
    }
  }

  /**
   * The `for rev in reviews` loop of a cycle: one add and one commit per
   * record, a rollback for each rejected one, and the count of commits that
   * went through. The rows are built from the records before the loop;
   * building one has no effect, so this is the same as building it inside.
   */
  method StoreReviews(db: Session, reviews: seq<Record>, score: string -> real, detect: string -> string,
                      conflicts: (Review, seq<Row>) -> bool, now: Instant)
    returns (inserted: nat)
    requires db.Valid() && db.pending == []
    modifies db
    ensures db.Valid() && db.pending == []
    ensures db.added == old(db.added) + Candidates(reviews, score, detect)
    ensures db.rows == Stored(old(db.rows), Candidates(reviews, score, detect), conflicts, now)
    ensures inserted == InsertedCount(old(db.rows), Candidates(reviews, score, detect), conflicts, now)
    ensures reviews == [] ==> db.rows == old(db.rows) && db.added == old(db.added) && inserted == 0
  {
    ghost var rows0 := db.rows;
    ghost var added0 := db.added;
    var cs := Candidates(reviews, score, detect);
    inserted := 0;
    for i := 0 to |reviews|
      invariant db.Valid() && db.pending == []
      invariant db.added == added0 + cs[..i]
      invariant db.rows == Stored(rows0, cs[..i], conflicts, now)
      invariant inserted == InsertedCount(rows0, cs[..i], conflicts, now)
    {
      StoredSnoc(rows0, cs, i, conflicts, now);
      var ok := Attempt(db, cs[i], conflicts, now);
      if ok {
        inserted := inserted + 1;
      }
    }
    assert cs[..|reviews|] == cs;
  }

  /**
   * One pass of the producer's loop for the film `slug`: fetch with the
   * default limit, then store what was found.
   */
  method RunCycle(db: Session, slug: string, get: string -> Page, parseIso: string -> Option<Instant>,
                  score: string -> real, detect: string -> string,
                  conflicts: (Review, seq<Row>) -> bool, now: Instant)
    returns (inserted: nat, reviews: seq<Record>)
    requires db.Valid() && db.pending == []
    modifies db
    ensures db.Valid() && db.pending == []
    ensures reviews == Fetched(slug, DefaultLimit, get, parseIso)
    ensures db.added == old(db.added) + Candidates(reviews, score, detect)
    ensures db.rows == Stored(old(db.rows), Candidates(reviews, score, detect), conflicts, now)
    ensures inserted == InsertedCount(old(db.rows), Candidates(reviews, score, detect), conflicts, now)
    ensures (forall k :: 0 <= k < |Variants| ==> get(VariantUrl(slug, Variants[k])).status != OkStatus) ==>
              reviews == [] && inserted == 0 && db.rows == old(db.rows) && db.added == old(db.added)
    ensures inserted <= |reviews| <= DefaultLimit
    ensures |db.rows| == |old(db.rows)| + inserted
    ensures db.rows[..|old(db.rows)|] == old(db.rows)
    ensures forall k :: |old(db.rows)| <= k < |db.rows| ==>
              && db.rows[k].review.source == Source
              && db.rows[k].review.itemId == slug
              && |db.rows[k].review.text| >= MinTextLength
              && db.rows[k].review.author != ""
              && db.rows[k].review.reviewUrl != ""
              && db.rows[k].review.sentimentLabel == LabelOf(db.rows[k].review.sentimentScore)
  {
    var requested;
    reviews, requested := FetchReviews(slug, DefaultLimit, get, parseIso);
    ghost var rows0 := db.rows;
    inserted := StoreReviews(db, reviews, score, detect, conflicts, now);
    StoredGrowth(rows0, Candidates(reviews, score, detect), conflicts, now);
    NewRowsFromFilm(rows0, reviews, slug, score, detect, conflicts, now);
    if forall k :: 0 <= k < |Variants| ==> get(VariantUrl(slug, Variants[k])).status != OkStatus {
      FetchedNothingWithoutOk(slug, DefaultLimit, get, parseIso);
    }
  }

  /** Every row a cycle adds comes from a well-formed record of the film and carries its score's label. */
  lemma NewRowsFromFilm(rows: seq<Row>, reviews: seq<Record>, slug: string, score: string -> real,
                        detect: string -> string, conflicts: (Review, seq<Row>) -> bool, now: Instant)
    requires forall k :: 0 <= k < |reviews| ==> WellFormed(reviews[k], slug)
    ensures var rows' := Stored(rows, Candidates(reviews, score, detect), conflicts, now);
            forall k :: |rows| <= k < |rows'| ==>
              && rows'[k].review.source == Source
              && rows'[k].review.itemId == slug
              && |rows'[k].review.text| >= MinTextLength
              && rows'[k].review.author != ""
              && rows'[k].review.reviewUrl != ""
              && rows'[k].review.sentimentLabel == LabelOf(rows'[k].review.sentimentScore)
  {
    var cs := Candidates(reviews, score, detect);
    var rows' := Stored(rows, cs, conflicts, now);
    StoredGrowth(rows, cs, conflicts, now);
    forall k | |rows| <= k < |rows'|
      ensures && rows'[k].review.source == Source
              && rows'[k].review.itemId == slug
              && |rows'[k].review.text| >= MinTextLength
              && rows'[k].review.author != ""
              && rows'[k].review.reviewUrl != ""
              && rows'[k].review.sentimentLabel == LabelOf(rows'[k].review.sentimentScore)
    {
      var j :| 0 <= j < |cs| && cs[j] == rows'[k].review;
      assert WellFormed(reviews[j], slug);
    }
  }

  // ---------------------------------------------------------------------
  // One instance of the integrity check: a unique (source, item_id, text)
  // ---------------------------------------------------------------------

  /** A row with the same (source, item_id, text) is already stored. */
  function KeyConflict(r: Review, rows: seq<Row>): bool {
    exists j :: 0 <= j < |rows| && KeyOf(rows[j].review) == KeyOf(r)
  }

  predicate KeysUnique(rows: seq<Row>) {
    forall i, j :: 0 <= i < j < |rows| ==> KeyOf(rows[i].review) != KeyOf(rows[j].review)
  }

  /** Under a unique key the key stays unique, whatever the batch. */
  lemma {:induction false} KeyConstraintKeepsKeysUnique(rows: seq<Row>, cs: seq<Review>, now: Instant)
    requires KeysUnique(rows)
    ensures KeysUnique(Stored(rows, cs, KeyConflict, now))
    decreases |cs|
  {
    if cs != [] {
      var init := cs[..|cs| - 1];
      var c := cs[|cs| - 1];
      KeyConstraintKeepsKeysUnique(rows, init, now);
      var before := Stored(rows, init, KeyConflict, now);
      if !KeyConflict(c, before) {
        var after := Append(before, c, now);
        forall i, j | 0 <= i < j < |after| ensures KeyOf(after[i].review) != KeyOf(after[j].review) {
          if j == |before| {
            assert after[i] == before[i];
          } else {
            assert after[i] == before[i] && after[j] == before[j];
          }
        }
      }
    }
  }

  /** Under a unique key every candidate's key is in the table afterwards, inserted now or before. */
  lemma {:induction false} KeyConstraintStoresEveryKey(rows: seq<Row>, cs: seq<Review>, now: Instant)
    ensures forall i :: 0 <= i < |cs| ==> KeyConflict(cs[i], Stored(rows, cs, KeyConflict, now))
    decreases |cs|
  {
    if cs != [] {
      var init := cs[..|cs| - 1];
      var c := cs[|cs| - 1];
      KeyConstraintStoresEveryKey(rows, init, now);
      var before := Stored(rows, init, KeyConflict, now);
      var after := Stored(rows, cs, KeyConflict, now);
      assert forall k :: 0 <= k < |before| ==> after[k] == before[k];
      forall i | 0 <= i < |cs| ensures KeyConflict(cs[i], after) {
        if i < |init| {
          assert cs[i] == init[i];
          var j :| 0 <= j < |before| && KeyOf(before[j].review) == KeyOf(init[i]);
          assert after[j] == before[j];
        } else if !KeyConflict(c, before) {
          assert after[|before|].review == c;
        } else {
          var j :| 0 <= j < |before| && KeyOf(before[j].review) == KeyOf(c);
          assert after[j] == before[j];
        }
      }
    }
  }

  /** Keys not yet stored and pairwise distinct. */
  predicate FreshKeys(rows: seq<Row>, cs: seq<Review>) {
    && (forall i :: 0 <= i < |cs| ==> !KeyConflict(cs[i], rows))
    && (forall i, j :: 0 <= i < j < |cs| ==> KeyOf(cs[i]) != KeyOf(cs[j]))
  }

  /** Dropping the last candidate keeps the keys fresh. */
  lemma FreshKeysInit(rows: seq<Row>, cs: seq<Review>)
    requires FreshKeys(rows, cs) && cs != []
    ensures FreshKeys(rows, cs[..|cs| - 1])
  {
    var init := cs[..|cs| - 1];
    assert forall i :: 0 <= i < |init| ==> init[i] == cs[i];
  }

  /** A table holding `rows` and then exactly the earlier candidates has no row with the last candidate's key. */
  lemma FreshKeysLast(rows: seq<Row>, cs: seq<Review>, before: seq<Row>)
    requires FreshKeys(rows, cs) && cs != []
    requires |before| == |rows| + |cs| - 1 && before[..|rows|] == rows
    requires forall k :: 0 <= k < |cs| - 1 ==> before[|rows| + k].review == cs[k]
    ensures !KeyConflict(cs[|cs| - 1], before)
  {
    var c := cs[|cs| - 1];
    forall j | 0 <= j < |before| ensures KeyOf(before[j].review) != KeyOf(c) {
      if j < |rows| {
        assert before[j] == before[..|rows|][j];
      } else {
        assert before[|rows| + (j - |rows|)].review == cs[j - |rows|];
      }
    }
  }

  /** Under a unique key, a batch of fresh, pairwise distinct keys is inserted in full and in order. */
  lemma {:induction false} FreshKeysStoreAll(rows: seq<Row>, cs: seq<Review>, now: Instant)
    requires FreshKeys(rows, cs)
    ensures InsertedCount(rows, cs, KeyConflict, now) == |cs|
    ensures |Stored(rows, cs, KeyConflict, now)| == |rows| + |cs|
    ensures Stored(rows, cs, KeyConflict, now)[..|rows|] == rows
    ensures forall k :: 0 <= k < |cs| ==> Stored(rows, cs, KeyConflict, now)[|rows| + k].review == cs[k]
    decreases |cs|
  {
    if cs != [] {
      var init := cs[..|cs| - 1];
      var c := cs[|cs| - 1];
      var before := Stored(rows, init, KeyConflict, now);
      assert |before| == |rows| + |init| && before[..|rows|] == rows
             && InsertedCount(rows, init, KeyConflict, now) == |init|
             && (forall k :: 0 <= k < |cs| - 1 ==> before[|rows| + k].review == cs[k]) by {
        FreshKeysInit(rows, cs);
        FreshKeysStoreAll(rows, init, now);
        forall k | 0 <= k < |cs| - 1 ensures before[|rows| + k].review == cs[k] {
          assert init[k] == cs[k];
        }
      }
      assert !KeyConflict(c, before) by {
        FreshKeysLast(rows, cs, before);
      }
      var after := Stored(rows, cs, KeyConflict, now);
      assert after == Step(before, c, KeyConflict, now);
      AppendedOne(rows, cs, before, after);
    }
  }

  /** One more row holding the last candidate, after a table that held the earlier ones. */
  lemma AppendedOne(rows: seq<Row>, cs: seq<Review>, before: seq<Row>, after: seq<Row>)
    requires cs != [] && |before| == |rows| + |cs| - 1 && before[..|rows|] == rows
    requires forall k :: 0 <= k < |cs| - 1 ==> before[|rows| + k].review == cs[k]
    requires |after| == |before| + 1 && after[..|before|] == before && after[|before|].review == cs[|cs| - 1]
    ensures after[..|rows|] == rows
    ensures forall k :: 0 <= k < |cs| ==> after[|rows| + k].review == cs[k]
  {
    assert after[..|rows|] == after[..|before|][..|rows|];
    forall k | 0 <= k < |cs| - 1 ensures after[|rows| + k].review == cs[k] {
      assert after[|rows| + k] == after[..|before|][|rows| + k];
    }
  }

  /** Three new reviews with distinct keys into an empty table: three inserted; the same three again: none. */
  lemma ThreeFreshThenNone(a: Review, b: Review, c: Review, now: Instant, later: Instant)
    requires KeyOf(a) != KeyOf(b) && KeyOf(a) != KeyOf(c) && KeyOf(b) != KeyOf(c)
    ensures InsertedCount([], [a, b, c], KeyConflict, now) == 3
    ensures InsertedCount(Stored([], [a, b, c], KeyConflict, now), [a, b, c], KeyConflict, later) == 0
  {
    var cs := [a, b, c];
    assert FreshKeys([], cs);
    FreshKeysStoreAll([], cs, now);
    RerunInsertsNothing([], cs, now, later);
  }

  lemma {:induction false} AllPresentStoresNothing(rows: seq<Row>, cs: seq<Review>, now: Instant)
    requires forall i :: 0 <= i < |cs| ==> KeyConflict(cs[i], rows)
    ensures Stored(rows, cs, KeyConflict, now) == rows
    ensures InsertedCount(rows, cs, KeyConflict, now) == 0
    decreases |cs|
  {
    if cs != [] {
      AllPresentStoresNothing(rows, cs[..|cs| - 1], now);
      assert KeyConflict(cs[|cs| - 1], rows);
    }
  }

  /** Running the same batch again under a unique key commits nothing and changes nothing. */
  lemma RerunInsertsNothing(rows: seq<Row>, cs: seq<Review>, now: Instant, later: Instant)
    ensures InsertedCount(Stored(rows, cs, KeyConflict, now), cs, KeyConflict, later) == 0
    ensures Stored(Stored(rows, cs, KeyConflict, now), cs, KeyConflict, later) == Stored(rows, cs, KeyConflict, now)
  {
    KeyConstraintStoresEveryKey(rows, cs, now);
    AllPresentStoresNothing(Stored(rows, cs, KeyConflict, now), cs, later);
  }

  /** Two reviews with the same key, in either order, leave exactly one row with that key. */
  lemma SameKeyOneRow(rows: seq<Row>, a: Review, b: Review, now: Instant)
    requires KeysUnique(rows) && KeyOf(a) == KeyOf(b)
    ensures var after := Stored(rows, [a, b], KeyConflict, now);
            && (exists j :: 0 <= j < |after| && KeyOf(after[j].review) == KeyOf(a))
            && (forall i, j ::
                  (0 <= i < |after| && 0 <= j < |after| &&
                   KeyOf(after[i].review) == KeyOf(a) && KeyOf(after[j].review) == KeyOf(a)) ==> i == j)
  {
    KeyConstraintStoresEveryKey(rows, [a, b], now);
    KeyConstraintKeepsKeysUnique(rows, [a, b], now);
    var after := Stored(rows, [a, b], KeyConflict, now);
    assert KeyConflict([a, b][0], after);
    var j :| 0 <= j < |after| && KeyOf(after[j].review) == KeyOf([a, b][0]);
    assert KeyOf(after[j].review) == KeyOf(a);
    assert exists j' :: 0 <= j' < |after| && KeyOf(after[j'].review) == KeyOf(a);
    assert after == Stored(rows, [a, b], KeyConflict, now);
  }
}
