/**
 * The read endpoints: `GET /health`, and `GET /reviews`, which returns the
 * most recent rows (by descending id, at most `limit` of them) projected to
 * the public fields.
 *
 * The store is SQLite, so the query's `LIMIT` follows SQLite: a negative
 * limit means no limit at all.
 */
module Api {
  import opened Wrappers
  import opened Schema

  const DefaultLimit := 20

  /** One element of the `/reviews` response. The stored rating is not part of it. */
  datatype ReviewOut = ReviewOut(
    id: nat,
    source: string,
    itemId: string,
    text: string,
    lang: string,
    sentimentScore: real,
    sentimentLabel: string,
    author: string,
    reviewUrl: string,
    tsReview: Option<Instant>,
    tsIngest: Instant)

  function Project(r: Row): (out: ReviewOut)
    ensures out.id == r.id
  {
    ReviewOut(r.id, r.review.source, r.review.itemId, r.review.text, r.review.lang,
              r.review.sentimentScore, r.review.sentimentLabel.Name(), r.review.author,
              r.review.reviewUrl, r.review.tsReview, r.tsIngest)
  }

  /** `GET /health`: the constant liveness payload. */
  function Health(): (payload: map<string, string>)
    ensures payload.Keys == {"status"} && payload["status"] == "ok"
  {
    map["status" := "ok"]
  }

  // ---------------------------------------------------------------------
  // ORDER BY id DESC
  // ---------------------------------------------------------------------

  predicate Descending(s: seq<Row>) {
    forall i, j :: 0 <= i < j < |s| ==> s[i].id >= s[j].id
  }

  predicate StrictlyDescending(s: seq<Row>) {
    forall i, j :: 0 <= i < j < |s| ==> s[i].id > s[j].id
  }

  function InsertById(r: Row, s: seq<Row>): (t: seq<Row>)
    ensures |t| == |s| + 1
    decreases |s|
  {
    if s == [] then [r]
    else if r.id >= s[0].id then [r] + s
    else [s[0]] + InsertById(r, s[1..])
  }

  function SortByIdDesc(s: seq<Row>): (sorted: seq<Row>)
    ensures |sorted| == |s|
    decreases |s|
  {
    if s == [] then [] else InsertById(s[0], SortByIdDesc(s[1..]))
  }

  lemma {:induction false} InsertByIdKeeps(r: Row, s: seq<Row>)
    ensures multiset(InsertById(r, s)) == multiset(s) + multiset{r}
    decreases |s|
  {
    if s != [] && r.id < s[0].id {
      InsertByIdKeeps(r, s[1..]);
      assert s == [s[0]] + s[1..];
    }
  }

  lemma InsertByIdFrom(r: Row, s: seq<Row>, x: Row)
    requires x in InsertById(r, s)
    ensures x in s || x == r
  {
    InsertByIdKeeps(r, s);
    assert x in multiset(InsertById(r, s));
  }

  lemma {:induction false} InsertByIdSorted(r: Row, s: seq<Row>)
    requires Descending(s)
    ensures Descending(InsertById(r, s))
    decreases |s|
  {
    if s != [] && r.id < s[0].id {
      InsertByIdSorted(r, s[1..]);
      var t := InsertById(r, s[1..]);
      forall k | 0 <= k < |t| ensures s[0].id >= t[k].id {
        InsertByIdFrom(r, s[1..], t[k]);
      }
    }
  }

  lemma {:induction false} InsertByIdStrict(r: Row, s: seq<Row>)
    requires StrictlyDescending(s) && forall x :: x in s ==> x.id != r.id
    ensures StrictlyDescending(InsertById(r, s))
    decreases |s|
  {
    if s != [] && r.id < s[0].id {
      InsertByIdStrict(r, s[1..]);
      var t := InsertById(r, s[1..]);
      forall k | 0 <= k < |t| ensures s[0].id > t[k].id {
        InsertByIdFrom(r, s[1..], t[k]);
      }
    }
  }

  /** The sort keeps every row, each as often as it was stored. */
  lemma {:induction false} SortByIdDescKeeps(s: seq<Row>)
    ensures multiset(SortByIdDesc(s)) == multiset(s)
    decreases |s|
  {
    if s != [] {
      SortByIdDescKeeps(s[1..]);
      InsertByIdKeeps(s[0], SortByIdDesc(s[1..]));
      assert s == [s[0]] + s[1..];
    }
  }

  /** The sort puts the ids in descending order, strictly so when they are unique. */
  lemma {:induction false} SortByIdDescSorted(s: seq<Row>)
    ensures Descending(SortByIdDesc(s))
    ensures UniqueIds(s) ==> StrictlyDescending(SortByIdDesc(s))
    decreases |s|
  {
    if s != [] {
      SortByIdDescSorted(s[1..]);
      var t := SortByIdDesc(s[1..]);
      InsertByIdSorted(s[0], t);
      if UniqueIds(s) {
        assert UniqueIds(s[1..]) by {
          forall i, j | 0 <= i < |s[1..]| && 0 <= j < |s[1..]| && i != j ensures s[1..][i].id != s[1..][j].id {
            assert s[1..][i] == s[i + 1] && s[1..][j] == s[j + 1];
          }
        }
        SortByIdDescKeeps(s[1..]);
        forall x | x in t ensures x.id != s[0].id {
          assert x in multiset(s[1..]);
          var p :| 0 <= p < |s[1..]| && s[1..][p] == x;
          assert s[p + 1] == x;
        }
        InsertByIdStrict(s[0], t);
      }
    }
  }

  /** A row with a smaller id than every row of the list goes last. */
  lemma {:induction false} InsertByIdLast(r: Row, s: seq<Row>)
    requires forall i :: 0 <= i < |s| ==> r.id < s[i].id
    ensures InsertById(r, s) == s + [r]
    decreases |s|
  {
    if s != [] {
      InsertByIdLast(r, s[1..]);
      assert s == [s[0]] + s[1..];
    }
  }

  /** On a table whose ids grow in insertion order, the sort is the reversal: newest first. */
  lemma {:induction false} SortAscendingReverses(rows: seq<Row>)
    requires IdsAscending(rows)
    ensures |SortByIdDesc(rows)| == |rows|
    ensures forall k :: 0 <= k < |rows| ==> SortByIdDesc(rows)[k] == rows[|rows| - 1 - k]
    decreases |rows|
  {
    if rows != [] {
      var tail := rows[1..];
      assert IdsAscending(tail) by {
        forall i, j | 0 <= i < j < |tail| ensures tail[i].id < tail[j].id {
          assert tail[i] == rows[i + 1] && tail[j] == rows[j + 1];
        }
      }
      SortAscendingReverses(tail);
      var t := SortByIdDesc(tail);
      forall i | 0 <= i < |t| ensures rows[0].id < t[i].id {
        assert t[i] == rows[|rows| - 1 - i];
      }
      InsertByIdLast(rows[0], t);
      assert SortByIdDesc(rows) == t + [rows[0]];
    }
  }

  /** `ORDER BY id DESC LIMIT n` on SQLite: a negative `n` keeps every row. */
  function SelectRecent(rows: seq<Row>, n: int): (selected: seq<Row>)
    ensures |selected| == if n < 0 || n >= |rows| then |rows| else n
    ensures selected == SortByIdDesc(rows)[..|selected|]
  {
    var sorted := SortByIdDesc(rows);
    if n < 0 || n >= |sorted| then sorted else sorted[..n]
  }

  /** Every selected row is a row of the table. */
  lemma SelectRecentFacts(rows: seq<Row>, n: int)
    ensures forall k :: 0 <= k < |SelectRecent(rows, n)| ==> SelectRecent(rows, n)[k] in rows
  {
    SortByIdDescKeeps(rows);
    var sorted := SortByIdDesc(rows);
    assert |multiset(sorted)| == |multiset(rows)|;
    forall k | 0 <= k < |SelectRecent(rows, n)| ensures SelectRecent(rows, n)[k] in rows {
      assert sorted[k] in multiset(rows);
    }
  }

  // ---------------------------------------------------------------------
  // GET /reviews
  // ---------------------------------------------------------------------

  /**
   * `list_reviews(limit)`: one projected element per selected row, in the
   * query's order; `limit` is 20 when the request gives none.
   */
  function ListReviews(rows: seq<Row>, limit: Option<int>): (out: seq<ReviewOut>)
    ensures var n := limit.GetOr(DefaultLimit);
            |out| == if n < 0 || n >= |rows| then |rows| else n
    ensures forall k :: 0 <= k < |out| ==> exists j :: 0 <= j < |rows| && out[k] == Project(rows[j])
  {
    var selected := SelectRecent(rows, limit.GetOr(DefaultLimit));
    SelectRecentFacts(rows, limit.GetOr(DefaultLimit));
    seq(|selected|, k requires 0 <= k < |selected| => Project(selected[k]))
  }

  /**
   * With the primary key making ids unique, the ids come out strictly
   * decreasing, and each element is the projection of the one row with its id.
   */
  lemma ListReviewsDescending(rows: seq<Row>, limit: Option<int>)
    requires UniqueIds(rows)
    ensures var out := ListReviews(rows, limit);
            forall i, j :: 0 <= i < j < |out| ==> out[i].id > out[j].id
    ensures var out := ListReviews(rows, limit);
            forall k, j :: 0 <= k < |out| && 0 <= j < |rows| && out[k].id == rows[j].id ==> out[k] == Project(rows[j])
  {
    var sorted := SortByIdDesc(rows);
    var out := ListReviews(rows, limit);
    SortByIdDescSorted(rows);
    SortByIdDescKeeps(rows);
    ListReviewsPrefix(rows, limit);
    forall i, j | 0 <= i < j < |out| ensures out[i].id > out[j].id {
      assert out[i].id == sorted[i].id && out[j].id == sorted[j].id;
    }
    forall k, j | 0 <= k < |out| && 0 <= j < |rows| && out[k].id == rows[j].id
      ensures out[k] == Project(rows[j])
    {
      assert sorted[k] in multiset(rows);
      var p :| 0 <= p < |rows| && rows[p] == sorted[k];
    }
  }

  /** The response is the projection of a prefix of the table sorted by descending id. */
  lemma ListReviewsPrefix(rows: seq<Row>, limit: Option<int>)
    ensures |ListReviews(rows, limit)| <= |SortByIdDesc(rows)|
    ensures forall k :: 0 <= k < |ListReviews(rows, limit)| ==> ListReviews(rows, limit)[k] == Project(SortByIdDesc(rows)[k])
  {
    SelectRecentFacts(rows, limit.GetOr(DefaultLimit));
  }

  /** Every row left out has a smaller id than every row returned: the result is the top of the table by id. */
  lemma ListReviewsTop(rows: seq<Row>, limit: Option<int>)
    ensures var out := ListReviews(rows, limit);
            forall j, k ::
              (0 <= j < |rows| && 0 <= k < |out| &&
               (forall m :: 0 <= m < |out| ==> out[m].id != rows[j].id)) ==> rows[j].id < out[k].id
  {
    var sorted := SortByIdDesc(rows);
    var out := ListReviews(rows, limit);
    SortByIdDescSorted(rows);
    SortByIdDescKeeps(rows);
    ListReviewsPrefix(rows, limit);
    forall j, k | 0 <= j < |rows| && 0 <= k < |out| &&
                  (forall m :: 0 <= m < |out| ==> out[m].id != rows[j].id)
      ensures rows[j].id < out[k].id
    {
      assert rows[j] in multiset(sorted);
      var p :| 0 <= p < |sorted| && sorted[p] == rows[j];
      MissingId(out, rows[j].id, p);
      assert out[k].id == sorted[k].id;
      assert k < p;
    }
  }

  /** An id absent from the response is not the id at any of its positions. */
  lemma MissingId(out: seq<ReviewOut>, id: nat, p: nat)
    requires forall m :: 0 <= m < |out| ==> out[m].id != id
    ensures p < |out| ==> out[p].id != id
  {
  }

  /**
   * On a table the producer wrote (ids growing in insertion order) the
   * response is the most recently inserted rows, newest first.
   */
  lemma ListReviewsNewestFirst(rows: seq<Row>, limit: Option<int>)
    requires IdsAscending(rows)
    ensures var out := ListReviews(rows, limit);
            forall k :: 0 <= k < |out| ==> out[k] == Project(rows[|rows| - 1 - k])
  {
    SortAscendingReverses(rows);
    ListReviewsPrefix(rows, limit);
  }

  /** The three-of-five example: limit 2 over ids 1..5 returns ids 5 and 4. */
  lemma ListReviewsExample(r1: Review, r2: Review, r3: Review, r4: Review, r5: Review, t: Instant)
    ensures var rows := [Row(1, t, r1), Row(2, t, r2), Row(3, t, r3), Row(4, t, r4), Row(5, t, r5)];
            var out := ListReviews(rows, Some(2));
            |out| == 2 && out[0].id == 5 && out[1].id == 4
  {
    var rows := [Row(1, t, r1), Row(2, t, r2), Row(3, t, r3), Row(4, t, r4), Row(5, t, r5)];
    ListReviewsNewestFirst(rows, Some(2));
  }
}
