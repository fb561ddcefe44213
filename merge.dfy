/**
 * The end of `create_df` (lines 224-248): price and currency are normalised
 * on every partial row, the rows are grouped by "url" keeping, per column,
 * the first non-null value in emission order (`groupby('url').agg('first')`),
 * and the text columns of the merged records are repaired.
 */
module Merge {
  import opened Values

  type Record = Dict

  /** The merged frame: one record per url. */
  type Frame = map<Value, Record>

  /** The columns of the `agg` call. */
  const AggregatedColumns: seq<string> := [
    "title", "text", "domain", "name", "description", "image", "retrieved", "production_data",
    "category", "price", "currency", "seller", "seller_type", "seller_url", "location", "ships to"]

  /** The columns `maybe_fix_text` repairs. */
  const TextColumns: seq<string> := ["title", "text", "name", "description"]

  function Url(r: Row): Value { Get(r, "url") }

  /** pandas' `first`: the first non-null value of `col` among the rows of `url`, in order; null if none. */
  function FirstNonNull(rows: seq<Row>, url: Value, col: string): Value
    decreases |rows|
  {
    if rows == [] then Null
    else if Url(rows[0]) == url && Get(rows[0], col) != Null then Get(rows[0], col)
    else FirstNonNull(rows[1..], url, col)
  }

  /** The group keys: pandas drops rows whose key is null. */
  function Urls(rows: seq<Row>): set<Value> {
    set i | 0 <= i < |rows| && Url(rows[i]) != Null :: Url(rows[i])
  }

  /** The record of one group, with "url" restored by `reset_index`. */
  function Group(rows: seq<Row>, url: Value): Record {
    (map c | c in AggregatedColumns :: FirstNonNull(rows, url, c))["url" := url]
  }

  function GroupByFirst(rows: seq<Row>): Frame {
    map u | u in Urls(rows) :: Group(rows, u)
  }

  /** Lines 227-228 on one row. */
  function NormaliseRow(r: Row, fixPrice: Value -> Value, fixCurrency: Value -> Value): Row {
    r["price" := fixPrice(Get(r, "price"))]["currency" := fixCurrency(Get(r, "currency"))]
  }

  function Normalise(rows: seq<Row>, fixPrice: Value -> Value, fixCurrency: Value -> Value): (out: seq<Row>)
    ensures |out| == |rows|
  {
    seq(|rows|, i requires 0 <= i < |rows| => NormaliseRow(rows[i], fixPrice, fixCurrency))
  }

  /** Line 248 on one record: `maybe_fix_text` on each text column. */
  function FixRecord(rec: Record, fixText: Value -> Value): Record {
    map c | c in rec :: if c in TextColumns then fixText(rec[c]) else rec[c]
  }

  function FixText(f: Frame, fixText: Value -> Value): Frame {
    map u | u in f :: FixRecord(f[u], fixText)
  }

  /** Lines 224-250: an empty `final_dict` gives an empty frame. */
  function BuildFrame(rows: seq<Row>, fixPrice: Value -> Value, fixCurrency: Value -> Value, fixText: Value -> Value): Frame {
    if |rows| == 0 then map[]
    else FixText(GroupByFirst(Normalise(rows, fixPrice, fixCurrency)), fixText)
  }

  // ---------------------------------------------------------------------------
  // An independent reference: merging the rows one at a time into a table,
  // as a hash aggregation would.

  /** A new group takes the row's values; an existing one fills only its null columns. */
  function Absorb(f: Frame, r: Row): Frame {
    var u := Url(r);
    if u == Null then f
    else if u !in f then f[u := NewGroup(r)]
    else f[u := Fill(f[u], r)]
  }

  function NewGroup(r: Row): Record {
    (map c | c in AggregatedColumns :: Get(r, c))["url" := Url(r)]
  }

  function Fill(rec: Record, r: Row): Record {
    (map c | c in AggregatedColumns :: if Get(rec, c) != Null then Get(rec, c) else Get(r, c))["url" := Url(r)]
  }

  function IncrementalMerge(rows: seq<Row>): Frame
    decreases |rows|
  {
    if rows == [] then map[] else Absorb(IncrementalMerge(rows[..|rows| - 1]), rows[|rows| - 1])
  }

  lemma {:induction false} FirstNonNullSnoc(rows: seq<Row>, r: Row, url: Value, col: string)
    ensures FirstNonNull(rows + [r], url, col)
         == if FirstNonNull(rows, url, col) != Null then FirstNonNull(rows, url, col)
            else if Url(r) == url then Get(r, col) else Null
    decreases |rows|
  {
    if rows == [] {
      assert [] + [r] == [r];
    } else {
      assert (rows + [r])[1..] == rows[1..] + [r];
      FirstNonNullSnoc(rows[1..], r, url, col);
    }
  }

  lemma FirstNonNullAbsent(rows: seq<Row>, url: Value, col: string)
    requires url !in Urls(rows) && url != Null
    ensures FirstNonNull(rows, url, col) == Null
    decreases |rows|
  {
    if rows != [] {
      if Url(rows[0]) != Null {
        assert Url(rows[0]) in Urls(rows);
      }
      assert Urls(rows[1..]) <= Urls(rows) by {
        forall u | u in Urls(rows[1..]) ensures u in Urls(rows) {
          var i :| 0 <= i < |rows| - 1 && Url(rows[1..][i]) != Null && Url(rows[1..][i]) == u;
          assert rows[1..][i] == rows[i + 1];
        }
      }
      FirstNonNullAbsent(rows[1..], url, col);
    }
  }

  lemma UrlsSnoc(rows: seq<Row>, r: Row)
    ensures Urls(rows + [r]) == Urls(rows) + (if Url(r) != Null then {Url(r)} else {})
  {
    var rr := rows + [r];
    forall u | u in Urls(rr) ensures u in Urls(rows) + (if Url(r) != Null then {Url(r)} else {}) {
      var i :| 0 <= i < |rr| && Url(rr[i]) != Null && Url(rr[i]) == u;
      if i < |rows| { assert rr[i] == rows[i]; }
    }
    forall u | u in Urls(rows) ensures u in Urls(rr) {
      var i :| 0 <= i < |rows| && Url(rows[i]) != Null && Url(rows[i]) == u;
      assert rr[i] == rows[i];
    }
    if Url(r) != Null {
      assert rr[|rows|] == r;
    }
  }

  lemma GroupSnoc(init: seq<Row>, r: Row, v: Value)
    requires v in Urls(init + [r])
    ensures Group(init + [r], v)
         == if v != Url(r) then Group(init, v)
            else if v !in Urls(init) then NewGroup(r)
            else Fill(Group(init, v), r)
  {
    forall c | c in AggregatedColumns
      ensures FirstNonNull(init + [r], v, c)
           == if FirstNonNull(init, v, c) != Null then FirstNonNull(init, v, c)
              else if Url(r) == v then Get(r, c) else Null
    {
      FirstNonNullSnoc(init, r, v, c);
    }
    if v == Url(r) && v !in Urls(init) {
      UrlsSnoc(init, r);
      forall c | c in AggregatedColumns ensures FirstNonNull(init, v, c) == Null {
        FirstNonNullAbsent(init, v, c);
      }
    }
    if v == Url(r) && v in Urls(init) {
      forall c | c in AggregatedColumns ensures Get(Group(init, v), c) == FirstNonNull(init, v, c) {
        assert c != "url";
      }
    }
  }

  lemma GroupByFirstSnoc(init: seq<Row>, r: Row)
    ensures GroupByFirst(init + [r]) == Absorb(GroupByFirst(init), r)
  {
    UrlsSnoc(init, r);
    var lhs, rhs := GroupByFirst(init + [r]), Absorb(GroupByFirst(init), r);
    assert lhs.Keys == rhs.Keys;
    forall v | v in lhs.Keys ensures lhs[v] == rhs[v] {
      GroupSnoc(init, r, v);
    }
  }

  /** Grouping by `first` is the same as merging the rows one at a time in order. */
  lemma {:induction false} GroupByFirstIsIncremental(rows: seq<Row>)
    ensures GroupByFirst(rows) == IncrementalMerge(rows)
    decreases |rows|
  {
    if rows == [] {
      assert Urls(rows) == {};
    } else {
      var init, r := rows[..|rows| - 1], rows[|rows| - 1];
      assert rows == init + [r];
      GroupByFirstIsIncremental(init);
      GroupByFirstSnoc(init, r);
    }
  }

  /** The merged value is null exactly when every row of that url has the column null. */
  lemma {:induction false} FirstNonNullIsNull(rows: seq<Row>, url: Value, col: string)
    ensures FirstNonNull(rows, url, col) == Null
        <==> forall i | 0 <= i < |rows| && Url(rows[i]) == url :: Get(rows[i], col) == Null
    decreases |rows|
  {
    if rows != [] {
      FirstNonNullIsNull(rows[1..], url, col);
      assert forall i | 1 <= i < |rows| :: rows[i] == rows[1..][i - 1];
    }
  }

  /** The merged value is the value of the earliest row of that url where the column is non-null. */
  lemma {:induction false} FirstNonNullAt(rows: seq<Row>, url: Value, col: string, i: nat)
    requires i < |rows| && Url(rows[i]) == url && Get(rows[i], col) != Null
    requires forall j | 0 <= j < i && Url(rows[j]) == url :: Get(rows[j], col) == Null
    ensures FirstNonNull(rows, url, col) == Get(rows[i], col)
    decreases i
  {
    if i > 0 {
      assert forall j | 0 <= j < i - 1 :: rows[1..][j] == rows[j + 1];
      FirstNonNullAt(rows[1..], url, col, i - 1);
    }
  }

  /**
   * One record per distinct non-null url, and each aggregated column of it
   * holds the first non-null value among that url's rows in emission order:
   * later rows never override an earlier non-null value.
   */
  lemma MergeTakesFirstNonNull(rows: seq<Row>, i: nat, col: string)
    requires i < |rows| && Url(rows[i]) != Null && col in AggregatedColumns && Get(rows[i], col) != Null
    requires forall j | 0 <= j < i && Url(rows[j]) == Url(rows[i]) :: Get(rows[j], col) == Null
    ensures Url(rows[i]) in GroupByFirst(rows)
    ensures GroupByFirst(rows)[Url(rows[i])][col] == Get(rows[i], col)
  {
    FirstNonNullAt(rows, Url(rows[i]), col, i);
    assert col != "url";
  }

  /** No merged column is left null while some row of that url has it non-null. */
  lemma MergeIsComplete(rows: seq<Row>, i: nat, col: string)
    requires i < |rows| && Url(rows[i]) != Null && col in AggregatedColumns && Get(rows[i], col) != Null
    ensures Url(rows[i]) in GroupByFirst(rows)
    ensures GroupByFirst(rows)[Url(rows[i])][col] != Null
  {
    FirstNonNullIsNull(rows, Url(rows[i]), col);
    assert col != "url";
  }

  /**
   * Normalisation changes only price and currency: row i gets the
   * normalisers' values of its own price and currency (a missing one reads
   * as None) and keeps every other column.
   */
  lemma NormaliseOnlyPriceAndCurrency(rows: seq<Row>, fixPrice: Value -> Value, fixCurrency: Value -> Value, i: nat)
    requires i < |rows|
    ensures var r := Normalise(rows, fixPrice, fixCurrency)[i];
            && r.Keys == rows[i].Keys + {"price", "currency"}
            && r["price"] == fixPrice(Get(rows[i], "price"))
            && r["currency"] == fixCurrency(Get(rows[i], "currency"))
            && forall k | k in rows[i] && k != "price" && k != "currency" :: r[k] == rows[i][k]
  {
  }

  lemma NormalisePreservesUrls(rows: seq<Row>, fixPrice: Value -> Value, fixCurrency: Value -> Value)
    ensures Urls(Normalise(rows, fixPrice, fixCurrency)) == Urls(rows)
  {
    var n := Normalise(rows, fixPrice, fixCurrency);
    assert forall i | 0 <= i < |rows| :: Url(n[i]) == Url(rows[i]);
    forall u | u in Urls(n) ensures u in Urls(rows) {
      var i :| 0 <= i < |n| && Url(n[i]) != Null && Url(n[i]) == u;
    }
    forall u | u in Urls(rows) ensures u in Urls(n) {
      var i :| 0 <= i < |rows| && Url(rows[i]) != Null && Url(rows[i]) == u;
      assert Url(n[i]) == u;
    }
  }

  /** The built frame has exactly one record per distinct non-null url of the partial rows. */
  lemma OneRecordPerUrl(rows: seq<Row>, fixPrice: Value -> Value, fixCurrency: Value -> Value, fixText: Value -> Value)
    ensures BuildFrame(rows, fixPrice, fixCurrency, fixText).Keys == Urls(rows)
  {
    NormalisePreservesUrls(rows, fixPrice, fixCurrency);
    if |rows| == 0 {
      assert Urls(rows) == {};
    }
  }

  /**
   * A non-null title, text, domain or retrieved value on the first row of a
   * url (the base row of its document) is what the merge keeps: the
   * normalisers do not touch these columns and no later source overrides them.
   */
  lemma BaseColumnsPrevail(rows: seq<Row>, i: nat, col: string, fixPrice: Value -> Value, fixCurrency: Value -> Value)
    requires col in ["title", "text", "domain", "retrieved"]
    requires i < |rows| && Url(rows[i]) != Null && Get(rows[i], col) != Null
    requires forall j | 0 <= j < i :: Url(rows[j]) != Url(rows[i])
    ensures Url(rows[i]) in GroupByFirst(Normalise(rows, fixPrice, fixCurrency))
    ensures GroupByFirst(Normalise(rows, fixPrice, fixCurrency))[Url(rows[i])][col] == Get(rows[i], col)
  {
    var n := Normalise(rows, fixPrice, fixCurrency);
    assert Url(n[i]) == Url(rows[i]) && Get(n[i], col) == Get(rows[i], col);
    assert forall j | 0 <= j < i :: Url(n[j]) == Url(rows[j]);
    MergeTakesFirstNonNull(n, i, col);
  }

  /**
   * Merge precedence: a null base price, then "19.99" from the site rule,
   * then "9.99" from microdata, merge to "19.99".
   */
  lemma PrecedenceExample(base: Row, site: Row, micro: Row)
    requires Url(base) == Url(site) == Url(micro) == Str("https://shop.example/item")
    requires Get(base, "price") == Null && Get(site, "price") == Str("19.99") && Get(micro, "price") == Str("9.99")
    ensures Str("https://shop.example/item") in GroupByFirst([base, site, micro])
    ensures GroupByFirst([base, site, micro])[Str("https://shop.example/item")]["price"] == Str("19.99")
  {
    MergeTakesFirstNonNull([base, site, micro], 1, "price");
  }
}
