/** The parts of the protocol table model that are pure computation: the
    search over the displayed rows and the table's shape after `update`.
    Each row is the text of one protocol block in the current view. */
module ProtocolTable {
  import opened Wrappers
  import opened Text

  // ------------------------------------------------------------ search

  /** `s.find(w, start)` for a non-empty `w`: the first index at or after
      `start` where `w` occurs, or -1. */
  function Find(s: string, w: string, start: nat): (k: int)
    requires |w| > 0
    ensures k == -1 || (start <= k && OccursAt(s, w, k))
    ensures forall t :: start <= t && (k == -1 || t < k) ==> !OccursAt(s, w, t)
    decreases |s| - start
  {
    if start + |w| > |s| then -1
    else if s[start..start + |w|] == w then start
    else Find(s, w, start + 1)
  }

  /** Row-major order of table cells. */
  predicate Before(p: (int, int), q: (int, int)) {
    p.0 < q.0 || (p.0 == q.0 && p.1 < q.1)
  }

  /** A visible row: inside the table and not hidden. */
  predicate Visible(rows: seq<string>, hidden: set<int>, i: int) {
    0 <= i < |rows| && i !in hidden
  }

  /** The `find` loop over one row: every column where `value` starts,
      overlapping occurrences included, left to right. */
  method FindAll(block: string, value: string) returns (cols: seq<int>)
    requires |value| > 0
    ensures forall k :: 0 <= k < |cols| ==> OccursAt(block, value, cols[k])
    ensures forall t :: OccursAt(block, value, t) ==> t in cols
    ensures forall a, b :: 0 <= a < b < |cols| ==> cols[a] < cols[b]
  {
    cols := [];
    var j := Find(block, value, 0);
    while j != -1
      invariant j == -1 || OccursAt(block, value, j)
      invariant forall k :: 0 <= k < |cols| ==> OccursAt(block, value, cols[k]) && (j == -1 || cols[k] < j)
      invariant forall t :: OccursAt(block, value, t) && (j == -1 || t < j) ==> t in cols
      invariant forall a, b :: 0 <= a < b < |cols| ==> cols[a] < cols[b]
      decreases if j == -1 then 0 else |block| + 1 - j
    {
      cols := cols + [j];
      j := Find(block, value, j + 1);
    }
  }

  /** `find_protocol_value(value)`: every (row, column) where `value`
      starts in a visible row, overlapping occurrences included, in
      row-major order; the count returned is the number of results. An
      empty value finds nothing. */
  method FindProtocolValue(rows: seq<string>, hidden: set<int>, value: string)
    returns (results: seq<(int, int)>, count: int)
    ensures |value| == 0 ==> results == [] && count == 0
    ensures count == |results|
    ensures forall k :: 0 <= k < |results| ==>
              Visible(rows, hidden, results[k].0) && OccursAt(rows[results[k].0], value, results[k].1)
    ensures |value| > 0 ==>
              forall i, j :: Visible(rows, hidden, i) && OccursAt(rows[i], value, j) ==> (i, j) in results
    ensures forall a, b :: 0 <= a < b < |results| ==> Before(results[a], results[b])
  {
    results := [];
    if |value| == 0 {
      return results, 0;
    }
    var i := 0;
    while i < |rows|
      invariant 0 <= i <= |rows|
      invariant forall k :: 0 <= k < |results| ==>
                  Visible(rows, hidden, results[k].0) && OccursAt(rows[results[k].0], value, results[k].1)
                  && results[k].0 < i
      invariant forall r, j :: Visible(rows, hidden, r) && r < i && OccursAt(rows[r], value, j) ==> (r, j) in results
      invariant forall a, b :: 0 <= a < b < |results| ==> Before(results[a], results[b])
    {
      if i !in hidden {
        var cols := FindAll(rows[i], value);
        var row := seq(|cols|, k requires 0 <= k < |cols| => (i, cols[k]));
        var before := results;
        results := results + row;
        assert forall k :: 0 <= k < |before| ==> results[k] == before[k];
        assert forall k :: 0 <= k < |row| ==> results[|before| + k] == (i, cols[k]);
        forall t | OccursAt(rows[i], value, t)
          ensures (i, t) in results
        {
          var k :| 0 <= k < |cols| && cols[k] == t;
          assert results[|before| + k] == (i, t);
        }
      }
      i := i + 1;
    }
    count := |results|;
  }

  // ------------------------------------------------------------ shape

  /** The longest visible row among the first `n` rows, 0 if none. */
  function MaxVisible(rows: seq<string>, hidden: set<int>, n: nat): (c: nat)
    requires n <= |rows|
    decreases n
  {
    if n == 0 then 0
    else
      var c := MaxVisible(rows, hidden, n - 1);
      if n - 1 !in hidden && |rows[n - 1]| > c then |rows[n - 1]| else c
  }

  /** `MaxVisible` is the maximum: no visible row is longer, and unless no
      row is visible, some visible row has exactly that length. */
  lemma {:induction false} MaxVisibleIsMax(rows: seq<string>, hidden: set<int>, n: nat)
    requires n <= |rows|
    ensures forall i :: Visible(rows, hidden, i) && i < n ==> |rows[i]| <= MaxVisible(rows, hidden, n)
    ensures (exists i :: Visible(rows, hidden, i) && i < n)
            ==> exists i :: Visible(rows, hidden, i) && i < n && |rows[i]| == MaxVisible(rows, hidden, n)
    ensures (forall i :: Visible(rows, hidden, i) ==> i >= n) ==> MaxVisible(rows, hidden, n) == 0
    decreases n
  {
    if n > 0 {
      MaxVisibleIsMax(rows, hidden, n - 1);
      var c := MaxVisible(rows, hidden, n - 1);
      if n - 1 !in hidden && |rows[n - 1]| > c {
        assert Visible(rows, hidden, n - 1);
      } else if exists i :: Visible(rows, hidden, i) && i < n - 1 {
        var i :| Visible(rows, hidden, i) && i < n - 1 && |rows[i]| == c;
      } else if n - 1 !in hidden {
        assert c == 0 && |rows[n - 1]| == 0;
        assert Visible(rows, hidden, n - 1);
      }
    }
  }

  /** The model's view-dependent state after `update`. */
  datatype Table = Table(
    colCount: nat,
    rowCount: nat,
    displayData: Option<seq<string>>,
    searchResults: seq<(int, int)>,
    searchValue: string)

  /** `update` on the table's shape and search: with blocks, the column
      count is the longest visible row (0 when every row is hidden), the
      row count is the number of blocks, and the stored search runs again;
      with no blocks, both counts are 0, there is nothing to display, and
      the old search results stay. */
  method Update(t: Table, rows: seq<string>, hidden: set<int>) returns (u: Table)
    ensures |rows| == 0 ==> u == t.(colCount := 0, rowCount := 0, displayData := None)
    ensures |rows| > 0 ==> u.rowCount == |rows| && u.displayData == Some(rows) && u.searchValue == t.searchValue
    ensures |rows| > 0 ==> forall i :: Visible(rows, hidden, i) ==> |rows[i]| <= u.colCount
    ensures |rows| > 0 ==> u.colCount == 0 || exists i :: Visible(rows, hidden, i) && |rows[i]| == u.colCount
    ensures |rows| > 0 && (forall i :: !Visible(rows, hidden, i)) ==> u.colCount == 0
    ensures |rows| > 0 ==> forall k :: 0 <= k < |u.searchResults| ==>
              Visible(rows, hidden, u.searchResults[k].0)
              && OccursAt(rows[u.searchResults[k].0], t.searchValue, u.searchResults[k].1)
    ensures |rows| > 0 && |t.searchValue| > 0 ==>
              forall i, j :: Visible(rows, hidden, i) && OccursAt(rows[i], t.searchValue, j) ==> (i, j) in u.searchResults
    ensures |rows| > 0 && |t.searchValue| == 0 ==> u.searchResults == []
    ensures |rows| > 0 ==> forall a, b :: 0 <= a < b < |u.searchResults| ==> Before(u.searchResults[a], u.searchResults[b])
  {
    if |rows| > 0 {
      var cols := MaxVisible(rows, hidden, |rows|);
      MaxVisibleIsMax(rows, hidden, |rows|);
      var results, _ := FindProtocolValue(rows, hidden, t.searchValue);
      u := Table(cols, |rows|, Some(rows), results, t.searchValue);
    } else {
      u := t.(colCount := 0, rowCount := 0, displayData := None);
    }
  }
}
