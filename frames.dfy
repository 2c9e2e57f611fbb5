/** The part of pandas the linking step uses: a data frame is a list of
    column names and a list of rows, each row a map from column name to cell.
    The relational operations return new frames; DataFrame is the mutable
    object whose columns are assigned in place. */
module Frames {
  import opened Errors

  /** A cell of a frame. Missing is pandas' NaN; Pair holds the tuple that
      parse_doc_id returns. Only Str cells pass isinstance(x, str). */
  datatype Cell =
    | Str(s: string)
    | Int(i: int)
    | Real(x: real)
    | Pair(first: string, second: string)
    | Missing

  type Row = map<string, Cell>

  datatype Frame = Frame(columns: seq<string>, rows: seq<Row>)

  /** No name occurs twice. */
  predicate Distinct(cols: seq<string>) {
    cols == [] || (cols[0] !in cols[1..] && Distinct(cols[1..]))
  }

  lemma {:induction false} DistinctAppend(a: seq<string>, b: seq<string>)
    requires Distinct(a) && Distinct(b)
    requires forall x :: x in a ==> x !in b
    ensures Distinct(a + b)
  {
    if a != [] {
      DistinctAppend(a[1..], b);
      assert (a + b)[0] == a[0] && (a + b)[1..] == a[1..] + b;
      assert a[0] !in a[1..] + b;
    } else {
      assert a + b == b;
    }
  }

  /** Every column is named once and every row holds a cell for exactly the
      frame's columns. */
  ghost predicate WellFormed(f: Frame) {
    Distinct(f.columns) && forall r, c :: r in f.rows ==> (c in r <==> c in f.columns)
  }

  /** The cell of a row in a column; a row of a well-formed frame has every column. */
  function Get(r: Row, c: string): Cell {
    if c in r then r[c] else Missing
  }

  lemma AppendFreshDistinct(cols: seq<string>, name: string)
    ensures Distinct(cols) && name !in cols ==> Distinct(cols + [name])
  {
    if Distinct(cols) && name !in cols {
      DistinctAppend(cols, [name]);
    }
  }

  // ---------------------------------------------------------------- masks

  /** Rows selected by a boolean mask, in their original order (df[mask]). */
  function Keep<T>(s: seq<T>, mask: seq<bool>): (r: seq<T>)
    requires |s| == |mask|
    ensures |r| <= |s|
    ensures forall x :: x in r ==> x in s
  {
    if s == [] then []
    else Keep(s[..|s| - 1], mask[..|s| - 1]) + (if mask[|s| - 1] then [s[|s| - 1]] else [])
  }

  /** The positions a mask selects, in increasing order. */
  function Selected(mask: seq<bool>): (idx: seq<int>)
    ensures forall k :: 0 <= k < |idx| ==> 0 <= idx[k] < |mask| && mask[idx[k]]
  {
    if mask == [] then []
    else Selected(mask[..|mask| - 1]) + (if mask[|mask| - 1] then [|mask| - 1] else [])
  }

  /** a is the subsequence of b picked out by the increasing positions idx. */
  ghost predicate SubsequenceAt<T>(a: seq<T>, b: seq<T>, idx: seq<int>) {
    && |idx| == |a|
    && (forall k :: 0 <= k < |idx| ==> 0 <= idx[k] < |b| && a[k] == b[idx[k]])
    && (forall k, l :: 0 <= k < l < |idx| ==> idx[k] < idx[l])
  }

  /** Filtering by a mask keeps exactly the selected positions, in order:
      the result is an order-preserving subsequence and no selected row is lost. */
  lemma {:induction false} KeepIsSubsequence<T>(s: seq<T>, mask: seq<bool>)
    requires |s| == |mask|
    ensures SubsequenceAt(Keep(s, mask), s, Selected(mask))
    ensures forall i :: 0 <= i < |mask| ==> (mask[i] <==> i in Selected(mask))
  {
    SelectedExactly(mask);
    if s != [] {
      var n := |s| - 1;
      KeepIsSubsequence(s[..n], mask[..n]);
      SubsequenceStep(Keep(s[..n], mask[..n]), s, Selected(mask[..n]), mask[n]);
    }
  }

  /** Extending b by one element extends a subsequence of its prefix by that
      element, when it is taken. */
  lemma SubsequenceStep<T>(a: seq<T>, b: seq<T>, idx: seq<int>, take: bool)
    requires b != [] && SubsequenceAt(a, b[..|b| - 1], idx)
    ensures SubsequenceAt(a + (if take then [b[|b| - 1]] else []), b, idx + (if take then [|b| - 1] else []))
  {
    assert forall k :: 0 <= k < |idx| ==> b[..|b| - 1][idx[k]] == b[idx[k]];
  }

  /** The selected positions are exactly those the mask marks. */
  lemma {:induction false} SelectedExactly(mask: seq<bool>)
    ensures forall i :: 0 <= i < |mask| ==> (mask[i] <==> i in Selected(mask))
  {
    if mask != [] {
      var n := |mask| - 1;
      SelectedExactly(mask[..n]);
      forall i | 0 <= i < |mask|
        ensures mask[i] <==> i in Selected(mask)
      {
        if i < n {
          assert mask[..n][i] == mask[i];
        }
      }
    }
  }

  /** An element survives a filter exactly when it sits at a selected position. */
  lemma KeepContains<T>(s: seq<T>, mask: seq<bool>, x: T)
    requires |s| == |mask|
    ensures x in Keep(s, mask) <==> exists i :: 0 <= i < |s| && mask[i] && s[i] == x
  {
    KeepIsSubsequence(s, mask);
    var idx := Selected(mask);
    if x in Keep(s, mask) {
      var k :| 0 <= k < |Keep(s, mask)| && Keep(s, mask)[k] == x;
      assert mask[idx[k]] && s[idx[k]] == x;
    }
    if i :| 0 <= i < |s| && mask[i] && s[i] == x {
      assert i in idx;
      var k :| 0 <= k < |idx| && idx[k] == i;
      assert Keep(s, mask)[k] == x;
    }
  }

  /** When every occurrence of x is selected alike, filtering keeps all of
      them or none. */
  lemma {:induction false} KeepCount<T>(s: seq<T>, mask: seq<bool>, x: T, b: bool)
    requires |s| == |mask|
    requires forall i :: 0 <= i < |s| && s[i] == x ==> mask[i] == b
    ensures multiset(Keep(s, mask))[x] == if b then multiset(s)[x] else 0
  {
    if s != [] {
      var n := |s| - 1;
      var init := Keep(s[..n], mask[..n]);
      forall i | 0 <= i < n && s[..n][i] == x
        ensures mask[..n][i] == b
      {
        assert s[..n][i] == s[i];
      }
      KeepCount(s[..n], mask[..n], x, b);
      if mask[n] {
        assert Keep(s, mask) == init + [s[n]];
        assert multiset(Keep(s, mask)) == multiset(init) + multiset{s[n]};
      } else {
        assert Keep(s, mask) == init;
      }
      assert multiset(s) == multiset(s[..n]) + multiset{s[n]} by {
        assert s == s[..n] + [s[n]];
      }
    }
  }

  /** Filtering commutes with taking a function of every element. */
  lemma {:induction false} KeepMap<T, U>(s: seq<T>, mask: seq<bool>, f: T -> U, fs: seq<U>)
    requires |s| == |mask| == |fs|
    requires forall i :: 0 <= i < |s| ==> fs[i] == f(s[i])
    ensures |Keep(fs, mask)| == |Keep(s, mask)|
    ensures forall k :: 0 <= k < |Keep(s, mask)| ==> Keep(fs, mask)[k] == f(Keep(s, mask)[k])
  {
    if s != [] {
      var n := |s| - 1;
      KeepMap(s[..n], mask[..n], f, fs[..n]);
    }
  }

  // ---------------------------------------------------------------- column lists

  function Remove(cols: seq<string>, c: string): (r: seq<string>)
    ensures forall x :: x in r <==> x in cols && x != c
    ensures Distinct(cols) ==> Distinct(r)
  {
    if cols == [] then []
    else if cols[0] == c then Remove(cols[1..], c)
    else [cols[0]] + Remove(cols[1..], c)
  }

  function Replace(cols: seq<string>, from: string, to: string): (r: seq<string>)
    ensures |r| == |cols|
    ensures forall x :: x in r <==> (x in cols && x != from) || (x == to && from in cols)
    ensures Distinct(cols) && to !in cols ==> Distinct(r)
    ensures from !in cols ==> r == cols
  {
    if cols == [] then []
    else [if cols[0] == from then to else cols[0]] + Replace(cols[1..], from, to)
  }

  /** The right frame's columns that the left frame does not already have,
      in their order. */
  function NewColumns(left: seq<string>, right: seq<string>): (r: seq<string>)
    ensures forall x :: x in r <==> x in right && x !in left
    ensures Distinct(right) ==> Distinct(r)
  {
    if right == [] then []
    else if right[0] in left then NewColumns(left, right[1..])
    else
      var rest := NewColumns(left, right[1..]);
      assert ([right[0]] + rest)[1..] == rest;
      [right[0]] + rest
  }

  /** The first of cols that is not a column of the frame, as pandas' KeyError. */
  function CheckColumns(cols: seq<string>, have: seq<string>): (r: Result<()>)
    ensures r.Ok? <==> forall c :: c in cols ==> c in have
    ensures r.Err? ==> r.error.KeyError? && r.error.key in cols && r.error.key !in have
  {
    if cols == [] then Ok(())
    else if cols[0] !in have then Err(KeyError(cols[0]))
    else CheckColumns(cols[1..], have)
  }

  // ---------------------------------------------------------------- operations

  /** df.drop(c, axis=1): a KeyError when there is no such column. */
  function Drop(f: Frame, c: string): (r: Result<Frame>)
    ensures r.Ok? <==> c in f.columns
    ensures r.Err? ==> r.error == KeyError(c)
    ensures r.Ok? ==> |r.value.rows| == |f.rows|
    ensures r.Ok? ==> forall x :: x in r.value.columns <==> x in f.columns && x != c
    ensures r.Ok? ==> forall i, k :: 0 <= i < |f.rows| && k in r.value.rows[i] ==>
      k != c && k in f.rows[i] && r.value.rows[i][k] == f.rows[i][k]
    ensures r.Ok? ==> forall i, k :: 0 <= i < |f.rows| && k in f.rows[i] && k != c ==> k in r.value.rows[i]
    ensures r.Ok? && WellFormed(f) ==> WellFormed(r.value)
  {
    if c !in f.columns then Err(KeyError(c))
    else Ok(Frame(Remove(f.columns, c), seq(|f.rows|, i requires 0 <= i < |f.rows| => f.rows[i] - {c})))
  }

  function RenameRow(r: Row, from: string, to: string): Row {
    if from in r then (r - {from})[to := r[from]] else r
  }

  /** df.rename(columns={from: to}); a column that is not there is ignored. */
  function Rename(f: Frame, from: string, to: string): (r: Frame)
    ensures |r.rows| == |f.rows|
    ensures from in f.columns && WellFormed(f) ==> to in r.columns
    ensures WellFormed(f) && to !in f.columns ==> WellFormed(r)
  {
    Frame(Replace(f.columns, from, to),
          seq(|f.rows|, i requires 0 <= i < |f.rows| => RenameRow(f.rows[i], from, to)))
  }

  /** Row i of a renamed frame is row i renamed. */
  lemma RenameAt(f: Frame, from: string, to: string, i: int)
    requires 0 <= i < |f.rows|
    ensures Rename(f, from, to).rows[i] == RenameRow(f.rows[i], from, to)
  {
  }

  /** What renaming does to one row: the value moves to the new name, the old
      name disappears and every other cell stays. */
  lemma RenameRowEffect(r: Row, from: string, to: string)
    requires from != to
    ensures from !in RenameRow(r, from, to)
    ensures from in r ==> to in RenameRow(r, from, to) && RenameRow(r, from, to)[to] == r[from]
    ensures forall k :: k != from && k != to ==>
      (k in RenameRow(r, from, to) <==> k in r) && (k in r ==> RenameRow(r, from, to)[k] == r[k])
  {
  }

  function RestrictRow(r: Row, cols: seq<string>): (p: Row)
    ensures forall c :: c in p <==> c in r && c in cols
    ensures forall c :: c in p ==> p[c] == r[c]
  {
    map c | c in cols && c in r :: r[c]
  }

  /** df[cols]: the frame with exactly the listed columns in the listed order;
      a KeyError when one of them is missing. */
  function Project(f: Frame, cols: seq<string>): (r: Result<Frame>)
    ensures r.Ok? <==> forall c :: c in cols ==> c in f.columns
    ensures r.Ok? ==> r.value.columns == cols && |r.value.rows| == |f.rows|
    ensures r.Ok? ==> forall i, c :: 0 <= i < |f.rows| && c in cols ==> Get(r.value.rows[i], c) == Get(f.rows[i], c)
    ensures r.Ok? && WellFormed(f) && Distinct(cols) ==> WellFormed(r.value)
  {
    match CheckColumns(cols, f.columns)
    case Err(e) => Err(e)
    case Ok(_) =>
      Ok(Frame(cols, seq(|f.rows|, i requires 0 <= i < |f.rows| => RestrictRow(f.rows[i], cols))))
  }

  /** df[mask]: the rows the boolean mask selects, all columns kept. */
  function Where(f: Frame, mask: seq<bool>): (r: Frame)
    requires |mask| == |f.rows|
    ensures r.columns == f.columns && |r.rows| <= |f.rows|
    ensures WellFormed(f) ==> WellFormed(r)
  {
    Frame(f.columns, Keep(f.rows, mask))
  }

  /** df[name] = values: a new column at the end, or an existing one overwritten. */
  function WithColumn(f: Frame, name: string, values: seq<Cell>): (r: Frame)
    requires |values| == |f.rows|
    ensures |r.rows| == |f.rows| && name in r.columns
    ensures forall i :: 0 <= i < |f.rows| ==> Get(r.rows[i], name) == values[i]
    ensures forall i, k :: 0 <= i < |f.rows| && k != name ==>
      (k in r.rows[i] <==> k in f.rows[i]) && Get(r.rows[i], k) == Get(f.rows[i], k)
    ensures WellFormed(f) ==> WellFormed(r)
  {
    AppendFreshDistinct(f.columns, name);
    Frame(if name in f.columns then f.columns else f.columns + [name],
          seq(|f.rows|, i requires 0 <= i < |f.rows| => f.rows[i][name := values[i]]))
  }

  // ---------------------------------------------------------------- inner join

  /** The rows an inner join makes from one left row: one per right row with
      an equal key, in right-frame order. */
  function Matches(l: Row, right: seq<Row>, leftOn: string, rightOn: string): seq<Row> {
    if right == [] then []
    else
      var last := right[|right| - 1];
      Matches(l, right[..|right| - 1], leftOn, rightOn)
        + (if Get(l, leftOn) == Get(last, rightOn) then [l + last] else [])
  }

  function JoinRows(left: seq<Row>, right: seq<Row>, leftOn: string, rightOn: string): seq<Row> {
    if left == [] then []
    else JoinRows(left[..|left| - 1], right, leftOn, rightOn) + Matches(left[|left| - 1], right, leftOn, rightOn)
  }

  /** Every row of Matches comes from a right row whose key equals the left row's. */
  lemma {:induction false} MatchesSource(l: Row, right: seq<Row>, leftOn: string, rightOn: string, row: Row)
    returns (j: int)
    requires row in Matches(l, right, leftOn, rightOn)
    ensures 0 <= j < |right| && Get(l, leftOn) == Get(right[j], rightOn) && row == l + right[j]
  {
    var n := |right| - 1;
    if row in Matches(l, right[..n], leftOn, rightOn) {
      j := MatchesSource(l, right[..n], leftOn, rightOn, row);
      assert right[..n][j] == right[j];
    } else {
      j := n;
    }
  }

  /** Every right row whose key equals the left row's gives a row of Matches. */
  lemma {:induction false} MatchesComplete(l: Row, right: seq<Row>, leftOn: string, rightOn: string, j: int)
    requires 0 <= j < |right| && Get(l, leftOn) == Get(right[j], rightOn)
    ensures l + right[j] in Matches(l, right, leftOn, rightOn)
  {
    var n := |right| - 1;
    if j < n {
      assert right[..n][j] == right[j];
      MatchesComplete(l, right[..n], leftOn, rightOn, j);
    }
  }

  /** Every row of an inner join is the union of a left and a right row whose
      keys agree. */
  lemma {:induction false} JoinSource(left: seq<Row>, right: seq<Row>, leftOn: string, rightOn: string, row: Row)
    returns (i: int, j: int)
    requires row in JoinRows(left, right, leftOn, rightOn)
    ensures 0 <= i < |left| && 0 <= j < |right|
    ensures Get(left[i], leftOn) == Get(right[j], rightOn) && row == left[i] + right[j]
  {
    var n := |left| - 1;
    if row in JoinRows(left[..n], right, leftOn, rightOn) {
      i, j := JoinSource(left[..n], right, leftOn, rightOn, row);
      assert left[..n][i] == left[i];
    } else {
      i := n;
      j := MatchesSource(left[n], right, leftOn, rightOn, row);
    }
  }

  /** Every pair of a left and a right row whose keys agree gives a row of the
      inner join: no matched row is lost. */
  lemma {:induction false} JoinComplete(left: seq<Row>, right: seq<Row>, leftOn: string, rightOn: string, i: int, j: int)
    requires 0 <= i < |left| && 0 <= j < |right|
    requires Get(left[i], leftOn) == Get(right[j], rightOn)
    ensures left[i] + right[j] in JoinRows(left, right, leftOn, rightOn)
  {
    var n := |left| - 1;
    if i < n {
      assert left[..n][i] == left[i];
      JoinComplete(left[..n], right, leftOn, rightOn, i, j);
    } else {
      MatchesComplete(left[n], right, leftOn, rightOn, j);
    }
  }

  /** idx names, in increasing order, exactly the elements of xs that satisfy
      p, and each w[k] stands in relation rel to the element idx[k] names. */
  predicate Picks<T, U>(xs: seq<T>, p: T -> bool, rel: (T, U) -> bool, w: seq<U>, idx: seq<int>) {
    && |idx| == |w|
    && (forall k :: 0 <= k < |idx| ==> 0 <= idx[k] < |xs| && p(xs[idx[k]]) && rel(xs[idx[k]], w[k]))
    && (forall k, l :: 0 <= k < l < |idx| ==> idx[k] < idx[l])
    && (forall i :: 0 <= i < |xs| && p(xs[i]) ==> i in idx)
  }

  /** One more element extends the correspondence: by y when it satisfies p,
      unchanged otherwise. */
  lemma PicksStep<T, U>(xs: seq<T>, p: T -> bool, rel: (T, U) -> bool, before: seq<U>, prev: seq<int>, y: U, w: seq<U>)
    returns (idx: seq<int>)
    requires xs != []
    requires Picks(xs[..|xs| - 1], p, rel, before, prev)
    requires p(xs[|xs| - 1]) ==> rel(xs[|xs| - 1], y) && w == before + [y]
    requires !p(xs[|xs| - 1]) ==> w == before
    ensures Picks(xs, p, rel, w, idx)
  {
    var n := |xs| - 1;
    assert forall i :: 0 <= i < n ==> xs[..n][i] == xs[i];
    if p(xs[n]) {
      idx := prev + [n];
    } else {
      idx := prev;
    }
  }

  /** The right rows whose key equals that of l. */
  function KeyMatches(l: Row, leftOn: string, rightOn: string): Row -> bool {
    r => Get(l, leftOn) == Get(r, rightOn)
  }

  /** A joined row is l combined with the right row. */
  function JoinedWith(l: Row): (Row, Row) -> bool {
    (r, row) => row == l + r
  }

  /** The rows one left row contributes are l combined with each matching
      right row, once per match, in right-frame order. */
  lemma {:induction false} MatchesPicks(l: Row, right: seq<Row>, leftOn: string, rightOn: string) returns (js: seq<int>)
    ensures Picks(right, KeyMatches(l, leftOn, rightOn), JoinedWith(l), Matches(l, right, leftOn, rightOn), js)
  {
    if right == [] {
      js := [];
    } else {
      var n := |right| - 1;
      var prev := MatchesPicks(l, right[..n], leftOn, rightOn);
      js := PicksStep(right, KeyMatches(l, leftOn, rightOn), JoinedWith(l),
        Matches(l, right[..n], leftOn, rightOn), prev, l + right[n], Matches(l, right, leftOn, rightOn));
    }
  }

  /** Each pairs[k] names a left and a right row whose keys agree, and the
      k-th row is their union. */
  predicate PairsSound(left: seq<Row>, right: seq<Row>, leftOn: string, rightOn: string, rows: seq<Row>, pairs: seq<(int, int)>) {
    && |pairs| == |rows|
    && forall k :: 0 <= k < |pairs| ==>
         && 0 <= pairs[k].0 < |left| && 0 <= pairs[k].1 < |right|
         && Get(left[pairs[k].0], leftOn) == Get(right[pairs[k].1], rightOn)
         && rows[k] == left[pairs[k].0] + right[pairs[k].1]
  }

  /** The pairs are in strictly increasing lexicographic order, so none is
      listed twice. */
  predicate PairsOrdered(pairs: seq<(int, int)>) {
    forall k, m :: 0 <= k < m < |pairs| ==>
      pairs[k].0 < pairs[m].0 || (pairs[k].0 == pairs[m].0 && pairs[k].1 < pairs[m].1)
  }

  /** Every pair of a left and a right row whose keys agree is listed. */
  predicate PairsComplete(left: seq<Row>, right: seq<Row>, leftOn: string, rightOn: string, pairs: seq<(int, int)>) {
    forall i, j :: 0 <= i < |left| && 0 <= j < |right| && Get(left[i], leftOn) == Get(right[j], rightOn) ==> (i, j) in pairs
  }

  /** pairs lists, in lexicographic order and each once, exactly the index
      pairs (i, j) whose keys agree, and the k-th joined row is the union of
      the rows pairs[k] names. */
  predicate JoinedPairs(left: seq<Row>, right: seq<Row>, leftOn: string, rightOn: string, rows: seq<Row>, pairs: seq<(int, int)>) {
    && PairsSound(left, right, leftOn, rightOn, rows, pairs)
    && PairsOrdered(pairs)
    && PairsComplete(left, right, leftOn, rightOn, pairs)
  }

  /** The pairs of left row n with the right rows js names. */
  function PairedWith(n: int, js: seq<int>): (r: seq<(int, int)>)
    ensures |r| == |js| && forall t :: 0 <= t < |js| ==> r[t] == (n, js[t])
  {
    seq(|js|, t requires 0 <= t < |js| => (n, js[t]))
  }

  lemma PairsSoundStep(left: seq<Row>, right: seq<Row>, leftOn: string, rightOn: string,
                       before: seq<Row>, prev: seq<(int, int)>, ms: seq<Row>, js: seq<int>)
    requires left != []
    requires PairsSound(left[..|left| - 1], right, leftOn, rightOn, before, prev)
    requires |ms| == |js|
    requires forall t :: 0 <= t < |js| ==>
      && 0 <= js[t] < |right| && Get(left[|left| - 1], leftOn) == Get(right[js[t]], rightOn)
      && ms[t] == left[|left| - 1] + right[js[t]]
    ensures PairsSound(left, right, leftOn, rightOn, before + ms, prev + PairedWith(|left| - 1, js))
  {
    var n := |left| - 1;
    var pairs := prev + PairedWith(n, js);
    forall k | 0 <= k < |pairs|
      ensures && 0 <= pairs[k].0 < |left| && 0 <= pairs[k].1 < |right|
              && Get(left[pairs[k].0], leftOn) == Get(right[pairs[k].1], rightOn)
              && (before + ms)[k] == left[pairs[k].0] + right[pairs[k].1]
    {
      if k < |prev| {
        assert left[..n][prev[k].0] == left[prev[k].0];
      } else {
        assert (before + ms)[k] == ms[k - |prev|];
      }
    }
  }

  lemma PairsOrderedStep(n: int, prev: seq<(int, int)>, js: seq<int>)
    requires PairsOrdered(prev) && forall k :: 0 <= k < |prev| ==> prev[k].0 < n
    requires forall k, m :: 0 <= k < m < |js| ==> js[k] < js[m]
    ensures PairsOrdered(prev + PairedWith(n, js))
  {
  }

  lemma PairsCompleteStep(left: seq<Row>, right: seq<Row>, leftOn: string, rightOn: string, prev: seq<(int, int)>, js: seq<int>)
    requires left != []
    requires PairsComplete(left[..|left| - 1], right, leftOn, rightOn, prev)
    requires forall j :: 0 <= j < |right| && KeyMatches(left[|left| - 1], leftOn, rightOn)(right[j]) ==> j in js
    ensures PairsComplete(left, right, leftOn, rightOn, prev + PairedWith(|left| - 1, js))
  {
    var n := |left| - 1;
    var pairs := prev + PairedWith(n, js);
    forall i, j | 0 <= i < |left| && 0 <= j < |right| && Get(left[i], leftOn) == Get(right[j], rightOn)
      ensures (i, j) in pairs
    {
      if i < n {
        assert left[..n][i] == left[i];
        assert (i, j) in prev;
      } else {
        assert KeyMatches(left[n], leftOn, rightOn)(right[j]);
        var t :| 0 <= t < |js| && js[t] == j;
        assert pairs[|prev| + t] == (i, j);
      }
    }
  }

  /** One more left row appends its matches, paired with its index. */
  lemma JoinPairsStep(left: seq<Row>, right: seq<Row>, leftOn: string, rightOn: string,
                      before: seq<Row>, prev: seq<(int, int)>, ms: seq<Row>, js: seq<int>)
    returns (pairs: seq<(int, int)>)
    requires left != []
    requires JoinedPairs(left[..|left| - 1], right, leftOn, rightOn, before, prev)
    requires Picks(right, KeyMatches(left[|left| - 1], leftOn, rightOn), JoinedWith(left[|left| - 1]), ms, js)
    ensures JoinedPairs(left, right, leftOn, rightOn, before + ms, pairs)
  {
    var n := |left| - 1;
    pairs := prev + PairedWith(n, js);
    PairsSoundStep(left, right, leftOn, rightOn, before, prev, ms, js);
    PairsOrderedStep(n, prev, js);
    PairsCompleteStep(left, right, leftOn, rightOn, prev, js);
  }

  /** An inner join has one row for every pair of a left and a right row
      whose keys agree, and no other: pairs gives, in order (left index
      first), the pair each joined row comes from. */
  lemma {:induction false} JoinPairs(left: seq<Row>, right: seq<Row>, leftOn: string, rightOn: string)
    returns (pairs: seq<(int, int)>)
    ensures JoinedPairs(left, right, leftOn, rightOn, JoinRows(left, right, leftOn, rightOn), pairs)
  {
    if left == [] {
      pairs := [];
    } else {
      var n := |left| - 1;
      var prev := JoinPairs(left[..n], right, leftOn, rightOn);
      var js := MatchesPicks(left[n], right, leftOn, rightOn);
      pairs := JoinPairsStep(left, right, leftOn, rightOn,
        JoinRows(left[..n], right, leftOn, rightOn), prev, Matches(left[n], right, leftOn, rightOn), js);
    }
  }

  /** pd.merge(left, right, left_on=leftOn, right_on=rightOn), an inner join:
      a KeyError when a key column is missing; otherwise the columns of the
      left frame followed by the new columns of the right frame. */
  function InnerJoin(left: Frame, right: Frame, leftOn: string, rightOn: string): (r: Result<Frame>)
    ensures r.Ok? <==> leftOn in left.columns && rightOn in right.columns
    ensures r.Err? ==> r.error == KeyError(leftOn) || r.error == KeyError(rightOn)
    ensures r.Ok? ==> forall c :: c in r.value.columns <==> c in left.columns || c in right.columns
    ensures r.Ok? && WellFormed(left) && WellFormed(right) ==> WellFormed(r.value)
  {
    if leftOn !in left.columns then Err(KeyError(leftOn))
    else if rightOn !in right.columns then Err(KeyError(rightOn))
    else
      var cols := left.columns + NewColumns(left.columns, right.columns);
      var rows := JoinRows(left.rows, right.rows, leftOn, rightOn);
      assert WellFormed(left) && WellFormed(right) ==> WellFormed(Frame(cols, rows)) by {
        if WellFormed(left) && WellFormed(right) {
          DistinctAppend(left.columns, NewColumns(left.columns, right.columns));
          forall r, c | r in rows ensures c in r <==> c in cols {
            var i, j := JoinSource(left.rows, right.rows, leftOn, rightOn, r);
            assert left.rows[i] in left.rows && right.rows[j] in right.rows;
          }
        }
      }
      Ok(Frame(cols, rows))
  }

  /** Every row of an inner join holds all the cells of some right row: on a
      shared column the right frame's cell wins. */
  lemma JoinKeepsRight(left: Frame, right: Frame, leftOn: string, rightOn: string, row: Row) returns (x: Row)
    requires InnerJoin(left, right, leftOn, rightOn).Ok?
    requires row in InnerJoin(left, right, leftOn, rightOn).value.rows
    ensures x in right.rows
    ensures forall c :: c in x ==> c in row && row[c] == x[c]
  {
    var i, j := JoinSource(left.rows, right.rows, leftOn, rightOn, row);
    x := right.rows[j];
  }

  // ---------------------------------------------------------------- apply

  /** Series.apply(f) over the rows, where f may raise: the first row that
      raises stops it with that error. */
  function Apply<R, T>(rows: seq<R>, f: R -> Result<T>): (r: Result<seq<T>>)
    ensures r.Ok? ==> |r.value| == |rows|
  {
    if rows == [] then Ok([])
    else
      var n := |rows| - 1;
      match Apply(rows[..n], f)
      case Err(e) => Err(e)
      case Ok(vs) =>
        match f(rows[n])
        case Err(e) => Err(e)
        case Ok(v) => Ok(vs + [v])
  }

  /** Applying succeeds exactly when every row succeeds, and then gives every
      row's result in row order; otherwise the error is that of the first row
      that fails. */
  lemma {:induction false} ApplySound<R, T>(rows: seq<R>, f: R -> Result<T>)
    ensures Apply(rows, f).Ok? <==> forall i :: 0 <= i < |rows| ==> f(rows[i]).Ok?
    ensures Apply(rows, f).Ok? ==> forall i :: 0 <= i < |rows| ==> f(rows[i]) == Ok(Apply(rows, f).value[i])
    ensures Apply(rows, f).Err? ==>
      exists i :: && 0 <= i < |rows| && f(rows[i]).Err? && Apply(rows, f).error == f(rows[i]).error
                  && forall j :: 0 <= j < i ==> f(rows[j]).Ok?
  {
    if rows != [] {
      var n := |rows| - 1;
      var init := rows[..n];
      ApplySound(init, f);
      assert forall i :: 0 <= i < n ==> init[i] == rows[i];
      var prev := Apply(init, f);
      if prev.Err? {
        var i :| && 0 <= i < n && f(init[i]).Err? && prev.error == f(init[i]).error
                 && forall j :: 0 <= j < i ==> f(init[j]).Ok?;
        assert f(rows[i]).Err?;
      } else if f(rows[n]).Ok? {
        assert Apply(rows, f) == Ok(prev.value + [f(rows[n]).value]);
      }
    }
  }

  /** One more row of an apply loop: its result is appended, or its error
      ends the whole apply. */
  lemma ApplyStep<R, T>(rows: seq<R>, f: R -> Result<T>, i: int, out: seq<T>)
    requires 0 <= i < |rows|
    requires Apply(rows[..i], f) == Ok(out)
    ensures f(rows[i]).Ok? ==> Apply(rows[..i + 1], f) == Ok(out + [f(rows[i]).value])
    ensures f(rows[i]).Err? ==> Apply(rows, f) == Err(f(rows[i]).error)
  {
    assert rows[..i + 1][..i] == rows[..i];
    if f(rows[i]).Err? {
      ApplyErrSticky(rows, f, i + 1);
    }
  }

  /** Once a prefix has failed, the rows after it change nothing. */
  lemma {:induction false} ApplyErrSticky<R, T>(rows: seq<R>, f: R -> Result<T>, i: int)
    requires 0 <= i <= |rows| && Apply(rows[..i], f).Err?
    ensures Apply(rows, f) == Apply(rows[..i], f)
  {
    if i == |rows| {
      assert rows[..i] == rows;
    } else {
      var n := |rows| - 1;
      assert rows[..n][..i] == rows[..i];
      ApplyErrSticky(rows[..n], f, i);
    }
  }

  // ---------------------------------------------------------------- mutable frame

  /** A pandas DataFrame whose columns are assigned in place. */
  class DataFrame {
    var columns: seq<string>
    var rows: seq<Row>

    function Value(): Frame
      reads this
    {
      Frame(columns, rows)
    }

    constructor (f: Frame)
      ensures Value() == f
    {
      columns := f.columns;
      rows := f.rows;
    }

    /** df[name] = values */
    method SetColumn(name: string, values: seq<Cell>)
      requires |values| == |rows|
      modifies this
      ensures Value() == WithColumn(old(Value()), name, values)
    {
      if name !in columns {
        columns := columns + [name];
      }
      var old_rows := rows;
      rows := seq(|old_rows|, i requires 0 <= i < |old_rows| => old_rows[i][name := values[i]]);
    }
  }
}
