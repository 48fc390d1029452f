/**
 * The counting and partition helpers of the pattern-impact statistics
 * (aibolit/model/stats.py:31-45, 106-157), over integer matrices: a matrix is
 * a sequence of rows, and its shape is the number of rows and a width every
 * row has.
 */
module Stats {
  import opened Wrappers

  /** Every row of `x` has `width` entries. */
  predicate Rectangular<T>(x: seq<seq<T>>, width: nat) {
    forall r :: 0 <= r < |x| ==> |x[r]| == width
  }

  /** The errors the array library raises on mismatched shapes. */
  datatype StatsError =
    | IndexError   // a boolean index whose length differs from the indexed array
    | ValueError   // operands whose shapes cannot be broadcast together

  // ---------------------------------------------------------------------------
  // divide_array

  /** The rows of `x`, in order, whose entry `idx` is zero (when `zero`) or non-zero (otherwise). */
  function RowsWhere(x: seq<seq<int>>, idx: nat, zero: bool): seq<seq<int>>
    requires forall r :: 0 <= r < |x| ==> idx < |x[r]|
  {
    if x == [] then []
    else
      var init, last := x[..|x| - 1], x[|x| - 1];
      RowsWhere(init, idx, zero) + (if (last[idx] == 0) == zero then [last] else [])
  }

  /**
   * `divide_array`: one pass over the rows, appending each to `nulls` when its
   * entry `patternIdx` is zero and to `notNulls` otherwise.
   */
  method DivideArray(x: seq<seq<int>>, patternIdx: nat) returns (nulls: seq<seq<int>>, notNulls: seq<seq<int>>)
    requires forall r :: 0 <= r < |x| ==> patternIdx < |x[r]|
    ensures nulls == RowsWhere(x, patternIdx, true)
    ensures notNulls == RowsWhere(x, patternIdx, false)
  {
    nulls, notNulls := [], [];
    for i := 0 to |x|
      invariant nulls == RowsWhere(x[..i], patternIdx, true)
      invariant notNulls == RowsWhere(x[..i], patternIdx, false)
    {
      assert x[..i + 1][..i] == x[..i];
      var snipp := x[i];
      if snipp[patternIdx] == 0 {
        nulls := nulls + [snipp];
      } else {
        notNulls := notNulls + [snipp];
      }
    }
    assert x[..|x|] == x;
  }

  /** A row is in the zero part exactly when it is a row of `x` with a zero at `idx`, and likewise for the other part. */
  lemma {:induction false} RowsWhereMembers(x: seq<seq<int>>, idx: nat, zero: bool)
    requires forall r :: 0 <= r < |x| ==> idx < |x[r]|
    ensures forall row :: row in RowsWhere(x, idx, zero) <==> row in x && (row[idx] == 0) == zero
  {
    if x != [] {
      var init := x[..|x| - 1];
      assert x == init + [x[|x| - 1]];
      RowsWhereMembers(init, idx, zero);
    }
  }

  /** The split is stable: dividing a concatenation divides each part in turn. */
  lemma {:induction false} RowsWhereAppend(a: seq<seq<int>>, b: seq<seq<int>>, idx: nat, zero: bool)
    requires forall r :: 0 <= r < |a| ==> idx < |a[r]|
    requires forall r :: 0 <= r < |b| ==> idx < |b[r]|
    ensures forall r :: 0 <= r < |a + b| ==> idx < |(a + b)[r]|
    ensures RowsWhere(a + b, idx, zero) == RowsWhere(a, idx, zero) + RowsWhere(b, idx, zero)
    decreases |b|
  {
    if b == [] {
      assert a + b == a;
    } else {
      var init := b[..|b| - 1];
      assert (a + b)[..|a + b| - 1] == a + init;
      assert (a + b)[|a + b| - 1] == b[|b| - 1];
      RowsWhereAppend(a, init, idx, zero);
    }
  }

  /** The two parts together hold every row of `x`, each exactly as often as `x` does. */
  lemma {:induction false} RowsWherePartition(x: seq<seq<int>>, idx: nat)
    requires forall r :: 0 <= r < |x| ==> idx < |x[r]|
    ensures |RowsWhere(x, idx, true)| + |RowsWhere(x, idx, false)| == |x|
    ensures multiset(RowsWhere(x, idx, true)) + multiset(RowsWhere(x, idx, false)) == multiset(x)
  {
    if x != [] {
      var init := x[..|x| - 1];
      assert x == init + [x[|x| - 1]];
      RowsWherePartition(init, idx);
    }
  }

  // ---------------------------------------------------------------------------
  // count_acts

  /**
   * The histogram after the first `n` rows: entry `j` counts the rows `i < n`
   * whose act is `act` and whose top-ranked pattern is `j`.
   */
  function Histogram(acts: seq<int>, ranked: seq<seq<int>>, act: int, width: nat, n: nat): (h: seq<int>)
    requires n <= |ranked| <= |acts| && ActsInRange(acts, ranked, width)
    requires act == 1 || act == 2
    ensures |h| == width
  {
    if n == 0 then seq(width, j => 0)
    else
      var h0 := Histogram(acts, ranked, act, width, n - 1);
      if acts[n - 1] == act then h0[ranked[n - 1][0] := h0[ranked[n - 1][0]] + 1] else h0
  }

  /** Every row whose act is 1 or 2 names a top-ranked pattern that is a column of the histogram. */
  predicate ActsInRange(acts: seq<int>, ranked: seq<seq<int>>, width: nat)
    requires |ranked| <= |acts|
  {
    forall i :: 0 <= i < |ranked| && (acts[i] == 1 || acts[i] == 2) ==>
      |ranked[i]| >= 1 && 0 <= ranked[i][0] < width
  }

  /**
   * `count_acts`: `m[j]` and `p[j]` count the rows whose act is 1 (decrease)
   * and 2 (increase) and whose top-ranked pattern is `j`; both have one entry
   * per column of `ranked`.
   */
  method CountActs(acts: seq<int>, ranked: seq<seq<int>>, width: nat) returns (m: seq<int>, p: seq<int>)
    requires Rectangular(ranked, width) && width >= 1
    requires |ranked| <= |acts| && ActsInRange(acts, ranked, width)
    ensures m == Histogram(acts, ranked, 1, width, |ranked|)
    ensures p == Histogram(acts, ranked, 2, width, |ranked|)
  {
    var ma := new int[width](j => 0);
    var pa := new int[width](j => 0);
    for i := 0 to |ranked|
      invariant ma[..] == Histogram(acts, ranked, 1, width, i)
      invariant pa[..] == Histogram(acts, ranked, 2, width, i)
    {
      var patternNumber := ranked[i][0];
      if acts[i] == 1 {
        ma[patternNumber] := ma[patternNumber] + 1;
      } else if acts[i] == 2 {
        pa[patternNumber] := pa[patternNumber] + 1;
      }
    }
    m, p := ma[..], pa[..];
  }

  /** The number of rows `i < n` whose act is 1 or 2. */
  function CountAct(acts: seq<int>, n: nat): (c: nat)
    requires n <= |acts|
    ensures c <= n
  {
    if n == 0 then 0 else CountAct(acts, n - 1) + if acts[n - 1] == 1 || acts[n - 1] == 2 then 1 else 0
  }

  /** The number of rows `i < n` whose act is `act`. */
  function CountOf(acts: seq<int>, act: int, n: nat): (c: nat)
    requires n <= |acts|
  {
    if n == 0 then 0 else CountOf(acts, act, n - 1) + if acts[n - 1] == act then 1 else 0
  }

  function Sum(s: seq<int>): int {
    if s == [] then 0 else Sum(s[..|s| - 1]) + s[|s| - 1]
  }

  /** Raising one entry by one raises the sum by one. */
  lemma {:induction false} SumIncrement(s: seq<int>, j: nat)
    requires j < |s|
    ensures Sum(s[j := s[j] + 1]) == Sum(s) + 1
  {
    var t := s[j := s[j] + 1];
    if j < |s| - 1 {
      assert t[..|t| - 1] == s[..|s| - 1][j := s[j] + 1];
      SumIncrement(s[..|s| - 1], j);
    } else {
      assert t[..|t| - 1] == s[..|s| - 1];
    }
  }

  lemma {:induction false} SumZeros(width: nat)
    ensures Sum(seq(width, j => 0)) == 0
  {
    if width > 0 {
      assert seq(width, j => 0)[..width - 1] == seq(width - 1, j => 0);
      SumZeros(width - 1);
    }
  }

  /** Entry `j` of the histogram counts exactly the rows with that act and that top-ranked pattern. */
  lemma {:induction false} HistogramCounts(acts: seq<int>, ranked: seq<seq<int>>, act: int, width: nat, n: nat, j: nat)
    requires n <= |ranked| <= |acts| && ActsInRange(acts, ranked, width)
    requires act == 1 || act == 2
    requires j < width
    ensures Histogram(acts, ranked, act, width, n)[j]
         == |set i | 0 <= i < n && acts[i] == act && ranked[i][0] == j|
  {
    var s := set i | 0 <= i < n && acts[i] == act && ranked[i][0] == j;
    if n > 0 {
      var s0 := set i | 0 <= i < n - 1 && acts[i] == act && ranked[i][0] == j;
      HistogramCounts(acts, ranked, act, width, n - 1, j);
      if acts[n - 1] == act && ranked[n - 1][0] == j {
        assert s == s0 + {n - 1};
      } else {
        assert s == s0;
      }
    }
  }

  /** The entries of the act-`act` histogram add up to the number of rows with that act. */
  lemma {:induction false} HistogramSum(acts: seq<int>, ranked: seq<seq<int>>, act: int, width: nat, n: nat)
    requires n <= |ranked| <= |acts| && ActsInRange(acts, ranked, width)
    requires act == 1 || act == 2
    ensures Sum(Histogram(acts, ranked, act, width, n)) == CountOf(acts, act, n)
  {
    if n == 0 {
      SumZeros(width);
    } else {
      HistogramSum(acts, ranked, act, width, n - 1);
      if acts[n - 1] == act {
        SumIncrement(Histogram(acts, ranked, act, width, n - 1), ranked[n - 1][0]);
      }
    }
  }

  lemma {:induction false} CountOfSplit(acts: seq<int>, n: nat)
    requires n <= |acts|
    ensures CountOf(acts, 1, n) + CountOf(acts, 2, n) == CountAct(acts, n)
  {
    if n > 0 {
      CountOfSplit(acts, n - 1);
    }
  }

  /** Rows with any act other than 1 or 2 count nowhere: the two histograms add up to the rows with act 1 or 2. */
  lemma HistogramsTotal(acts: seq<int>, ranked: seq<seq<int>>, width: nat)
    requires |ranked| <= |acts| && ActsInRange(acts, ranked, width)
    ensures Sum(Histogram(acts, ranked, 1, width, |ranked|)) + Sum(Histogram(acts, ranked, 2, width, |ranked|))
         == CountAct(acts, |ranked|)
  {
    HistogramSum(acts, ranked, 1, width, |ranked|);
    HistogramSum(acts, ranked, 2, width, |ranked|);
    CountOfSplit(acts, |ranked|);
  }

  // ---------------------------------------------------------------------------
  // get_minimum

  /**
   * `get_minimum`: stacks the three arrays as rows and takes, position by
   * position, the least value and the first row that holds it; arrays of
   * different lengths cannot be stacked.
   */
  function GetMinimum(c1: seq<int>, c2: seq<int>, c3: seq<int>): (r: Result<(seq<int>, seq<int>), StatsError>)
    ensures r.Success? <==> |c1| == |c2| == |c3|
    ensures r.Failure? ==> r.error == ValueError
    ensures r.Success? ==> |r.value.0| == |r.value.1| == |c1|
    ensures r.Success? ==> forall k :: 0 <= k < |c1| ==>
      && r.value.0[k] <= c1[k] && r.value.0[k] <= c2[k] && r.value.0[k] <= c3[k]
      && r.value.1[k] in {0, 1, 2}
      && r.value.0[k] == Stacked(c1, c2, c3, r.value.1[k], k)
      && forall row :: 0 <= row < r.value.1[k] ==> Stacked(c1, c2, c3, row, k) > r.value.0[k]
  {
    if !(|c1| == |c2| == |c3|) then Failure(ValueError)
    else
      var c := seq(|c1|, k requires 0 <= k < |c1| => Min(Min(c1[k], c2[k]), c3[k]));
      var number := seq(|c1|, k requires 0 <= k < |c1| =>
        if c1[k] == c[k] then 0 else if c2[k] == c[k] then 1 else 2);
      Success((c, number))
  }

  function Min(a: int, b: int): int {
    if a <= b then a else b
  }

  /** Entry `k` of row `row` of the stacked arrays. */
  function Stacked(c1: seq<int>, c2: seq<int>, c3: seq<int>, row: int, k: int): int
    requires 0 <= row < 3 && 0 <= k < |c1| == |c2| == |c3|
  {
    if row == 0 then c1[k] else if row == 1 then c2[k] else c3[k]
  }

  // ---------------------------------------------------------------------------
  // get_array

  /** `incr[mask[:, i]]`: the entries of `incr` at the rows where column `i` of `mask` is set, in row order. */
  function Selected(mask: seq<seq<bool>>, i: nat, incr: seq<int>): (sel: seq<int>)
    requires |incr| == |mask| && forall r :: 0 <= r < |mask| ==> i < |mask[r]|
    ensures |sel| <= |mask|
    ensures (forall r :: 0 <= r < |mask| ==> mask[r][i]) ==> sel == incr
  {
    if mask == [] then []
    else
      var n := |mask| - 1;
      Selected(mask[..n], i, incr[..n]) + (if mask[n][i] then [incr[n]] else [])
  }

  /** One more row: its increment is selected, after the others, exactly when its mask entry is set. */
  lemma SelectedSnoc(mask: seq<seq<bool>>, row: seq<bool>, i: nat, incr: seq<int>, x: int)
    requires |incr| == |mask| && forall r :: 0 <= r < |mask| ==> i < |mask[r]|
    requires i < |row|
    ensures Selected(mask + [row], i, incr + [x]) == Selected(mask, i, incr) + (if row[i] then [x] else [])
  {
    assert (mask + [row])[..|mask|] == mask;
    assert (incr + [x])[..|incr|] == incr;
  }

  /** The selection holds one increment per row whose mask entry in column `i` is set. */
  lemma {:induction false} SelectedCount(mask: seq<seq<bool>>, i: nat, incr: seq<int>)
    requires |incr| == |mask| && forall r :: 0 <= r < |mask| ==> i < |mask[r]|
    ensures |Selected(mask, i, incr)| == |set r | 0 <= r < |mask| && mask[r][i]|
  {
    if mask != [] {
      var n := |mask| - 1;
      var init := mask[..n];
      SelectedCount(init, i, incr[..n]);
      var s0 := set r | 0 <= r < |init| && init[r][i];
      var s := set r | 0 <= r < |mask| && mask[r][i];
      assert s0 == set r | 0 <= r < n && mask[r][i];
      if mask[n][i] {
        assert s == s0 + {n};
      } else {
        assert s == s0;
      }
    }
  }

  /**
   * `get_array`: a copy of `arr` in which column `i` is raised by the selected
   * increments, one per row, or by the one selected increment in every row.
   * A mask whose column does not match `incr` in length is an index error; a
   * selection of any other length cannot be broadcast over the column.
   */
  method GetArray(arr: seq<seq<int>>, mask: seq<seq<bool>>, i: nat, incr: seq<int>, width: nat)
    returns (r: Result<seq<seq<int>>, StatsError>)
    requires Rectangular(arr, width) && Rectangular(mask, width) && i < width
    ensures |incr| != |mask| ==> r == Failure(IndexError)
    ensures |incr| == |mask| ==>
      var sel := Selected(mask, i, incr);
      && (r.Success? <==> |sel| == |arr| || |sel| == 1)
      && (r.Failure? ==> r.error == ValueError)
      && (r.Success? ==>
            && |r.value| == |arr|
            && Rectangular(r.value, width)
            && forall row, col :: 0 <= row < |arr| && 0 <= col < width ==>
                 r.value[row][col] == arr[row][col] + (if col != i then 0 else if |sel| == |arr| then sel[row] else sel[0]))
  {
    if |incr| != |mask| {
      return Failure(IndexError);
    }
    var sel := Selected(mask, i, incr);
    if |sel| != |arr| && |sel| != 1 {
      return Failure(ValueError);
    }
    var x1 := arr;
    for row := 0 to |arr|
      invariant |x1| == |arr| && Rectangular(x1, width)
      invariant forall q, col :: 0 <= q < |arr| && 0 <= col < width ==>
        x1[q][col] == arr[q][col] + (if col != i || q >= row then 0 else if |sel| == |arr| then sel[q] else sel[0])
    {
      var add := if |sel| == |arr| then sel[row] else sel[0];
      x1 := x1[row := x1[row][i := x1[row][i] + add]];
    }
    return Success(x1);
  }
}
