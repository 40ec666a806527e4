/**
 * The row order and the two passes behind `unique_rows` in
 * korpuskulum/main.py: `np.lexsort(array_in.T)` sorts the rows with the
 * LAST column as the primary key and the first column as the least
 * significant one, and the `np.diff` mask then keeps a row only when it
 * differs from the row before it.
 */
module RowOrder {

  /** Row a sorts strictly before row b under lexsort: compare last columns first. */
  predicate LexLess(a: seq<int>, b: seq<int>)
    decreases |a|
  {
    && |a| > 0 && |b| > 0
    && (|| a[|a| - 1] < b[|b| - 1]
        || (a[|a| - 1] == b[|b| - 1] && LexLess(a[..|a| - 1], b[..|b| - 1])))
  }

  predicate LexLe(a: seq<int>, b: seq<int>)
  {
    a == b || LexLess(a, b)
  }

  /** All rows have the same number of columns, as the rows of a 2D array do. */
  predicate Rectangular(rows: seq<seq<int>>)
  {
    forall i, j :: 0 <= i < |rows| && 0 <= j < |rows| ==> |rows[i]| == |rows[j]|
  }

  /** Ascending in lexsort order. */
  predicate Sorted(rows: seq<seq<int>>)
  {
    forall i, j :: 0 <= i < j < |rows| ==> LexLe(rows[i], rows[j])
  }

  /** Strictly ascending in lexsort order, hence free of repeated rows. */
  predicate StrictlySorted(rows: seq<seq<int>>)
  {
    forall i, j :: 0 <= i < j < |rows| ==> LexLess(rows[i], rows[j])
  }

  lemma {:induction false} LexLessIrreflexive(a: seq<int>)
    ensures !LexLess(a, a)
    decreases |a|
  {
    if |a| > 0 {
      LexLessIrreflexive(a[..|a| - 1]);
    }
  }

  lemma {:induction false} LexLessTransitive(a: seq<int>, b: seq<int>, c: seq<int>)
    requires LexLess(a, b) && LexLess(b, c)
    ensures LexLess(a, c)
    decreases |a|
  {
    if a[|a| - 1] == b[|b| - 1] == c[|c| - 1] {
      LexLessTransitive(a[..|a| - 1], b[..|b| - 1], c[..|c| - 1]);
    }
  }

  /** Two rows of one width are equal or ordered one way or the other. */
  lemma {:induction false} LexLessTotal(a: seq<int>, b: seq<int>)
    requires |a| == |b|
    ensures a == b || LexLess(a, b) || LexLess(b, a)
    decreases |a|
  {
    if |a| > 0 {
      var a', b' := a[..|a| - 1], b[..|b| - 1];
      LexLessTotal(a', b');
      if a' == b' && a[|a| - 1] == b[|b| - 1] {
        assert a == a' + [a[|a| - 1]] && b == b' + [b[|b| - 1]];
      }
    }
  }

  lemma LexLeTransitive(a: seq<int>, b: seq<int>, c: seq<int>)
    requires LexLe(a, b) && LexLe(b, c)
    ensures LexLe(a, c)
  {
    if a != b && b != c {
      LexLessTransitive(a, b, c);
    }
  }

  lemma LexLessAsymmetric(a: seq<int>, b: seq<int>)
    requires LexLess(a, b)
    ensures !LexLess(b, a) && a != b
  {
    LexLessIrreflexive(a);
    if LexLess(b, a) {
      LexLessTransitive(a, b, a);
    }
  }

  /** Insert a row into a sorted list of rows of its width, after the rows that sort before it. */
  function Insert(x: seq<int>, s: seq<seq<int>>): (r: seq<seq<int>>)
    requires Sorted(s)
    requires forall i :: 0 <= i < |s| ==> |s[i]| == |x|
    ensures multiset(r) == multiset(s) + multiset{x}
    ensures Sorted(r)
  {
    if s == [] then [x]
    else if LexLess(s[0], x) then
      var rest := Insert(x, s[1..]);
      InsertAfterHead(x, s, rest);
      [s[0]] + rest
    else
      InsertBeforeHead(x, s);
      [x] + s
  }

  /** The head of s stays in front when it sorts before the inserted row. */
  lemma InsertAfterHead(x: seq<int>, s: seq<seq<int>>, rest: seq<seq<int>>)
    requires Sorted(s) && s != [] && LexLess(s[0], x)
    requires multiset(rest) == multiset(s[1..]) + multiset{x} && Sorted(rest)
    ensures multiset([s[0]] + rest) == multiset(s) + multiset{x}
    ensures Sorted([s[0]] + rest)
  {
    assert s == [s[0]] + s[1..];
    forall y | y in rest ensures LexLe(s[0], y) {
      assert y in multiset(rest);
      if y != x {
        assert y in s[1..];
      }
    }
    forall i, j | 0 <= i < j < |rest| + 1 ensures LexLe(([s[0]] + rest)[i], ([s[0]] + rest)[j]) {
      if i == 0 {
        assert rest[j - 1] in rest;
      }
    }
  }

  /** A row that does not sort after the head of s goes in front of all of s. */
  lemma InsertBeforeHead(x: seq<int>, s: seq<seq<int>>)
    requires Sorted(s) && s != [] && |s[0]| == |x| && !LexLess(s[0], x)
    ensures Sorted([x] + s)
  {
    LexLessTotal(x, s[0]);
    forall j | 0 <= j < |s| ensures LexLe(x, s[j]) {
      LexLeTransitive(x, s[0], s[j]);
    }
    forall i, j | 0 <= i < j < |s| + 1 ensures LexLe(([x] + s)[i], ([x] + s)[j]) {
      if i > 0 {
        assert ([x] + s)[i] == s[i - 1];
      }
    }
  }

  /** The rows in lexsort order (np.lexsort is stable; rows that tie are equal). */
  function Sort(rows: seq<seq<int>>): (r: seq<seq<int>>)
    requires Rectangular(rows)
    ensures multiset(r) == multiset(rows)
    ensures Sorted(r)
  {
    if rows == [] then []
    else
      var rest := Sort(rows[1..]);
      assert rows == [rows[0]] + rows[1..];
      assert forall i :: 0 <= i < |rest| ==> |rest[i]| == |rows[0]| by {
        forall i | 0 <= i < |rest| ensures |rest[i]| == |rows[0]| {
          assert rest[i] in multiset(rows);
        }
      }
      Insert(rows[0], rest)
  }

  /** Keep row i when it is the first row or differs from row i - 1 (the np.diff mask). */
  function DropRepeats(rows: seq<seq<int>>): (r: seq<seq<int>>)
    ensures |r| <= |rows|
    ensures forall x :: x in r <==> x in rows
    ensures rows != [] ==> r != [] && r[0] == rows[0] && r[|r| - 1] == rows[|rows| - 1]
    ensures forall i :: 0 <= i < |r| - 1 ==> r[i] != r[i + 1]
    decreases |rows|
  {
    if |rows| <= 1 then rows
    else
      var n := |rows| - 1;
      var prefix := rows[..n];
      assert forall x :: x in prefix ==> x in rows;
      assert rows == prefix + [rows[n]];
      assert prefix[n - 1] == rows[n - 1];
      DropRepeats(prefix) + (if rows[n] != rows[n - 1] then [rows[n]] else [])
  }

  /**
   * On sorted rows, DropRepeats keeps exactly the rows that occur, each
   * once, strictly ascending, and ends with the last row.
   */
  lemma {:induction false} DropRepeatsSorted(rows: seq<seq<int>>)
    requires Sorted(rows)
    ensures forall x :: x in DropRepeats(rows) <==> x in rows
    ensures StrictlySorted(DropRepeats(rows))
    ensures |rows| > 0 ==> |DropRepeats(rows)| > 0 && DropRepeats(rows)[|DropRepeats(rows)| - 1] == rows[|rows| - 1]
    decreases |rows|
  {
    if |rows| > 1 {
      var n := |rows| - 1;
      var init := rows[..n];
      assert Sorted(init);
      DropRepeatsSorted(init);
      var d := DropRepeats(init);
      assert rows == init + [rows[n]];
      if rows[n] != rows[n - 1] {
        assert LexLess(rows[n - 1], rows[n]);
        forall i, j | 0 <= i < j < |d| + 1 ensures LexLess((d + [rows[n]])[i], (d + [rows[n]])[j]) {
          if j == |d| {
            var y := d[i];
            assert y in init;
            var k :| 0 <= k < n && init[k] == y;
            LexLeTransitive(y, rows[n - 1], rows[n - 1]);
            if y != rows[n - 1] {
              assert LexLe(y, rows[n - 1]);
              LexLessTransitive(y, rows[n - 1], rows[n]);
            }
          }
        }
      } else {
        assert rows[n] in init;
      }
    }
  }

  /** Strictly sorted rows are their own sort. */
  lemma {:induction false} SortStrictlySorted(rows: seq<seq<int>>)
    requires Rectangular(rows) && StrictlySorted(rows)
    ensures Sort(rows) == rows
    decreases |rows|
  {
    if rows != [] {
      var tail := rows[1..];
      assert Rectangular(tail) && StrictlySorted(tail);
      SortStrictlySorted(tail);
      if tail != [] {
        assert LexLess(rows[0], tail[0]);
        LexLessAsymmetric(rows[0], tail[0]);
      }
      assert [rows[0]] + tail == rows;
    }
  }

  /** Strictly sorted rows have no repeats to drop. */
  lemma {:induction false} DropRepeatsStrictlySorted(rows: seq<seq<int>>)
    requires StrictlySorted(rows)
    ensures DropRepeats(rows) == rows
    decreases |rows|
  {
    if |rows| > 1 {
      var n := |rows| - 1;
      DropRepeatsStrictlySorted(rows[..n]);
      LexLessAsymmetric(rows[n - 1], rows[n]);
      assert rows[..n] + [rows[n]] == rows;
    }
  }
}
