/** solve_linear_system of lib/flopmath.c in exact arithmetic: `double` is taken for `real`. */
module Gauss {
  type Row = seq<real>
  type Matrix = seq<Row>

  const EPSILON: real := 0.000000001

  function Fabs(a: real): real {
    if a < 0.0 then -a else a
  }

  /** The left-hand side of a row's equation, its first `n` terms. */
  ghost function Eval(row: Row, x: seq<real>, n: nat): real
    requires n <= |row| && n <= |x|
  {
    if n == 0 then 0.0 else Eval(row, x, n - 1) + row[n - 1] * x[n - 1]
  }

  ghost predicate Holds(row: Row, x: seq<real>)
    requires |row| == |x| + 1
  {
    Eval(row, x, |x|) == row[|x|]
  }

  ghost predicate Shaped(m: Matrix, n: nat) {
    |m| == n && forall r {:trigger m[r]} | 0 <= r < n :: |m[r]| == n + 1
  }

  /** `x` solves the system whose augmented matrix is `m`. */
  ghost predicate Solves(m: Matrix, x: seq<real>)
    requires Shaped(m, |x|)
  {
    forall r {:trigger m[r]} | 0 <= r < |x| :: Holds(m[r], x)
  }

  ghost predicate SameSolutions(a: Matrix, b: Matrix, n: nat)
    requires Shaped(a, n) && Shaped(b, n)
  {
    forall x {:trigger Solves(a, x)} {:trigger Solves(b, x)} | |x| == n :: Solves(a, x) <==> Solves(b, x)
  }

  ghost function Swapped(m: Matrix, i: nat, p: nat): Matrix
    requires i < |m| && p < |m|
  {
    m[i := m[p]][p := m[i]]
  }

  ghost function Divided(row: Row, d: real): (q: Row)
    requires d != 0.0
    ensures |q| == |row| && forall j {:trigger q[j]} | 0 <= j < |row| :: q[j] == row[j] / d
  {
    seq(|row|, j requires 0 <= j < |row| => row[j] / d)
  }

  ghost function Minus(row: Row, factor: real, other: Row): (q: Row)
    requires |row| == |other|
    ensures |q| == |row| && forall j {:trigger q[j]} | 0 <= j < |row| :: q[j] == row[j] - factor * other[j]
  {
    seq(|row|, j requires 0 <= j < |row| => row[j] - factor * other[j])
  }

  lemma {:induction false} EvalDivided(row: Row, d: real, x: seq<real>, n: nat)
    requires d != 0.0 && n <= |row| && n <= |x|
    ensures Eval(Divided(row, d), x, n) == Eval(row, x, n) / d
    decreases n
  {
    if n > 0 {
      EvalDivided(row, d, x, n - 1);
      assert (row[n - 1] / d) * x[n - 1] == (row[n - 1] * x[n - 1]) / d;
    }
  }

  lemma {:induction false} EvalMinus(row: Row, factor: real, other: Row, x: seq<real>, n: nat)
    requires |row| == |other| && n <= |row| && n <= |x|
    ensures Eval(Minus(row, factor, other), x, n) == Eval(row, x, n) - factor * Eval(other, x, n)
    decreases n
  {
    if n > 0 {
      EvalMinus(row, factor, other, x, n - 1);
      Distribute(row[n - 1], factor, other[n - 1], x[n - 1], Eval(other, x, n - 1));
    }
  }

  lemma Distribute(a: real, f: real, b: real, y: real, e: real)
    ensures (a - f * b) * y == a * y - f * (b * y) && f * (e + b * y) == f * e + f * (b * y)
  {
  }

  lemma Quotients(a: real, b: real, d: real)
    requires d != 0.0
    ensures a / d == b / d <==> a == b
  {
    assert a == (a / d) * d && b == (b / d) * d;
  }

  /** Scaling a row keeps its equation. */
  lemma DividedHolds(row: Row, d: real, x: seq<real>)
    requires d != 0.0 && |row| == |x| + 1
    ensures Holds(Divided(row, d), x) <==> Holds(row, x)
  {
    EvalDivided(row, d, x, |x|);
    Quotients(Eval(row, x, |x|), row[|x|], d);
  }

  /** Taking a multiple of an equation that holds off another keeps the other. */
  lemma MinusHolds(row: Row, factor: real, other: Row, x: seq<real>)
    requires |row| == |x| + 1 && |other| == |x| + 1 && Holds(other, x)
    ensures Holds(Minus(row, factor, other), x) <==> Holds(row, x)
  {
    EvalMinus(row, factor, other, x, |x|);
  }

  lemma SwappedSame(m: Matrix, n: nat, i: nat, p: nat)
    requires Shaped(m, n) && i < n && p < n
    ensures Shaped(Swapped(m, i, p), n) && SameSolutions(m, Swapped(m, i, p), n)
  {
    var s := Swapped(m, i, p);
    forall x | |x| == n ensures Solves(m, x) <==> Solves(s, x) {
      assert s[i] == m[p] && s[p] == m[i];
      assert forall r | 0 <= r < n && r != i && r != p :: s[r] == m[r];
    }
  }

  lemma DividedSame(m: Matrix, n: nat, i: nat, d: real)
    requires Shaped(m, n) && i < n && d != 0.0
    ensures var s := m[i := Divided(m[i], d)];
            Shaped(s, n) && SameSolutions(m, s, n)
  {
    var s := m[i := Divided(m[i], d)];
    forall x | |x| == n ensures Solves(m, x) <==> Solves(s, x) {
      DividedHolds(m[i], d, x);
      assert s[i] == Divided(m[i], d);
      assert forall r | 0 <= r < n && r != i :: s[r] == m[r];
    }
  }

  lemma MinusSame(m: Matrix, n: nat, k: nat, factor: real, i: nat)
    requires Shaped(m, n) && i < n && k < n && i != k
    ensures var s := m[k := Minus(m[k], factor, m[i])];
            Shaped(s, n) && SameSolutions(m, s, n)
  {
    var s := m[k := Minus(m[k], factor, m[i])];
    forall x | |x| == n ensures Solves(m, x) <==> Solves(s, x) {
      assert s[i] == m[i] && s[k] == Minus(m[k], factor, m[i]);
      assert forall r | 0 <= r < n && r != k :: s[r] == m[r];
      if Holds(m[i], x) {
        MinusHolds(m[k], factor, m[i], x);
      }
    }
  }

  /** The first `i` columns are those of the unit matrix. */
  ghost predicate UnitTo(m: Matrix, n: nat, i: nat)
    requires Shaped(m, n) && i <= n
  {
    forall r, c {:trigger m[r][c]} | 0 <= r < n && 0 <= c < i :: m[r][c] == if r == c then 1.0 else 0.0
  }

  lemma {:induction false} UnitEval(m: Matrix, n: nat, r: nat, x: seq<real>, k: nat)
    requires Shaped(m, n) && UnitTo(m, n, n) && r < n && |x| == n && k <= n
    ensures Eval(m[r], x, k) == if r < k then x[r] else 0.0
    decreases k
  {
    if k > 0 {
      UnitEval(m, n, r, x, k - 1);
      assert m[r][k - 1] == if r == k - 1 then 1.0 else 0.0;
    }
  }

  /** A system in unit form has just one solution: its last column. */
  lemma UnitSolved(m: Matrix, n: nat, x: seq<real>)
    requires Shaped(m, n) && UnitTo(m, n, n) && |x| == n
    ensures Solves(m, x) <==> forall r | 0 <= r < n :: x[r] == m[r][n]
  {
    forall r | 0 <= r < n ensures Holds(m[r], x) <==> x[r] == m[r][n] {
      UnitEval(m, n, r, x, n);
    }
  }

  /** The rows of the array. */
  ghost function Rows(a: array2<real>): (m: Matrix)
    reads a
    ensures |m| == a.Length0 && forall r {:trigger m[r]} | 0 <= r < a.Length0 :: |m[r]| == a.Length1
    ensures forall r, c {:trigger m[r][c]} | 0 <= r < a.Length0 && 0 <= c < a.Length1 :: m[r][c] == a[r, c]
  {
    seq(a.Length0, r requires 0 <= r < a.Length0 reads a =>
      seq(a.Length1, c requires 0 <= c < a.Length1 reads a => a[r, c]))
  }

  /** `x` lies between `y` and its opposite. */
  ghost predicate NoLarger(x: real, y: real) {
    if y >= 0.0 then -y <= x <= y else y <= x <= -y
  }

  /** Row `p` is the first from `i` on with the largest entry in column `i`. */
  ghost predicate Pivot(m: Matrix, n: nat, i: nat, p: nat)
    requires Shaped(m, n) && i < n
  {
    && i <= p < n
    && (forall k {:trigger m[k]} | i <= k < n :: NoLarger(m[k][i], m[p][i]))
    && (forall k {:trigger m[k]} | i <= k < p :: !NoLarger(m[p][i], m[k][i]))
  }

  /** The pivot search. */
  method FindPivot(a: array2<real>, i: nat) returns (p: nat)
    requires i < a.Length0 && a.Length1 == a.Length0 + 1
    ensures Pivot(Rows(a), a.Length0, i, p)
  {
    p := i;
    for k := i + 1 to a.Length0
      invariant i <= p < k
      invariant forall j | i <= j < k :: NoLarger(a[j, i], a[p, i])
      invariant forall j | i <= j < p :: !NoLarger(a[p, i], a[j, i])
    {
      if Fabs(a[k, i]) > Fabs(a[p, i]) {
        p := k;
      }
    }
  }

  method SwapRows(a: array2<real>, i: nat, p: nat)
    requires i < a.Length0 && p < a.Length0
    modifies a
    ensures Rows(a) == Swapped(old(Rows(a)), i, p)
  {
    for j := 0 to a.Length1
      invariant forall r, c {:trigger a[r, c]} | 0 <= r < a.Length0 && 0 <= c < a.Length1 ::
                  a[r, c] == if c < j && r == i then old(a[p, c]) else if c < j && r == p then old(a[i, c]) else old(a[r, c])
    {
      a[i, j], a[p, j] := a[p, j], a[i, j];
    }
    RowsAre(a, Swapped(old(Rows(a)), i, p));
  }

  method DivideRow(a: array2<real>, i: nat, d: real)
    requires i < a.Length0 && d != 0.0
    modifies a
    ensures Rows(a) == old(Rows(a))[i := Divided(old(Rows(a))[i], d)]
  {
    for j := 0 to a.Length1
      invariant forall r, c {:trigger a[r, c]} | 0 <= r < a.Length0 && 0 <= c < a.Length1 ::
                  a[r, c] == if r == i && c < j then old(a[r, c]) / d else old(a[r, c])
    {
      a[i, j] := a[i, j] / d;
    }
    RowsAre(a, old(Rows(a))[i := Divided(old(Rows(a))[i], d)]);
  }

  method SubtractRow(a: array2<real>, k: nat, factor: real, i: nat)
    requires i < a.Length0 && k < a.Length0 && i != k
    modifies a
    ensures Rows(a) == old(Rows(a))[k := Minus(old(Rows(a))[k], factor, old(Rows(a))[i])]
  {
    for j := 0 to a.Length1
      invariant forall r, c {:trigger a[r, c]} | 0 <= r < a.Length0 && 0 <= c < a.Length1 ::
                  a[r, c] == if r == k && c < j then old(a[r, c]) - factor * old(a[i, c]) else old(a[r, c])
    {
      a[k, j] := a[k, j] - factor * a[i, j];
    }
    RowsAre(a, old(Rows(a))[k := Minus(old(Rows(a))[k], factor, old(Rows(a))[i])]);
  }

  lemma RowsAre(a: array2<real>, m: Matrix)
    requires |m| == a.Length0 && forall r {:trigger m[r]} | 0 <= r < a.Length0 :: |m[r]| == a.Length1
    requires forall r, c {:trigger a[r, c]} | 0 <= r < a.Length0 && 0 <= c < a.Length1 :: m[r][c] == a[r, c]
    ensures Rows(a) == m
  {
    forall r | 0 <= r < a.Length0 ensures Rows(a)[r] == m[r] {
      assert forall c | 0 <= c < a.Length1 :: Rows(a)[r][c] == a[r, c];
    }
  }

  /** Column `i` is zero in the rows before `k` other than `i`, the columns before it are done,
      and row `i` has its one. */
  ghost predicate Clearing(m: Matrix, n: nat, i: nat, k: nat)
    requires Shaped(m, n) && i < n && k <= n
  {
    && UnitTo(m, n, i) && m[i][i] == 1.0
    && forall r {:trigger m[r]} | 0 <= r < k && r != i :: m[r][i] == 0.0
  }

  lemma ClearingNext(m: Matrix, n: nat, i: nat, k: nat)
    requires Shaped(m, n) && i < n && k < n && i != k && Clearing(m, n, i, k)
    ensures var s := m[k := Minus(m[k], m[k][i], m[i])];
            Shaped(s, n) && Clearing(s, n, i, k + 1)
  {
    var s := m[k := Minus(m[k], m[k][i], m[i])];
    forall r, c | 0 <= r < n && 0 <= c < i ensures s[r][c] == if r == c then 1.0 else 0.0 {
      assert m[i][c] == 0.0;
      assert m[r][c] == if r == c then 1.0 else 0.0;
    }
    forall r | 0 <= r < k + 1 && r != i ensures s[r][i] == 0.0 {
      assert r < k ==> s[r] == m[r];
    }
  }

  lemma SwapUnit(m: Matrix, n: nat, i: nat, p: nat)
    requires Shaped(m, n) && i <= p < n && UnitTo(m, n, i)
    ensures Shaped(Swapped(m, i, p), n) && UnitTo(Swapped(m, i, p), n, i)
  {
    var s := Swapped(m, i, p);
    forall r, c | 0 <= r < n && 0 <= c < i ensures s[r][c] == if r == c then 1.0 else 0.0 {
      assert m[i][c] == 0.0 && m[p][c] == 0.0;
      assert m[r][c] == if r == c then 1.0 else 0.0;
    }
  }

  lemma DivideUnit(m: Matrix, n: nat, i: nat)
    requires Shaped(m, n) && i < n && UnitTo(m, n, i) && m[i][i] != 0.0
    ensures var s := m[i := Divided(m[i], m[i][i])];
            Shaped(s, n) && Clearing(s, n, i, 0)
  {
    var s := m[i := Divided(m[i], m[i][i])];
    forall r, c | 0 <= r < n && 0 <= c < i ensures s[r][c] == if r == c then 1.0 else 0.0 {
      assert m[r][c] == if r == c then 1.0 else 0.0;
    }
  }

  /** The elimination loop of column `i`. */
  method ClearColumn(a: array2<real>, i: nat, ghost m: Matrix)
    requires i < a.Length0 && a.Length1 == a.Length0 + 1 && Shaped(m, a.Length0)
    requires SameSolutions(m, Rows(a), a.Length0) && Clearing(Rows(a), a.Length0, i, 0)
    modifies a
    ensures SameSolutions(m, Rows(a), a.Length0) && UnitTo(Rows(a), a.Length0, i + 1)
    ensures Rows(a)[i] == old(Rows(a)[i])
  {
    ghost var n := a.Length0;
    for k := 0 to a.Length0
      invariant SameSolutions(m, Rows(a), n) && Clearing(Rows(a), n, i, k) && Rows(a)[i] == old(Rows(a)[i])
    {
      if k != i {
        ClearingNext(Rows(a), n, i, k);
        MinusSame(Rows(a), n, k, a[k, i], i);
        SubtractRow(a, k, a[k, i], i);
      }
    }
    assert forall r, c | 0 <= r < n && c == i :: Rows(a)[r][c] == if r == c then 1.0 else 0.0;
  }

  /** Smaller than the threshold, whatever the sign. */
  ghost predicate Small(x: real) {
    -0.000000001 < x < 0.000000001
  }

  /** No row from `i` on has a usable entry in column `i`. */
  ghost predicate Stuck(m: Matrix, n: nat, i: nat)
    requires Shaped(m, n)
  {
    i < n && forall k {:trigger m[k]} | i <= k < n :: Small(m[k][i])
  }

  lemma StuckAtPivot(m: Matrix, n: nat, i: nat, p: nat)
    requires Shaped(m, n) && i < n && Pivot(m, n, i, p)
    ensures Stuck(m, n, i) <==> Small(m[p][i])
  {
    assert Stuck(m, n, i) ==> m[p] == m[p] && Small(m[p][i]);
    assert forall k {:trigger m[k]} | i <= k < n :: NoLarger(m[k][i], m[p][i]);
  }

  /** One round of solve_linear_system: false when no pivot is usable, and otherwise the row of the
      largest entry, scaled, is row `i`. */
  method Eliminate(a: array2<real>, i: nat, ghost m: Matrix) returns (ok: bool)
    requires i < a.Length0 && a.Length1 == a.Length0 + 1 && Shaped(m, a.Length0)
    requires SameSolutions(m, Rows(a), a.Length0) && UnitTo(Rows(a), a.Length0, i)
    modifies a
    ensures ok <==> !Stuck(old(Rows(a)), a.Length0, i)
    ensures ok ==> SameSolutions(m, Rows(a), a.Length0) && UnitTo(Rows(a), a.Length0, i + 1)
    ensures ok ==> exists p: nat :: PivotRow(old(Rows(a)), Rows(a), a.Length0, i, p)
  {
    ghost var n := a.Length0;
    ghost var was := Rows(a);
    var pivotRow := FindPivot(a, i);
    StuckAtPivot(was, n, i, pivotRow);
    if pivotRow != i {
      SwappedSame(Rows(a), n, i, pivotRow);
      SwapUnit(Rows(a), n, i, pivotRow);
      SwapRows(a, i, pivotRow);
    }
    assert Rows(a)[i] == was[pivotRow];
    var diag := a[i, i];
    if Fabs(diag) < EPSILON {
      return false;
    }
    DividedSame(Rows(a), n, i, diag);
    DivideUnit(Rows(a), n, i);
    DivideRow(a, i, diag);
    ClearColumn(a, i, m);
    assert PivotRow(was, Rows(a), n, i, pivotRow);
    return true;
  }

  ghost predicate PivotRow(was: Matrix, now: Matrix, n: nat, i: nat, p: nat)
    requires Shaped(was, n) && Shaped(now, n) && i < n
  {
    Pivot(was, n, i, p) && was[p][i] != 0.0 && now[i] == Divided(was[p], was[p][i])
  }

  /** The matrices a run goes through: the given one first, all with its solutions, each with one unit
      column more and a usable entry in the next, the last perhaps excepted. */
  ghost predicate Rounds(rounds: seq<Matrix>, m: Matrix, n: nat)
    requires Shaped(m, n)
  {
    && 0 < |rounds| <= n + 1 && rounds[0] == m
    && (forall i {:trigger rounds[i]} | 0 <= i < |rounds| ::
         Shaped(rounds[i], n) && SameSolutions(m, rounds[i], n) && UnitTo(rounds[i], n, i))
    && (forall i: nat {:trigger rounds[i]} | i < |rounds| - 1 :: !Stuck(rounds[i], n, i))
  }

  /** solve_linear_system: it solves the system exactly if every round finds a usable pivot, and then
      `results` is the one solution of the system it was given. */
  method SolveLinearSystem(a: array2<real>, results: array<real>) returns (solved: bool, ghost rounds: seq<Matrix>)
    requires a.Length1 == a.Length0 + 1 && results.Length == a.Length0 && results as object != a
    modifies a, results
    ensures Shaped(old(Rows(a)), a.Length0) && Rounds(rounds, old(Rows(a)), a.Length0)
    ensures solved ==> |rounds| == a.Length0 + 1
    ensures solved ==> forall x {:trigger Solves(old(Rows(a)), x)} | |x| == a.Length0 ::
                         Solves(old(Rows(a)), x) <==> x == results[..]
    ensures !solved ==> |rounds| <= a.Length0 && Stuck(rounds[|rounds| - 1], a.Length0, |rounds| - 1)
  {
    ghost var m, n := Rows(a), a.Length0;
    rounds := [m];
    for i := 0 to a.Length0
      invariant Rounds(rounds, m, n) && |rounds| == i + 1 && rounds[i] == Rows(a)
    {
      var ok := Eliminate(a, i, m);
      if !ok {
        return false, rounds;
      }
      rounds := rounds + [Rows(a)];
    }
    for i := 0 to a.Length0
      invariant forall r {:trigger results[r]} | 0 <= r < i :: results[r] == a[r, n]
      invariant SameSolutions(m, Rows(a), n) && UnitTo(Rows(a), n, n)
    {
      results[i] := a[i, a.Length0];
    }
    forall x | |x| == n ensures Solves(m, x) <==> x == results[..] {
      UnitSolved(Rows(a), n, x);
      assert Solves(m, x) <==> Solves(Rows(a), x);
    }
    return true, rounds;
  }
}
