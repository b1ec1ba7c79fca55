/**
 * The value a Matrix holds: `matrix_array`, a sequence of rows of complex
 * numbers. The functions here are the reference definitions that the
 * in-place operations of the Matrix class are proved against.
 */
module Grid {
  import opened ComplexNum

  type Grid = seq<seq<Complex>>

  /** isCorrectMatrixArray: at least one row, a non-empty first row, every row as long as the first. */
  predicate IsRect(m: Grid) {
    |m| > 0 && |m[0]| > 0 && forall i :: 0 <= i < |m| ==> |m[i]| == |m[0]|
  }

  /** m has r rows of c cells each. */
  predicate Shape(m: Grid, r: int, c: int) {
    |m| == r && forall i :: 0 <= i < |m| ==> |m[i]| == c
  }

  function Cols(m: Grid): nat
    requires |m| > 0
  {
    |m[0]|
  }

  lemma RectShape(m: Grid)
    requires IsRect(m)
    ensures Shape(m, |m|, Cols(m)) && Cols(m) > 0
  {
  }

  lemma ShapeRect(m: Grid, r: int, c: int)
    requires Shape(m, r, c) && r > 0 && c > 0
    ensures IsRect(m) && Cols(m) == c
  {
  }

  /** The r×c grid with cell (i, j) given by f. */
  function Build(r: nat, c: nat, f: (int, int) -> Complex): (m: Grid)
    ensures Shape(m, r, c)
    ensures forall i, j :: 0 <= i < r && 0 <= j < c ==> m[i][j] == f(i, j)
  {
    seq(r, i => seq(c, j => f(i, j)))
  }

  /** Two grids of one shape are equal when they agree cell by cell. */
  lemma GridEq(a: Grid, b: Grid, r: nat, c: nat)
    requires Shape(a, r, c) && Shape(b, r, c)
    requires forall i, j :: 0 <= i < r && 0 <= j < c ==> a[i][j] == b[i][j]
    ensures a == b
  {
    forall i | 0 <= i < r
      ensures a[i] == b[i]
    {
    }
  }

  // ---------------------------------------------------------------------
  // Transposes
  // ---------------------------------------------------------------------

  function Transpose(m: Grid): (t: Grid)
    requires IsRect(m)
    ensures IsRect(t) && Shape(t, Cols(m), |m|)
    ensures forall i, j :: 0 <= i < Cols(m) && 0 <= j < |m| ==> t[i][j] == m[j][i]
  {
    seq(Cols(m), i requires 0 <= i < Cols(m) => seq(|m|, j requires 0 <= j < |m| => m[j][i]))
  }

  lemma TransposeInvolution(m: Grid)
    requires IsRect(m)
    ensures Transpose(Transpose(m)) == m
  {
    GridEq(Transpose(Transpose(m)), m, |m|, Cols(m));
  }

  /** Every cell conjugated. */
  function ConjGrid(m: Grid): (t: Grid)
    ensures |t| == |m| && forall i :: 0 <= i < |m| ==> |t[i]| == |m[i]|
    ensures forall i, j :: 0 <= i < |m| && 0 <= j < |m[i]| ==> t[i][j] == Conj(m[i][j])
  {
    seq(|m|, i requires 0 <= i < |m| => seq(|m[i]|, j requires 0 <= j < |m[i]| => Conj(m[i][j])))
  }

  /** T(): the conjugate transpose; transposing and conjugating commute and T() is an involution. */
  function CTranspose(m: Grid): (t: Grid)
    requires IsRect(m)
    ensures IsRect(t) && Shape(t, Cols(m), |m|)
    ensures forall i, j :: 0 <= i < Cols(m) && 0 <= j < |m| ==> t[i][j] == Conj(m[j][i])
  {
    ConjGrid(Transpose(m))
  }

  lemma CTransposeInvolution(m: Grid)
    requires IsRect(m)
    ensures CTranspose(CTranspose(m)) == m
  {
    forall i, j | 0 <= i < |m| && 0 <= j < Cols(m)
      ensures CTranspose(CTranspose(m))[i][j] == m[i][j]
    {
      ConjProperties(m[i][j], ZERO);
    }
    GridEq(CTranspose(CTranspose(m)), m, |m|, Cols(m));
  }

  /** On a real grid T() is the plain transpose. */
  lemma CTransposeOfReal(m: Grid)
    requires IsRect(m)
    requires forall i, j :: 0 <= i < |m| && 0 <= j < Cols(m) ==> m[i][j].im == 0.0
    ensures CTranspose(m) == Transpose(m)
  {
    GridEq(CTranspose(m), Transpose(m), Cols(m), |m|);
  }

  // ---------------------------------------------------------------------
  // Row-major order
  // ---------------------------------------------------------------------

  /** The cells in row-major order. */
  function Flatten(m: Grid): (s: seq<Complex>)
    decreases |m|
  {
    if |m| == 0 then [] else m[0] + Flatten(m[1..])
  }

  lemma {:induction false} FlattenAt(m: Grid, c: nat, i: int, j: int)
    requires Shape(m, |m|, c)
    requires 0 <= i < |m| && 0 <= j < c
    ensures |Flatten(m)| == |m| * c
    ensures 0 <= i * c + j < |m| * c
    ensures Flatten(m)[i * c + j] == m[i][j]
    decreases |m|
  {
    FlattenLength(m, c);
    MulBelow(i, j, c, |m|);
    if i > 0 {
      FlattenAt(m[1..], c, i - 1, j);
      FlattenLength(m[1..], c);
      assert (i - 1) * c + j == i * c + j - c;
    }
  }

  lemma {:induction false} FlattenLength(m: Grid, c: nat)
    requires Shape(m, |m|, c)
    ensures |Flatten(m)| == |m| * c
    decreases |m|
  {
    if |m| > 0 {
      FlattenLength(m[1..], c);
    }
  }

  /** i·c + j stays below r·c for i < r and j < c. */
  lemma MulBelow(i: int, j: int, c: int, r: int)
    requires 0 <= i < r && 0 <= j < c
    ensures 0 <= i * c + j < r * c
  {
    assert i * c <= (r - 1) * c by {
      assert (r - 1 - i) * c >= 0;
    }
  }

  /** The r×c grid filled row by row from s. */
  function Unflatten(s: seq<Complex>, r: nat, c: nat): (t: Grid)
    requires |s| == r * c
    ensures Shape(t, r, c)
    ensures forall i, j :: 0 <= i < r && 0 <= j < c ==> (MulBelow(i, j, c, r); t[i][j] == s[i * c + j])
  {
    seq(r, i requires 0 <= i < r => seq(c, j requires 0 <= j < c => MulBelow(i, j, c, r); s[i * c + j]))
  }

  /** Filling a grid row by row and reading it back row by row gives the same sequence. */
  lemma {:induction false} FlattenUnflatten(s: seq<Complex>, r: nat, c: nat)
    requires |s| == r * c
    ensures Flatten(Unflatten(s, r, c)) == s
    decreases r
  {
    if r > 0 {
      UnflattenSplit(s, r, c);
      FlattenUnflatten(s[c..], r - 1, c);
      assert s == s[..c] + s[c..];
    }
  }

  /** The first row of the filled grid is s[..c]; the others are s[c..] filled. */
  lemma UnflattenSplit(s: seq<Complex>, r: nat, c: nat)
    requires |s| == r * c && r > 0
    ensures |s[c..]| == (r - 1) * c
    ensures Unflatten(s, r, c) == [s[..c]] + Unflatten(s[c..], r - 1, c)
  {
    assert r * c == (r - 1) * c + c;
    var t := Unflatten(s, r, c);
    var u := Unflatten(s[c..], r - 1, c);
    forall i, j | 0 <= i < r - 1 && 0 <= j < c
      ensures t[1..][i][j] == u[i][j]
    {
      assert (i + 1) * c + j == i * c + j + c;
    }
    GridEq(t[1..], u, r - 1, c);
    assert t[0] == s[..c];
    assert t == [t[0]] + t[1..];
  }

  /** Refilling a grid in its own shape gives the grid back. */
  lemma UnflattenFlatten(m: Grid)
    requires IsRect(m)
    ensures |Flatten(m)| == |m| * Cols(m)
    ensures Unflatten(Flatten(m), |m|, Cols(m)) == m
  {
    FlattenLength(m, Cols(m));
    forall i, j | 0 <= i < |m| && 0 <= j < Cols(m)
      ensures Unflatten(Flatten(m), |m|, Cols(m))[i][j] == m[i][j]
    {
      FlattenAt(m, Cols(m), i, j);
    }
    GridEq(Unflatten(Flatten(m), |m|, Cols(m)), m, |m|, Cols(m));
  }

  // ---------------------------------------------------------------------
  // The shapes the in-place primitives produce
  // ---------------------------------------------------------------------

  /** _resize: r×c, the overlapping cells kept, the new cells ZERO. */
  function Resized(m: Grid, r: nat, c: nat): (t: Grid)
    requires IsRect(m)
    ensures Shape(t, r, c)
    ensures forall i, j :: 0 <= i < r && 0 <= j < c ==> t[i][j] == if i < |m| && j < Cols(m) then m[i][j] else ZERO
  {
    seq(r, i requires 0 <= i < r => seq(c, j requires 0 <= j < c => if i < |m| && j < Cols(m) then m[i][j] else ZERO))
  }

  /** Growing and then shrinking back restores the grid. */
  lemma ResizeRoundTrip(m: Grid, r: nat, c: nat)
    requires IsRect(m) && |m| <= r && Cols(m) <= c
    ensures Resized(Resized(m, r, c), |m|, Cols(m)) == m
  {
    ShapeRect(Resized(m, r, c), r, c);
    GridEq(Resized(Resized(m, r, c), |m|, Cols(m)), m, |m|, Cols(m));
  }

  lemma ResizeSame(m: Grid)
    requires IsRect(m)
    ensures Resized(m, |m|, Cols(m)) == m
  {
    GridEq(Resized(m, |m|, Cols(m)), m, |m|, Cols(m));
  }

  function DeleteRowAt(m: Grid, k: nat): (t: Grid)
    requires k < |m|
    ensures |t| == |m| - 1
    ensures forall i :: 0 <= i < |t| ==> t[i] == if i < k then m[i] else m[i + 1]
  {
    m[..k] + m[k + 1..]
  }

  function DeleteColumnAt(m: Grid, k: nat): (t: Grid)
    requires IsRect(m) && k < Cols(m)
    ensures Shape(t, |m|, Cols(m) - 1)
    ensures forall i :: 0 <= i < |m| ==> t[i] == m[i][..k] + m[i][k + 1..]
  {
    seq(|m|, i requires 0 <= i < |m| => m[i][..k] + m[i][k + 1..])
  }

  function SwapRows(m: Grid, a: nat, b: nat): (t: Grid)
    requires a < |m| && b < |m|
    ensures |t| == |m| && t[a] == m[b] && t[b] == m[a]
    ensures forall i :: 0 <= i < |m| && i != a && i != b ==> t[i] == m[i]
  {
    m[a := m[b]][b := m[a]]
  }

  lemma SwapRowsInvolution(m: Grid, a: nat, b: nat)
    requires a < |m| && b < |m|
    ensures SwapRows(SwapRows(m, a, b), a, b) == m
    ensures SwapRows(m, a, a) == m
  {
  }

  function SwapColumns(m: Grid, a: nat, b: nat): (t: Grid)
    requires IsRect(m) && a < Cols(m) && b < Cols(m)
    ensures Shape(t, |m|, Cols(m))
    ensures forall i :: 0 <= i < |m| ==> t[i] == m[i][a := m[i][b]][b := m[i][a]]
  {
    seq(|m|, i requires 0 <= i < |m| => m[i][a := m[i][b]][b := m[i][a]])
  }

  function ConcatRight(m: Grid, n: Grid): (t: Grid)
    requires IsRect(m) && IsRect(n) && |m| == |n|
    ensures IsRect(t) && Shape(t, |m|, Cols(m) + Cols(n))
    ensures forall i :: 0 <= i < |m| ==> t[i] == m[i] + n[i]
  {
    seq(|m|, i requires 0 <= i < |m| => m[i] + n[i])
  }

  lemma ConcatRightCells(m: Grid, n: Grid)
    requires IsRect(m) && IsRect(n) && |m| == |n|
    ensures forall i, j :: 0 <= i < |m| && 0 <= j < Cols(m) ==> ConcatRight(m, n)[i][j] == m[i][j]
    ensures forall i, j :: 0 <= i < |m| && 0 <= j < Cols(n) ==> ConcatRight(m, n)[i][Cols(m) + j] == n[i][j]
  {
  }

  function ConcatBottom(m: Grid, n: Grid): (t: Grid)
    requires IsRect(m) && IsRect(n) && Cols(m) == Cols(n)
    ensures IsRect(t) && Shape(t, |m| + |n|, Cols(m))
    ensures t[..|m|] == m && t[|m|..] == n
  {
    m + n
  }

  /** Concatenating to the bottom is concatenating to the right of the transposes. */
  lemma ConcatBottomTranspose(m: Grid, n: Grid)
    requires IsRect(m) && IsRect(n) && Cols(m) == Cols(n)
    ensures Transpose(ConcatBottom(m, n)) == ConcatRight(Transpose(m), Transpose(n))
  {
    var l := Transpose(ConcatBottom(m, n));
    var r := ConcatRight(Transpose(m), Transpose(n));
    forall i, j | 0 <= i < Cols(m) && 0 <= j < |m| + |n|
      ensures l[i][j] == r[i][j]
    {
      if j >= |m| {
        assert r[i][j] == Transpose(n)[i][j - |m|];
      }
    }
    GridEq(l, r, Cols(m), |m| + |n|);
  }

  // ---------------------------------------------------------------------
  // Quarter turns
  // ---------------------------------------------------------------------

  /** One clockwise quarter turn: cell (i, j) of the C×R result is m[R-1-j][i]. */
  function Rot1(m: Grid): (t: Grid)
    requires IsRect(m)
    ensures IsRect(t) && Shape(t, Cols(m), |m|)
    ensures forall i, j :: 0 <= i < Cols(m) && 0 <= j < |m| ==> t[i][j] == m[|m| - 1 - j][i]
  {
    seq(Cols(m), i requires 0 <= i < Cols(m) => seq(|m|, j requires 0 <= j < |m| => m[|m| - 1 - j][i]))
  }

  /** A half turn: cell (i, j) is m[R-1-i][C-1-j]. */
  function Rot2(m: Grid): (t: Grid)
    requires IsRect(m)
    ensures IsRect(t) && Shape(t, |m|, Cols(m))
    ensures forall i, j :: 0 <= i < |m| && 0 <= j < Cols(m) ==> t[i][j] == m[|m| - 1 - i][Cols(m) - 1 - j]
  {
    var t := seq(|m|, i requires 0 <= i < |m| => seq(Cols(m), j requires 0 <= j < Cols(m) => m[|m| - 1 - i][Cols(m) - 1 - j]));
    assert |t[0]| == Cols(m);
    t
  }

  /** Three quarter turns: cell (i, j) of the C×R result is m[j][C-1-i]. */
  function Rot3(m: Grid): (t: Grid)
    requires IsRect(m)
    ensures IsRect(t) && Shape(t, Cols(m), |m|)
    ensures forall i, j :: 0 <= i < Cols(m) && 0 <= j < |m| ==> t[i][j] == m[j][Cols(m) - 1 - i]
  {
    seq(Cols(m), i requires 0 <= i < Cols(m) => seq(|m|, j requires 0 <= j < |m| => m[j][Cols(m) - 1 - i]))
  }

  /** `rot_type` turns; 0 leaves the grid as it is. */
  function Rotated(m: Grid, rot_type: int): (t: Grid)
    requires IsRect(m) && 0 <= rot_type < 4
    ensures IsRect(t)
  {
    if rot_type == 0 then m
    else if rot_type == 1 then Rot1(m)
    else if rot_type == 2 then Rot2(m)
    else Rot3(m)
  }

  /** k quarter turns, one at a time. */
  function Turns(m: Grid, k: nat): (t: Grid)
    requires IsRect(m)
    ensures IsRect(t)
    decreases k
  {
    if k == 0 then m else Rot1(Turns(m, k - 1))
  }

  lemma RotTwice(m: Grid)
    requires IsRect(m)
    ensures Rot1(Rot1(m)) == Rot2(m)
  {
    GridEq(Rot1(Rot1(m)), Rot2(m), |m|, Cols(m));
  }

  lemma RotThrice(m: Grid)
    requires IsRect(m)
    ensures Rot1(Rot2(m)) == Rot3(m)
  {
    var t := Rot1(Rot2(m));
    forall i, j | 0 <= i < Cols(m) && 0 <= j < |m|
      ensures t[i][j] == Rot3(m)[i][j]
    {
      RotThriceCell(m, i, j);
    }
    GridEq(t, Rot3(m), Cols(m), |m|);
  }

  lemma RotThriceCell(m: Grid, i: nat, j: nat)
    requires IsRect(m) && i < Cols(m) && j < |m|
    ensures Rot1(Rot2(m))[i][j] == m[j][Cols(m) - 1 - i]
  {
    var a := Rot2(m);
    assert Rot1(a)[i][j] == a[|m| - 1 - j][i];
  }

  lemma TurnsFour(m: Grid)
    requires IsRect(m)
    ensures Turns(m, 4) == m
  {
    RotTwice(m);
    RotThrice(m);
    RotFourTimes(m);
    assert Turns(m, 2) == Rot2(m);
    assert Turns(m, 3) == Rot3(m);
  }

  lemma RotFourTimes(m: Grid)
    requires IsRect(m)
    ensures Rot1(Rot3(m)) == m
  {
    GridEq(Rot1(Rot3(m)), m, |m|, Cols(m));
  }

  /** The three explicit cases of _rot90 are one, two and three single quarter turns. */
  lemma RotatedTurns(m: Grid, rot_type: int)
    requires IsRect(m) && 0 <= rot_type < 4
    ensures Rotated(m, rot_type) == Turns(m, rot_type)
  {
    if rot_type >= 2 {
      RotTwice(m);
    }
    if rot_type == 3 {
      RotThrice(m);
    }
  }

  lemma {:induction false} TurnsAdd(m: Grid, t: nat, u: nat)
    requires IsRect(m)
    ensures Turns(Turns(m, t), u) == Turns(m, t + u)
    decreases u
  {
    if u > 0 {
      TurnsAdd(m, t, u - 1);
    }
  }

  lemma {:induction false} TurnsMod(m: Grid, k: nat)
    requires IsRect(m)
    ensures Turns(m, k) == Turns(m, k % 4)
    decreases k
  {
    if k >= 4 {
      TurnsMod(m, k - 4);
      TurnsPeriod(m, k);
      ModUnique(k, (k - 4) / 4 + 1, 4, (k - 4) % 4);
    }
  }

  /** Four more quarter turns change nothing. */
  lemma TurnsPeriod(m: Grid, k: nat)
    requires IsRect(m) && k >= 4
    ensures Turns(m, k) == Turns(m, k - 4)
  {
    TurnsAdd(m, 4, k - 4);
    TurnsFour(m);
  }

  /** Four quarter turns are the identity; a turn of t then u is a turn of (t + u) mod 4. */
  lemma RotatedAdd(m: Grid, t: int, u: int)
    requires IsRect(m) && 0 <= t < 4 && 0 <= u < 4
    ensures Rotated(Rotated(m, t), u) == Rotated(m, (t + u) % 4)
  {
    RotatedTurns(m, t);
    RotatedTurns(Turns(m, t), u);
    RotatedTurns(m, (t + u) % 4);
    TurnsAdd(m, t, u);
    TurnsMod(m, t + u);
  }

  // ---------------------------------------------------------------------
  // Per-vector operations
  // ---------------------------------------------------------------------

  /** flip's main: the vector reversed. */
  function Reversed(s: seq<Complex>): (t: seq<Complex>)
    ensures |t| == |s| && forall i :: 0 <= i < |s| ==> t[i] == s[|s| - 1 - i]
  {
    seq(|s|, i requires 0 <= i < |s| => s[|s| - 1 - i])
  }

  lemma ReversedInvolution(s: seq<Complex>)
    ensures Reversed(Reversed(s)) == s
  {
  }

  /** x mod n with JavaScript's `%`: the remainder takes the dividend's sign. */
  function JsRem(x: int, n: int): (r: int)
    requires n > 0
    ensures -n < r < n
    ensures x >= 0 ==> r == x % n
    ensures x < 0 ==> r == -((-x) % n)
  {
    if x >= 0 then x % n else -((-x) % n)
  }

  /** u·v is non-negative for non-negative u and v. */
  lemma {:induction false} MulNonneg(u: int, v: int)
    requires u >= 0 && v >= 0
    ensures u * v >= 0
    decreases u
  {
    if u > 0 {
      MulNonneg(u - 1, v);
      assert u * v == (u - 1) * v + v;
    }
  }

  /** Euclidean division is unique: a = k·n + r with 0 <= r < n fixes a % n and a / n. */
  lemma ModUnique(a: int, k: int, n: int, r: int)
    requires n > 0 && 0 <= r < n && a == k * n + r
    ensures a % n == r && a / n == k
  {
    var q, p := a / n, a % n;
    assert (k - q) * n == p - r;
    assert (q - k) * n == r - p;
    MulLess(k - q, 1, n);
    MulLess(q - k, 1, n);
  }

  /** A product inequality with a positive factor k cancels. */
  lemma MulLess(a: int, b: int, k: int)
    requires k > 0 && a * k < b * k
    ensures a < b
  {
    assert (b - a) * k > 0;
  }

  /** ((x % n) + n) % n with JavaScript's `%` is the Euclidean residue. */
  lemma JsRemNormalised(x: int, n: int)
    requires n > 0
    ensures (JsRem(x, n) + n) % n == x % n
  {
    var r := JsRem(x, n);
    if x >= 0 {
      ModUnique(r + n, 1, n, r);
    } else {
      var q := (-x) / n;
      var p := (-x) % n;
      assert -x == q * n + p;
      if p == 0 {
        ModUnique(x, -q, n, 0);
        ModUnique(r + n, 1, n, 0);
      } else {
        ModUnique(x, -q - 1, n, n - p);
        ModUnique(r + n, 0, n, n - p);
      }
    }
  }

  /** circshift's main: the vector rotated k places to the right, y[i] = x[(i - k) mod n]. */
  function Shifted(s: seq<Complex>, k: int): (t: seq<Complex>)
    ensures |t| == |s|
    ensures forall i :: 0 <= i < |s| ==> t[i] == s[(i - k) % |s|]
  {
    if |s| == 0 then [] else seq(|s|, i requires 0 <= i < |s| => s[(i - k) % |s|])
  }

  lemma ShiftedCompose(s: seq<Complex>, k: int, l: int)
    ensures Shifted(Shifted(s, k), l) == Shifted(s, k + l)
  {
    if |s| > 0 {
      var n := |s|;
      forall i | 0 <= i < n
        ensures Shifted(Shifted(s, k), l)[i] == Shifted(s, k + l)[i]
      {
        ShiftedCell(s, k, l, i);
      }
    }
  }

  lemma ShiftedCell(s: seq<Complex>, k: int, l: int, i: int)
    requires 0 <= i < |s|
    ensures Shifted(Shifted(s, k), l)[i] == Shifted(s, k + l)[i]
  {
    var n := |s|;
    ModSub(i - l, k, n, i - (k + l));
    var j := (i - l) % n;
    var e := (i - (k + l)) % n;
    assert (j - k) % n == e;
    var t := Shifted(s, k);
    assert Shifted(t, l)[i] == t[j];
    assert t[j] == s[e];
    assert Shifted(s, k + l)[i] == s[e];
  }

  lemma ShiftedWhole(s: seq<Complex>)
    ensures Shifted(s, |s|) == s && Shifted(s, 0) == s
  {
    if |s| > 0 {
      var n := |s|;
      forall i | 0 <= i < n
        ensures Shifted(s, n)[i] == s[i] && Shifted(s, 0)[i] == s[i]
      {
        ModUnique(i - n, -1, n, i);
        ModUnique(i, 0, n, i);
      }
    }
  }

  lemma ModSub(a: int, k: int, n: int, b: int)
    requires n > 0 && b == a - k
    ensures (a % n - k) % n == b % n
  {
    var x := a % n - k;
    var q := a / n;
    assert a == q * n + a % n;
    var r := x % n;
    var d := x / n;
    assert x == d * n + r;
    assert b == (q + d) * n + r;
    ModUnique(b, q + d, n, r);
  }

  /** The cells of column j, top to bottom. */
  function Column(m: Grid, j: int): (v: seq<Complex>)
    requires IsRect(m) && 0 <= j < Cols(m)
    ensures |v| == |m| && forall i :: 0 <= i < |m| ==> v[i] == m[i][j]
  {
    seq(|m|, i requires 0 <= i < |m| => m[i][j])
  }

  // ---------------------------------------------------------------------
  // Elementwise arithmetic with cyclic broadcasting
  // ---------------------------------------------------------------------

  function Max(a: int, b: int): int { if a < b then b else a }

  function Min(a: int, b: int): int { if a < b then a else b }

  /** Cell (i, j) of m repeated cyclically in both directions, as memset and the cellwise operators read it. */
  function Tiled(m: Grid, i: int, j: int): (x: Complex)
    requires IsRect(m)
    ensures |m| == 1 && Cols(m) == 1 ==> x == m[0][0]
  {
    m[i % |m|][j % Cols(m)]
  }

  /** Inside the grid the cyclic read is the plain one. */
  lemma TiledInside(m: Grid, i: int, j: int)
    requires IsRect(m) && 0 <= i < |m| && 0 <= j < Cols(m)
    ensures Tiled(m, i, j) == m[i][j]
  {
    ModUnique(i, 0, |m|, i);
    ModUnique(j, 0, Cols(m), j);
  }

  /** A single row is read again for every row index. */
  lemma TiledRow(m: Grid, i: int, j: int)
    requires IsRect(m) && |m| == 1 && 0 <= j < Cols(m)
    ensures Tiled(m, i, j) == m[0][j]
  {
  }

  /**
   * createMatrixDoEachCalculation over max(r1, r2) × max(c1, c2) cells,
   * reading both operands cyclically.
   */
  function Broadcast(x1: Grid, x2: Grid, op: (Complex, Complex) -> Complex): (t: Grid)
    requires IsRect(x1) && IsRect(x2)
    ensures IsRect(t) && Shape(t, Max(|x1|, |x2|), Max(Cols(x1), Cols(x2)))
    ensures forall i, j :: 0 <= i < |t| && 0 <= j < Cols(t) ==>
      t[i][j] == op(Tiled(x1, i, j), Tiled(x2, i, j))
  {
    var r := Max(|x1|, |x2|);
    var c := Max(Cols(x1), Cols(x2));
    seq(r, i requires 0 <= i < r => seq(c, j requires 0 <= j < c =>
      op(Tiled(x1, i, j), Tiled(x2, i, j))))
  }

  /** Every cell of m mapped by f. */
  function MapGrid(m: Grid, f: Complex -> Complex): (t: Grid)
    requires IsRect(m)
    ensures IsRect(t) && Shape(t, |m|, Cols(m))
    ensures forall i, j :: 0 <= i < |m| && 0 <= j < Cols(m) ==> t[i][j] == f(m[i][j])
  {
    seq(|m|, i requires 0 <= i < |m| => seq(Cols(m), j requires 0 <= j < Cols(m) => f(m[i][j])))
  }

  // ---------------------------------------------------------------------
  // Matrix product
  // ---------------------------------------------------------------------

  /** Σ_{k<n} a[i][k]·b[k][j], summed from k = 0 as the triple loop does. */
  function RowColumn(a: Grid, b: Grid, i: int, j: int, n: nat): Complex
    requires IsRect(b) && 0 <= j < Cols(b)
    requires 0 <= i < |a| && n <= |a[i]| && n <= |b|
    decreases n
  {
    if n == 0 then ZERO else Add(RowColumn(a, b, i, j, n - 1), Mul(a[i][n - 1], b[n - 1][j]))
  }

  function MatMul(a: Grid, b: Grid): (t: Grid)
    requires IsRect(a) && IsRect(b) && Cols(a) == |b|
    ensures IsRect(t) && Shape(t, |a|, Cols(b))
    ensures forall i, j :: 0 <= i < |a| && 0 <= j < Cols(b) ==> t[i][j] == RowColumn(a, b, i, j, Cols(a))
  {
    seq(|a|, i requires 0 <= i < |a| => seq(Cols(b), j requires 0 <= j < Cols(b) => RowColumn(a, b, i, j, Cols(a))))
  }

  /** eye(n, c): ONE on the diagonal, ZERO elsewhere. */
  function Eye(r: nat, c: nat): (t: Grid)
    ensures Shape(t, r, c)
    ensures forall i, j :: 0 <= i < r && 0 <= j < c ==> t[i][j] == if i == j then ONE else ZERO
  {
    seq(r, i requires 0 <= i < r => seq(c, j requires 0 <= j < c => if i == j then ONE else ZERO))
  }
}
