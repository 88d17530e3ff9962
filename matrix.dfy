/** Matrix operations of DecimalEx (DecimalEx/Matrix.cs) on two-dimensional arrays
    addressed as [row, column], together with the mathematics they are specified by: a
    matrix as a sequence of rows, the dot product, the matrix product, the identity and
    the action of a matrix on a column vector. */
module Matrix {
  import opened Outcomes

  /** A matrix as its sequence of rows. */
  type Mat = seq<seq<real>>

  predicate IsShape(a: Mat, rows: nat, cols: nat)
  {
    |a| == rows && forall i :: 0 <= i < rows ==> |a[i]| == cols
  }

  /** The entries of an array as a sequence of rows. */
  function Elements(m: array2<real>): (a: Mat)
    reads m
    ensures IsShape(a, m.Length0, m.Length1)
    ensures forall i, j :: 0 <= i < m.Length0 && 0 <= j < m.Length1 ==> a[i][j] == m[i, j]
  {
    seq(m.Length0, i reads m => seq(m.Length1, j reads m =>
      if 0 <= i < m.Length0 && 0 <= j < m.Length1 then m[i, j] else 0.0))
  }

  /** An array whose entries are those of a has a as its elements. */
  lemma ElementsAre(m: array2<real>, a: Mat)
    requires IsShape(a, m.Length0, m.Length1)
    requires forall i, j :: 0 <= i < m.Length0 && 0 <= j < m.Length1 ==> m[i, j] == a[i][j]
    ensures Elements(m) == a
  {
    var e := Elements(m);
    forall i | 0 <= i < m.Length0
      ensures e[i] == a[i]
    {
      assert forall j :: 0 <= j < m.Length1 ==> e[i][j] == a[i][j];
    }
  }

  // The specification

  /** The dot product of two vectors of the same length, summed from the first entry. */
  function Dot(u: seq<real>, w: seq<real>): real
    requires |u| == |w|
    decreases |u|
  {
    if |u| == 0 then 0.0 else Dot(u[..|u| - 1], w[..|w| - 1]) + u[|u| - 1] * w[|w| - 1]
  }

  /** Column c of a matrix. */
  function Column(a: Mat, c: nat): seq<real>
  {
    seq(|a|, k requires 0 <= k < |a| => if c < |a[k]| then a[k][c] else 0.0)
  }

  /** The product of a (rows x inner) and b (inner x cols): entry [r, c] is row r of a dot
      column c of b. */
  function Product(a: Mat, b: Mat, inner: nat, cols: nat): (p: Mat)
    requires IsShape(a, |a|, inner) && IsShape(b, inner, cols)
    ensures IsShape(p, |a|, cols)
  {
    seq(|a|, r requires 0 <= r < |a| => seq(cols, c requires 0 <= c < cols => Dot(a[r], Column(b, c))))
  }

  /** The n x n identity: ones on the diagonal, zeros elsewhere. */
  function Identity(n: nat): (e: Mat)
    ensures IsShape(e, n, n)
  {
    seq(n, i => seq(n, j => if i == j then 1.0 else 0.0))
  }

  /** A matrix applied to a column vector: entry r is row r dot the vector. */
  function Apply(a: Mat, v: seq<real>): (w: seq<real>)
    requires IsShape(a, |a|, |v|)
    ensures |w| == |a|
  {
    seq(|a|, r requires 0 <= r < |a| => Dot(a[r], v))
  }

  /** A vector as an n x 1 column matrix. */
  function AsColumn(v: seq<real>): (a: Mat)
    ensures IsShape(a, |v|, 1)
  {
    seq(|v|, i requires 0 <= i < |v| => [v[i]])
  }

  /** A vector as a 1 x n row matrix. */
  function AsRow(v: seq<real>): (a: Mat)
    ensures IsShape(a, 1, |v|)
  {
    [v]
  }

  /** The single row, else the single column, else an ArgumentException. */
  function RowOrColumn(a: Mat, rows: nat, cols: nat): (r: Result<seq<real>>)
    requires IsShape(a, rows, cols)
    ensures r.Err? <==> rows != 1 && cols != 1
    ensures r.Err? ==> r.error == ArgumentException
    ensures r.Ok? ==> |r.value| == if rows == 1 then cols else rows
  {
    if rows == 1 then Ok(a[0])
    else if cols == 1 then Ok(seq(rows, i requires 0 <= i < rows => a[i][0]))
    else Err(ArgumentException)
  }

  // Properties of the dot product

  lemma DotStep(u: seq<real>, w: seq<real>, i: nat)
    requires |u| == |w| && i < |u|
    ensures Dot(u[..i + 1], w[..i + 1]) == Dot(u[..i], w[..i]) + u[i] * w[i]
  {
    assert u[..i + 1][..i] == u[..i];
    assert w[..i + 1][..i] == w[..i];
  }

  lemma {:induction false} DotSymmetric(u: seq<real>, w: seq<real>)
    requires |u| == |w|
    ensures Dot(u, w) == Dot(w, u)
    decreases |u|
  {
    if |u| > 0 {
      DotSymmetric(u[..|u| - 1], w[..|w| - 1]);
    }
  }

  /** The unit vector n wide with its one at c. */
  function Unit(n: nat, c: nat): seq<real>
  {
    seq(n, k => if k == c then 1.0 else 0.0)
  }

  /** A partial dot product with a unit vector picks the entry if it is in the part. */
  lemma {:induction false} DotUnitPrefix(u: seq<real>, c: nat, k: nat)
    requires c < |u| && k <= |u|
    ensures Dot(u[..k], Unit(|u|, c)[..k]) == if c < k then u[c] else 0.0
    decreases k
  {
    if k > 0 {
      DotUnitPrefix(u, c, k - 1);
      DotStep(u, Unit(|u|, c), k - 1);
    }
  }

  /** The dot product with the unit vector at c is entry c. */
  lemma DotUnit(u: seq<real>, c: nat)
    requires c < |u|
    ensures Dot(u, Unit(|u|, c)) == u[c]
    ensures Dot(Unit(|u|, c), u) == u[c]
  {
    DotUnitPrefix(u, c, |u|);
    assert u[..|u|] == u;
    assert Unit(|u|, c)[..|u|] == Unit(|u|, c);
    DotSymmetric(u, Unit(|u|, c));
  }

  /** The dot product is linear in its second argument: u . x == u . v + s (u . w) when x
      is v + s w entry by entry. */
  lemma {:induction false} DotLinear(u: seq<real>, v: seq<real>, w: seq<real>, x: seq<real>, s: real)
    requires |u| == |v| == |w| == |x|
    requires forall i :: 0 <= i < |x| ==> x[i] == v[i] + s * w[i]
    ensures Dot(u, x) == Dot(u, v) + s * Dot(u, w)
    decreases |u|
  {
    if |u| > 0 {
      var n := |u| - 1;
      DotLinear(u[..n], v[..n], w[..n], x[..n], s);
    }
  }

  /** The dot product with a zero vector is zero. */
  lemma {:induction false} DotZero(z: seq<real>, v: seq<real>)
    requires |z| == |v|
    requires forall i :: 0 <= i < |z| ==> z[i] == 0.0
    ensures Dot(z, v) == 0.0
    decreases |z|
  {
    if |z| > 0 {
      DotZero(z[..|z| - 1], v[..|v| - 1]);
    }
  }

  // Properties of the matrix operations

  lemma IdentityColumns(n: nat, c: nat)
    requires c < n
    ensures Column(Identity(n), c) == Unit(n, c)
    ensures Identity(n)[c] == Unit(n, c)
  {
  }

  /** Multiplying by the identity on the right leaves a matrix as it is. */
  lemma ProductIdentityRight(a: Mat, n: nat)
    requires IsShape(a, |a|, n)
    ensures Product(a, Identity(n), n, n) == a
  {
    var p := Product(a, Identity(n), n, n);
    forall r | 0 <= r < |a|
      ensures p[r] == a[r]
    {
      forall c | 0 <= c < n
        ensures p[r][c] == a[r][c]
      {
        IdentityColumns(n, c);
        DotUnit(a[r], c);
      }
    }
  }

  /** Multiplying by the identity on the left leaves a matrix as it is. */
  lemma ProductIdentityLeft(b: Mat, n: nat, cols: nat)
    requires IsShape(b, n, cols)
    ensures Product(Identity(n), b, n, cols) == b
  {
    var p := Product(Identity(n), b, n, cols);
    forall r | 0 <= r < n
      ensures p[r] == b[r]
    {
      forall c | 0 <= c < cols
        ensures p[r][c] == b[r][c]
      {
        IdentityColumns(n, r);
        assert |Column(b, c)| == n;
        DotUnit(Column(b, c), r);
      }
    }
  }

  /** The identity leaves every vector as it is. */
  lemma ApplyIdentity(v: seq<real>)
    ensures Apply(Identity(|v|), v) == v
  {
    forall r | 0 <= r < |v|
      ensures Apply(Identity(|v|), v)[r] == v[r]
    {
      IdentityColumns(|v|, r);
      DotUnit(v, r);
    }
  }

  /** Multiplying by a column matrix and reading the column back is applying the matrix to
      the vector. */
  lemma ProductWithColumn(a: Mat, v: seq<real>)
    requires IsShape(a, |a|, |v|)
    ensures RowOrColumn(Product(a, AsColumn(v), |v|, 1), |a|, 1) == Ok(Apply(a, v))
  {
    var p := Product(a, AsColumn(v), |v|, 1);
    assert Column(AsColumn(v), 0) == v;
    var w := RowOrColumn(p, |a|, 1).value;
    assert forall r :: 0 <= r < |a| ==> p[r][0] == Apply(a, v)[r];
    if |a| == 1 {
      assert w == [p[0][0]];
    } else {
      assert forall r :: 0 <= r < |a| ==> w[r] == p[r][0];
    }
    assert w == Apply(a, v);
  }

  /** The double sum x^T b v taken in either order: lhs holds x dot each column of b,
      inner holds each row of b dot v. */
  lemma {:induction false} DotExchange(x: seq<real>, b: Mat, v: seq<real>, lhs: seq<real>, inner: seq<real>)
    requires IsShape(b, |x|, |v|)
    requires |lhs| == |v| && forall i :: 0 <= i < |v| ==> lhs[i] == Dot(x, Column(b, i))
    requires |inner| == |x| && forall k :: 0 <= k < |x| ==> inner[k] == Dot(b[k], v)
    ensures Dot(lhs, v) == Dot(x, inner)
    decreases |x|
  {
    if |x| == 0 {
      DotZero(lhs, v);
    } else {
      var n := |x| - 1;
      var x', b' := x[..n], b[..n];
      var t, row := x[n], b[n];
      var lhs' := seq(|v|, i requires 0 <= i < |v| => Dot(x', Column(b', i)));
      DotExchange(x', b', v, lhs', inner[..n]);
      ExchangeStep(x, b, v, lhs, lhs', inner);
    }
  }

  /** The inductive step of DotExchange: one more row of b. */
  lemma ExchangeStep(x: seq<real>, b: Mat, v: seq<real>, lhs: seq<real>, lhs': seq<real>, inner: seq<real>)
    requires |x| > 0 && IsShape(b, |x|, |v|)
    requires |lhs| == |v| && forall i :: 0 <= i < |v| ==> lhs[i] == Dot(x, Column(b, i))
    requires |lhs'| == |v| && forall i :: 0 <= i < |v| ==> lhs'[i] == Dot(x[..|x| - 1], Column(b[..|x| - 1], i))
    requires |inner| == |x| && inner[|x| - 1] == Dot(b[|x| - 1], v)
    requires Dot(lhs', v) == Dot(x[..|x| - 1], inner[..|x| - 1])
    ensures Dot(lhs, v) == Dot(x, inner)
  {
    var n := |x| - 1;
    var t, row := x[n], b[n];
    forall i | 0 <= i < |v|
      ensures lhs[i] == lhs'[i] + t * row[i]
    {
      ColumnDotStep(x, b, i);
    }
    DotSymmetric(lhs, v);
    DotSymmetric(lhs', v);
    DotSymmetric(row, v);
    DotLinear(v, lhs', row, lhs, t);
  }

  lemma ColumnDotStep(x: seq<real>, b: Mat, i: nat)
    requires |x| > 0 && |b| == |x| && forall k :: 0 <= k < |b| ==> i < |b[k]|
    ensures Dot(x, Column(b, i)) == Dot(x[..|x| - 1], Column(b[..|x| - 1], i)) + x[|x| - 1] * b[|x| - 1][i]
  {
    var n := |x| - 1;
    assert Column(b, i)[..n] == Column(b[..n], i);
  }

  /** Applying a product is applying its right factor, then its left one: a product of
      transformation matrices performs the right transform first. */
  lemma ApplyProduct(a: Mat, b: Mat, v: seq<real>)
    requires IsShape(b, |b|, |v|) && IsShape(a, |a|, |b|)
    ensures Apply(Product(a, b, |b|, |v|), v) == Apply(a, Apply(b, v))
  {
    var p := Product(a, b, |b|, |v|);
    forall r | 0 <= r < |a|
      ensures Apply(p, v)[r] == Apply(a, Apply(b, v))[r]
    {
      DotExchange(a[r], b, v, p[r], Apply(b, v));
    }
  }

  /** A row matrix and a column matrix both read back as the vector they were made from. */
  lemma RowAndColumnRoundTrip(v: seq<real>)
    ensures RowOrColumn(AsRow(v), 1, |v|) == Ok(v)
    ensures RowOrColumn(AsColumn(v), |v|, 1) == Ok(v)
  {
    if |v| == 1 {
      assert v == [v[0]];
    } else {
      var w := RowOrColumn(AsColumn(v), |v|, 1).value;
      assert forall i :: 0 <= i < |v| ==> w[i] == v[i];
      assert w == v;
    }
  }

  // The array operations

  /** GetIdentityMatrix: a new size x size array holding the identity. */
  method GetIdentityMatrix(size: nat) returns (m: array2<real>)
    ensures fresh(m) && m.Length0 == size && m.Length1 == size
    ensures Elements(m) == Identity(size)
  {
    m := new real[size, size]((i, j) => 0.0);
    for i := 0 to size
      invariant forall r, c :: 0 <= r < size && 0 <= c < size ==>
        m[r, c] == if r == c && r < i then 1.0 else 0.0
    {
      m[i, i] := 1.0;
    }
    ElementsAre(m, Identity(size));
  }

  /** Multiply: a generic Exception unless the columns of m1 match the rows of m2, else a
      new array holding the product. */
  method Multiply(m1: array2<real>, m2: array2<real>) returns (r: Result<array2<real>>)
    ensures r.Err? <==> m1.Length1 != m2.Length0
    ensures r.Err? ==> r.error == GenericException
    ensures r.Ok? ==> fresh(r.value) && r.value.Length0 == m1.Length0 && r.value.Length1 == m2.Length1
    ensures r.Ok? ==> Elements(r.value) == Product(Elements(m1), Elements(m2), m1.Length1, m2.Length1)
  {
    var columns1 := m1.Length1;
    var rows2 := m2.Length0;
    if columns1 != rows2 {
      return Err(GenericException);
    }
    var prodRows := m1.Length0;
    var prodCols := m2.Length1;
    var m := new real[prodRows, prodCols]((i, j) => 0.0);
    ghost var a := Elements(m1);
    ghost var b := Elements(m2);
    ghost var p := Product(a, b, columns1, prodCols);
    for row := 0 to prodRows
      invariant forall i, j :: 0 <= i < row && 0 <= j < prodCols ==> m[i, j] == p[i][j]
    {
      FillRow(m, m1, m2, row);
    }
    ElementsAre(m, p);
    return Ok(m);
  }

  /** Row `row` of the product, written into m; the other rows are left as they are. */
  method FillRow(m: array2<real>, m1: array2<real>, m2: array2<real>, row: nat)
    requires m != m1 && m != m2
    requires m1.Length1 == m2.Length0 && row < m1.Length0
    requires m.Length0 == m1.Length0 && m.Length1 == m2.Length1
    modifies m
    ensures forall j :: 0 <= j < m.Length1 ==> m[row, j] == Dot(Elements(m1)[row], Column(Elements(m2), j))
    ensures forall i, j :: 0 <= i < m.Length0 && 0 <= j < m.Length1 && i != row ==> m[i, j] == old(m[i, j])
  {
    for col := 0 to m.Length1
      invariant forall j :: 0 <= j < col ==> m[row, j] == Dot(Elements(m1)[row], Column(Elements(m2), j))
      invariant forall i, j :: 0 <= i < m.Length0 && 0 <= j < m.Length1 && i != row ==> m[i, j] == old(m[i, j])
    {
      var sum := RowTimesColumn(m1, m2, row, col);
      m[row, col] := sum;
    }
  }

  /** The sum of m1[row, i] * m2[i, col] over the shared dimension, the entry the product
      accumulates at [row, col]. */
  method RowTimesColumn(m1: array2<real>, m2: array2<real>, row: nat, col: nat) returns (sum: real)
    requires m1.Length1 == m2.Length0 && row < m1.Length0 && col < m2.Length1
    ensures sum == Dot(Elements(m1)[row], Column(Elements(m2), col))
  {
    ghost var u, w := Elements(m1)[row], Column(Elements(m2), col);
    assert |u| == |w| == m1.Length1;
    sum := 0.0;
    for i := 0 to m1.Length1
      invariant sum == Dot(u[..i], w[..i])
    {
      DotStep(u, w, i);
      sum := sum + m1[row, i] * m2[i, col];
    }
    assert u[..m1.Length1] == u && w[..m1.Length1] == w;
  }

  /** Array.Copy between arrays of the same shape: dst takes the entries of src. */
  method CopyValues(src: array2<real>, dst: array2<real>)
    requires src != dst && src.Length0 == dst.Length0 && src.Length1 == dst.Length1
    modifies dst
    ensures Elements(dst) == Elements(src)
  {
    for i := 0 to src.Length0
      invariant forall r, c :: 0 <= r < i && 0 <= c < src.Length1 ==> dst[r, c] == src[r, c]
    {
      for j := 0 to src.Length1
        invariant forall r, c :: 0 <= r < i && 0 <= c < src.Length1 ==> dst[r, c] == src[r, c]
        invariant forall c :: 0 <= c < j ==> dst[i, c] == src[i, c]
      {
        dst[i, j] := src[i, j];
      }
    }
    ElementsAre(dst, Elements(src));
  }

  /** ToColumn: a new n x 1 array holding the vector. */
  method ToColumn(v: array<real>) returns (m: array2<real>)
    ensures fresh(m) && m.Length0 == v.Length && m.Length1 == 1
    ensures Elements(m) == AsColumn(v[..])
  {
    var rows := v.Length;
    m := new real[rows, 1]((i, j) => 0.0);
    for row := 0 to rows
      invariant forall i :: 0 <= i < row ==> m[i, 0] == v[i]
    {
      m[row, 0] := v[row];
    }
    ElementsAre(m, AsColumn(v[..]));
  }

  /** ToRow: a new 1 x n array holding the vector. */
  method ToRow(v: array<real>) returns (m: array2<real>)
    ensures fresh(m) && m.Length0 == 1 && m.Length1 == v.Length
    ensures Elements(m) == AsRow(v[..])
  {
    var columns := v.Length;
    m := new real[1, columns]((i, j) => 0.0);
    for col := 0 to columns
      invariant forall j :: 0 <= j < col ==> m[0, j] == v[j]
    {
      m[0, col] := v[col];
    }
    ElementsAre(m, AsRow(v[..]));
  }

  /** RowOrColumnToArray: a new array holding the single row, else the single column, else
      an ArgumentException. */
  method RowOrColumnToArray(m: array2<real>) returns (r: Result<array<real>>)
    ensures r.Err? <==> RowOrColumn(Elements(m), m.Length0, m.Length1).Err?
    ensures r.Err? ==> r.error == ArgumentException
    ensures r.Ok? ==> fresh(r.value) && r.value[..] == RowOrColumn(Elements(m), m.Length0, m.Length1).value
  {
    if m.Length0 == 1 {
      var columns := m.Length1;
      var ret := new real[columns];
      for col := 0 to columns
        invariant forall j :: 0 <= j < col ==> ret[j] == m[0, j]
      {
        ret[col] := m[0, col];
      }
      assert ret[..] == Elements(m)[0];
      return Ok(ret);
    } else if m.Length1 == 1 {
      var rows := m.Length0;
      var ret := new real[rows];
      for row := 0 to rows
        invariant forall i :: 0 <= i < row ==> ret[i] == m[i, 0]
      {
        ret[row] := m[row, 0];
      }
      assert ret[..] == RowOrColumn(Elements(m), m.Length0, m.Length1).value;
      return Ok(ret);
    } else {
      return Err(ArgumentException);
    }
  }

  /** The product of two 3 x 3 matrices from the unit tests. */
  lemma SquareProductExample()
    ensures Product([[1.0, 2.0, 3.0], [11.0, 12.0, 13.0], [21.0, 22.0, 23.0]],
                    [[31.0, 32.0, 33.0], [34.0, 35.0, 36.0], [37.0, 38.0, 39.0]], 3, 3)
         == [[210.0, 216.0, 222.0], [1230.0, 1266.0, 1302.0], [2250.0, 2316.0, 2382.0]]
  {
    var a := [[1.0, 2.0, 3.0], [11.0, 12.0, 13.0], [21.0, 22.0, 23.0]];
    var b := [[31.0, 32.0, 33.0], [34.0, 35.0, 36.0], [37.0, 38.0, 39.0]];
    var p := Product(a, b, 3, 3);
    ProductRow3(a, b, 0);
    ProductRow3(a, b, 1);
    ProductRow3(a, b, 2);
    assert p[0] == [210.0, 216.0, 222.0];
    assert p[1] == [1230.0, 1266.0, 1302.0];
    assert p[2] == [2250.0, 2316.0, 2382.0];
  }

  /** Row r of a product with a 3 x 3 matrix, written out entry by entry. */
  lemma ProductRow3(a: Mat, b: Mat, r: nat)
    requires IsShape(a, |a|, 3) && IsShape(b, 3, 3) && r < |a|
    ensures Product(a, b, 3, 3)[r] ==
      [a[r][0] * b[0][0] + a[r][1] * b[1][0] + a[r][2] * b[2][0],
       a[r][0] * b[0][1] + a[r][1] * b[1][1] + a[r][2] * b[2][1],
       a[r][0] * b[0][2] + a[r][1] * b[1][2] + a[r][2] * b[2][2]]
  {
    var row := Product(a, b, 3, 3)[r];
    ColumnDot3(a[r], b, 0);
    ColumnDot3(a[r], b, 1);
    ColumnDot3(a[r], b, 2);
    assert row[0] == Dot(a[r], Column(b, 0)) && row[1] == Dot(a[r], Column(b, 1));
    assert row[2] == Dot(a[r], Column(b, 2));
    assert |row| == 3 && row == [row[0], row[1], row[2]];
    assert row[0] == a[r][0] * b[0][0] + a[r][1] * b[1][0] + a[r][2] * b[2][0];
    assert row[1] == a[r][0] * b[0][1] + a[r][1] * b[1][1] + a[r][2] * b[2][1];
    assert row[2] == a[r][0] * b[0][2] + a[r][1] * b[1][2] + a[r][2] * b[2][2];
    assert row == [a[r][0] * b[0][0] + a[r][1] * b[1][0] + a[r][2] * b[2][0],
       a[r][0] * b[0][1] + a[r][1] * b[1][1] + a[r][2] * b[2][1],
       a[r][0] * b[0][2] + a[r][1] * b[1][2] + a[r][2] * b[2][2]];
  }

  /** Row u dotted with column c of a 3 x 3 matrix, written out. */
  lemma ColumnDot3(u: seq<real>, b: Mat, c: nat)
    requires |u| == 3 && IsShape(b, 3, 3) && c < 3
    ensures Dot(u, Column(b, c)) == u[0] * b[0][c] + u[1] * b[1][c] + u[2] * b[2][c]
  {
    var col := Column(b, c);
    assert col[0] == b[0][c] && col[1] == b[1][c] && col[2] == b[2][c];
    Dot3(u, col);
  }

  /** The product of a 2 x 3 and a 3 x 2 matrix from the unit tests. */
  lemma RectangularProductExample()
    ensures Product([[1.0, 0.0, -2.0], [0.0, 3.0, -1.0]], [[0.0, 3.0], [-2.0, -1.0], [0.0, 4.0]], 3, 2)
         == [[0.0, -5.0], [-6.0, -7.0]]
  {
    var c := [[1.0, 0.0, -2.0], [0.0, 3.0, -1.0]];
    var d := [[0.0, 3.0], [-2.0, -1.0], [0.0, 4.0]];
    var q := Product(c, d, 3, 2);
    forall r, j | 0 <= r < 2 && 0 <= j < 2
      ensures q[r][j] == c[r][0] * d[0][j] + c[r][1] * d[1][j] + c[r][2] * d[2][j]
    {
      Dot3(c[r], Column(d, j));
    }
    assert q[0] == [0.0, -5.0];
    assert q[1] == [-6.0, -7.0];
  }

  /** The transform of the column (67, 45, 33) from the unit tests. */
  lemma ApplyExample()
    ensures Apply([[1.0, 2.0, 3.0], [11.0, 12.0, 13.0], [21.0, 22.0, 23.0]], [67.0, 45.0, 33.0])
         == [256.0, 1706.0, 3156.0]
  {
    var a := [[1.0, 2.0, 3.0], [11.0, 12.0, 13.0], [21.0, 22.0, 23.0]];
    var v := [67.0, 45.0, 33.0];
    forall r | 0 <= r < 3
      ensures Apply(a, v)[r] == a[r][0] * 67.0 + a[r][1] * 45.0 + a[r][2] * 33.0
    {
      Dot3(a[r], v);
    }
  }

  lemma Dot3(u: seq<real>, w: seq<real>)
    requires |u| == |w| == 3
    ensures Dot(u, w) == u[0] * w[0] + u[1] * w[1] + u[2] * w[2]
  {
    DotStep(u, w, 0);
    DotStep(u, w, 1);
    DotStep(u, w, 2);
    assert u[..0] == [] && w[..0] == [];
    assert u[..3] == u && w[..3] == w;
  }
}
