/** The square matrix base class of the MathExt snapshot (MathExt/MatrixBase.cs). Reset
    and the constructor write the identity into M; the static Multiply overloads build new
    arrays; Multiply(other) and Copy build new matrices of the same size. */
module MatrixBase {
  import opened Outcomes
  import opened Matrix

  class MatrixBase {
    const Size: nat
    var M: array2<real>

    /** M is Size x Size. */
    predicate Valid()
      reads this
    {
      M.Length0 == Size && M.Length1 == Size
    }

    /** MatrixBase(size): Reset to the identity. M holds an empty array until Reset
        replaces it. */
    constructor (size: nat)
      ensures Size == size && Valid() && fresh(M)
      ensures Elements(M) == Identity(size)
    {
      Size := size;
      M := new real[0, 0];
      new;
      Reset();
    }

    /** Reset: M becomes a new identity matrix, whatever it held before. */
    method Reset()
      modifies this
      ensures Valid() && fresh(M)
      ensures Elements(M) == Identity(Size)
    {
      M := GetIdentityMatrix();
    }

    /** GetIdentityMatrix: a new Size x Size identity. */
    method GetIdentityMatrix() returns (m: array2<real>)
      ensures fresh(m) && m.Length0 == Size && m.Length1 == Size
      ensures Elements(m) == Identity(Size)
    {
      m := Matrix.GetIdentityMatrix(Size);
    }

    /** The indexer: M[row, column], an IndexOutOfRangeException outside M. */
    function Get(row: int, column: int): (r: Result<real>)
      reads this, M
      ensures r.Err? <==> !(0 <= row < M.Length0 && 0 <= column < M.Length1)
      ensures r.Err? ==> r.error == IndexOutOfRangeException
      ensures r.Ok? ==> r.value == Elements(M)[row][column]
    {
      if 0 <= row < M.Length0 && 0 <= column < M.Length1 then Ok(M[row, column])
      else Err(IndexOutOfRangeException)
    }

    /** Multiply(m1, m2) on square arrays: a generic Exception unless both are n x n with n
        the row count of m1, otherwise a new array holding m1 x m2. */
    static method MultiplySquare(m1: array2<real>, m2: array2<real>) returns (r: Result<array2<real>>)
      ensures r.Err? <==> m1.Length1 != m1.Length0 || m2.Length0 != m1.Length0 || m2.Length1 != m1.Length0
      ensures r.Err? ==> r.error == GenericException
      ensures r.Ok? ==> fresh(r.value) && r.value.Length0 == m1.Length0 && r.value.Length1 == m1.Length0
      ensures r.Ok? ==> Elements(r.value) == Product(Elements(m1), Elements(m2), m1.Length0, m1.Length0)
    {
      var size := m1.Length0;
      if m1.Length1 != size || m2.Length0 != size || m2.Length1 != size {
        return Err(GenericException);
      }
      r := Matrix.Multiply(m1, m2);
    }

    /** Multiply(m1, m2) of a column and a square array: a generic Exception unless m2 is
        n x n for the n entries of m1, otherwise a new array whose entry r sums
        m1[i] * m2[r, i], that is m2 applied to the column. */
    static method MultiplyColumn(m1: array<real>, m2: array2<real>) returns (r: Result<array<real>>)
      ensures r.Err? <==> m2.Length0 != m1.Length || m2.Length1 != m1.Length
      ensures r.Err? ==> r.error == GenericException
      ensures r.Ok? ==> fresh(r.value) && r.value[..] == Apply(Elements(m2), m1[..])
    {
      var size := m1.Length;
      if m2.Length0 != size || m2.Length1 != size {
        return Err(GenericException);
      }
      var m := new real[size];
      ghost var a := Elements(m2);
      ghost var v := m1[..];
      for row := 0 to size
        invariant forall k :: 0 <= k < row ==> m[k] == Dot(a[k], v)
      {
        var sum := ColumnTimesRow(m1, m2, row);
        m[row] := sum;
      }
      assert m[..] == Apply(a, v);
      return Ok(m);
    }

    /** The entry `row` of the column product: the sum of column[i] * m2[row, i]. */
    static method ColumnTimesRow(column: array<real>, m2: array2<real>, row: nat) returns (sum: real)
      requires m2.Length1 == column.Length && row < m2.Length0
      ensures sum == Dot(Elements(m2)[row], column[..])
    {
      ghost var u, w := column[..], Elements(m2)[row];
      sum := 0.0;
      for i := 0 to column.Length
        invariant sum == Dot(u[..i], w[..i])
      {
        DotStep(u, w, i);
        sum := sum + column[i] * m2[row, i];
      }
      assert u[..column.Length] == u && w[..column.Length] == w;
      DotSymmetric(u, w);
    }

    /** Multiply(other): a generic Exception unless the sizes agree, otherwise a new
        matrix of this size holding other.M x M, the transforms of this matrix followed by
        those of other; neither operand changes. */
    method Multiply(other: MatrixBase) returns (r: Result<MatrixBase>)
      requires Valid() && other.Valid()
      ensures r.Err? <==> Size != other.Size
      ensures r.Err? ==> r.error == GenericException
      ensures r.Ok? ==> fresh(r.value) && fresh(r.value.M) && r.value.Size == Size && r.value.Valid()
      ensures r.Ok? ==> Elements(r.value.M) == Product(Elements(other.M), Elements(M), Size, Size)
    {
      var m := new MatrixBase(Size);
      var p := MultiplySquare(other.M, M);
      if p.Err? {
        return Err(p.error);
      }
      m.M := p.value;
      return Ok(m);
    }

    /** Copy: a new matrix of this size, with its own array, holding the same entries. */
    method Copy() returns (c: MatrixBase)
      requires Valid()
      ensures fresh(c) && fresh(c.M) && c.Size == Size && c.Valid()
      ensures Elements(c.M) == Elements(M)
    {
      c := new MatrixBase(Size);
      CopyValues(M, c.M);
    }
  }

  /** The index of the first element whose transform throws, or the number of elements
      when none does. */
  function FirstFailure<T>(transform: T -> Result<T>, elements: seq<T>): (j: nat)
    ensures j <= |elements|
    ensures forall i :: 0 <= i < j ==> transform(elements[i]).Ok?
    ensures j < |elements| ==> transform(elements[j]).Err?
  {
    if |elements| == 0 then 0
    else
      var j := FirstFailure(transform, elements[..|elements| - 1]);
      if j < |elements| - 1 then j
      else if transform(elements[|elements| - 1]).Err? then |elements| - 1
      else |elements|
  }

  /** What InPlaceTransform leaves in its ref arguments, with the exception that escapes
      when the transform of an element throws. */
  datatype Transformed<T> = Transformed(elements: seq<T>, error: Option<Exception>)

  /** InPlaceTransform with one to five elements: each element in turn is replaced by its
      transform. The transform of an element is the abstract Transform of the inheriting
      matrix class, a parameter here; it may throw (Matrix2D's throws ArgumentException
      for an unsupported type). Then the elements before the failing one already hold
      their transforms, the failing one and those after it are unchanged, and the
      exception escapes. */
  function InPlaceTransform<T>(transform: T -> Result<T>, elements: seq<T>): (r: Transformed<T>)
    requires 1 <= |elements| <= 5
    ensures |r.elements| == |elements|
    ensures r.error.None? <==> FirstFailure(transform, elements) == |elements|
    ensures forall i :: 0 <= i < FirstFailure(transform, elements) ==>
      transform(elements[i]) == Ok(r.elements[i])
    ensures forall i :: FirstFailure(transform, elements) <= i < |elements| ==>
      r.elements[i] == elements[i]
    ensures r.error.Some? ==>
      transform(elements[FirstFailure(transform, elements)]) == Err(r.error.value)
  {
    var n := |elements|;
    var last := elements[n - 1];
    var before := if n == 1 then Transformed([], None)
                  else InPlaceTransform(transform, elements[..n - 1]);
    if before.error.Some? then Transformed(before.elements + [last], before.error)
    else match transform(last)
      case Ok(v) => Transformed(before.elements + [v], None)
      case Err(e) => Transformed(before.elements + [last], Some(e))
  }

  /** When no element's transform throws, every element is replaced by its transform. */
  lemma InPlaceTransformTotal<T>(transform: T -> Result<T>, elements: seq<T>)
    requires 1 <= |elements| <= 5
    requires forall i :: 0 <= i < |elements| ==> transform(elements[i]).Ok?
    ensures InPlaceTransform(transform, elements).error == None
    ensures forall i :: 0 <= i < |elements| ==>
      InPlaceTransform(transform, elements).elements[i] == transform(elements[i]).value
  {
  }

  /** Matrix products applied to a column: other x this applies this matrix first. */
  lemma MultiplyAppliesThisFirst(self: Mat, other: Mat, v: seq<real>)
    requires IsShape(self, |v|, |v|) && IsShape(other, |v|, |v|)
    ensures Apply(Product(other, self, |v|, |v|), v) == Apply(other, Apply(self, v))
  {
    ApplyProduct(other, self, v);
  }

  /** A new or reset matrix is neutral under Multiply: the product holds the entries of
      the other matrix. */
  lemma ResetIsNeutral(size: nat, other: Mat)
    requires IsShape(other, size, size)
    ensures Product(other, Identity(size), size, size) == other
    ensures Product(Identity(size), other, size, size) == other
  {
    ProductIdentityRight(other, size);
    ProductIdentityLeft(other, size, size);
  }
}
