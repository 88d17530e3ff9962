/** The square matrix behind the affine transforms of DecimalEx
    (DecimalEx/TransformationMatrixBase.cs): a class holding its size and its entries M,
    whose indexer and SetRow write M in place and whose Multiply, Transform and Copy build
    new matrices. The generic self-type of the source is one class here. */
module TransformationMatrixBase {
  import opened Outcomes
  import opened Matrix

  class TransformationMatrix {
    const Size: nat
    var M: array2<real>

    /** M is Size x Size. */
    predicate Valid()
      reads this
    {
      M.Length0 == Size && M.Length1 == Size
    }

    /** TransformationMatrixBase(size): the size x size identity. */
    constructor (size: nat)
      ensures Size == size && Valid() && fresh(M)
      ensures Elements(M) == Identity(size)
    {
      var m := Matrix.GetIdentityMatrix(size);
      Size := size;
      M := m;
    }

    /** TransformationMatrixBase(size, values): an ArgumentException unless values is
        size x size, otherwise a matrix holding a copy of values. */
    static method FromValues(size: nat, values: array2<real>) returns (r: Result<TransformationMatrix>)
      ensures r.Err? <==> values.Length0 != size || values.Length1 != size
      ensures r.Err? ==> r.error == ArgumentException
      ensures r.Ok? ==> fresh(r.value) && fresh(r.value.M) && r.value.Size == size && r.value.Valid()
      ensures r.Ok? ==> Elements(r.value.M) == Elements(values)
    {
      if values.Length0 != size || values.Length1 != size {
        return Err(ArgumentException);
      }
      var t := new TransformationMatrix(size);
      var m := new real[size, size]((i, j) => 0.0);
      CopyValues(values, m);
      t.M := m;
      return Ok(t);
    }

    /** The indexer getter: M[row, column], an IndexOutOfRangeException outside M. */
    function Get(row: int, column: int): (r: Result<real>)
      reads this, M
      ensures r.Err? <==> !(0 <= row < M.Length0 && 0 <= column < M.Length1)
      ensures r.Err? ==> r.error == IndexOutOfRangeException
      ensures r.Ok? ==> r.value == Elements(M)[row][column]
    {
      if 0 <= row < M.Length0 && 0 <= column < M.Length1 then Ok(M[row, column])
      else Err(IndexOutOfRangeException)
    }

    /** The indexer setter: M[row, column] := value, an IndexOutOfRangeException outside M;
        no other entry changes. */
    method Set(row: int, column: int, value: real) returns (r: Result<()>)
      modifies M
      ensures r.Err? <==> !(0 <= row < M.Length0 && 0 <= column < M.Length1)
      ensures r.Err? ==> r.error == IndexOutOfRangeException && Elements(M) == old(Elements(M))
      ensures r.Ok? ==> Elements(M) == old(Elements(M))[row := old(Elements(M))[row][column := value]]
    {
      if !(0 <= row < M.Length0 && 0 <= column < M.Length1) {
        return Err(IndexOutOfRangeException);
      }
      ghost var before := Elements(M);
      M[row, column] := value;
      ElementsAre(M, before[row := before[row][column := value]]);
      return Ok(());
    }

    /** SetRow: an ArgumentException unless there are Size values; otherwise row `row`
        becomes the values, an IndexOutOfRangeException (with nothing written) when the
        row is outside a non-empty matrix. An empty matrix accepts any row and stays as
        it is, since the copying loop does not run. */
    method SetRow(row: int, values: array<real>) returns (r: Result<()>)
      requires Valid()
      modifies M
      ensures r.Err? <==> values.Length != Size || (Size > 0 && !(0 <= row < Size))
      ensures r.Err? ==> Elements(M) == old(Elements(M))
      ensures r.Err? ==> r.error == if values.Length != Size then ArgumentException else IndexOutOfRangeException
      ensures r.Ok? && Size == 0 ==> Elements(M) == old(Elements(M))
      ensures r.Ok? && Size > 0 ==> Elements(M) == old(Elements(M))[row := values[..]]
    {
      if values.Length != Size {
        return Err(ArgumentException);
      }
      if Size == 0 {
        return Ok(());
      }
      if !(0 <= row < Size) {
        return Err(IndexOutOfRangeException);
      }
      ghost var before := Elements(M);
      for col := 0 to Size
        invariant forall i, j :: 0 <= i < Size && 0 <= j < Size ==>
          M[i, j] == if i == row && j < col then values[j] else before[i][j]
      {
        M[row, col] := values[col];
      }
      ElementsAre(M, before[row := values[..]]);
      return Ok(());
    }

    /** Multiply(other): a generic Exception unless the sizes agree, otherwise a new
        matrix holding M x other.M; neither operand changes. */
    method Multiply(other: TransformationMatrix) returns (r: Result<TransformationMatrix>)
      requires Valid() && other.Valid()
      ensures r.Err? <==> Size != other.Size
      ensures r.Err? ==> r.error == GenericException
      ensures r.Ok? ==> fresh(r.value) && fresh(r.value.M) && r.value.Size == Size && r.value.Valid()
      ensures r.Ok? ==> Elements(r.value.M) == Product(Elements(M), Elements(other.M), Size, Size)
    {
      var m := new TransformationMatrix(Size);
      var p := Matrix.Multiply(M, other.M);
      if p.Err? {
        return Err(p.error);
      }
      m.M := p.value;
      return Ok(m);
    }

    /** Transform: an ArgumentException unless the column has Size entries, otherwise a new
        array holding M applied to it. */
    method Transform(columnMatrix: array<real>) returns (r: Result<array<real>>)
      requires Valid()
      ensures r.Err? <==> columnMatrix.Length != Size
      ensures r.Err? ==> r.error == ArgumentException
      ensures r.Ok? ==> fresh(r.value) && r.value[..] == Apply(Elements(M), columnMatrix[..])
    {
      if columnMatrix.Length != Size {
        return Err(ArgumentException);
      }
      var twoDArray := ToColumn(columnMatrix);
      var matrixResult := Matrix.Multiply(M, twoDArray);
      var arrayResult := RowOrColumnToArray(matrixResult.value);
      ProductWithColumn(Elements(M), columnMatrix[..]);
      return Ok(arrayResult.value);
    }

    /** Copy: a new matrix, with its own array, holding the same entries. */
    method Copy() returns (c: TransformationMatrix)
      requires Valid()
      ensures fresh(c) && fresh(c.M) && c.Size == Size && c.Valid()
      ensures Elements(c.M) == Elements(M)
    {
      c := new TransformationMatrix(Size);
      CopyValues(M, c.M);
    }
  }

  /** A new matrix multiplied by another leaves the other's entries, on either side. */
  lemma IdentityIsNeutral(size: nat, a: Mat)
    requires IsShape(a, size, size)
    ensures Product(Identity(size), a, size, size) == a
    ensures Product(a, Identity(size), size, size) == a
  {
    ProductIdentityLeft(a, size, size);
    ProductIdentityRight(a, size);
  }

  /** Transforming by a product transforms by the right factor first. */
  lemma TransformOfProduct(a: Mat, b: Mat, v: seq<real>)
    requires IsShape(a, |v|, |v|) && IsShape(b, |v|, |v|)
    ensures Apply(Product(a, b, |v|, |v|), v) == Apply(a, Apply(b, v))
  {
    ApplyProduct(a, b, v);
  }
}
