/** Matrices: the diagnosis of an array of arrays, and the column-major builders (matrix.hpp). */
module Matrices {
  import opened Values
  import opened TypeDoctors
  import opened Scalars
  import opened Vectors

  predicate AllArrays(a: seq<Json>) {
    forall i | 0 <= i < |a| :: a[i].Arr?
  }

  /** Arrays of equal length. */
  predicate Rectangular(a: seq<Json>, nCols: nat) {
    forall i | 0 <= i < |a| :: a[i].Arr? && |a[i].elems| == nCols
  }

  /** The elements of all rows, row after row. */
  function Flatten(a: seq<Json>): seq<Json>
    requires AllArrays(a)
  {
    if a == [] then [] else Flatten(a[..|a| - 1]) + a[|a| - 1].elems
  }

  lemma InFlatten(a: seq<Json>, r: nat, c: nat)
    requires AllArrays(a) && r < |a| && c < |a[r].elems|
    ensures a[r].elems[c] in Flatten(a)
  {
    if r < |a| - 1 {
      InFlatten(a[..|a| - 1], r, c);
    }
  }

  /** The elements of all rows are just those. */
  lemma {:induction false} FromFlatten(a: seq<Json>, j: Json)
    requires AllArrays(a) && j in Flatten(a)
    ensures exists r, c :: 0 <= r < |a| && 0 <= c < |a[r].elems| && a[r].elems[c] == j
  {
    var rest, last := a[..|a| - 1], a[|a| - 1];
    if j in last.elems {
      var c :| 0 <= c < |last.elems| && last.elems[c] == j;
      assert a[|a| - 1].elems[c] == j;
    } else {
      FromFlatten(rest, j);
      var r, c :| 0 <= r < |rest| && 0 <= c < |rest[r].elems| && rest[r].elems[c] == j;
      assert a[r].elems[c] == j;
    }
  }

  predicate HasValue(a: seq<Json>) {
    exists j :: j in a && !j.Null?
  }

  /**
   * The arrays that become a matrix: rows of one length, whose elements together could be a vector; and unless
   * anything goes, a first row that is not all null.
   */
  predicate IsMatrix(policy: TypePolicy, opt: Int64Policy, a: seq<Json>)
    requires a != []
  {
    && a[0].Arr?
    && Rectangular(a, |a[0].elems|)
    && Evidence(opt, Flatten(a)).IsVectorizable(policy)
    && (policy == AnythingGoes || HasValue(a[0].elems))
  }

  lemma FewerTypesVectorize(policy: TypePolicy, d: Flags, e: Flags)
    requires d.rTypes <= e.rTypes && e.IsVectorizable(policy)
    requires policy == AnythingGoes || exists t :: t in d.rTypes && t != RNull
    ensures d.IsVectorizable(policy)
  {
  }

  lemma VectorizableHasValue(policy: TypePolicy, opt: Int64Policy, a: seq<Json>)
    requires policy != AnythingGoes && Evidence(opt, a).IsVectorizable(policy)
    ensures HasValue(a)
  {
    var d := Evidence(opt, a);
    var t :| t in d.rTypes && t != RNull;
    var j :| j in a && RTypeOf(opt, j) == t;
  }

  lemma {:induction false} FlattenPrefix(a: seq<Json>, n: nat)
    requires AllArrays(a) && n <= |a|
    ensures Flatten(a[..n]) <= Flatten(a)
    decreases |a|
  {
    if n < |a| {
      FlattenPrefix(a[..|a| - 1], n);
      assert a[..|a| - 1][..n] == a[..n];
    } else {
      assert a[..n] == a;
    }
  }

  /** Diagnosing row by row cannot stop early on an array that is a matrix. */
  lemma PrefixVectorizes(policy: TypePolicy, opt: Int64Policy, a: seq<Json>, n: nat)
    requires a != [] && IsMatrix(policy, opt, a) && 0 < n <= |a|
    ensures Evidence(opt, Flatten(a[..n])).IsVectorizable(policy)
  {
    var d, e := Evidence(opt, Flatten(a[..n])), Evidence(opt, Flatten(a));
    FlattenPrefix(a, n);
    assert d.rTypes <= e.rTypes;
    if policy != AnythingGoes {
      var j :| j in a[0].elems && !j.Null?;
      var c :| 0 <= c < |a[0].elems| && a[0].elems[c] == j;
      InFlatten(a[..n], 0, c);
      assert RTypeOf(opt, j) in d.rTypes;
    }
    FewerTypesVectorize(policy, d, e);
  }

  datatype Diagnosis = Diagnosis(
    hasNulls: bool,
    isHomogeneous: bool,
    elementType: ElementType,
    rType: RType,
    nCols: nat)

  /** What the doctor of all elements says. */
  function DiagnosisOf(policy: TypePolicy, d: Flags, nCols: nat): Diagnosis {
    Diagnosis(d.HasNull(), d.IsHomogeneous(), d.CommonElementType(), d.CommonRType(policy), nCols)
  }

  /** One pass over the rows, giving up at the first row that rules a matrix out. */
  method Diagnose(policy: TypePolicy, opt: Int64Policy, a: seq<Json>) returns (r: Option<Diagnosis>)
    requires a != [] && forall i | 0 <= i < |a| && a[i].Arr? :: |a[i].elems| <= MAX_COUNT
    ensures r.Some? <==> IsMatrix(policy, opt, a)
    ensures r.Some? ==>
              r.value == DiagnosisOf(policy, Evidence(opt, Flatten(a)), |a[0].elems|)
  {
    hide Flags.IsVectorizable, Flags.CommonRType, Flags.IsHomogeneous, Evidence;
    var nCols: Option<nat> := None;
    var matrixDoctor := new TypeDoctor.Empty(opt);
    for i := 0 to |a|
      invariant fresh(matrixDoctor) && matrixDoctor.opt == opt
      invariant AllArrays(a[..i])
      invariant matrixDoctor.flags == Evidence(opt, Flatten(a[..i]))
      invariant i == 0 ==> nCols == None
      invariant i > 0 ==> nCols == Some(|a[0].elems|) && Rectangular(a[..i], |a[0].elems|)
      invariant i > 0 ==> matrixDoctor.flags.IsVectorizable(policy)
      invariant i > 0 && policy != AnythingGoes ==> HasValue(a[0].elems)
    {
      if !a[i].Arr? {
        return None;
      }
      var rowDoctor := new TypeDoctor(opt, a[i].elems);
      matrixDoctor.Update(rowDoctor);
      MergeIsConcat(opt, Flatten(a[..i]), a[i].elems);
      assert AllArrays(a[..i + 1]);
      assert a[..i + 1][..i] == a[..i];
      var n := Counted(|a[i].elems|);
      if nCols == None {
        nCols := Some(n);
      }
      if nCols.value != n || !matrixDoctor.flags.IsVectorizable(policy) {
        if IsMatrix(policy, opt, a) {
          PrefixVectorizes(policy, opt, a, i + 1);
        }
        return None;
      }
      if i == 0 && policy != AnythingGoes {
        assert Flatten(a[..1]) == a[0].elems by { assert a[..1][..0] == []; }
        VectorizableHasValue(policy, opt, a[0].elems);
      }
    }
    assert a[..|a|] == a;
    var flags := matrixDoctor.flags;
    r := Some(Diagnosis(flags.HasNull(), flags.IsHomogeneous(), flags.CommonElementType(),
                        flags.CommonRType(policy), nCols.value));
  }

  /** The column-major position of row `r`, column `c` in a matrix of `n` rows. */
  function Offset(n: nat, r: nat, c: nat): nat {
    if c == 0 then r else Offset(n, r, c - 1) + n
  }

  lemma {:induction false} OffsetBounds(n: nat, r: nat, c: nat)
    ensures Offset(n, r, c) == c * n + r
    ensures r < n ==> n * c <= Offset(n, r, c) < n * (c + 1)
  {
    if c > 0 {
      OffsetBounds(n, r, c - 1);
    }
  }

  lemma OffsetInRange(n: nat, m: nat, r: nat, c: nat)
    requires r < n && c < m
    ensures Offset(n, r, c) < n * m
    decreases m
  {
    assert n * m == n * (m - 1) + n;
    if c < m - 1 {
      OffsetInRange(n, m - 1, r, c);
    } else {
      OffsetBounds(n, r, c);
    }
  }

  /** Row and column determine the position ... */
  lemma {:induction false} OffsetInjective(n: nat, r: nat, c: nat, r': nat, c': nat)
    requires r < n && r' < n && Offset(n, r, c) == Offset(n, r', c')
    ensures r == r' && c == c'
    decreases c + c'
  {
    if c > 0 && c' > 0 {
      OffsetInjective(n, r, c - 1, r', c' - 1);
    }
  }

  /** ... and every position of the matrix has a row and a column. */
  lemma {:induction false} OffsetCovers(n: nat, m: nat, k: nat) returns (r: nat, c: nat)
    requires k < n * m
    ensures r < n && c < m && Offset(n, r, c) == k
    decreases m
  {
    assert n * m == n * (m - 1) + n;
    if k < n * (m - 1) {
      r, c := OffsetCovers(n, m - 1, k);
    } else {
      r, c := k - n * (m - 1), m - 1;
      OffsetBounds(n, r, c);
    }
  }

  function Column(kind: VecKind, a: seq<Json>, nCols: nat, c: nat): seq<Cell>
    requires kind != VECSXP && Rectangular(a, nCols) && c < nCols
  {
    seq(|a|, r requires 0 <= r < |a| => ScalarDispatch(kind, a[r].elems[c]))
  }

  /** The first `c` columns, one after the other, every element converted on its own merits. */
  function FirstColumns(kind: VecKind, a: seq<Json>, nCols: nat, c: nat): (cells: seq<Cell>)
    requires kind != VECSXP && Rectangular(a, nCols) && c <= nCols
    ensures |cells| == |a| * c
  {
    if c == 0 then [] else FirstColumns(kind, a, nCols, c - 1) + Column(kind, a, nCols, c - 1)
  }

  function MatrixCells(kind: VecKind, a: seq<Json>, nCols: nat): (cells: seq<Cell>)
    requires kind != VECSXP && Rectangular(a, nCols)
    ensures |cells| == |a| * nCols
  {
    FirstColumns(kind, a, nCols, nCols)
  }

  function AtomicMatrix(kind: VecKind, a: seq<Json>, nCols: nat): RValue
    requires kind != VECSXP && Rectangular(a, nCols)
  {
    Mat(kind, MatrixCells(kind, a, nCols), |a|, nCols)
  }

  lemma {:induction false} FirstColumnsAt(kind: VecKind, a: seq<Json>, nCols: nat, m: nat, r: nat, c: nat)
    requires kind != VECSXP && Rectangular(a, nCols) && r < |a| && c < m <= nCols
    ensures Offset(|a|, r, c) < |a| * m
    ensures FirstColumns(kind, a, nCols, m)[Offset(|a|, r, c)] == ScalarDispatch(kind, a[r].elems[c])
    decreases m
  {
    OffsetInRange(|a|, m, r, c);
    if c < m - 1 {
      FirstColumnsAt(kind, a, nCols, m - 1, r, c);
    } else {
      OffsetBounds(|a|, r, c);
      assert Offset(|a|, r, c) - |a| * c == r;
      assert Column(kind, a, nCols, c)[r] == ScalarDispatch(kind, a[r].elems[c]);
    }
  }

  /** Row `r`, column `c` of the matrix is element `c` of row `r` of the array. */
  lemma TransposedAt(kind: VecKind, a: seq<Json>, nCols: nat, r: nat, c: nat)
    requires kind != VECSXP && Rectangular(a, nCols) && r < |a| && c < nCols
    ensures Offset(|a|, r, c) < |MatrixCells(kind, a, nCols)|
    ensures MatrixCells(kind, a, nCols)[Offset(|a|, r, c)] == ScalarDispatch(kind, a[r].elems[c])
  {
    FirstColumnsAt(kind, a, nCols, nCols, r, c);
  }

  /** Rows before `j`, and columns before `c` of row `j`, hold what `cells` holds there. */
  ghost predicate Filled(out: seq<Cell>, cells: seq<Cell>, n: nat, m: nat, j: nat, c: nat)
    requires |out| == |cells|
  {
    forall r, d | 0 <= r < n && 0 <= d < m && (r < j || (r == j && d < c)) ::
      && Offset(n, r, d) < |cells|
      && out[Offset(n, r, d)] == cells[Offset(n, r, d)]
      && !CellHasNul(cells[Offset(n, r, d)])
  }

  lemma NothingFilled(out: seq<Cell>, cells: seq<Cell>, n: nat, m: nat)
    requires |out| == |cells|
    ensures Filled(out, cells, n, m, 0, 0)
  {
  }

  lemma RowFilled(out: seq<Cell>, cells: seq<Cell>, n: nat, m: nat, j: nat)
    requires |out| == |cells| && Filled(out, cells, n, m, j, m)
    ensures Filled(out, cells, n, m, j + 1, 0)
  {
  }

  lemma FillNext(out: seq<Cell>, cells: seq<Cell>, n: nat, m: nat, j: nat, c: nat, v: Cell)
    requires |out| == |cells| && j < n && c < m
    requires Filled(out, cells, n, m, j, c)
    requires Offset(n, j, c) < |cells| && v == cells[Offset(n, j, c)] && !CellHasNul(v)
    ensures Filled(out[Offset(n, j, c) := v], cells, n, m, j, c + 1)
  {
    var k := Offset(n, j, c);
    var next := out[k := v];
    forall r, d | 0 <= r < n && 0 <= d < m && (r < j || (r == j && d < c + 1))
      ensures && Offset(n, r, d) < |cells|
              && next[Offset(n, r, d)] == cells[Offset(n, r, d)]
              && !CellHasNul(cells[Offset(n, r, d)])
    {
      if Offset(n, r, d) == k {
        OffsetInjective(n, r, d, j, c);
      }
    }
  }

  /** Once every row is written, the whole buffer is. */
  lemma AllFilled(out: seq<Cell>, cells: seq<Cell>, n: nat, m: nat)
    requires |out| == |cells| == n * m && Filled(out, cells, n, m, n, 0)
    ensures out == cells && forall k | 0 <= k < |cells| :: !CellHasNul(cells[k])
  {
    forall k | 0 <= k < n * m ensures out[k] == cells[k] && !CellHasNul(cells[k]) {
      var r, c := OffsetCovers(n, m, k);
    }
  }

  /** The matrix is not made if one of its cells cannot be ... */
  lemma CellOfMatrix(kind: VecKind, a: seq<Json>, nCols: nat, r: nat, c: nat)
    requires kind != VECSXP && Rectangular(a, nCols) && r < |a| && c < nCols
    ensures Offset(|a|, r, c) < |MatrixCells(kind, a, nCols)|
    ensures MatrixCells(kind, a, nCols)[Offset(|a|, r, c)] == ScalarDispatch(kind, a[r].elems[c])
    ensures CellHasNul(ScalarDispatch(kind, a[r].elems[c])) ==>
              Checked(AtomicMatrix(kind, a, nCols)) == Failure(EmbeddedNul)
  {
    TransposedAt(kind, a, nCols, r, c);
  }

  /** ... and is made once every row is written. */
  lemma MatrixDone(kind: VecKind, a: seq<Json>, nCols: nat, out: seq<Cell>)
    requires kind != VECSXP && Rectangular(a, nCols) && |out| == |a| * nCols
    requires Filled(out, MatrixCells(kind, a, nCols), |a|, nCols, |a|, 0)
    ensures Checked(AtomicMatrix(kind, a, nCols)) == Success(Mat(kind, out, |a|, nCols))
  {
    AllFilled(out, MatrixCells(kind, a, nCols), |a|, nCols);
  }

  method StoreNext(out: array<Cell>, k: nat, v: Cell, ghost cells: seq<Cell>,
                   ghost n: nat, ghost m: nat, ghost j: nat, ghost c: nat)
    requires out.Length == |cells| && j < n && c < m
    requires k == Offset(n, j, c) && k < |cells| && v == cells[k] && !CellHasNul(v)
    requires Filled(out[..], cells, n, m, j, c)
    modifies out
    ensures Filled(out[..], cells, n, m, j, c + 1)
  {
    FillNext(out[..], cells, n, m, j, c, v);
    out[k] := v;
  }

  method BuildMatrixTyped(a: seq<Json>, inT: InType, rT: RType, hasNulls: bool, nCols: nat)
    returns (r: Result<RValue>)
    requires a != [] && Rectangular(a, nCols) && |a| <= MAX_COUNT && nCols <= MAX_COUNT
    requires HasConversion(inT, rT)
    requires forall r, c | 0 <= r < |a| && 0 <= c < nCols :: Accessible(inT, hasNulls, a[r].elems[c])
    ensures r == Checked(AtomicMatrix(TypedKind(rT), a, nCols))
  {
    var nRows, kind := Counted(|a|), TypedKind(rT);
    var out := new Cell[nRows * nCols];
    ghost var cells := MatrixCells(kind, a, nCols);
    hide MatrixCells, Filled, ScalarDispatch, CellHasNul, Checked, AtomicMatrix, HasConversion, TypedKind, Accessible;
    NothingFilled(out[..], cells, nRows, nCols);
    for j := 0 to |a|
      invariant Filled(out[..], cells, nRows, nCols, j, 0)
    {
      var i := 0;
      for c := 0 to |a[j].elems|
        invariant i + j == Offset(nRows, j, c)
        invariant Filled(out[..], cells, nRows, nCols, j, c)
      {
        CellOfMatrix(kind, a, nCols, j, c);
        var cell :- ConvertTyped(inT, rT, hasNulls, a[j].elems[c]);
        StoreNext(out, i + j, cell, cells, nRows, nCols, j, c);
        i := i + nRows;
      }
      RowFilled(out[..], cells, nRows, nCols, j);
    }
    MatrixDone(kind, a, nCols, out[..]);
    r := Success(Mat(kind, out[..], nRows, nCols));
  }

  method BuildMatrixMixed(a: seq<Json>, kind: VecKind, nCols: nat) returns (r: Result<RValue>)
    requires a != [] && Rectangular(a, nCols) && |a| <= MAX_COUNT && nCols <= MAX_COUNT && kind != VECSXP
    ensures r == Checked(AtomicMatrix(kind, a, nCols))
  {
    var nRows := Counted(|a|);
    var out := new Cell[nRows * nCols];
    ghost var cells := MatrixCells(kind, a, nCols);
    hide MatrixCells, Filled, ScalarDispatch, CellHasNul, Checked, AtomicMatrix;
    NothingFilled(out[..], cells, nRows, nCols);
    for j := 0 to |a|
      invariant Filled(out[..], cells, nRows, nCols, j, 0)
    {
      var i := 0;
      for c := 0 to |a[j].elems|
        invariant i + j == Offset(nRows, j, c)
        invariant Filled(out[..], cells, nRows, nCols, j, c)
      {
        CellOfMatrix(kind, a, nCols, j, c);
        var cell :- Convert(kind, a[j].elems[c]);
        StoreNext(out, i + j, cell, cells, nRows, nCols, j, c);
        i := i + nRows;
      }
      RowFilled(out[..], cells, nRows, nCols, j);
    }
    MatrixDone(kind, a, nCols, out[..]);
    r := Success(Mat(kind, out[..], nRows, nCols));
  }

  /** The typed builder by element type; 32-bit integers by R type, wider ones by the int64 option. */
  method DispatchTyped(opt: Int64Policy, a: seq<Json>, elementType: ElementType, rT: RType, hasNulls: bool, nCols: nat)
    returns (r: Result<RValue>)
    requires a != [] && Rectangular(a, nCols) && |a| <= MAX_COUNT && nCols <= MAX_COUNT
    requires IsAtomic(rT) && rT != RNull && elementType == ElementOf(rT)
    requires forall r, c | 0 <= r < |a| && 0 <= c < nCols :: Licensed(rT, hasNulls, a[r].elems[c])
    ensures r == Checked(AtomicMatrix(KindOf(opt, rT), a, nCols))
  {
    match elementType
    case STRING => r := BuildMatrixTyped(a, InString, RChr, hasNulls, nCols);
    case DOUBLE => r := BuildMatrixTyped(a, InDouble, RDbl, hasNulls, nCols);
    case INT64 =>
      if rT == RI32 {
        r := BuildMatrixTyped(a, InInt64, RI32, hasNulls, nCols);
      } else if opt == AsDouble {
        r := BuildMatrixTyped(a, InInt64, RDbl, hasNulls, nCols);
      } else if opt == AsString {
        r := BuildMatrixTyped(a, InInt64, RChr, hasNulls, nCols);
      } else {
        r := BuildMatrixTyped(a, InInt64, RI64, hasNulls, nCols);
      }
    case BOOL => r := BuildMatrixTyped(a, InBool, RLgl, hasNulls, nCols);
    case UINT64 => r := BuildMatrixTyped(a, InUint64, RChr, hasNulls, nCols);
  }

  lemma NullMatrix(a: seq<Json>, nCols: nat)
    requires Rectangular(a, nCols) && forall r, c | 0 <= r < |a| && 0 <= c < nCols :: a[r].elems[c].Null?
    ensures MatrixCells(LGLSXP, a, nCols) == seq(|a| * nCols, _ => Lgl(NA_INTEGER))
  {
    forall k | 0 <= k < |a| * nCols ensures MatrixCells(LGLSXP, a, nCols)[k] == Lgl(NA_INTEGER) {
      var r, c := OffsetCovers(|a|, nCols, k);
      TransposedAt(LGLSXP, a, nCols, r, c);
    }
  }

  method DispatchMixed(opt: Int64Policy, a: seq<Json>, rT: RType, nCols: nat) returns (r: Result<RValue>)
    requires a != [] && Rectangular(a, nCols) && |a| <= MAX_COUNT && nCols <= MAX_COUNT
    requires IsAtomic(rT) && (rT == RNull ==> forall r, c | 0 <= r < |a| && 0 <= c < nCols :: a[r].elems[c].Null?)
    ensures r == Checked(AtomicMatrix(KindOf(opt, rT), a, nCols))
  {
    match rT
    case RChr => r := BuildMatrixMixed(a, STRSXP, nCols);
    case RDbl => r := BuildMatrixMixed(a, REALSXP, nCols);
    case RI64 =>
      if opt == AsDouble {
        r := BuildMatrixMixed(a, REALSXP, nCols);
      } else if opt == AsString {
        r := BuildMatrixMixed(a, STRSXP, nCols);
      } else {
        r := BuildMatrixMixed(a, INTEGER64, nCols);
      }
    case RI32 => r := BuildMatrixMixed(a, INTSXP, nCols);
    case RLgl => r := BuildMatrixMixed(a, LGLSXP, nCols);
    case RU64 => r := BuildMatrixMixed(a, STRSXP, nCols);
    case RNull =>
      var nRows := Counted(|a|);
      var n := nRows * nCols;
      r := Success(Mat(LGLSXP, seq(n, _ => Lgl(NA_INTEGER)), nRows, nCols));
      NullMatrix(a, nCols);
      assert !HasNul(r.value);
  }
}
