/** Where the counts saturate: what becomes of containers with more children than a count can tell. */
module Counts {
  import opened Values
  import opened TypeDoctors
  import opened Scalars
  import opened Vectors
  import opened DataFrames
  import opened Simplification
  import opened Fidelity
  import opened Access
  import S = Simplifier
  import M = Matrices

  /** Entry `k` exists in a buffer of the given size. */
  predicate Within(k: nat, size: nat) {
    k < size
  }

  /** Filling a buffer of the reported size, one entry for each child, stays inside it exactly up to the limit. */
  lemma FillFits(n: nat)
    ensures (forall i | 0 <= i < n :: Within(i, Counted(n))) <==> n <= MAX_COUNT
  {
    assert n > MAX_COUNT ==> !Within(MAX_COUNT, Counted(n));
  }

  /** So does filling a matrix, when rows and columns keep to the limit. */
  lemma MatrixFits(n: nat, m: nat)
    requires n > 0 && m > 0
    ensures (forall r, c | 0 <= r < n && 0 <= c < m ::
               Within(M.Offset(Counted(n), r, c), Counted(n) * Counted(m)))
            <==> n <= MAX_COUNT && m <= MAX_COUNT
  {
    if n <= MAX_COUNT && m <= MAX_COUNT {
      forall r, c | 0 <= r < n && 0 <= c < m ensures M.Offset(Counted(n), r, c) < Counted(n) * Counted(m) {
        M.OffsetInRange(n, m, r, c);
      }
    } else {
      LastOverruns(n, m);
    }
  }

  lemma LastOverruns(n: nat, m: nat)
    requires n > 0 && m > 0 && (n > MAX_COUNT || m > MAX_COUNT)
    ensures M.Offset(Counted(n), n - 1, m - 1) >= Counted(n) * Counted(m)
  {
    M.OffsetBounds(Counted(n), n - 1, m - 1);
    if n > MAX_COUNT {
      assert (m - 1) * Counted(n) + (n - 1) >= m * Counted(n);
      Monotone(Counted(n), Counted(m), m);
    } else {
      Monotone(Counted(n), Counted(m), m - 1);
    }
  }

  lemma Monotone(k: nat, x: nat, y: nat)
    requires x <= y
    ensures k * x <= k * y
  {
  }

  /** Comparing reported sizes finds arrays of equal length, and takes for such also arrays that all reach the limit. */
  lemma SameCounts(a: seq<Json>)
    requires a != [] && M.AllArrays(a)
    ensures (forall i | 0 <= i < |a| :: Counted(|a[i].elems|) == Counted(|a[0].elems|))
            <==> M.Rectangular(a, |a[0].elems|) || forall i | 0 <= i < |a| :: |a[i].elems| >= MAX_COUNT
  {
    if forall i | 0 <= i < |a| :: Counted(|a[i].elems|) == Counted(|a[0].elems|) {
      if i :| 0 <= i < |a| && |a[i].elems| < MAX_COUNT {
        assert forall r | 0 <= r < |a| :: |a[r].elems| == |a[0].elems|;
      }
    }
  }

  /** The array of 16777216 ones needs, with any options, one entry more than its reported size. */
  lemma LongArrayOverruns(o: Options)
    ensures var a := seq(0x100_0000, _ => I64(1));
            && Array(a, o).Vec? && |Array(a, o).cells| == Counted(|a|) + 1
            && !Countable(Arr(a), o)
  {
    var a := seq(0x100_0000, _ => I64(1));
    assert a[0] == I64(1);
  }

  // ----- which documents keep to the limit

  /** Every vector, matrix, list and data frame in the value has a size that a count can tell. */
  ghost predicate Fits(r: RValue) {
    match r
    case Vec(_, cells) => |cells| <= MAX_COUNT && forall i | 0 <= i < |cells| :: CellFits(cells[i])
    case Mat(_, _, nRows, nCols) => nRows <= MAX_COUNT && nCols <= MAX_COUNT
    case Named(_, cells) => |cells| <= MAX_COUNT && forall i | 0 <= i < |cells| :: CellFits(cells[i])
    case Frame(_, columns, nRows) => nRows <= MAX_COUNT && forall j | 0 <= j < |columns| :: Fits(columns[j])
    case Given(_) => true
  }

  ghost predicate CellFits(c: Cell) {
    c.Ref? ==> Fits(c.value)
  }

  /** For every document and all options: its sizes are true exactly if nothing in its value is larger than a count. */
  lemma {:induction false} CountsSuffice(j: Json, o: Options)
    ensures Countable(j, o) <==> Fits(Element(j, o))
    decreases j, 0
  {
    match j
    case Arr(a) => ArrayFits(a, o);
    case Obj(members) =>
      var r := Object(members, o);
      forall i | 0 <= i < |members| && members != []
        ensures CellFits(r.cells[i]) <==> Countable(members[i].value, o)
      {
        CountsSuffice(members[i].value, o);
        assert r.cells[i] == Ref(Element(members[i].value, o));
      }
    case _ => LoneFits(j, o);
  }

  lemma LoneFits(j: Json, o: Options)
    requires IsScalar(j)
    ensures Fits(Lone(j, o))
  {
  }

  lemma {:induction false} ArrayFits(a: seq<Json>, o: Options)
    ensures Countable(Arr(a), o) <==> Fits(Array(a, o))
    decreases a, 4
  {
    hide ScalarDispatch, Evidence, Flags.IsVectorizable, AtomicKind, M.MatrixCells;
    if a == [] {
    } else if o.simplifyTo == ToDataFrame && AllObjects(a) {
      FrameFits(a, o);
    } else if (o.simplifyTo == ToDataFrame || o.simplifyTo == ToMatrix) && M.IsMatrix(o.policy, o.int64, a) {
      MatrixCountable(a, o);
    } else if o.simplifyTo != ToList && Evidence(o.int64, a).IsVectorizable(o.policy) {
      VectorizableIsScalar(o.int64, o.policy, a);
      ScalarsCountable(a, o);
    } else {
      var r := Array(a, o);
      forall i | 0 <= i < |a| ensures CellFits(r.cells[i]) <==> Countable(a[i], o) {
        CountsSuffice(a[i], o);
        assert r.cells[i] == Ref(Element(a[i], o));
      }
    }
  }

  lemma ScalarsCountable(xs: seq<Json>, o: Options)
    requires forall j | j in xs :: IsScalar(j)
    ensures Countable(Arr(xs), o) <==> |xs| <= MAX_COUNT
  {
    assert xs != [] ==> xs[0] in xs;
    forall i | 0 <= i < |xs| ensures Countable(xs[i], o) {
      assert xs[i] in xs;
    }
  }

  lemma MatrixCountable(a: seq<Json>, o: Options)
    requires a != [] && M.IsMatrix(o.policy, o.int64, a)
    ensures Countable(Arr(a), o) <==> |a| <= MAX_COUNT && |a[0].elems| <= MAX_COUNT
  {
    VectorizableIsScalar(o.int64, o.policy, M.Flatten(a));
    forall r | 0 <= r < |a| ensures Countable(a[r], o) <==> |a[0].elems| <= MAX_COUNT {
      forall j | j in a[r].elems ensures IsScalar(j) {
        var c :| 0 <= c < |a[r].elems| && a[r].elems[c] == j;
        M.InFlatten(a, r, c);
      }
      ScalarsCountable(a[r].elems, o);
    }
  }

  lemma {:induction false} CellFitsColumn(rows: seq<Json>, i: nat, key: Bytes, o: Options)
    requires AllObjects(rows) && i < |rows|
    ensures var k := FirstIndex(rows[i].members, key);
            CellFits(CellOf(rows[i], key, KindOfColumn(o, rows, key), o)) <==>
              k < 0 || Countable(rows[i].members[k].value, o)
    decreases rows, 0
  {
    hide ColumnKindOf;
    var k, kind := FirstIndex(rows[i].members, key), KindOfColumn(o, rows, key);
    if k < 0 {
      assert Fits(Vec(INTSXP, [Int(NA_INTEGER)]));
    } else {
      var value := rows[i].members[k].value;
      ValueOfRow(rows, i, k);
      ListColumnMeans(o, ValuesUnder(Fields(rows), key));
      if kind.ListColumn? {
        CountsSuffice(value, o);
      }
    }
  }

  lemma {:induction false} RowFits(a: seq<Json>, i: nat, o: Options)
    requires a != [] && AllObjects(a) && o.simplifyTo == ToDataFrame && i < |a|
    ensures var f := Array(a, o);
            && f.Frame? && (forall j | 0 <= j < |f.columns| :: f.columns[j].Vec? && |f.columns[j].cells| == |a|)
            && (RecordCountable(a[i].members, o) <==>
                  forall j | 0 <= j < |f.columns| :: CellFits(f.columns[j].cells[i]))
    decreases a, 1
  {
    hide Array, ColumnKeys, KindOfColumn, S.RowCells;
    S.FrameColumns(a, o);
    var keys, f, members := ColumnKeys(Fields(a)), Array(a, o), a[i].members;
    forall j | 0 <= j < |keys|
      ensures CellFits(f.columns[j].cells[i]) <==>
                var k := FirstIndex(members, keys[j]); k < 0 || Countable(members[k].value, o)
    {
      FrameAt(a, o, j, i);
      CellFitsColumn(a, i, keys[j], o);
    }
    forall k | 0 <= k < |members| && FirstIndex(members, members[k].key) == k
      ensures exists j :: 0 <= j < |keys| && keys[j] == members[k].key
    {
      RowKeysAreColumns(a, i);
      assert KeysOf(members)[k] in KeysOf(members);
    }
  }

  lemma {:induction false} FrameFits(a: seq<Json>, o: Options)
    requires a != [] && AllObjects(a) && o.simplifyTo == ToDataFrame
    ensures Countable(Arr(a), o) <==> Fits(Array(a, o))
    decreases a, 3
  {
    hide Array, ColumnKeys, KindOfColumn, S.RowCells;
    S.FrameColumns(a, o);
    var keys, f := ColumnKeys(Fields(a)), Array(a, o);
    forall i | 0 <= i < |a| {
      RowFits(a, i, o);
    }
  }
}
