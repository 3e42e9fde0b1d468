/** What results look like: which shape and which type every array, object and scalar gets, told from the document. */
module Shapes {
  import opened Values
  import opened Text
  import opened TypeDoctors
  import opened Scalars
  import opened Vectors
  import opened DataFrames
  import opened Simplification
  import opened Policies
  import opened Fidelity
  import opened Access
  import S = Simplifier
  import M = Matrices

  // ----- which shape

  predicate BecomesFrame(a: seq<Json>, o: Options) {
    o.simplifyTo == ToDataFrame && AllObjects(a)
  }

  ghost predicate BecomesMatrix(a: seq<Json>, o: Options)
    requires a != []
  {
    !BecomesFrame(a, o) && (o.simplifyTo == ToDataFrame || o.simplifyTo == ToMatrix) && IsTable(o.policy, o.int64, a)
  }

  ghost predicate BecomesVector(a: seq<Json>, o: Options)
    requires a != []
  {
    && !BecomesFrame(a, o) && !BecomesMatrix(a, o)
    && o.simplifyTo != ToList && Vectorizable(o.policy, o.int64, a)
  }

  /** The first shape that the level allows and the elements fit, of the size of the array; else a list. */
  lemma ShapeOfArray(a: seq<Json>, o: Options)
    requires a != []
    ensures var r := Array(a, o);
            && (BecomesFrame(a, o) <==> r.Frame?)
            && (BecomesMatrix(a, o) <==> r.Mat?)
            && (BecomesVector(a, o) <==> r.Vec? && r.kind != VECSXP)
            && (r.Frame? || r.Mat? || r.Vec?)
            && (r.Frame? ==> r.names == ColumnKeys(Fields(a)) && |r.columns| == |r.names| && r.nRows == |a|)
            && (r.Mat? ==> r.nRows == |a| && r.nCols == |a[0].elems| && |r.cells| == |a| * |a[0].elems|)
            && (r.Vec? ==> |r.cells| == |a|)
  {
    hide Evidence, Flags.IsVectorizable, Vectorizable, M.Flatten, ScalarDispatch, ColumnOf;
    MatrixMeans(o.policy, o.int64, a);
    VectorizableMeans(o.policy, o.int64, a);
  }

  /** A list has the elements of the array in order, each simplified on its own. */
  lemma ListHolds(a: seq<Json>, o: Options, i: nat)
    requires i < |a| && !BecomesFrame(a, o) && !BecomesMatrix(a, o) && !BecomesVector(a, o)
    ensures var r := Array(a, o);
            r.Vec? && r.kind == VECSXP && |r.cells| == |a| && r.cells[i] == Ref(Element(a[i], o))
  {
    hide Evidence, Flags.IsVectorizable, Vectorizable, M.Flatten, ScalarDispatch, ColumnOf;
    MatrixMeans(o.policy, o.int64, a);
    VectorizableMeans(o.policy, o.int64, a);
  }

  /** An object becomes a named list of its members, all of them, in their order, each simplified on its own. */
  lemma ObjectHolds(members: seq<Member>, o: Options, i: nat)
    requires i < |members|
    ensures var r := Element(Obj(members), o);
            && r.Named? && |r.names| == |r.cells| == |members|
            && r.names[i] == members[i].key && r.cells[i] == Ref(Element(members[i].value, o))
  {
  }

  /** Empty arrays, empty objects and nulls on their own become what the caller chose for each. */
  lemma CallersObjects(o: Options)
    ensures Element(Arr([]), o) == Given(o.emptyArray)
    ensures Element(Obj([]), o) == Given(o.emptyObject)
    ensures Element(Null, o) == Given(o.singleNull)
  {
  }

  // ----- which cells

  /** A cell that may stand in a vector of the given type; a list holds well-formed values. */
  ghost predicate OfKind(kind: VecKind, c: Cell)
    decreases c
  {
    match kind
    case STRSXP => c.NaString? || c.Charsxp?
    case REALSXP => c.NaReal? || c.Real?
    case INTSXP => c.Int?
    case LGLSXP => c.Lgl?
    case INTEGER64 => c.Int64Bits?
    case VECSXP => c.Ref? && WellFormed(c.value)
  }

  /** Cells of the right type everywhere, matrices and data frames of the right size, columns with distinct names. */
  ghost predicate WellFormed(r: RValue)
    decreases r
  {
    match r
    case Vec(kind, cells) => forall i | 0 <= i < |cells| :: OfKind(kind, cells[i])
    case Mat(kind, cells, nRows, nCols) =>
      kind != VECSXP && |cells| == nRows * nCols && forall i | 0 <= i < |cells| :: OfKind(kind, cells[i])
    case Named(names, cells) => |names| == |cells| && forall i | 0 <= i < |cells| :: OfKind(VECSXP, cells[i])
    case Frame(names, columns, nRows) =>
      && |names| == |columns| && Distinct(names)
      && forall j | 0 <= j < |columns| :: columns[j].Vec? && |columns[j].cells| == nRows && WellFormed(columns[j])
    case Given(_) => true
  }

  lemma DispatchOfKind(kind: VecKind, j: Json)
    requires kind != VECSXP
    ensures OfKind(kind, ScalarDispatch(kind, j))
  {
  }

  lemma LoneWellFormed(j: Json, o: Options)
    requires IsScalar(j)
    ensures WellFormed(Lone(j, o))
  {
  }

  /** For every document and all options the result is well-formed. */
  lemma {:induction false} ElementWellFormed(j: Json, o: Options)
    ensures WellFormed(Element(j, o))
    decreases j, 0
  {
    match j
    case Arr(a) => ArrayWellFormed(a, o);
    case Obj(members) =>
      forall i | 0 <= i < |members| ensures OfKind(VECSXP, Object(members, o).cells[i]) {
        ElementWellFormed(members[i].value, o);
        ObjectHolds(members, o, i);
      }
    case _ => LoneWellFormed(j, o);
  }

  lemma {:induction false} ArrayWellFormed(a: seq<Json>, o: Options)
    ensures WellFormed(Array(a, o))
    decreases a, 2
  {
    hide ScalarDispatch, Evidence, Flags.IsVectorizable, AtomicKind, M.IsMatrix;
    if a == [] {
    } else if o.simplifyTo == ToDataFrame && AllObjects(a) {
      FrameWellFormed(a, o);
    } else if (o.simplifyTo == ToDataFrame || o.simplifyTo == ToMatrix) && M.IsMatrix(o.policy, o.int64, a) {
      MatrixOfKind(a, o);
    } else if o.simplifyTo != ToList && Evidence(o.int64, a).IsVectorizable(o.policy) {
      forall i | 0 <= i < |a| {
        DispatchOfKind(AtomicKind(o, a), a[i]);
      }
    } else {
      forall i | 0 <= i < |a| ensures OfKind(VECSXP, Array(a, o).cells[i]) {
        ElementWellFormed(a[i], o);
        assert Array(a, o).cells[i] == Ref(Element(a[i], o));
      }
    }
  }

  lemma MatrixOfKind(a: seq<Json>, o: Options)
    requires a != [] && M.IsMatrix(o.policy, o.int64, a)
    ensures WellFormed(M.AtomicMatrix(AtomicKind(o, M.Flatten(a)), a, |a[0].elems|))
  {
    hide ScalarDispatch, Evidence, Flags.IsVectorizable, AtomicKind, M.MatrixCells, M.Offset;
    var kind, nCols := AtomicKind(o, M.Flatten(a)), |a[0].elems|;
    var cells := M.MatrixCells(kind, a, nCols);
    forall k | 0 <= k < |cells| ensures OfKind(kind, cells[k]) {
      var r, c := M.OffsetCovers(|a|, nCols, k);
      M.TransposedAt(kind, a, nCols, r, c);
      DispatchOfKind(kind, a[r].elems[c]);
    }
  }

  lemma {:induction false} CellOfKind(rows: seq<Json>, i: nat, key: Bytes, o: Options)
    requires AllObjects(rows) && i < |rows|
    ensures var kind := KindOfColumn(o, rows, key);
            OfKind(VectorKind(kind), CellOf(rows[i], key, kind, o))
    decreases rows, 0
  {
    hide ColumnKindOf, ScalarDispatch;
    var k, kind := FirstIndex(rows[i].members, key), KindOfColumn(o, rows, key);
    if k < 0 {
      assert WellFormed(Vec(INTSXP, [Int(NA_INTEGER)]));
    } else {
      var value := rows[i].members[k].value;
      match kind
      case Atomic(v) => DispatchOfKind(v, value);
      case NullColumn =>
      case ListColumn => ElementWellFormed(value, o);
    }
  }

  lemma {:induction false} FrameWellFormed(a: seq<Json>, o: Options)
    requires a != [] && AllObjects(a) && o.simplifyTo == ToDataFrame
    ensures WellFormed(Array(a, o))
    decreases a, 1
  {
    hide Array, ColumnKeys, KindOfColumn, S.RowCells, CellOf;
    S.FrameColumns(a, o);
    ColumnKeysAre(Fields(a));
    var keys, f := ColumnKeys(Fields(a)), Array(a, o);
    forall j, i | 0 <= j < |keys| && 0 <= i < |a| ensures OfKind(f.columns[j].kind, f.columns[j].cells[i]) {
      FrameAt(a, o, j, i);
      CellOfKind(a, i, keys[j], o);
    }
  }

  /** Truth values in every type of vector: as truth values, as one and zero, or spelled out. */
  lemma TruthValues(b: bool)
    ensures ScalarDispatch(LGLSXP, Bool(b)) == Lgl(if b then 1 else 0)
    ensures ScalarDispatch(INTSXP, Bool(b)) == Int(if b then 1 else 0)
    ensures ScalarDispatch(INTEGER64, Bool(b)) == Int64Bits(if b then 1 else 0)
    ensures ScalarDispatch(REALSXP, Bool(b)) == Real(Double(false, if b then 1.0 else 0.0))
    ensures ScalarDispatch(STRSXP, Bool(b)) == Charsxp(if b then [84, 82, 85, 69] else [70, 65, 76, 83, 69])
  {
  }

  // ----- which type

  /** The type of vector that a scalar takes on its own. */
  function OwnKind(opt: Int64Policy, j: Json): (kind: VecKind)
    requires IsScalar(j)
    ensures kind != VECSXP
  {
    match j
    case Str(_) => STRSXP
    case U64(_) => STRSXP
    case Dbl(_) => REALSXP
    case Bool(_) => LGLSXP
    case Null => LGLSXP
    case I64(i) =>
      if opt != Always && -0x8000_0000 < i < 0x8000_0000 then INTSXP
      else if opt == AsDouble then REALSXP
      else if opt == AsString then STRSXP
      else INTEGER64
  }

  /** How much say each R type has in the type of a vector or column, under each policy. */
  function Weight(policy: TypePolicy, t: RType): nat {
    match policy
    case AnythingGoes => Rank(t)
    case IntsAsDbls => (match t case RChr => 1 case RLgl => 5 case RU64 => 6 case _ => Rank(t))
    case Strict =>
      (match t
       case RChr => 1 case RDbl => 2 case RI64 => 3 case RI32 => 4 case RLgl => 5 case RU64 => 6
       case _ => Rank(t))
  }

  /** No element outweighs `j`. */
  predicate Heaviest(policy: TypePolicy, opt: Int64Policy, xs: seq<Json>, j: Json) {
    j in xs && forall e | e in xs :: Weight(policy, RTypeOf(opt, e)) <= Weight(policy, RTypeOf(opt, j))
  }

  /** The common type was seen, or nothing but null was, and it outweighs all others that were seen. */
  lemma CommonIsHeaviest(policy: TypePolicy, d: Flags)
    ensures var t := d.CommonRType(policy);
            && (t in d.rTypes || (t == RNull && forall u | u in d.rTypes :: u == RNull))
            && forall u | u in d.rTypes && u != t :: Weight(policy, u) < Weight(policy, t)
  {
  }

  lemma KindOfOne(opt: Int64Policy, j: Json)
    requires IsScalar(j)
    ensures KindOf(opt, RTypeOf(opt, j)) == OwnKind(opt, j)
  {
  }

  /** Scalars in a vector, matrix or column take the type of the heaviest of them, vectorizable or not. */
  lemma TypeDecided(policy: TypePolicy, opt: Int64Policy, xs: seq<Json>)
    requires xs != [] && forall e | e in xs :: IsScalar(e)
    ensures exists j :: Heaviest(policy, opt, xs, j)
    ensures forall j | Heaviest(policy, opt, xs, j) ::
              KindOf(opt, Evidence(opt, xs).CommonRType(policy)) == OwnKind(opt, j)
  {
    hide Flags.CommonRType, Weight, KindOf, OwnKind;
    var d := Evidence(opt, xs);
    CommonIsHeaviest(policy, d);
    forall e | e in xs ensures RTypeOf(opt, e) in d.rTypes {}
    assert xs[0] in xs;
    var j :| j in xs && RTypeOf(opt, j) == d.CommonRType(policy);
    assert Heaviest(policy, opt, xs, j);
    forall e | Heaviest(policy, opt, xs, e) ensures KindOf(opt, d.CommonRType(policy)) == OwnKind(opt, e) {
      KindOfOne(opt, e);
    }
  }

  lemma VectorType(a: seq<Json>, o: Options, j: Json)
    requires a != [] && BecomesVector(a, o) && Heaviest(o.policy, o.int64, a, j)
    ensures IsScalar(j) && Array(a, o).kind == OwnKind(o.int64, j)
  {
    hide Flags.CommonRType, Vectorizable, Evidence, Flags.IsVectorizable, OwnKind, Weight;
    MatrixMeans(o.policy, o.int64, a);
    VectorizableMeans(o.policy, o.int64, a);
    VectorizableIsScalar(o.int64, o.policy, a);
    TypeDecided(o.policy, o.int64, a);
  }

  lemma MatrixType(a: seq<Json>, o: Options, j: Json)
    requires a != [] && BecomesMatrix(a, o) && Heaviest(o.policy, o.int64, M.Flatten(a), j)
    ensures IsScalar(j) && Array(a, o).kind == OwnKind(o.int64, j)
  {
    MatrixMeans(o.policy, o.int64, a);
    VectorizableIsScalar(o.int64, o.policy, M.Flatten(a));
    TypeDecided(o.policy, o.int64, M.Flatten(a));
  }

  /** A column is a list if an array or an object is under its key; else it has the type of its heaviest value. */
  lemma ColumnType(rows: seq<Json>, key: Bytes, o: Options)
    requires AllObjects(rows)
    ensures var xs, kind := ValuesUnder(Fields(rows), key), ColumnOf(rows, key, o).kind;
            if exists v :: v in xs && !IsScalar(v) then kind == VECSXP
            else forall v | Heaviest(o.policy, o.int64, xs, v) :: kind == OwnKind(o.int64, v)
  {
    hide Flags.CommonRType, Weight, Evidence, OwnKind, ColumnKindOf;
    var xs := ValuesUnder(Fields(rows), key);
    ListColumnMeans(o, xs);
    if xs != [] && forall v | v in xs :: IsScalar(v) {
      ScalarColumnKind(o, xs);
      TypeDecided(o.policy, o.int64, xs);
    }
  }

  lemma OneType(policy: TypePolicy, opt: Int64Policy, d: Flags, j: Json)
    requires IsScalar(j) && !j.Null? && d.rTypes == {RTypeOf(opt, j)}
    ensures d.IsVectorizable(policy) && KindOf(opt, d.CommonRType(policy)) == OwnKind(opt, j)
  {
  }

  lemma LoneIs(j: Json, o: Options)
    requires IsScalar(j) && !j.Null?
    ensures var kind := OwnKind(o.int64, j); Lone(j, o) == Vec(kind, [ScalarDispatch(kind, j)])
  {
  }

  /** A scalar on its own is what an array of just that scalar becomes as a vector. */
  lemma LoneIsArrayOfOne(j: Json, o: Options)
    requires IsScalar(j) && !j.Null? && o.simplifyTo == ToVector
    ensures Element(j, o) == Element(Arr([j]), o)
  {
    hide Flags.CommonRType, Flags.IsVectorizable, OwnKind, KindOf, IntText, ToDouble, ToInt32;
    var xs := [j];
    assert xs[0] in xs;
    var d := Evidence(o.int64, xs);
    assert d.rTypes == {RTypeOf(o.int64, j)};
    OneType(o.policy, o.int64, d, j);
    assert AtomicVector(OwnKind(o.int64, j), xs).cells == [ScalarDispatch(OwnKind(o.int64, j), j)];
    LoneIs(j, o);
  }

  // ----- data frames

  /** The NA of each type of column; in a list it is an integer vector of length one. */
  function MissingOf(kind: VecKind): Cell {
    match kind
    case STRSXP => NaString
    case REALSXP => NaReal
    case INTSXP => Int(-2147483648)
    case LGLSXP => Lgl(-2147483648)
    case INTEGER64 => Int64Bits(-9223372036854775808)
    case VECSXP => Ref(Vec(INTSXP, [Int(-2147483648)]))
  }

  /** Row `i` of column `j`: the first value of the key in the record, converted to the type of the column, or NA. */
  lemma FrameHolds(a: seq<Json>, o: Options, j: nat, i: nat)
    requires a != [] && BecomesFrame(a, o) && j < |ColumnKeys(Fields(a))| && i < |a|
    ensures var key := ColumnKeys(Fields(a))[j];
            var column, k := Array(a, o).columns[j], FirstIndex(a[i].members, key);
            && column == ColumnOf(a, key, o)
            && column.cells[i] ==
                 if k < 0 then MissingOf(column.kind)
                 else if column.kind == VECSXP then Ref(Element(a[i].members[k].value, o))
                 else ScalarDispatch(column.kind, a[i].members[k].value)
  {
    hide ScalarDispatch, ColumnKindOf;
    var key := ColumnKeys(Fields(a))[j];
    var kind, k := KindOfColumn(o, a, key), FirstIndex(a[i].members, key);
    FrameAt(a, o, j, i);
    if k >= 0 && kind.NullColumn? {
      ValueOfRow(a, i, k);
      NullKindOnly(o, a, key);
      NullColumnIsNull(o.policy, o.int64, ValuesUnder(Fields(a), key), a[i].members[k].value, o);
    }
  }

  lemma NullKindOnly(o: Options, rows: seq<Json>, key: Bytes)
    requires AllObjects(rows) && KindOfColumn(o, rows, key).NullColumn?
    ensures Evidence(o.int64, ValuesUnder(Fields(rows), key)).CommonRType(o.policy) == RNull
  {
  }
}
