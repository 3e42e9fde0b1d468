/** Reading a simplified value back: every scalar of the document is found where the document had it. */
module Access {
  import opened Values
  import opened TypeDoctors
  import opened Scalars
  import opened Vectors
  import opened DataFrames
  import opened Simplification
  import opened Policies
  import opened Fidelity
  import M = Matrices

  datatype Step = Pos(i: nat) | Key(key: Bytes)

  /** What a path of array positions and object keys leads to; the first of several equal keys counts. */
  function At(j: Json, path: seq<Step>): Option<Json>
    decreases |path|
  {
    if path == [] then Some(j)
    else
      match (j, path[0])
      case (Arr(elems), Pos(i)) => if i < |elems| then At(elems[i], path[1..]) else None
      case (Obj(members), Key(key)) =>
        var k := FirstIndex(members, key);
        if k >= 0 then At(members[k].value, path[1..]) else None
      case _ => None
  }

  /** An element of an R vector: a list element is a value, an atomic one a vector of length one. */
  function ReadCell(kind: VecKind, c: Cell, path: seq<Step>): Option<RValue>
    decreases |path|, 1
  {
    match c
    case Ref(value) => Read(value, path)
    case _ => if path == [] then Some(Vec(kind, [c])) else None
  }

  /** Indexing in R: x[[i]], x[["key"]], m[r, c] and df[i, "key"]. */
  function Read(r: RValue, path: seq<Step>): Option<RValue>
    decreases |path|, 0
  {
    if path == [] then Some(r)
    else
      match r
      case Vec(kind, cells) =>
        if path[0].Pos? && path[0].i < |cells| then ReadCell(kind, cells[path[0].i], path[1..]) else None
      case Named(names, cells) =>
        if path[0].Key? && 0 <= FirstPosition(names, path[0].key) < |cells|
        then ReadCell(VECSXP, cells[FirstPosition(names, path[0].key)], path[1..]) else None
      case Mat(kind, cells, nRows, nCols) =>
        if |path| == 2 && path[0].Pos? && path[1].Pos? && path[0].i < nRows && path[1].i < nCols
           && M.Offset(nRows, path[0].i, path[1].i) < |cells|
        then Some(Vec(kind, [cells[M.Offset(nRows, path[0].i, path[1].i)]])) else None
      case Frame(names, columns, nRows) =>
        if |path| >= 2 && path[0].Pos? && path[1].Key? && 0 <= FirstPosition(names, path[1].key) < |columns|
        then
          var column := columns[FirstPosition(names, path[1].key)];
          if column.Vec? && path[0].i < |column.cells|
          then ReadCell(column.kind, column.cells[path[0].i], path[2..]) else None
        else None
      case Given(_) => None
  }

  /** A scalar stands alone, or shares an atomic vector, matrix or column with others. */
  datatype Company = Alone | Among(elements: seq<Json>)

  /** The company of the scalar at the end of a path, told from the document and the options alone. */
  ghost function CompanyOf(j: Json, path: seq<Step>, o: Options): Company
    requires At(j, path).Some?
    decreases |path|
  {
    if path == [] then Alone
    else if j.Obj? then CompanyOf(j.members[FirstIndex(j.members, path[0].key)].value, path[1..], o)
    else
      var a := j.elems;
      if |path| >= 2 && o.simplifyTo == ToDataFrame && AllObjects(a) then
        var row := a[path[0].i];
        assert At(row, path[1..]).Some? && path[1..][0] == path[1] && path[1..][1..] == path[2..];
        var values := ValuesUnder(Fields(a), path[1].key);
        if forall v | v in values :: IsScalar(v) then Among(values)
        else
          CompanyOf(row.members[FirstIndex(row.members, path[1].key)].value, path[2..], o)
      else if |path| >= 2 && (o.simplifyTo == ToDataFrame || o.simplifyTo == ToMatrix)
              && IsTable(o.policy, o.int64, a) then
        Among(M.Flatten(a))
      else if o.simplifyTo != ToList && Vectorizable(o.policy, o.int64, a) then Among(a)
      else CompanyOf(a[path[0].i], path[1..], o)
  }

  /** The R value for a scalar in such company: its own, or an element of their common type. */
  ghost function Coerced(company: Company, leaf: Json, o: Options): RValue
    requires IsScalar(leaf)
  {
    match company
    case Alone => Lone(leaf, o)
    case Among(elements) =>
      var kind := KindOf(o.int64, Evidence(o.int64, elements).CommonRType(o.policy));
      if kind == VECSXP then Lone(leaf, o) else Vec(kind, [ScalarDispatch(kind, leaf)])
  }

  lemma FrameAt(a: seq<Json>, o: Options, j: nat, i: nat)
    requires a != [] && AllObjects(a) && o.simplifyTo == ToDataFrame
    requires j < |ColumnKeys(Fields(a))| && i < |a|
    ensures var keys, f := ColumnKeys(Fields(a)), Array(a, o);
            var kind := KindOfColumn(o, a, keys[j]);
            && f.Frame? && f.names == keys && |f.columns| == |keys|
            && f.columns[j].Vec? && f.columns[j].kind == VectorKind(kind) && |f.columns[j].cells| == |a|
            && f.columns[j].cells[i] == CellOf(a[i], keys[j], kind, o)
  {
    assert Array(a, o).columns[j] == ColumnOf(a, ColumnKeys(Fields(a))[j], o);
  }

  /** Reading from a data frame: the column of the key, the cell of the row, and on from there. */
  lemma ReadFrame(a: seq<Json>, path: seq<Step>, o: Options)
    requires a != [] && AllObjects(a) && o.simplifyTo == ToDataFrame
    requires |path| >= 2 && path[0].Pos? && path[1].Key? && path[0].i < |a|
    requires FirstIndex(a[path[0].i].members, path[1].key) >= 0
    ensures var row := a[path[0].i];
            var kind := KindOfColumn(o, a, path[1].key);
            var value := row.members[FirstIndex(row.members, path[1].key)].value;
            Read(Array(a, o), path) == ReadCell(VectorKind(kind), CellFrom(value, kind, o), path[2..])
  {
    hide Array, ReadCell, CellFrom, KindOfColumn;
    var keys, key := ColumnKeys(Fields(a)), path[1].key;
    RowKeysAreColumns(a, path[0].i);
    assert KeysOf(a[path[0].i].members)[FirstIndex(a[path[0].i].members, key)] == key;
    FrameAt(a, o, FirstPosition(keys, key), path[0].i);
  }

  lemma ReadMatrix(a: seq<Json>, path: seq<Step>, kind: VecKind, nCols: nat)
    requires kind != VECSXP && M.Rectangular(a, nCols)
    requires |path| == 2 && path[0].Pos? && path[1].Pos? && path[0].i < |a| && path[1].i < nCols
    ensures Read(M.AtomicMatrix(kind, a, nCols), path) ==
              Some(Vec(kind, [ScalarDispatch(kind, a[path[0].i].elems[path[1].i])]))
  {
    M.TransposedAt(kind, a, nCols, path[0].i, path[1].i);
  }

  /**
   * Access is preserved, under every policy, int64 option and level of simplification: reading the simplified
   * value along any path that leads to a scalar gives that scalar, coerced to the type of its company.
   */
  lemma {:induction false} ReadBack(j: Json, path: seq<Step>, o: Options)
    requires At(j, path).Some? && IsScalar(At(j, path).value)
    ensures Read(Element(j, o), path) == Some(Coerced(CompanyOf(j, path, o), At(j, path).value, o))
    decreases |path|
  {
    if path == [] {
    } else if j.Obj? {
      ReadBackObject(j, path, o);
    } else {
      ReadBackArray(j.elems, path, o);
    }
  }

  lemma {:induction false} ReadBackObject(j: Json, path: seq<Step>, o: Options)
    requires j.Obj? && path != [] && At(j, path).Some? && IsScalar(At(j, path).value)
    ensures Read(Element(j, o), path) == Some(Coerced(CompanyOf(j, path, o), At(j, path).value, o))
    decreases |path|, 0
  {
    var k := FirstIndex(j.members, path[0].key);
    ReadBack(j.members[k].value, path[1..], o);
    assert Object(j.members, o).cells[k] == Ref(Element(j.members[k].value, o));
  }

  lemma ScalarEndsPath(j: Json, path: seq<Step>)
    requires IsScalar(j) && At(j, path).Some?
    ensures path == []
  {
  }

  lemma TailOfPath(path: seq<Step>)
    requires |path| >= 2
    ensures path[1..][0] == path[1] && path[1..][1..] == path[2..]
  {
  }

  lemma {:induction false} ReadBackFrame(a: seq<Json>, path: seq<Step>, o: Options)
    requires a != [] && o.simplifyTo == ToDataFrame && AllObjects(a)
    requires path != [] && At(Arr(a), path).Some? && IsScalar(At(Arr(a), path).value)
    ensures Read(Array(a, o), path) == Some(Coerced(CompanyOf(Arr(a), path, o), At(Arr(a), path).value, o))
    decreases |path|, 0
  {
    var row, leaf := a[path[0].i], At(Arr(a), path).value;
    TailOfPath(path);
    var key := path[1].key;
    var k := FirstIndex(row.members, key);
    var value, values, kind := row.members[k].value, ValuesUnder(Fields(a), key), KindOfColumn(o, a, key);
    assert At(value, path[2..]) == Some(leaf);
    ReadFrame(a, path, o);
    ListColumnMeans(o, values);
    if kind.ListColumn? {
      ReadBack(value, path[2..], o);
    } else {
      ValueOfRow(a, path[0].i, k);
      ScalarEndsPath(value, path[2..]);
      if kind.NullColumn? {
        NullColumnIsNull(o.policy, o.int64, values, value, o);
      }
    }
  }

  lemma ReadBackMatrix(a: seq<Json>, path: seq<Step>, o: Options)
    requires a != [] && M.IsMatrix(o.policy, o.int64, a)
    requires path != [] && At(Arr(a), path).Some? && IsScalar(At(Arr(a), path).value)
    ensures |path| == 2 && At(Arr(a), path).value in M.Flatten(a)
    ensures var kind := AtomicKind(o, M.Flatten(a));
            Read(M.AtomicMatrix(kind, a, |a[0].elems|), path) ==
              Some(Vec(kind, [ScalarDispatch(kind, At(Arr(a), path).value)]))
  {
    var row := a[path[0].i];
    TailOfPath(path);
    M.InFlatten(a, path[0].i, path[1].i);
    VectorizableIsScalar(o.int64, o.policy, M.Flatten(a));
    assert At(row.elems[path[1].i], path[2..]).Some?;
    ScalarEndsPath(row.elems[path[1].i], path[2..]);
    ReadMatrix(a, path, AtomicKind(o, M.Flatten(a)), |a[0].elems|);
  }

  lemma ReadBackVector(a: seq<Json>, path: seq<Step>, o: Options)
    requires Evidence(o.int64, a).IsVectorizable(o.policy)
    requires path != [] && At(Arr(a), path).Some? && IsScalar(At(Arr(a), path).value)
    ensures |path| == 1 && At(Arr(a), path).value in a
    ensures var kind := AtomicKind(o, a);
            Read(AtomicVector(kind, a), path) == Some(Vec(kind, [ScalarDispatch(kind, At(Arr(a), path).value)]))
  {
    hide ScalarDispatch, Evidence, Flags.IsVectorizable, AtomicKind;
    var j := a[path[0].i];
    VectorizableIsScalar(o.int64, o.policy, a);
    assert j in a;
    ScalarEndsPath(j, path[1..]);
  }

  lemma {:induction false} ReadBackArray(a: seq<Json>, path: seq<Step>, o: Options)
    requires path != [] && At(Arr(a), path).Some? && IsScalar(At(Arr(a), path).value)
    ensures Read(Array(a, o), path) == Some(Coerced(CompanyOf(Arr(a), path, o), At(Arr(a), path).value, o))
    decreases |path|, 1
  {
    var j := a[path[0].i];
    assert j in a && At(j, path[1..]) == At(Arr(a), path);
    if |path| == 1 {
      assert At(j, path[1..]) == Some(j);
    }
    MatrixMeans(o.policy, o.int64, a);
    VectorizableMeans(o.policy, o.int64, a);
    if o.simplifyTo == ToDataFrame && AllObjects(a) {
      ReadBackFrame(a, path, o);
    } else if (o.simplifyTo == ToDataFrame || o.simplifyTo == ToMatrix) && M.IsMatrix(o.policy, o.int64, a) {
      ReadBackMatrix(a, path, o);
    } else if o.simplifyTo != ToList && Evidence(o.int64, a).IsVectorizable(o.policy) {
      ReadBackVector(a, path, o);
    } else {
      assert Array(a, o).cells[path[0].i] == Ref(Element(j, o));
      ReadBack(j, path[1..], o);
    }
  }

  /** The company of a scalar are scalars, itself included; they could be a vector unless they are a column. */
  lemma {:induction false} CompanyFits(j: Json, path: seq<Step>, o: Options)
    requires At(j, path).Some? && IsScalar(At(j, path).value)
    ensures var company := CompanyOf(j, path, o);
            company.Among? ==>
              && At(j, path).value in company.elements
              && (forall e | e in company.elements :: IsScalar(e))
              && (o.policy == AnythingGoes || o.simplifyTo != ToDataFrame ==>
                    Evidence(o.int64, company.elements).IsVectorizable(o.policy))
    decreases |path|
  {
    if path != [] && j.Obj? {
      CompanyFits(j.members[FirstIndex(j.members, path[0].key)].value, path[1..], o);
    } else if path != [] {
      var a := j.elems;
      var e := a[path[0].i];
      assert e in a && At(e, path[1..]) == At(j, path);
      if |path| == 1 {
        assert At(e, path[1..]) == Some(e);
      }
      MatrixMeans(o.policy, o.int64, a);
      VectorizableMeans(o.policy, o.int64, a);
      if o.simplifyTo == ToDataFrame && AllObjects(a) {
        TailOfPath(path);
        var k := FirstIndex(e.members, path[1].key);
        var value, values := e.members[k].value, ValuesUnder(Fields(a), path[1].key);
        assert At(value, path[2..]) == At(j, path);
        if forall v | v in values :: IsScalar(v) {
          ValueOfRow(a, path[0].i, k);
          ScalarEndsPath(value, path[2..]);
          ScalarsVectorize(o.int64, values);
        } else {
          CompanyFits(value, path[2..], o);
        }
      } else if (o.simplifyTo == ToDataFrame || o.simplifyTo == ToMatrix) && M.IsMatrix(o.policy, o.int64, a) {
        ReadBackMatrix(a, path, o);
        VectorizableIsScalar(o.int64, o.policy, M.Flatten(a));
      } else if o.simplifyTo != ToList && Evidence(o.int64, a).IsVectorizable(o.policy) {
        ReadBackVector(a, path, o);
        VectorizableIsScalar(o.int64, o.policy, a);
      } else {
        CompanyFits(e, path[1..], o);
      }
    }
  }

  /**
   * Under AnythingGoes, and under any policy where there are no data frames, what is read back for a scalar stands
   * for it. It has exactly the scalar's value unless a double had to become a text, or an integer a double, that
   * cannot express it.
   */
  lemma ReadBackStands(j: Json, path: seq<Step>, o: Options)
    requires At(j, path).Some? && IsScalar(At(j, path).value)
    requires o.policy == AnythingGoes || o.simplifyTo != ToDataFrame
    ensures Read(Element(j, o), path).Some?
    ensures var leaf, r := At(j, path).value, Read(Element(j, o), path).value;
            if leaf == Null && CompanyOf(j, path, o).Alone? then r == Given(o.singleNull)
            else
              && r.Vec? && |r.cells| == 1
              && Denotes(r.cells[0], leaf) && (Same(r.cells[0], leaf) <==> Unrounded(r.kind, leaf))
  {
    ReadBack(j, path, o);
    CompanyFits(j, path, o);
    var leaf, company := At(j, path).value, CompanyOf(j, path, o);
    if company.Among? {
      VectorizableIsScalar(o.int64, o.policy, company.elements);
      AtomicDenotes(o, company.elements);
    } else if leaf != Null {
      LoneDenotes(leaf, o);
    }
  }

  /**
   * Missing means null: under the same conditions a scalar reads as NA exactly if it is null in company, or is the
   * smallest 64-bit integer stored as a 64-bit integer.
   */
  lemma MissingMeansNull(j: Json, path: seq<Step>, o: Options)
    requires At(j, path).Some? && IsScalar(At(j, path).value)
    requires o.policy == AnythingGoes || o.simplifyTo != ToDataFrame
    ensures Read(Element(j, o), path).Some?
    ensures var leaf, r, company := At(j, path).value, Read(Element(j, o), path).value, CompanyOf(j, path, o);
            if leaf == Null && company.Alone? then r == Given(o.singleNull)
            else
              && r.Vec? && |r.cells| == 1
              && (IsNA(r.cells[0]) <==> leaf == Null || (leaf == I64(NA_INTEGER64) && r.kind == INTEGER64))
              && (leaf == I64(NA_INTEGER64) ==>
                    (r.kind == INTEGER64 <==> MakesInt64(o.int64, if company.Among? then company.elements else [])))
  {
    ReadBack(j, path, o);
    CompanyFits(j, path, o);
    var leaf, company := At(j, path).value, CompanyOf(j, path, o);
    if company.Among? {
      var xs := company.elements;
      VectorizableIsScalar(o.int64, o.policy, xs);
      AtomicMissing(o, xs, leaf);
      if leaf == I64(NA_INTEGER64) {
        VectorizableKeepsSet(o.policy, o.int64, xs);
        Int64ByElements(o.policy, o.int64, xs);
      }
    } else if leaf != Null {
      LoneDenotes(leaf, o);
      LoneMissing(leaf, o);
    }
  }

  /**
   * Under any policy, in any company: a scalar is kept, up to rounding or without, exactly if the policy keeps its
   * type among the types of its company, and exactly if it needs no rounding besides. Where a policy builds a lossy
   * data frame column, this tells which values are lost.
   */
  lemma KeptExactly(j: Json, path: seq<Step>, o: Options)
    requires At(j, path).Some? && IsScalar(At(j, path).value) && CompanyOf(j, path, o).Among?
    ensures var leaf, s := At(j, path).value, Evidence(o.int64, CompanyOf(j, path, o).elements).rTypes;
            var r := Read(Element(j, o), path);
            && r.Some? && r.value.Vec? && |r.value.cells| == 1
            && (Denotes(r.value.cells[0], leaf) <==>
                  leaf == Null || Keeps(o.policy, o.int64, s, RTypeOf(o.int64, leaf)))
            && (Same(r.value.cells[0], leaf) <==>
                  leaf == Null
                  || (Keeps(o.policy, o.int64, s, RTypeOf(o.int64, leaf)) && Unrounded(r.value.kind, leaf)))
  {
    hide ScalarDispatch, Denotes, Same, Unrounded, Keeps, KindOf, Flags.CommonRType;
    ReadBack(j, path, o);
    CompanyFits(j, path, o);
    KeptAmong(o.policy, o.int64, CompanyOf(j, path, o).elements, At(j, path).value);
  }

  /** Under any policy, in any company: a scalar reads as NA in exactly these cases. */
  lemma MissingExactly(j: Json, path: seq<Step>, o: Options)
    requires At(j, path).Some? && IsScalar(At(j, path).value) && CompanyOf(j, path, o).Among?
    ensures var leaf, s := At(j, path).value, Evidence(o.int64, CompanyOf(j, path, o).elements).rTypes;
            var r := Read(Element(j, o), path);
            && r.Some? && r.value.Vec? && |r.value.cells| == 1
            && (IsNA(r.value.cells[0]) <==> ReadsMissing(o.policy, o.int64, s, leaf))
  {
    hide ScalarDispatch, IsNA, ReadsMissing, KindOf, Flags.CommonRType;
    ReadBack(j, path, o);
    CompanyFits(j, path, o);
    MissingAmong(o.policy, o.int64, CompanyOf(j, path, o).elements, At(j, path).value);
  }

  // ----- nothing is invented

  lemma {:induction false} AtInSteps(j: Json, path: seq<Step>, n: nat)
    requires n <= |path| && At(j, path[..n]).Some?
    ensures At(j, path) == At(At(j, path[..n]).value, path[n..])
    decreases n
  {
    if n > 0 {
      assert path[..n][0] == path[0] && path[..n][1..] == path[1..][..n - 1] && path[1..][n - 1..] == path[n..];
      match (j, path[0])
      case (Arr(elems), Pos(i)) => AtInSteps(elems[i], path[1..], n - 1);
      case (Obj(members), Key(key)) =>
        AtInSteps(members[FirstIndex(members, key)].value, path[1..], n - 1);
      case _ =>
    } else {
      assert path[..0] == [] && path[0..] == path;
    }
  }

  /** Position 0 of a scalar: in R a scalar is a vector of length one, and its own element. */
  predicate IsOwnElement(j: Json, path: seq<Step>, o: Options, r: RValue) {
    && path != [] && path[|path| - 1] == Pos(0)
    && var owner := At(j, path[..|path| - 1]);
       owner.Some? && IsScalar(owner.value) && r == Lone(owner.value, o)
  }

  /** After `n` steps the path leads to records, and on to a column that the record in question has no field for. */
  predicate IsAbsentField(j: Json, path: seq<Step>, n: nat) {
    && n + 2 <= |path| <= n + 3 && (|path| == n + 3 ==> path[n + 2] == Pos(0))
    && var records := At(j, path[..n]);
    && records.Some? && records.value.Arr? && AllObjects(records.value.elems)
    && path[n].Pos? && path[n].i < |records.value.elems|
    && path[n + 1].Key? && path[n + 1].key in ColumnKeys(Fields(records.value.elems))
    && FirstIndex(records.value.elems[path[n].i].members, path[n + 1].key) < 0
  }

  predicate IsMissing(r: RValue) {
    r.Vec? && |r.cells| == 1 && IsNA(r.cells[0])
  }

  /** The NA of a field that a record lacks. */
  ghost predicate IsAbsent(j: Json, path: seq<Step>, o: Options, r: RValue) {
    o.simplifyTo == ToDataFrame && IsMissing(r) && exists n: nat :: IsAbsentField(j, path, n)
  }

  /** An array or object of the document simplified on its own, a scalar's element, or the NA of an absent field. */
  ghost predicate Traced(j: Json, path: seq<Step>, o: Options, r: RValue) {
    if At(j, path).Some? then IsScalar(At(j, path).value) || r == Element(At(j, path).value, o)
    else IsOwnElement(j, path, o, r) || IsAbsent(j, path, o, r)
  }

  lemma OwnElementWithin(j: Json, path: seq<Step>, n: nat, o: Options, r: RValue)
    requires n <= |path| && At(j, path[..n]).Some? && IsOwnElement(At(j, path[..n]).value, path[n..], o, r)
    ensures IsOwnElement(j, path, o, r)
  {
    var front := path[..|path| - 1];
    assert front[..n] == path[..n] && front[n..] == path[n..][..|path| - n - 1];
    AtInSteps(j, front, n);
  }

  lemma AbsentFieldWithin(j: Json, path: seq<Step>, n: nat, m: nat)
    requires n <= |path| && At(j, path[..n]).Some? && IsAbsentField(At(j, path[..n]).value, path[n..], m)
    ensures IsAbsentField(j, path, n + m)
  {
    var front := path[..n + m];
    assert front[..n] == path[..n] && front[n..] == path[n..][..m];
    AtInSteps(j, front, n);
  }

  /** What is traced in a part of the document is traced in the whole. */
  lemma TracedWithin(j: Json, path: seq<Step>, n: nat, o: Options, r: RValue)
    requires n <= |path| && At(j, path[..n]).Some? && Traced(At(j, path[..n]).value, path[n..], o, r)
    ensures Traced(j, path, o, r)
  {
    hide IsOwnElement, IsAbsentField, Element;
    var e, rest := At(j, path[..n]).value, path[n..];
    AtInSteps(j, path, n);
    if IsOwnElement(e, rest, o, r) {
      OwnElementWithin(j, path, n, o, r);
    } else if m: nat :| IsAbsentField(e, rest, m) {
      AbsentFieldWithin(j, path, n, m);
    }
  }

  lemma ReadNa(kind: VecKind, path: seq<Step>)
    requires ReadCell(kind, NaOf(kind), path).Some?
    ensures path == [] || path == [Pos(0)]
    ensures IsMissing(ReadCell(kind, NaOf(kind), path).value)
  {
    if kind == VECSXP {
      var na := Vec(INTSXP, [Int(NA_INTEGER)]);
      assert ReadCell(VECSXP, Ref(na), path) == Read(na, path);
      if path != [] {
        assert Read(na, path) == ReadCell(INTSXP, Int(NA_INTEGER), path[1..]);
      }
    }
  }

  /** A column that some row has no field for reads as NA in that row. */
  lemma ReadAbsentField(a: seq<Json>, path: seq<Step>, o: Options)
    requires a != [] && AllObjects(a) && o.simplifyTo == ToDataFrame
    requires |path| >= 2 && path[0].Pos? && path[1].Key? && path[0].i < |a|
    requires path[1].key in ColumnKeys(Fields(a)) && FirstIndex(a[path[0].i].members, path[1].key) < 0
    requires Read(Array(a, o), path).Some?
    ensures IsAbsentField(Arr(a), path, 0) && IsMissing(Read(Array(a, o), path).value)
  {
    hide Array, KindOfColumn, ReadCell, NaOf, VectorKind;
    FrameAt(a, o, FirstPosition(ColumnKeys(Fields(a)), path[1].key), path[0].i);
    var kind := VectorKind(KindOfColumn(o, a, path[1].key));
    assert path[..0] == [];
    assert Read(Array(a, o), path) == ReadCell(kind, NaOf(kind), path[2..]);
    ReadNa(kind, path[2..]);
    assert |path| > 2 ==> path[2..][0] == path[2];
  }

  lemma AbsentTraced(a: seq<Json>, path: seq<Step>, o: Options, r: RValue)
    requires o.simplifyTo == ToDataFrame && IsAbsentField(Arr(a), path, 0) && IsMissing(r)
    ensures Traced(Arr(a), path, o, r)
  {
    hide Element, IsMissing;
    assert path[..0] == [];
    assert At(a[path[0].i], path[1..]) == None by { TailOfPath(path); }
  }

  lemma ScalarTraced(j: Json, path: seq<Step>, o: Options, r: RValue)
    requires At(j, path).Some? && IsScalar(At(j, path).value)
    ensures Traced(j, path, o, r)
  {
  }

  lemma FrameHasColumn(a: seq<Json>, path: seq<Step>, o: Options)
    requires a != [] && AllObjects(a) && o.simplifyTo == ToDataFrame
    requires path != [] && Read(Array(a, o), path).Some?
    ensures |path| >= 2 && path[0].Pos? && path[1].Key? && path[0].i < |a| && path[1].key in ColumnKeys(Fields(a))
  {
    var keys := ColumnKeys(Fields(a));
    var j := FirstPosition(keys, path[1].key);
    assert Array(a, o).columns[j] == ColumnOf(a, keys[j], o);
  }

  lemma {:induction false} TraceField(a: seq<Json>, path: seq<Step>, k: nat, o: Options)
    requires a != [] && AllObjects(a) && o.simplifyTo == ToDataFrame
    requires |path| >= 2 && path[0].Pos? && path[1].Key? && path[0].i < |a|
    requires FirstIndex(a[path[0].i].members, path[1].key) == k
    requires Read(Array(a, o), path).Some?
    ensures Traced(Arr(a), path, o, Read(Array(a, o), path).value)
    decreases |path|, 0
  {
    hide Array, Element, Traced, KindOfColumn, ColumnKindOf;
    var value, kind := a[path[0].i].members[k].value, KindOfColumn(o, a, path[1].key);
    ReadFrame(a, path, o);
    FieldAt(a, path[..2], k);
    if kind.ListColumn? {
      Trace(value, path[2..], o);
      TracedWithin(Arr(a), path, 2, o, Read(Array(a, o), path).value);
    } else {
      assert path[..2] == path;
      ColumnScalar(a, path[0].i, k, o);
      ScalarTraced(Arr(a), path, o, Read(Array(a, o), path).value);
    }
  }

  lemma FieldAt(a: seq<Json>, path: seq<Step>, k: nat)
    requires AllObjects(a) && |path| == 2 && path[0].Pos? && path[1].Key? && path[0].i < |a|
    requires FirstIndex(a[path[0].i].members, path[1].key) == k
    ensures At(Arr(a), path) == Some(a[path[0].i].members[k].value)
  {
    var row := a[path[0].i];
    assert path[1..] == [path[1]];
    assert At(row, [path[1]]) == At(row.members[k].value, [path[1]][1..]);
  }

  lemma ColumnScalar(a: seq<Json>, i: nat, k: nat, o: Options)
    requires AllObjects(a) && i < |a| && k < |a[i].members|
    requires FirstIndex(a[i].members, a[i].members[k].key) == k
    requires !KindOfColumn(o, a, a[i].members[k].key).ListColumn?
    ensures IsScalar(a[i].members[k].value)
  {
    hide ColumnKindOf;
    ListColumnMeans(o, ValuesUnder(Fields(a), a[i].members[k].key));
    ValueOfRow(a, i, k);
  }

  lemma MatrixBounds(kind: VecKind, a: seq<Json>, nCols: nat, path: seq<Step>)
    requires kind != VECSXP && M.Rectangular(a, nCols) && path != []
    requires Read(M.AtomicMatrix(kind, a, nCols), path).Some?
    ensures |path| == 2 && path[0].Pos? && path[1].Pos? && path[0].i < |a| && path[1].i < nCols
    ensures At(Arr(a), path) == Some(a[path[0].i].elems[path[1].i])
  {
    var row := a[path[0].i];
    assert path[1..] == [path[1]];
    assert At(row, [path[1]]) == At(row.elems[path[1].i], [path[1]][1..]);
  }

  lemma VectorBounds(kind: VecKind, a: seq<Json>, path: seq<Step>)
    requires kind != VECSXP && path != [] && Read(AtomicVector(kind, a), path).Some?
    ensures |path| == 1 && path[0].Pos? && path[0].i < |a| && At(Arr(a), path) == Some(a[path[0].i])
  {
    hide ScalarDispatch;
    assert path[1..] == [];
  }

  /** From a matrix only scalars are read, ... */
  lemma TraceMatrix(a: seq<Json>, path: seq<Step>, o: Options, r: RValue)
    requires a != [] && M.IsMatrix(o.policy, o.int64, a)
    requires path != [] && Read(M.AtomicMatrix(AtomicKind(o, M.Flatten(a)), a, |a[0].elems|), path).Some?
    ensures Traced(Arr(a), path, o, r)
  {
    hide Traced, Evidence, Flags.IsVectorizable, AtomicKind, Read;
    MatrixBounds(AtomicKind(o, M.Flatten(a)), a, |a[0].elems|, path);
    M.InFlatten(a, path[0].i, path[1].i);
    VectorizableIsScalar(o.int64, o.policy, M.Flatten(a));
    ScalarTraced(Arr(a), path, o, r);
  }

  /** ... and so from an atomic vector. */
  lemma TraceVector(a: seq<Json>, path: seq<Step>, o: Options, r: RValue)
    requires Evidence(o.int64, a).IsVectorizable(o.policy)
    requires path != [] && Read(AtomicVector(AtomicKind(o, a), a), path).Some?
    ensures Traced(Arr(a), path, o, r)
  {
    hide Traced, Evidence, Flags.IsVectorizable, AtomicKind, Read;
    VectorBounds(AtomicKind(o, a), a, path);
    VectorizableIsScalar(o.int64, o.policy, a);
    ScalarTraced(Arr(a), path, o, r);
  }

  lemma {:induction false} TraceInArray(a: seq<Json>, path: seq<Step>, o: Options)
    requires path != [] && Read(Array(a, o), path).Some?
    ensures Traced(Arr(a), path, o, Read(Array(a, o), path).value)
    decreases |path|, 1
  {
    hide Traced;
    if a == [] {
    } else if o.simplifyTo == ToDataFrame && AllObjects(a) {
      FrameHasColumn(a, path, o);
      var k := FirstIndex(a[path[0].i].members, path[1].key);
      if k < 0 {
        ReadAbsentField(a, path, o);
        AbsentTraced(a, path, o, Read(Array(a, o), path).value);
      } else {
        TraceField(a, path, k, o);
      }
    } else if (o.simplifyTo == ToDataFrame || o.simplifyTo == ToMatrix) && M.IsMatrix(o.policy, o.int64, a) {
      TraceMatrix(a, path, o, Read(Array(a, o), path).value);
    } else if o.simplifyTo != ToList && Evidence(o.int64, a).IsVectorizable(o.policy) {
      TraceVector(a, path, o, Read(Array(a, o), path).value);
    } else {
      assert Array(a, o).cells[path[0].i] == Ref(Element(a[path[0].i], o));
      Trace(a[path[0].i], path[1..], o);
      assert path[..1] == [path[0]];
      assert At(Arr(a), path[..1]) == Some(a[path[0].i]);
      TracedWithin(Arr(a), path, 1, o, Read(Array(a, o), path).value);
    }
  }

  lemma {:induction false} Trace(j: Json, path: seq<Step>, o: Options)
    requires Read(Element(j, o), path).Some?
    ensures Traced(j, path, o, Read(Element(j, o), path).value)
    decreases |path|, 2
  {
    if path == [] {
    } else if j.Arr? {
      TraceInArray(j.elems, path, o);
    } else if j.Obj? {
      if j.members != [] {
        var k := FirstIndex(j.members, path[0].key);
        assert Object(j.members, o).cells[k] == Ref(Element(j.members[k].value, o));
        Trace(j.members[k].value, path[1..], o);
        assert path[..1] == [path[0]];
        assert At(j, path[..1]) == Some(j.members[k].value);
        TracedWithin(j, path, 1, o, Read(Element(j, o), path).value);
      }
    } else {
      assert path[1..] == [];
      assert path == [Pos(0)] && path[..0] == [];
    }
  }

  /** Along a path of the document: a scalar coerced to the type of its company, or anything else simplified. */
  ghost function Found(j: Json, path: seq<Step>, o: Options): RValue
    requires At(j, path).Some?
  {
    var v := At(j, path).value;
    if IsScalar(v) then Coerced(CompanyOf(j, path, o), v, o) else Element(v, o)
  }

  /**
   * Nothing is invented, under every policy, option and level: whatever can be read from the simplified value is what
   * the document has on that path, or a scalar's own element, or the NA of a field that a record lacks.
   */
  lemma NothingInvented(j: Json, path: seq<Step>, o: Options)
    requires Read(Element(j, o), path).Some?
    ensures var r := Read(Element(j, o), path).value;
            if At(j, path).Some? then r == Found(j, path, o)
            else IsOwnElement(j, path, o, r) || IsAbsent(j, path, o, r)
  {
    Trace(j, path, o);
    if At(j, path).Some? && IsScalar(At(j, path).value) {
      ReadBack(j, path, o);
    }
  }
}
