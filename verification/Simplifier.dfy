/** The simplifier itself (simplify.hpp, and the data frame builder of dataframe.hpp). */
module Simplifier {
  import opened Values
  import opened Text
  import opened TypeDoctors
  import opened Scalars
  import opened Vectors
  import opened DataFrames
  import opened Simplification
  import M = Matrices

  /** The cells a row of fields gives, one for each column. */
  function RowCells(members: seq<Member>, keys: seq<Bytes>, kinds: seq<ColumnKind>, o: Options): (cells: seq<Cell>)
    requires |keys| == |kinds| && KindsFit(kinds)
    ensures |cells| == |keys|
  {
    seq(|keys|, j requires 0 <= j < |keys| => CellOf(Obj(members), keys[j], kinds[j], o))
  }

  /** One more field sets the cell of its column if the row had none for it, and nothing else. */
  lemma NextField(members: seq<Member>, field: Member, keys: seq<Bytes>, kinds: seq<ColumnKind>, o: Options, j: nat)
    requires |keys| == |kinds| && KindsFit(kinds) && Distinct(keys)
    requires j < |keys| && keys[j] == field.key
    ensures RowCells(members + [field], keys, kinds, o) ==
              if FirstIndex(members, field.key) >= 0 then RowCells(members, keys, kinds, o)
              else RowCells(members, keys, kinds, o)[j := CellFrom(field.value, kinds[j], o)]
    ensures forall k | 0 <= k < |keys| ::
              FirstIndex(members + [field], keys[k]) >= 0 <==> FirstIndex(members, keys[k]) >= 0 || k == j
  {
    assert (members + [field])[..|members|] == members;
    forall k | 0 <= k < |keys| ensures k != j ==> keys[k] != field.key {}
  }

  lemma FirstIndexIs(members: seq<Member>, key: Bytes, i: nat)
    requires i < |members| && members[i].key == key && forall k | 0 <= k < i :: members[k].key != key
    ensures FirstIndex(members, key) == i
  {
  }

  /** The first occurrence of a key decides, whatever fields follow. */
  lemma FirstWins(members: seq<Member>, n: nat, key: Bytes, kind: ColumnKind, o: Options)
    requires kind.Atomic? ==> kind.kind != VECSXP
    requires n <= |members| && FirstIndex(members[..n], key) >= 0
    ensures CellOf(Obj(members), key, kind, o) == CellOf(Obj(members[..n]), key, kind, o)
  {
    var i := FirstIndex(members[..n], key);
    forall k | 0 <= k < i ensures members[k].key != key {
      assert members[..n][k].key != key;
    }
    FirstIndexIs(members, key, i);
  }

  /** Numbers and truth values never make a text with a nul byte. */
  lemma LoneHasNoNul(j: Json, o: Options)
    requires IsScalar(j) && !j.Str?
    ensures !HasNul(Lone(j, o))
  {
    assert forall n: nat :: !EmbedsNul(Digits(n));
    assert forall i: int :: !EmbedsNul(IntText(i));
  }

  predicate KindsFit(kinds: seq<ColumnKind>) {
    forall j | 0 <= j < |kinds| :: kinds[j].Atomic? ==> kinds[j].kind != VECSXP
  }

  /** Separate buffers of `n` cells, one for each column. */
  ghost predicate Buffers(vecs: seq<array<Cell>>, n: nat) {
    && (forall j | 0 <= j < |vecs| :: vecs[j].Length == n)
    && (forall j, k | 0 <= j < k < |vecs| :: vecs[j] != vecs[k])
  }

  /** The contents of the buffers, row by row. */
  ghost function Grid(vecs: seq<array<Cell>>, n: nat): (rows: seq<seq<Cell>>)
    requires Buffers(vecs, n)
    reads vecs
    ensures |rows| == n
    ensures forall i | 0 <= i < n :: |rows[i]| == |vecs|
  {
    seq(n, i requires 0 <= i < n reads vecs => seq(|vecs|, j requires 0 <= j < |vecs| reads vecs => vecs[j][i]))
  }

  lemma NothingYet(keys: seq<Bytes>, kinds: seq<ColumnKind>, o: Options)
    requires |keys| == |kinds| && KindsFit(kinds)
    ensures NoNuls(RowCells([], keys, kinds, o))
    ensures forall j | 0 <= j < |keys| :: RowCells([], keys, kinds, o)[j] == NaOf(VectorKind(kinds[j]))
  {
    forall kind: VecKind ensures !CellHasNul(NaOf(kind)) {
      assert !HasNul(Vec(INTSXP, [Int(NA_INTEGER)]));
    }
  }

  method Store(vecs: seq<array<Cell>>, j: nat, iRow: nat, c: Cell, ghost n: nat)
    requires Buffers(vecs, n) && j < |vecs| && iRow < n
    modifies vecs[j]
    ensures Grid(vecs, n) == old(Grid(vecs, n))[iRow := old(Grid(vecs, n))[iRow][j := c]]
  {
    ghost var before := Grid(vecs, n);
    vecs[j][iRow] := c;
    assert forall k | 0 <= k < |vecs| && k != j :: vecs[k] != vecs[j];
    forall i | 0 <= i < n ensures Grid(vecs, n)[i] == before[iRow := before[iRow][j := c]][i] {}
  }

  ghost predicate NoNuls(cells: seq<Cell>) {
    forall j | 0 <= j < |cells| :: !CellHasNul(cells[j])
  }

  method SimplifyElement(j: Json, o: Options) returns (r: Result<RValue>)
    requires Countable(j, o)
    ensures r == Checked(Element(j, o))
    decreases j, 0
  {
    match j
    case Arr(elems) => r := DispatchSimplifyArray(elems, o);
    case Obj(members) => r := SimplifyObject(members, o);
    case Str(text) =>
      assert Element(j, o).cells[0] == ScalarDispatch(STRSXP, j);
      var c :- Convert(STRSXP, j);
      r := Success(Vec(STRSXP, [c]));
    case _ =>
      LoneHasNoNul(j, o);
      r := Success(Lone(j, o));
  }

  method DispatchSimplifyArray(a: seq<Json>, o: Options) returns (r: Result<RValue>)
    requires Countable(Arr(a), o)
    ensures r == Checked(Array(a, o))
    decreases a, 6
  {
    if Counted(|a|) == 0 {
      return Success(Given(o.emptyArray));
    }
    match o.simplifyTo
    case ToDataFrame => r := SimplifyDataFrame(a, o);
    case ToMatrix => r := SimplifyMatrix(a, o);
    case ToVector => r := SimplifyVector(a, o);
    case ToList => r := SimplifyList(a, o);
  }

  method SimplifyDataFrame(a: seq<Json>, o: Options) returns (r: Result<RValue>)
    requires Countable(Arr(a), o) && a != [] && o.simplifyTo == ToDataFrame
    ensures r == Checked(Array(a, o))
    decreases a, 5
  {
    var cols := DiagnoseDataFrame(o.int64, a);
    if cols != null {
      r := BuildDataFrame(a, cols, o);
    } else {
      r := SimplifyMatrix(a, o);
    }
  }

  method SimplifyMatrix(a: seq<Json>, o: Options) returns (r: Result<RValue>)
    requires Countable(Arr(a), o) && a != []
    requires o.simplifyTo == ToMatrix || (o.simplifyTo == ToDataFrame && !AllObjects(a))
    ensures r == Checked(Array(a, o))
    decreases a, 4
  {
    var matrix := M.Diagnose(o.policy, o.int64, a);
    if matrix.Some? {
      var m := matrix.value;
      forall r, c | 0 <= r < |a| && 0 <= c < m.nCols ensures a[r].elems[c] in M.Flatten(a) {
        M.InFlatten(a, r, c);
      }
      if m.isHomogeneous {
        TypedIsLicensed(o.int64, o.policy, M.Flatten(a));
        r := M.DispatchTyped(o.int64, a, m.elementType, m.rType, m.hasNulls, m.nCols);
      } else {
        VectorizableIsScalar(o.int64, o.policy, M.Flatten(a));
        r := M.DispatchMixed(o.int64, a, m.rType, m.nCols);
      }
    } else {
      r := SimplifyVector(a, o);
    }
  }

  method SimplifyVector(a: seq<Json>, o: Options) returns (r: Result<RValue>)
    requires Countable(Arr(a), o) && a != [] && o.simplifyTo != ToList
    requires o.simplifyTo == ToDataFrame ==> !AllObjects(a)
    requires o.simplifyTo == ToDataFrame || o.simplifyTo == ToMatrix ==> !M.IsMatrix(o.policy, o.int64, a)
    ensures r == Checked(Array(a, o))
    decreases a, 3
  {
    var typeDoctor := new TypeDoctor(o.int64, a);
    var d := typeDoctor.flags;
    if d.IsVectorizable(o.policy) {
      if d.IsHomogeneous() {
        TypedIsLicensed(o.int64, o.policy, a);
        r := DispatchTyped(o.int64, a, d.CommonRType(o.policy), d.HasNull());
      } else {
        VectorizableIsScalar(o.int64, o.policy, a);
        r := DispatchMixed(o.int64, a, d.CommonRType(o.policy));
      }
    } else {
      r := SimplifyList(a, o);
    }
  }

  method SimplifyList(a: seq<Json>, o: Options) returns (r: Result<RValue>)
    requires Countable(Arr(a), o) && a != []
    requires o.simplifyTo == ToDataFrame ==> !AllObjects(a)
    requires o.simplifyTo == ToDataFrame || o.simplifyTo == ToMatrix ==> !M.IsMatrix(o.policy, o.int64, a)
    requires o.simplifyTo != ToList ==> !Evidence(o.int64, a).IsVectorizable(o.policy)
    ensures r == Checked(Array(a, o))
    decreases a, 2
  {
    var out := new Cell[Counted(|a|)];
    ghost var cells := Array(a, o).cells;
    for i := 0 to |a|
      invariant forall k | 0 <= k < i :: out[k] == cells[k] && !CellHasNul(cells[k])
    {
      assert cells[i] == Ref(Element(a[i], o));
      assert CellHasNul(cells[i]) <==> HasNul(Element(a[i], o));
      var v :- SimplifyElement(a[i], o);
      out[i] := Ref(v);
    }
    assert out[..] == cells;
    r := Success(Vec(VECSXP, out[..]));
  }

  method SimplifyObject(members: seq<Member>, o: Options) returns (r: Result<RValue>)
    requires Countable(Obj(members), o)
    ensures r == Checked(Object(members, o))
    decreases members, 2
  {
    var n := Counted(|members|);
    if n == 0 {
      return Success(Given(o.emptyObject));
    }
    var out := new Cell[n];
    var outNames := new Bytes[n];
    ghost var spec := Object(members, o);
    for i := 0 to |members|
      invariant forall k | 0 <= k < i :: out[k] == spec.cells[k] && !CellHasNul(out[k])
      invariant forall k | 0 <= k < i :: outNames[k] == spec.names[k] && !EmbedsNul(outNames[k])
    {
      assert spec.cells[i] == Ref(Element(members[i].value, o));
      assert CellHasNul(spec.cells[i]) <==> HasNul(Element(members[i].value, o));
      assert spec.names[i] == members[i].key;
      var v :- SimplifyElement(members[i].value, o);
      out[i] := Ref(v);
      outNames[i] :- Made(members[i].key);
    }
    assert out[..] == spec.cells && outNames[..] == spec.names;
    r := Success(Named(outNames[..], out[..]));
  }

  method ConvertField(value: Json, kind: ColumnKind, o: Options) returns (r: Result<Cell>)
    requires (kind.Atomic? ==> kind.kind != VECSXP) && (kind.ListColumn? ==> Countable(value, o))
    ensures r.Success? ==> r.value == CellFrom(value, kind, o) && !CellHasNul(r.value)
    ensures r.Failure? ==> CellHasNul(CellFrom(value, kind, o))
    decreases value, 1
  {
    match kind
    case Atomic(k) => r := Convert(k, value);
    case NullColumn => r := Success(Lgl(NA_INTEGER));
    case ListColumn =>
      assert CellHasNul(Ref(Element(value, o))) <==> HasNul(Element(value, o));
      var v :- SimplifyElement(value, o);
      r := Success(Ref(v));
  }

  /** `lastRow` tells which columns the fields seen so far in row `iRow` have set. */
  ghost predicate Claims(lastRow: seq<int>, iRow: nat, before: seq<Member>, keys: seq<Bytes>) {
    && |lastRow| == |keys|
    && forall j | 0 <= j < |keys| ::
         lastRow[j] <= iRow && (lastRow[j] == iRow <==> FirstIndex(before, keys[j]) >= 0)
  }

  /** The column of a field: its position if the rows are regular; otherwise found by key, and claimed. */
  method Route(field: Member, pos: nat, iRow: nat, cols: ColumnSchema, lastRow: seq<int>, ghost before: seq<Member>)
    returns (j: nat, taken: bool, next: seq<int>)
    requires cols.Valid() && |lastRow| == |cols.keys| && field.key in cols.keys
    requires if cols.isRegular
             then pos < |cols.keys| && cols.keys[pos] == field.key && FirstIndex(before, field.key) < 0
             else Claims(lastRow, iRow, before, cols.keys)
    ensures j < |cols.keys| && cols.keys[j] == field.key && |next| == |lastRow|
    ensures taken <==> FirstIndex(before, field.key) >= 0
    ensures if cols.isRegular then next == lastRow else Claims(next, iRow, before + [field], cols.keys)
  {
    assert (before + [field])[..|before|] == before;
    if cols.isRegular {
      return pos, false, lastRow;
    }
    j := cols.Find(field.key, pos);
    if lastRow[j] == iRow {
      return j, true, lastRow;
    }
    return j, false, lastRow[j := iRow];
  }

  /** No column has been set in row `iRow` or a later one. */
  predicate Before(lastRow: seq<int>, iRow: nat) {
    forall j | 0 <= j < |lastRow| :: lastRow[j] < iRow
  }

  lemma NoClaims(lastRow: seq<int>, iRow: nat, keys: seq<Bytes>)
    requires |lastRow| == |keys| && Before(lastRow, iRow)
    ensures Claims(lastRow, iRow, [], keys)
  {
  }

  lemma ClaimsEnd(lastRow: seq<int>, iRow: nat, members: seq<Member>, keys: seq<Bytes>)
    requires Claims(lastRow, iRow, members, keys)
    ensures Before(lastRow, iRow + 1)
  {
  }

  /** One field: it goes to its column, unless an earlier field of the row already did. */
  method FillField(field: Member, j: nat, taken: bool, iRow: nat, keys: seq<Bytes>, kinds: seq<ColumnKind>,
                   vecs: seq<array<Cell>>, ghost n: nat, ghost before: seq<Member>, o: Options)
    returns (r: Result<()>)
    requires !taken ==> Countable(field.value, o)
    requires iRow < n && Buffers(vecs, n) && |kinds| == |vecs| == |keys| && KindsFit(kinds)
    requires j < |keys| && keys[j] == field.key && Distinct(keys) && (taken <==> FirstIndex(before, field.key) >= 0)
    requires Grid(vecs, n)[iRow] == RowCells(before, keys, kinds, o) && NoNuls(RowCells(before, keys, kinds, o))
    modifies vecs
    ensures r.Success? ==>
              && NoNuls(RowCells(before + [field], keys, kinds, o))
              && Grid(vecs, n) == old(Grid(vecs, n))[iRow := RowCells(before + [field], keys, kinds, o)]
    ensures r.Failure? ==> CellHasNul(RowCells(before + [field], keys, kinds, o)[j])
    decreases field, 2
  {
    NextField(before, field, keys, kinds, o, j);
    if taken {
      return Success(());
    }
    var cell :- ConvertField(field.value, kinds[j], o);
    Store(vecs, j, iRow, cell, n);
    r := Success(());
  }

  /** On the shortcut by position, no earlier field of the row can have the same key. */
  lemma RegularIsFirst(members: seq<Member>, keys: seq<Bytes>, pos: nat)
    requires Distinct(keys) && KeysOf(members) == keys && pos < |members|
    ensures pos < |keys| && keys[pos] == members[pos].key && FirstIndex(members[..pos], members[pos].key) < 0
  {
    forall k | 0 <= k < pos ensures members[..pos][k].key != members[pos].key {
      assert keys[k] == members[k].key && keys[pos] == members[pos].key;
    }
  }

  /** A string that cannot be made for the first field of a key cannot be made for the row. */
  lemma NulDecides(members: seq<Member>, pos: nat, keys: seq<Bytes>, kinds: seq<ColumnKind>, o: Options, j: nat)
    requires |keys| == |kinds| && KindsFit(kinds) && pos < |members| && j < |keys| && keys[j] == members[pos].key
    requires CellHasNul(RowCells(members[..pos] + [members[pos]], keys, kinds, o)[j])
    ensures !NoNuls(RowCells(members, keys, kinds, o))
  {
    assert members[..pos + 1] == members[..pos] + [members[pos]];
    assert members[..pos + 1][pos].key == keys[j];
    FirstWins(members, pos + 1, keys[j], kinds[j], o);
    assert CellHasNul(RowCells(members, keys, kinds, o)[j]);
  }

  /** The first field of a key in the fields so far is the first in the record. */
  lemma FirstIsCountable(members: seq<Member>, pos: nat, o: Options)
    requires pos < |members| && RecordCountable(members, o)
    ensures FirstIndex(members[..pos], members[pos].key) < 0 ==> Countable(members[pos].value, o)
  {
    if FirstIndex(members[..pos], members[pos].key) < 0 {
      forall k | 0 <= k < pos ensures members[k].key != members[pos].key {
        assert members[..pos][k].key == members[k].key;
      }
      FirstIndexIs(members, members[pos].key, pos);
    }
  }

  method FillRow(row: Json, iRow: nat, cols: ColumnSchema, kinds: seq<ColumnKind>, vecs: seq<array<Cell>>,
                 lastRow: seq<int>, ghost n: nat, o: Options)
    returns (r: Result<()>, next: seq<int>)
    requires row.Obj? && RecordCountable(row.members, o) && iRow < n && Buffers(vecs, n)
    requires cols.Valid() && |kinds| == |vecs| == |lastRow| == |cols.keys| && KindsFit(kinds)
    requires forall key | key in KeysOf(row.members) :: key in cols.keys
    requires cols.isRegular ==> KeysOf(row.members) == cols.keys
    requires Before(lastRow, iRow)
    requires Grid(vecs, n)[iRow] == RowCells([], cols.keys, kinds, o)
    modifies vecs
    ensures |next| == |lastRow| && Before(next, iRow + 1)
    ensures r.Success? ==>
              Grid(vecs, n) == old(Grid(vecs, n))[iRow := RowCells(row.members, cols.keys, kinds, o)]
    ensures r.Success? <==> NoNuls(RowCells(row.members, cols.keys, kinds, o))
    decreases row, 3
  {
    hide RowCells, Claims, Grid, NoNuls, Distinct, ColumnSchema.IsIndexOf, Buffers, KindsFit, FirstIndex;
    var members := row.members;
    var keys := cols.keys;
    NothingYet(keys, kinds, o);
    assert members[..0] == [];
    next := lastRow;
    NoClaims(lastRow, iRow, keys);
    for pos := 0 to |members|
      invariant |next| == |lastRow|
      invariant if cols.isRegular then next == lastRow else Claims(next, iRow, members[..pos], keys)
      invariant Grid(vecs, n) == old(Grid(vecs, n))[iRow := RowCells(members[..pos], keys, kinds, o)]
      invariant NoNuls(RowCells(members[..pos], keys, kinds, o))
    {
      assert members[..pos + 1] == members[..pos] + [members[pos]];
      assert KeysOf(members)[pos] == members[pos].key;
      if cols.isRegular {
        RegularIsFirst(members, keys, pos);
      }
      var j, taken;
      j, taken, next := Route(members[pos], pos, iRow, cols, next, members[..pos]);
      FirstIsCountable(members, pos, o);
      r := FillField(members[pos], j, taken, iRow, keys, kinds, vecs, n, members[..pos], o);
      if !cols.isRegular {
        ClaimsEnd(next, iRow, members[..pos + 1], keys);
      }
      if r.Failure? {
        NulDecides(members, pos, keys, kinds, o, j);
        return;
      }
    }
    assert members[..|members|] == members;
    if !cols.isRegular {
      ClaimsEnd(next, iRow, members, keys);
    }
    r := Success(());
  }

  /** The second pass over the rows. */
  method FillDataFrame(a: seq<Json>, cols: ColumnSchema, kinds: seq<ColumnKind>, vecs: seq<array<Cell>>, o: Options)
    returns (r: Result<()>)
    requires AllObjects(a) && forall i | 0 <= i < |a| :: RecordCountable(a[i].members, o)
    requires cols.Valid() && cols.Describes(Fields(a))
    requires cols.isRegular <==> Regular(a, cols.keys)
    requires |kinds| == |vecs| == |cols.keys| && KindsFit(kinds) && Buffers(vecs, |a|)
    requires forall i | 0 <= i < |a| :: Grid(vecs, |a|)[i] == RowCells([], cols.keys, kinds, o)
    modifies vecs
    ensures r.Success? ==>
              forall i | 0 <= i < |a| :: Grid(vecs, |a|)[i] == RowCells(a[i].members, cols.keys, kinds, o)
    ensures r.Success? <==> forall i | 0 <= i < |a| :: NoNuls(RowCells(a[i].members, cols.keys, kinds, o))
    decreases a, 3
  {
    hide RowCells, Grid;
    var lastRow := seq(|kinds|, _ => -1);
    for iRow := 0 to |a|
      invariant |lastRow| == |kinds| && Before(lastRow, iRow)
      invariant forall i | 0 <= i < iRow ::
                  && Grid(vecs, |a|)[i] == RowCells(a[i].members, cols.keys, kinds, o)
                  && NoNuls(RowCells(a[i].members, cols.keys, kinds, o))
      invariant forall i | iRow <= i < |a| :: Grid(vecs, |a|)[i] == RowCells([], cols.keys, kinds, o)
    {
      RowKeysAreColumns(a, iRow);
      r, lastRow := FillRow(a[iRow], iRow, cols, kinds, vecs, lastRow, |a|, o);
      if r.Failure? {
        return;
      }
    }
    r := Success(());
  }

  ghost function ColumnKinds(a: seq<Json>, keys: seq<Bytes>, o: Options): (kinds: seq<ColumnKind>)
    requires AllObjects(a)
    ensures |kinds| == |keys| && KindsFit(kinds)
  {
    seq(|keys|, j requires 0 <= j < |keys| => KindOfColumn(o, a, keys[j]))
  }

  lemma FrameColumns(a: seq<Json>, o: Options)
    requires a != [] && AllObjects(a) && o.simplifyTo == ToDataFrame
    ensures var f := Array(a, o);
            var keys := ColumnKeys(Fields(a));
            var kinds := ColumnKinds(a, keys, o);
            && f.Frame? && f.names == keys && f.nRows == |a| && |f.columns| == |keys|
            && forall j | 0 <= j < |keys| ::
                 && f.columns[j].Vec? && f.columns[j].kind == VectorKind(kinds[j]) && |f.columns[j].cells| == |a|
                 && forall i | 0 <= i < |a| :: f.columns[j].cells[i] == RowCells(a[i].members, keys, kinds, o)[j]
  {
    var keys := ColumnKeys(Fields(a));
    forall j, i | 0 <= j < |keys| && 0 <= i < |a|
      ensures Array(a, o).columns[j] == ColumnOf(a, keys[j], o)
      ensures Array(a, o).columns[j].cells[i] == RowCells(a[i].members, keys, ColumnKinds(a, keys, o), o)[j]
    {
      assert Obj(a[i].members) == a[i];
    }
  }

  lemma FrameHasNul(a: seq<Json>, o: Options)
    requires a != [] && AllObjects(a) && o.simplifyTo == ToDataFrame
    ensures var keys := ColumnKeys(Fields(a));
            HasNul(Array(a, o)) <==>
              || (exists j :: 0 <= j < |keys| && EmbedsNul(keys[j]))
              || !(forall i | 0 <= i < |a| :: NoNuls(RowCells(a[i].members, keys, ColumnKinds(a, keys, o), o)))
  {
    hide RowCells, Array, Element;
    FrameColumns(a, o);
    var f, keys := Array(a, o), ColumnKeys(Fields(a));
    var kinds := ColumnKinds(a, keys, o);
    if j :| 0 <= j < |keys| && HasNul(f.columns[j]) {
      var i :| 0 <= i < |a| && CellHasNul(f.columns[j].cells[i]);
      assert CellHasNul(RowCells(a[i].members, keys, kinds, o)[j]);
    }
    if i :| 0 <= i < |a| && !NoNuls(RowCells(a[i].members, keys, kinds, o)) {
      var j :| 0 <= j < |keys| && CellHasNul(RowCells(a[i].members, keys, kinds, o)[j]);
      assert CellHasNul(f.columns[j].cells[i]);
      assert HasNul(f.columns[j]);
    }
  }

  /** Allocates a buffer full of NAs. */
  method AllocateColumn(kind: ColumnKind, n: nat) returns (vec: array<Cell>)
    ensures fresh(vec) && vec.Length == n && forall i | 0 <= i < n :: vec[i] == NaOf(VectorKind(kind))
  {
    vec := new Cell[n](_ => NaOf(VectorKind(kind)));
  }

  /** The kinds of the columns, and a buffer for each; the column names have to be made as well. */
  method AllocateColumns(a: seq<Json>, cols: ColumnSchema, o: Options)
    returns (r: Result<()>, kinds: seq<ColumnKind>, vecs: seq<array<Cell>>)
    requires AllObjects(a) && |a| <= MAX_COUNT && cols.opt == o.int64 && cols.Describes(Fields(a))
    ensures r.Success? <==> forall j | 0 <= j < |cols.keys| :: !EmbedsNul(cols.keys[j])
    ensures r.Success? ==>
              && kinds == ColumnKinds(a, cols.keys, o) && |vecs| == |kinds| && Buffers(vecs, |a|)
              && (forall j | 0 <= j < |vecs| :: fresh(vecs[j]))
              && forall i | 0 <= i < |a| :: Grid(vecs, |a|)[i] == RowCells([], cols.keys, kinds, o)
  {
    var n := Counted(|a|);
    ghost var spec := ColumnKinds(a, cols.keys, o);
    kinds, vecs := [], [];
    for j := 0 to |cols.keys|
      invariant kinds == spec[..j] && |vecs| == j && Buffers(vecs, n)
      invariant forall k | 0 <= k < j :: !EmbedsNul(cols.keys[k])
      invariant forall k | 0 <= k < j :: fresh(vecs[k])
      invariant forall k, i | 0 <= k < j && 0 <= i < n :: vecs[k][i] == NaOf(VectorKind(kinds[k]))
    {
      if Made(cols.keys[j]).Failure? {
        return Failure(EmbeddedNul), [], [];
      }
      var kind := ColumnKindOf(o.policy, o.int64, cols.schema[j]);
      assert kind == spec[j];
      var vec := AllocateColumn(kind, n);
      kinds, vecs := kinds + [kind], vecs + [vec];
    }
    NothingYet(cols.keys, kinds, o);
    forall i | 0 <= i < n ensures Grid(vecs, n)[i] == RowCells([], cols.keys, kinds, o) {}
    r := Success(());
  }

  /** The filled buffers as R vectors. */
  ghost function Columns(kinds: seq<ColumnKind>, rows: seq<seq<Cell>>): (columns: seq<RValue>)
    requires forall i | 0 <= i < |rows| :: |rows[i]| == |kinds|
    ensures |columns| == |kinds|
  {
    seq(|kinds|, j requires 0 <= j < |kinds| =>
      Vec(VectorKind(kinds[j]), seq(|rows|, i requires 0 <= i < |rows| => rows[i][j])))
  }

  method CollectColumns(kinds: seq<ColumnKind>, vecs: seq<array<Cell>>, n: nat) returns (columns: seq<RValue>)
    requires |kinds| == |vecs| && Buffers(vecs, n)
    ensures columns == Columns(kinds, Grid(vecs, n))
  {
    columns := seq(|vecs|, j requires 0 <= j < |vecs| reads vecs => Vec(VectorKind(kinds[j]), vecs[j][..]));
    forall j | 0 <= j < |vecs| ensures columns[j] == Columns(kinds, Grid(vecs, n))[j] {
      assert vecs[j][..] == Columns(kinds, Grid(vecs, n))[j].cells;
    }
  }

  /** Rows as they should be, read column by column, are the data frame. */
  lemma FrameIsColumns(a: seq<Json>, o: Options, rows: seq<seq<Cell>>)
    requires a != [] && AllObjects(a) && o.simplifyTo == ToDataFrame
    requires |rows| == |a|
    requires var keys := ColumnKeys(Fields(a));
             forall i | 0 <= i < |a| :: rows[i] == RowCells(a[i].members, keys, ColumnKinds(a, keys, o), o)
    ensures var keys := ColumnKeys(Fields(a));
            Array(a, o) == Frame(keys, Columns(ColumnKinds(a, keys, o), rows), |a|)
  {
    hide RowCells, Array, Element;
    FrameColumns(a, o);
    var f, keys := Array(a, o), ColumnKeys(Fields(a));
    var columns := Columns(ColumnKinds(a, keys, o), rows);
    forall j | 0 <= j < |keys| ensures f.columns[j] == columns[j] {
      assert f.columns[j].cells == columns[j].cells;
    }
    assert f.columns == columns;
  }

  /** The data frame in two passes: one has found the columns, the other routes every field to its column. */
  method BuildDataFrame(a: seq<Json>, cols: ColumnSchema, o: Options) returns (r: Result<RValue>)
    requires Countable(Arr(a), o) && a != [] && AllObjects(a) && o.simplifyTo == ToDataFrame
    requires cols.opt == o.int64 && cols.Valid() && cols.Describes(Fields(a))
    requires cols.isRegular <==> Regular(a, cols.keys)
    ensures r == Checked(Array(a, o))
    decreases a, 4
  {
    hide RowCells, Array, Grid, ColumnKinds, Columns;
    FrameHasNul(a, o);
    var named, kinds, vecs := AllocateColumns(a, cols, o);
    if named.Failure? {
      return Failure(EmbeddedNul);
    }
    var filled := FillDataFrame(a, cols, kinds, vecs, o);
    if filled.Failure? {
      return Failure(EmbeddedNul);
    }
    FrameIsColumns(a, o, Grid(vecs, |a|));
    var columns := CollectColumns(kinds, vecs, |a|);
    r := Success(Frame(cols.keys, columns, Counted(|a|)));
  }
}
