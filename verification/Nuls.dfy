/** The only way simplifying can fail: a nul byte inside a string or a key of the document. */
module Nuls {
  import opened Values
  import opened Text
  import opened TypeDoctors
  import opened Scalars
  import opened Vectors
  import opened DataFrames
  import opened Simplification
  import opened Fidelity
  import S = Simplifier
  import M = Matrices

  /** No string and no key of the document contains a nul byte. */
  ghost predicate NulFree(j: Json) {
    match j
    case Arr(elems) => forall i | 0 <= i < |elems| :: NulFree(elems[i])
    case Obj(members) =>
      forall i | 0 <= i < |members| :: !EmbedsNul(members[i].key) && NulFree(members[i].value)
    case Str(text) => !EmbedsNul(text)
    case _ => true
  }

  /** No object of the document repeats a key. */
  ghost predicate KeysDistinct(j: Json) {
    match j
    case Arr(elems) => forall i | 0 <= i < |elems| :: KeysDistinct(elems[i])
    case Obj(members) =>
      Distinct(KeysOf(members)) && forall i | 0 <= i < |members| :: KeysDistinct(members[i].value)
    case _ => true
  }

  /**
   * A string with a nul byte has to be made for the document. In records only the first field of a key counts, and a
   * text only where the policy keeps texts among the values of that key, or where one of these is an array or object;
   * everywhere else every string and every key counts.
   */
  ghost predicate Carries(j: Json, o: Options)
    decreases j, 0
  {
    match j
    case Arr(a) =>
      if o.simplifyTo == ToDataFrame && AllObjects(a) then
        exists i, k :: 0 <= i < |a| && 0 <= k < |a[i].members| && FieldCarries(a[i].members, k, a, o)
      else exists i :: 0 <= i < |a| && Carries(a[i], o)
    case Obj(members) =>
      exists i :: 0 <= i < |members| && (EmbedsNul(members[i].key) || Carries(members[i].value, o))
    case Str(text) => EmbedsNul(text)
    case _ => false
  }

  /** Of the values under a key, the first in its record. */
  ghost predicate FieldCarries(members: seq<Member>, k: nat, rows: seq<Json>, o: Options)
    requires k < |members| && AllObjects(rows)
    decreases members, 0
  {
    var key, value := members[k].key, members[k].value;
    var values := ValuesUnder(Fields(rows), key);
    || EmbedsNul(key)
    || (FirstIndex(members, key) == k
        && if forall v | v in values :: IsScalar(v) then
             value.Str? && EmbedsNul(value.text) && Keeps(o.policy, o.int64, Evidence(o.int64, values).rTypes, RChr)
           else Carries(value, o))
  }

  // ----- the exact condition, for all options

  lemma DoubleTextNulFree(d: Double)
    ensures !EmbedsNul(DoubleText(d))
  {
    assert !EmbedsNul(WholePart(d)) by { assert !EmbedsNul(Digits(Millionths(d) / 1000000)); }
    assert !EmbedsNul(FixedText(d));
  }

  lemma DispatchFails(kind: VecKind, j: Json)
    requires kind != VECSXP
    ensures CellHasNul(ScalarDispatch(kind, j)) <==> kind == STRSXP && j.Str? && EmbedsNul(j.text)
  {
    assert forall n: nat :: !EmbedsNul(Digits(n));
    assert forall i: int :: !EmbedsNul(IntText(i));
    if j.Dbl? {
      DoubleTextNulFree(j.d);
    }
  }

  lemma AtomicFails(o: Options, xs: seq<Json>, j: Json)
    requires Evidence(o.int64, xs).IsVectorizable(o.policy) && j in xs
    ensures CellHasNul(ScalarDispatch(AtomicKind(o, xs), j)) <==> Carries(j, o)
  {
    VectorizableIsScalar(o.int64, o.policy, xs);
    DispatchFails(AtomicKind(o, xs), j);
    AtomicDenotes(o, xs);
  }

  /** For every document and all options: simplifying fails exactly if a string with a nul byte has to be made. */
  lemma {:induction false} FailsExactly(j: Json, o: Options)
    ensures HasNul(Element(j, o)) <==> Carries(j, o)
    decreases j, 0
  {
    match j
    case Arr(elems) => ArrayFails(elems, o);
    case Obj(members) => ObjectFails(members, o);
    case Str(text) => assert CellHasNul(Element(j, o).cells[0]) <==> EmbedsNul(text);
    case _ => S.LoneHasNoNul(j, o);
  }

  lemma {:induction false} ObjectFails(members: seq<Member>, o: Options)
    ensures HasNul(Object(members, o)) <==> Carries(Obj(members), o)
    decreases members, 2
  {
    if members != [] {
      var r := Object(members, o);
      forall i | 0 <= i < |members|
        ensures r.names[i] == members[i].key && (CellHasNul(r.cells[i]) <==> Carries(members[i].value, o))
      {
        FailsExactly(members[i].value, o);
        assert r.cells[i] == Ref(Element(members[i].value, o));
      }
    }
  }

  lemma {:induction false} ArrayFails(a: seq<Json>, o: Options)
    ensures HasNul(Array(a, o)) <==> Carries(Arr(a), o)
    decreases a, 4
  {
    if a == [] {
    } else if o.simplifyTo == ToDataFrame && AllObjects(a) {
      FrameFails(a, o);
    } else if (o.simplifyTo == ToDataFrame || o.simplifyTo == ToMatrix) && M.IsMatrix(o.policy, o.int64, a) {
      MatrixFails(a, o);
    } else if o.simplifyTo != ToList && Evidence(o.int64, a).IsVectorizable(o.policy) {
      var r := Array(a, o);
      forall k | 0 <= k < |a| ensures CellHasNul(r.cells[k]) <==> Carries(a[k], o) {
        AtomicFails(o, a, a[k]);
      }
    } else {
      var r := Array(a, o);
      forall k | 0 <= k < |a| ensures CellHasNul(r.cells[k]) <==> Carries(a[k], o) {
        FailsExactly(a[k], o);
        assert r.cells[k] == Ref(Element(a[k], o));
      }
    }
  }

  lemma RowOfScalarsCarries(elems: seq<Json>, o: Options)
    requires forall e | e in elems :: IsScalar(e)
    ensures Carries(Arr(elems), o) <==> exists c :: 0 <= c < |elems| && Carries(elems[c], o)
  {
    assert elems != [] ==> elems[0] in elems;
  }

  lemma MatrixCellFails(a: seq<Json>, o: Options, r: nat, c: nat)
    requires a != [] && M.IsMatrix(o.policy, o.int64, a) && r < |a| && c < |a[0].elems|
    ensures var cells := M.MatrixCells(AtomicKind(o, M.Flatten(a)), a, |a[0].elems|);
            && IsScalar(a[r].elems[c]) && M.Offset(|a|, r, c) < |cells|
            && (CellHasNul(cells[M.Offset(|a|, r, c)]) <==> Carries(a[r].elems[c], o))
  {
    hide M.MatrixCells, M.Offset, Evidence, Flags.IsVectorizable;
    M.InFlatten(a, r, c);
    VectorizableIsScalar(o.int64, o.policy, M.Flatten(a));
    M.TransposedAt(AtomicKind(o, M.Flatten(a)), a, |a[0].elems|, r, c);
    AtomicFails(o, M.Flatten(a), a[r].elems[c]);
  }

  lemma MatrixRowFails(a: seq<Json>, o: Options, r: nat)
    requires a != [] && M.IsMatrix(o.policy, o.int64, a) && r < |a|
    ensures Carries(a[r], o) <==> exists c :: 0 <= c < |a[0].elems| && Carries(a[r].elems[c], o)
  {
    forall c | 0 <= c < |a[0].elems| {
      MatrixCellFails(a, o, r, c);
    }
    RowOfScalarsCarries(a[r].elems, o);
  }

  lemma MatrixCellsFail(a: seq<Json>, o: Options, cells: seq<Cell>)
    requires a != [] && M.IsMatrix(o.policy, o.int64, a)
    requires cells == M.MatrixCells(AtomicKind(o, M.Flatten(a)), a, |a[0].elems|)
    ensures (exists k :: 0 <= k < |cells| && CellHasNul(cells[k])) <==> exists r :: 0 <= r < |a| && Carries(a[r], o)
  {
    var nCols := |a[0].elems|;
    assert M.Rectangular(a, nCols);
    hide M.MatrixCells, M.Offset, AtomicKind, M.IsMatrix, Evidence, Flags.IsVectorizable, CellHasNul, HasNul;
    if k :| 0 <= k < |cells| && CellHasNul(cells[k]) {
      var r, c := M.OffsetCovers(|a|, nCols, k);
      MatrixCellFails(a, o, r, c);
      MatrixRowFails(a, o, r);
      assert Carries(a[r], o);
    }
    if r :| 0 <= r < |a| && Carries(a[r], o) {
      MatrixRowFails(a, o, r);
      var c :| 0 <= c < nCols && Carries(a[r].elems[c], o);
      MatrixCellFails(a, o, r, c);
      assert CellHasNul(cells[M.Offset(|a|, r, c)]);
    }
  }

  lemma MatrixFails(a: seq<Json>, o: Options)
    requires a != [] && M.IsMatrix(o.policy, o.int64, a) && (o.simplifyTo == ToDataFrame || o.simplifyTo == ToMatrix)
    ensures HasNul(Array(a, o)) <==> Carries(Arr(a), o)
  {
    hide M.MatrixCells;
    assert Array(a, o).Mat? && !AllObjects(a);
    MatrixCellsFail(a, o, Array(a, o).cells);
  }

  /** A column of scalars holds texts exactly if the policy keeps texts among them. */
  lemma TextColumn(o: Options, values: seq<Json>, j: Json)
    requires j.Str? && j in values && forall v | v in values :: IsScalar(v)
    ensures ColumnKindOf(o.policy, o.int64, Evidence(o.int64, values)) == Atomic(STRSXP)
            <==> Keeps(o.policy, o.int64, Evidence(o.int64, values).rTypes, RChr)
  {
    hide ColumnKindOf, CellFrom, Keeps, KindOf, Flags.CommonRType;
    var d := Evidence(o.int64, values);
    ScalarColumnKind(o, values);
    KindAmong(o.policy, o.int64, values);
    assert RTypeOf(o.int64, j) in d.rTypes;
    PickedTypeHolds(o.policy, o.int64, d, RChr);
  }

  lemma {:induction false} CellFails(rows: seq<Json>, i: nat, key: Bytes, o: Options)
    requires AllObjects(rows) && i < |rows| && (FirstIndex(rows[i].members, key) >= 0 ==> !EmbedsNul(key))
    ensures var k := FirstIndex(rows[i].members, key);
            CellHasNul(CellOf(rows[i], key, KindOfColumn(o, rows, key), o)) <==>
              k >= 0 && FieldCarries(rows[i].members, k, rows, o)
    decreases rows, 0
  {
    hide ColumnKindOf, Keeps;
    var k, kind, values := FirstIndex(rows[i].members, key), KindOfColumn(o, rows, key), ValuesUnder(Fields(rows), key);
    ListColumnMeans(o, values);
    if k < 0 {
      assert !HasNul(Vec(INTSXP, [Int(NA_INTEGER)]));
    } else {
      var value := rows[i].members[k].value;
      ValueOfRow(rows, i, k);
      if value.Str? && !kind.ListColumn? {
        TextColumn(o, values, value);
      }
      match kind
      case Atomic(v) => DispatchFails(v, value);
      case NullColumn =>
      case ListColumn => FailsExactly(value, o);
    }
  }

  lemma FrameNamesFail(a: seq<Json>)
    requires AllObjects(a)
    ensures (exists j :: 0 <= j < |ColumnKeys(Fields(a))| && EmbedsNul(ColumnKeys(Fields(a))[j])) <==>
              exists i, k :: 0 <= i < |a| && 0 <= k < |a[i].members| && EmbedsNul(a[i].members[k].key)
  {
    var keys := ColumnKeys(Fields(a));
    if j :| 0 <= j < |keys| && EmbedsNul(keys[j]) {
      ColumnKeysAre(Fields(a));
      assert keys[j] in keys;
      var p :| 0 <= p < |Fields(a)| && Fields(a)[p].key == keys[j];
      var i, k := RowOfField(a, p);
      assert EmbedsNul(a[i].members[k].key);
    }
    if i, k :| 0 <= i < |a| && 0 <= k < |a[i].members| && EmbedsNul(a[i].members[k].key) {
      var j := ColumnOfField(a, i, k);
      assert EmbedsNul(keys[j]);
    }
  }

  lemma ColumnOfField(a: seq<Json>, i: nat, k: nat) returns (j: nat)
    requires AllObjects(a) && i < |a| && k < |a[i].members|
    ensures j < |ColumnKeys(Fields(a))| && ColumnKeys(Fields(a))[j] == a[i].members[k].key
  {
    RowKeysAreColumns(a, i);
    assert KeysOf(a[i].members)[k] in KeysOf(a[i].members);
    j :| 0 <= j < |ColumnKeys(Fields(a))| && ColumnKeys(Fields(a))[j] == a[i].members[k].key;
  }

  lemma {:induction false} FrameRowFails(a: seq<Json>, i: nat, o: Options)
    requires AllObjects(a) && i < |a| && forall k | 0 <= k < |a[i].members| :: !EmbedsNul(a[i].members[k].key)
    ensures var keys, members := ColumnKeys(Fields(a)), a[i].members;
            !S.NoNuls(S.RowCells(members, keys, S.ColumnKinds(a, keys, o), o)) <==>
              exists k :: 0 <= k < |members| && FieldCarries(members, k, a, o)
    decreases a, 1
  {
    hide S.RowCells, KindOfColumn, Keeps;
    var keys, members := ColumnKeys(Fields(a)), a[i].members;
    var kinds := S.ColumnKinds(a, keys, o);
    forall j | 0 <= j < |keys|
      ensures CellHasNul(S.RowCells(members, keys, kinds, o)[j]) <==>
                var k := FirstIndex(members, keys[j]); k >= 0 && FieldCarries(members, k, a, o)
    {
      RowCell(a[i], keys, kinds, o, j);
      CellFails(a, i, keys[j], o);
    }
    if j :| 0 <= j < |keys| && CellHasNul(S.RowCells(members, keys, kinds, o)[j]) {
      assert FieldCarries(members, FirstIndex(members, keys[j]), a, o);
    }
    if k :| 0 <= k < |members| && FieldCarries(members, k, a, o) {
      var j := ColumnOfField(a, i, k);
      assert CellHasNul(S.RowCells(members, keys, kinds, o)[j]);
    }
  }

  lemma {:induction false} FrameFails(a: seq<Json>, o: Options)
    requires a != [] && AllObjects(a) && o.simplifyTo == ToDataFrame
    ensures HasNul(Array(a, o)) <==> Carries(Arr(a), o)
    decreases a, 3
  {
    hide S.RowCells, Array, ColumnKeys, S.NoNuls, Keeps, HasNul;
    S.FrameHasNul(a, o);
    FrameNamesFail(a);
    if i, k :| 0 <= i < |a| && 0 <= k < |a[i].members| && EmbedsNul(a[i].members[k].key) {
      assert FieldCarries(a[i].members, k, a, o);
    } else {
      forall i | 0 <= i < |a| {
        FrameRowFails(a, i, o);
      }
    }
  }

  lemma RowCell(row: Json, keys: seq<Bytes>, kinds: seq<ColumnKind>, o: Options, j: nat)
    requires row.Obj? && |keys| == |kinds| && S.KindsFit(kinds) && j < |keys|
    ensures S.RowCells(row.members, keys, kinds, o)[j] == CellOf(row, keys[j], kinds[j], o)
  {
    assert Obj(row.members) == row;
  }

  // ----- the condition in terms of the document alone

  lemma {:induction false} CarriedIsThere(j: Json, o: Options)
    requires Carries(j, o)
    ensures !NulFree(j)
    decreases j
  {
    match j
    case Arr(a) =>
      if o.simplifyTo == ToDataFrame && AllObjects(a) {
        var i, k :| 0 <= i < |a| && 0 <= k < |a[i].members| && FieldCarries(a[i].members, k, a, o);
        var field := a[i].members[k];
        if !EmbedsNul(field.key) {
          if Carries(field.value, o) {
            CarriedIsThere(field.value, o);
          }
        }
        assert EmbedsNul(field.key) || !NulFree(field.value);
      } else {
        var i :| 0 <= i < |a| && Carries(a[i], o);
        CarriedIsThere(a[i], o);
      }
    case Obj(members) =>
      var i :| 0 <= i < |members| && (EmbedsNul(members[i].key) || Carries(members[i].value, o));
      if Carries(members[i].value, o) {
        CarriedIsThere(members[i].value, o);
      }
    case Str(_) =>
  }

  /** A document without nul bytes in its strings and keys is always simplified, whatever the options. */
  lemma NoNulNoError(j: Json, o: Options)
    requires NulFree(j)
    ensures !HasNul(Element(j, o))
  {
    FailsExactly(j, o);
    if Carries(j, o) {
      CarriedIsThere(j, o);
    }
  }

  lemma {:induction false} ThereIsCarried(j: Json, o: Options)
    requires !NulFree(j)
    requires o.simplifyTo == ToDataFrame ==> o.policy == AnythingGoes && KeysDistinct(j)
    ensures Carries(j, o)
    decreases j
  {
    match j
    case Arr(a) =>
      var i :| 0 <= i < |a| && !NulFree(a[i]);
      if o.simplifyTo == ToDataFrame && AllObjects(a) {
        var members := a[i].members;
        var k :| 0 <= k < |members| && (EmbedsNul(members[k].key) || !NulFree(members[k].value));
        if !EmbedsNul(members[k].key) {
          assert KeysDistinct(a[i]) && KeysDistinct(members[k].value);
          DistinctIsFirst(members, k);
          ValueOfRow(a, i, k);
          ThereIsCarried(members[k].value, o);
        }
        assert FieldCarries(members, k, a, o);
      } else {
        ThereIsCarried(a[i], o);
      }
    case Obj(members) =>
      var i :| 0 <= i < |members| && (EmbedsNul(members[i].key) || !NulFree(members[i].value));
      if !EmbedsNul(members[i].key) {
        ThereIsCarried(members[i].value, o);
      }
    case Str(_) =>
  }

  lemma DistinctIsFirst(members: seq<Member>, k: nat)
    requires Distinct(KeysOf(members)) && k < |members|
    ensures FirstIndex(members, members[k].key) == k
  {
    forall i | 0 <= i < k ensures members[i].key != members[k].key {
      assert KeysOf(members)[i] != KeysOf(members)[k];
    }
    S.FirstIndexIs(members, members[k].key, k);
  }

  /**
   * Where there are no data frames, under every policy, and with data frames under AnythingGoes if no object repeats
   * a key: the call fails exactly if some string or key of the document has a nul byte.
   */
  lemma NulsAreFatal(j: Json, o: Options)
    requires o.simplifyTo == ToDataFrame ==> o.policy == AnythingGoes && KeysDistinct(j)
    ensures HasNul(Element(j, o)) <==> !NulFree(j)
  {
    FailsExactly(j, o);
    if NulFree(j) {
      NoNulNoError(j, o);
    } else {
      ThereIsCarried(j, o);
    }
  }

  lemma NumbersHaveNoNul(names: seq<Bytes>, x: Cell, y: Cell)
    requires (forall i | 0 <= i < |names| :: !EmbedsNul(names[i])) && (x.NaReal? || x.Real?) && (y.NaReal? || y.Real?)
    ensures !HasNul(Frame(names, [Vec(REALSXP, [x, y])], 2))
  {
    assert !HasNul(Vec(REALSXP, [x, y]));
  }

  /** A nul byte that a lossy column drops does no harm: IntsAsDbls, and rows of a text and a double. */
  lemma DroppedNulIsHarmless(d: Double, o: Options)
    requires o.simplifyTo == ToDataFrame && o.policy == IntsAsDbls
    ensures var j := Arr(TwoRecords([120], Str([0]), Dbl(d)));
            !NulFree(j) && !HasNul(Element(j, o))
  {
    hide TwoRecords, Array, HasNul, NulFree;
    TextHasNul();
    FirstRecordHasNul([120], Str([0]), Dbl(d));
    NumbersColumnLosesText([120], [0], d, o);
    NumbersHaveNoNul([[120]], NaReal, Real(d));
  }

  lemma TextHasNul()
    ensures !NulFree(Str([0]))
  {
    assert [0][0] == 0;
  }

  lemma FirstRecordHasNul(key: Bytes, x: Json, y: Json)
    requires !NulFree(x)
    ensures !NulFree(Arr(TwoRecords(key, x, y)))
  {
    var rows := TwoRecords(key, x, y);
    assert !NulFree(rows[0].members[0].value);
    assert !NulFree(rows[0]);
  }

  /** Nor does one in a field that repeats the key of an earlier one. */
  lemma RepeatedNulIsHarmless(o: Options)
    requires o.simplifyTo == ToDataFrame && o.policy == AnythingGoes
    ensures var j := Arr([Obj([Member([120], Null), Member([120], Str([0]))])]);
            !NulFree(j) && !HasNul(Element(j, o))
  {
    hide Element, HasNul, KindOfColumn;
    var members := [Member([120], Null), Member([120], Str([0]))];
    var a := [Obj(members)];
    TextHasNul();
    assert !NulFree(a[0]) by { assert !NulFree(members[1].value); }
    S.FirstIndexIs(members, [120], 0);
    FailsExactly(Arr(a), o);
    forall i, k | 0 <= i < |a| && 0 <= k < |a[i].members| ensures !FieldCarries(a[i].members, k, a, o) {}
  }
}
