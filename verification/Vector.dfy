/** Atomic vectors: the typed fast paths and the element-by-element ones (vector.hpp). */
module Vectors {
  import opened Values
  import opened TypeDoctors
  import opened Scalars

  /** Every element converted on its own merits: what any vector of type `kind` over `a` should hold. */
  function VectorCells(kind: VecKind, a: seq<Json>): (cells: seq<Cell>)
    requires kind != VECSXP
    ensures |cells| == |a|
  {
    seq(|a|, i requires 0 <= i < |a| => ScalarDispatch(kind, a[i]))
  }

  function AtomicVector(kind: VecKind, a: seq<Json>): RValue
    requires kind != VECSXP
  {
    Vec(kind, VectorCells(kind, a))
  }

  /** One element for a mixed vector; making the string behind it throws when it has an embedded nul. */
  method Convert(kind: VecKind, j: Json) returns (r: Result<Cell>)
    requires kind != VECSXP
    ensures r.Success? ==> r.value == ScalarDispatch(kind, j) && !CellHasNul(r.value)
    ensures r.Failure? ==> CellHasNul(ScalarDispatch(kind, j))
  {
    var c := ScalarDispatch(kind, j);
    if c.Charsxp? {
      var _ :- Made(c.bytes);
    }
    r := Success(c);
  }

  /** One element for a typed vector, read without looking at its type unless it may be null. */
  method ConvertTyped(inT: InType, rT: RType, hasNulls: bool, j: Json) returns (r: Result<Cell>)
    requires HasConversion(inT, rT) && Accessible(inT, hasNulls, j)
    ensures r.Success? ==> r.value == ScalarDispatch(TypedKind(rT), j) && !CellHasNul(r.value)
    ensures r.Failure? ==> CellHasNul(ScalarDispatch(TypedKind(rT), j))
  {
    var c := GetScalar(inT, rT, hasNulls, j);
    if c.Charsxp? {
      var _ :- Made(c.bytes);
    }
    r := Success(c);
  }

  method BuildVectorTyped(a: seq<Json>, inT: InType, rT: RType, hasNulls: bool) returns (r: Result<RValue>)
    requires |a| <= MAX_COUNT && HasConversion(inT, rT)
    requires forall j | j in a :: Accessible(inT, hasNulls, j)
    ensures r == Checked(AtomicVector(TypedKind(rT), a))
  {
    var out := new Cell[Counted(|a|)];
    ghost var cells := VectorCells(TypedKind(rT), a);
    for i := 0 to |a|
      invariant forall k | 0 <= k < i :: out[k] == cells[k] && !CellHasNul(cells[k])
    {
      assert cells[i] == ScalarDispatch(TypedKind(rT), a[i]);
      out[i] :- ConvertTyped(inT, rT, hasNulls, a[i]);
    }
    assert out[..] == cells;
    r := Success(Vec(TypedKind(rT), out[..]));
  }

  method BuildVectorMixed(a: seq<Json>, kind: VecKind) returns (r: Result<RValue>)
    requires |a| <= MAX_COUNT && kind != VECSXP
    ensures r == Checked(AtomicVector(kind, a))
  {
    var out := new Cell[Counted(|a|)];
    ghost var cells := VectorCells(kind, a);
    for i := 0 to |a|
      invariant forall k | 0 <= k < i :: out[k] == cells[k] && !CellHasNul(cells[k])
    {
      assert cells[i] == ScalarDispatch(kind, a[i]);
      out[i] :- Convert(kind, a[i]);
    }
    assert out[..] == cells;
    r := Success(Vec(kind, out[..]));
  }

  /** A vector of `n` logical NAs. */
  function NaVector(n: nat): RValue {
    Vec(LGLSXP, seq(n, _ => Lgl(NA_INTEGER)))
  }

  /** A typed builder for the R type `rT` may read `j` unchecked, nulls apart. */
  predicate Licensed(rT: RType, hasNulls: bool, j: Json) {
    match j
    case Str(_) => rT == RChr
    case Dbl(_) => rT == RDbl
    case I64(i) => rT == RI64 || (rT == RI32 && IsCastable(i))
    case U64(_) => rT == RU64
    case Bool(_) => rT == RLgl
    case Null => hasNulls
    case _ => false
  }

  /** The element type that goes with the R type of an atomic vector. */
  function ElementOf(rT: RType): ElementType {
    match rT
    case RArray => ARRAY
    case RObject => OBJECT
    case RChr => STRING
    case RU64 => UINT64
    case RDbl => DOUBLE
    case RI64 => INT64
    case RI32 => INT64
    case RLgl => BOOL
    case RNull => NULL_VALUE
  }

  predicate IsAtomic(rT: RType) {
    !rT.RArray? && !rT.RObject?
  }

  /** Both kinds of flags tell the same story. */
  predicate Coherent(d: Flags) {
    && (RArray in d.rTypes <==> ARRAY in d.elementTypes)
    && (RObject in d.rTypes <==> OBJECT in d.elementTypes)
    && (RChr in d.rTypes <==> STRING in d.elementTypes)
    && (RDbl in d.rTypes <==> DOUBLE in d.elementTypes)
    && (RI64 in d.rTypes || RI32 in d.rTypes <==> INT64 in d.elementTypes)
    && (RU64 in d.rTypes <==> UINT64 in d.elementTypes)
    && (RLgl in d.rTypes <==> BOOL in d.elementTypes)
  }

  lemma PairAgrees(opt: Int64Policy, a: seq<Json>, t: RType)
    requires t != RI64 && t != RI32
    ensures t in Evidence(opt, a).rTypes <==> ElementOf(t) in Evidence(opt, a).elementTypes
  {
    if t in Evidence(opt, a).rTypes {
      var j :| j in a && RTypeOf(opt, j) == t;
      assert TypeOf(j) in Evidence(opt, a).elementTypes;
    }
    if ElementOf(t) in Evidence(opt, a).elementTypes {
      var j :| j in a && TypeOf(j) == ElementOf(t);
      assert RTypeOf(opt, j) in Evidence(opt, a).rTypes;
    }
  }

  lemma IntegersAgree(opt: Int64Policy, a: seq<Json>)
    ensures var d := Evidence(opt, a); RI64 in d.rTypes || RI32 in d.rTypes <==> INT64 in d.elementTypes
  {
    if INT64 in Evidence(opt, a).elementTypes {
      var j :| j in a && TypeOf(j) == INT64;
      assert RTypeOf(opt, j) in Evidence(opt, a).rTypes;
    }
  }

  lemma TypesAgree(opt: Int64Policy, a: seq<Json>)
    ensures Coherent(Evidence(opt, a))
  {
    PairAgrees(opt, a, RArray);
    PairAgrees(opt, a, RObject);
    PairAgrees(opt, a, RChr);
    PairAgrees(opt, a, RDbl);
    PairAgrees(opt, a, RU64);
    PairAgrees(opt, a, RLgl);
    IntegersAgree(opt, a);
  }

  lemma HomogeneousHasValue(d: Flags, policy: TypePolicy)
    requires d.IsVectorizable(policy) && d.IsHomogeneous() && Coherent(d)
    ensures var rT := d.CommonRType(policy);
            IsAtomic(rT) && rT != RNull && d.CommonElementType() == ElementOf(rT)
  {
  }

  lemma HomogeneousLicenses(opt: Int64Policy, d: Flags, policy: TypePolicy, j: Json)
    requires d.IsVectorizable(policy) && d.IsHomogeneous() && Coherent(d)
    requires TypeOf(j) in d.elementTypes && RTypeOf(opt, j) in d.rTypes
    ensures Licensed(d.CommonRType(policy), d.HasNull(), j)
  {
  }

  /** "Vectorizable and homogeneous" licenses the typed builder that the common types select. */
  lemma TypedIsLicensed(opt: Int64Policy, policy: TypePolicy, a: seq<Json>)
    requires var d := Evidence(opt, a); d.IsVectorizable(policy) && d.IsHomogeneous()
    ensures var d := Evidence(opt, a);
            var rT := d.CommonRType(policy);
            && IsAtomic(rT) && rT != RNull && d.CommonElementType() == ElementOf(rT)
            && forall j | j in a :: Licensed(rT, d.HasNull(), j)
  {
    var d := Evidence(opt, a);
    TypesAgree(opt, a);
    HomogeneousHasValue(d, policy);
    forall j | j in a ensures Licensed(d.CommonRType(policy), d.HasNull(), j) {
      HomogeneousLicenses(opt, d, policy, j);
    }
  }

  lemma NullOnly(d: Flags, policy: TypePolicy)
    requires d.IsVectorizable(policy)
    ensures RArray !in d.rTypes && RObject !in d.rTypes && IsAtomic(d.CommonRType(policy))
    ensures d.CommonRType(policy) == RNull ==> forall t | t in d.rTypes :: t == RNull
  {
  }

  /** A vectorizable array holds scalars only, and only nulls if its common R type is null. */
  lemma VectorizableIsScalar(opt: Int64Policy, policy: TypePolicy, a: seq<Json>)
    requires Evidence(opt, a).IsVectorizable(policy)
    ensures IsAtomic(Evidence(opt, a).CommonRType(policy))
    ensures forall j | j in a :: IsScalar(j)
    ensures Evidence(opt, a).CommonRType(policy) == RNull ==> forall j | j in a :: j.Null?
  {
    NullOnly(Evidence(opt, a), policy);
    forall j | j in a ensures RTypeOf(opt, j) in Evidence(opt, a).rTypes {}
  }

  method DispatchTyped(opt: Int64Policy, a: seq<Json>, rT: RType, hasNulls: bool) returns (r: Result<RValue>)
    requires |a| <= MAX_COUNT
    requires IsAtomic(rT) && rT != RNull && forall j | j in a :: Licensed(rT, hasNulls, j)
    ensures r == Checked(AtomicVector(KindOf(opt, rT), a))
  {
    match rT
    case RChr => r := BuildVectorTyped(a, InString, RChr, hasNulls);
    case RDbl => r := BuildVectorTyped(a, InDouble, RDbl, hasNulls);
    case RI32 => r := BuildVectorTyped(a, InInt64, RI32, hasNulls);
    case RI64 =>
      match opt {
        case AsDouble => r := BuildVectorTyped(a, InInt64, RDbl, hasNulls);
        case AsString => r := BuildVectorTyped(a, InInt64, RChr, hasNulls);
        case _ => r := BuildVectorTyped(a, InInt64, RI64, hasNulls);
      }
    case RLgl => r := BuildVectorTyped(a, InBool, RLgl, hasNulls);
    case RU64 => r := BuildVectorTyped(a, InUint64, RChr, hasNulls);
  }

  method DispatchMixed(opt: Int64Policy, a: seq<Json>, rT: RType) returns (r: Result<RValue>)
    requires |a| <= MAX_COUNT
    requires IsAtomic(rT) && (rT == RNull ==> forall j | j in a :: j.Null?)
    ensures r == Checked(AtomicVector(KindOf(opt, rT), a))
  {
    match rT
    case RChr => r := BuildVectorMixed(a, STRSXP);
    case RDbl => r := BuildVectorMixed(a, REALSXP);
    case RI64 =>
      match opt {
        case AsDouble => r := BuildVectorMixed(a, REALSXP);
        case AsString => r := BuildVectorMixed(a, STRSXP);
        case _ => r := BuildVectorMixed(a, INTEGER64);
      }
    case RI32 => r := BuildVectorMixed(a, INTSXP);
    case RU64 => r := BuildVectorMixed(a, STRSXP);
    case RLgl => r := BuildVectorMixed(a, LGLSXP);
    case RNull =>
      r := Success(NaVector(Counted(|a|)));
      assert forall k | 0 <= k < |a| :: a[k] in a;
      assert r.value.cells == VectorCells(LGLSXP, a);
      assert !HasNul(r.value);
  }
}
