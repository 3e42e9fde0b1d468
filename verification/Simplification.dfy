/**
 * What simplifying a JSON element should give: the shape of every array, then one conversion for each element.
 * There are no typed fast paths here, no second pass, no running offsets and no shortcut by field position.
 */
module Simplification {
  import opened Values
  import opened TypeDoctors
  import opened Scalars
  import opened Vectors
  import opened Matrices
  import opened DataFrames

  /** How a data frame column is materialized. */
  datatype ColumnKind = Atomic(kind: VecKind) | NullColumn | ListColumn

  /** The column kind follows the common R type; nobody asks whether the column is vectorizable. */
  function ColumnKindOf(policy: TypePolicy, opt: Int64Policy, d: Flags): (k: ColumnKind)
    ensures k.Atomic? ==> k.kind != VECSXP
  {
    match d.CommonRType(policy)
    case RArray => ListColumn
    case RObject => ListColumn
    case RNull => NullColumn
    case rT => Atomic(KindOf(opt, rT))
  }

  function VectorKind(k: ColumnKind): VecKind {
    match k
    case Atomic(kind) => kind
    case NullColumn => LGLSXP
    case ListColumn => VECSXP
  }

  function KindOfColumn(o: Options, rows: seq<Json>, key: Bytes): (k: ColumnKind)
    requires AllObjects(rows)
    ensures k.Atomic? ==> k.kind != VECSXP
  {
    ColumnKindOf(o.policy, o.int64, Evidence(o.int64, ValuesUnder(Fields(rows), key)))
  }

  function Element(j: Json, o: Options): RValue
    decreases j, 0
  {
    match j
    case Arr(elems) => Array(elems, o)
    case Obj(members) => Object(members, o)
    case _ => Lone(j, o)
  }

  function Array(a: seq<Json>, o: Options): RValue
    decreases a, 2
  {
    if a == [] then Given(o.emptyArray)
    else if o.simplifyTo == ToDataFrame && AllObjects(a) then
      var keys := ColumnKeys(Fields(a));
      Frame(keys, seq(|keys|, j requires 0 <= j < |keys| => ColumnOf(a, keys[j], o)), |a|)
    else if (o.simplifyTo == ToDataFrame || o.simplifyTo == ToMatrix) && IsMatrix(o.policy, o.int64, a) then
      AtomicMatrix(AtomicKind(o, Flatten(a)), a, |a[0].elems|)
    else if o.simplifyTo != ToList && Evidence(o.int64, a).IsVectorizable(o.policy) then
      AtomicVector(AtomicKind(o, a), a)
    else
      Vec(VECSXP, seq(|a|, i requires 0 <= i < |a| => Ref(Element(a[i], o))))
  }

  /** The vector type for elements that are vectorizable together. */
  function AtomicKind(o: Options, xs: seq<Json>): (kind: VecKind)
    requires Evidence(o.int64, xs).IsVectorizable(o.policy)
    ensures kind != VECSXP
  {
    VectorizableIsScalar(o.int64, o.policy, xs);
    KindOf(o.int64, Evidence(o.int64, xs).CommonRType(o.policy))
  }

  function Object(members: seq<Member>, o: Options): RValue
    decreases members, 2
  {
    if members == [] then Given(o.emptyObject)
    else Named(KeysOf(members), seq(|members|, i requires 0 <= i < |members| => Ref(Element(members[i].value, o))))
  }

  function ColumnOf(rows: seq<Json>, key: Bytes, o: Options): RValue
    requires AllObjects(rows)
    decreases rows, 1
  {
    var kind := KindOfColumn(o, rows, key);
    Vec(VectorKind(kind), seq(|rows|, i requires 0 <= i < |rows| => CellOf(rows[i], key, kind, o)))
  }

  /** The first value under the key, as at_key() would find it, or the column's NA. */
  function CellOf(row: Json, key: Bytes, kind: ColumnKind, o: Options): Cell
    requires row.Obj? && (kind.Atomic? ==> kind.kind != VECSXP)
    decreases row, 2
  {
    var i := FirstIndex(row.members, key);
    if i < 0 then NaOf(VectorKind(kind)) else CellFrom(row.members[i].value, kind, o)
  }

  function CellFrom(value: Json, kind: ColumnKind, o: Options): Cell
    requires kind.Atomic? ==> kind.kind != VECSXP
    decreases value, 1
  {
    match kind
    case Atomic(k) => ScalarDispatch(k, value)
    case NullColumn => Lgl(NA_INTEGER)
    case ListColumn => Ref(Element(value, o))
  }

  /**
   * Every array and object that becomes an R vector, matrix, list or data frame reports its true size. Records are not
   * counted, and of the fields of a record only the first of each key is looked into.
   */
  predicate Countable(j: Json, o: Options)
    decreases j, 0
  {
    match j
    case Arr(a) =>
      && |a| <= MAX_COUNT
      && if o.simplifyTo == ToDataFrame && AllObjects(a) then
           forall i | 0 <= i < |a| :: RecordCountable(a[i].members, o)
         else forall i | 0 <= i < |a| :: Countable(a[i], o)
    case Obj(members) => |members| <= MAX_COUNT && forall i | 0 <= i < |members| :: Countable(members[i].value, o)
    case _ => true
  }

  predicate RecordCountable(members: seq<Member>, o: Options)
    decreases members, 0
  {
    forall k | 0 <= k < |members| && FirstIndex(members, members[k].key) == k :: Countable(members[k].value, o)
  }
}
