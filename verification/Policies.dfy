/** What the type policies and int64 options mean: which arrays become atomic, and of which type. */
module Policies {
  import opened Values
  import opened Text
  import opened TypeDoctors
  import opened Scalars
  import opened Vectors
  import opened Matrices
  import opened DataFrames
  import opened Simplification

  // ----- which arrays are vectorizable

  /** R types that a policy lets share a vector: under IntsAsDbls all numbers that fit 64 bits are alike. */
  function Family(policy: TypePolicy, t: RType): RType {
    if policy == IntsAsDbls && (t == RI64 || t == RI32) then RDbl else t
  }

  /** Scalars of which at least one is not null, and those that are not null are of one family. */
  ghost predicate OneFamily(policy: TypePolicy, opt: Int64Policy, xs: seq<Json>) {
    && (forall j | j in xs :: IsScalar(j))
    && HasValue(xs)
    && forall j, k | j in xs && k in xs && !j.Null? && !k.Null? ::
         Family(policy, RTypeOf(opt, j)) == Family(policy, RTypeOf(opt, k))
  }

  lemma SeenTogether(policy: TypePolicy, d: Flags, t: RType, u: RType)
    requires policy != AnythingGoes && d.IsVectorizable(policy)
    requires t in d.rTypes && u in d.rTypes && t != RNull && u != RNull
    ensures Family(policy, t) == Family(policy, u)
  {
  }

  lemma FamilyVectorizes(policy: TypePolicy, d: Flags, t: RType)
    requires policy != AnythingGoes
    requires t in d.rTypes && t != RNull && t != RArray && t != RObject
    requires forall u | u in d.rTypes :: u == RNull || Family(policy, u) == Family(policy, t)
    ensures d.IsVectorizable(policy)
  {
  }

  lemma VectorizableIsOneFamily(policy: TypePolicy, opt: Int64Policy, xs: seq<Json>)
    requires policy != AnythingGoes && Evidence(opt, xs).IsVectorizable(policy)
    ensures OneFamily(policy, opt, xs)
  {
    VectorizableIsScalar(opt, policy, xs);
    VectorizableHasValue(policy, opt, xs);
    forall j, k | j in xs && k in xs && !j.Null? && !k.Null?
      ensures Family(policy, RTypeOf(opt, j)) == Family(policy, RTypeOf(opt, k))
    {
      SeenTogether(policy, Evidence(opt, xs), RTypeOf(opt, j), RTypeOf(opt, k));
    }
  }

  lemma OneFamilyVectorizes(policy: TypePolicy, opt: Int64Policy, xs: seq<Json>)
    requires policy != AnythingGoes && OneFamily(policy, opt, xs)
    ensures Evidence(opt, xs).IsVectorizable(policy)
  {
    hide Flags.IsVectorizable;
    var d := Evidence(opt, xs);
    var j :| j in xs && !j.Null?;
    assert RTypeOf(opt, j) in d.rTypes;
    forall u | u in d.rTypes ensures u == RNull || Family(policy, u) == Family(policy, RTypeOf(opt, j)) {
      var k :| k in xs && RTypeOf(opt, k) == u;
    }
    FamilyVectorizes(policy, d, RTypeOf(opt, j));
  }

  lemma ScalarsVectorize(opt: Int64Policy, xs: seq<Json>)
    requires forall j | j in xs :: IsScalar(j)
    ensures Evidence(opt, xs).IsVectorizable(AnythingGoes)
  {
  }

  /** The arrays that may become a vector, by their elements alone. */
  ghost predicate Vectorizable(policy: TypePolicy, opt: Int64Policy, xs: seq<Json>) {
    if policy == AnythingGoes then forall j | j in xs :: IsScalar(j) else OneFamily(policy, opt, xs)
  }

  /** The policies by their meaning: anything scalar goes, or one family with something other than null in it. */
  lemma VectorizableMeans(policy: TypePolicy, opt: Int64Policy, xs: seq<Json>)
    ensures Evidence(opt, xs).IsVectorizable(policy) <==> Vectorizable(policy, opt, xs)
  {
    hide Flags.IsVectorizable, Evidence, OneFamily;
    if Evidence(opt, xs).IsVectorizable(policy) {
      VectorizableIsScalar(opt, policy, xs);
      if policy != AnythingGoes {
        VectorizableIsOneFamily(policy, opt, xs);
      }
    } else if policy == AnythingGoes {
      if forall j | j in xs :: IsScalar(j) {
        ScalarsVectorize(opt, xs);
      }
    } else if OneFamily(policy, opt, xs) {
      OneFamilyVectorizes(policy, opt, xs);
    }
  }

  predicate NumbersOnly(xs: seq<Json>) {
    forall j | j in xs :: j.I64? || j.U64? || j.Dbl?
  }

  /**
   * Arrays of numbers under IntsAsDbls: integers beyond the signed 64-bit range are no numbers to this policy. All
   * of them or none of them must be beyond it.
   */
  lemma NumbersVectorize(opt: Int64Policy, xs: seq<Json>)
    requires NumbersOnly(xs) && xs != []
    ensures Evidence(opt, xs).IsVectorizable(IntsAsDbls)
            <==> (forall j | j in xs :: j.U64?) || (forall j | j in xs :: !j.U64?)
  {
    hide Flags.IsVectorizable, Evidence;
    VectorizableMeans(IntsAsDbls, opt, xs);
    assert xs[0] in xs;
  }

  /** The array [1, 9223372036854775808] holds only numbers, and becomes a list under IntsAsDbls. */
  lemma NumbersCanStayAList(o: Options)
    requires o.policy == IntsAsDbls
    ensures var xs := [I64(1), U64(0x8000_0000_0000_0000)];
            NumbersOnly(xs) && !Evidence(o.int64, xs).IsVectorizable(IntsAsDbls) && Array(xs, o).kind == VECSXP
  {
    var xs := [I64(1), U64(0x8000_0000_0000_0000)];
    assert xs[0] in xs && xs[1] in xs;
    NumbersVectorize(o.int64, xs);
  }

  /** The arrays that become a matrix, by their elements alone. */
  ghost predicate IsTable(policy: TypePolicy, opt: Int64Policy, a: seq<Json>)
    requires a != []
  {
    && a[0].Arr?
    && Rectangular(a, |a[0].elems|)
    && Vectorizable(policy, opt, Flatten(a))
    && (policy == AnythingGoes || HasValue(a[0].elems))
  }

  lemma MatrixMeans(policy: TypePolicy, opt: Int64Policy, a: seq<Json>)
    requires a != []
    ensures IsMatrix(policy, opt, a) <==> IsTable(policy, opt, a)
  {
    if a[0].Arr? && Rectangular(a, |a[0].elems|) {
      VectorizableMeans(policy, opt, Flatten(a));
    }
  }

  /** The order of R types that promotion follows. */
  function Rank(t: RType): nat {
    match t
    case RNull => 0
    case RLgl => 1
    case RI32 => 2
    case RI64 => 3
    case RDbl => 4
    case RU64 => 5
    case RChr => 6
    case RArray => 7
    case RObject => 8
  }

  lemma HighestFlag(policy: TypePolicy, d: Flags)
    requires policy == AnythingGoes || d.IsVectorizable(policy)
    ensures var t := d.CommonRType(policy);
            && (t in d.rTypes || t == RNull)
            && forall u | u in d.rTypes :: Rank(u) <= Rank(t)
  {
  }

  /** The common R type is the highest one that occurs, under every policy that vectorizes. */
  lemma CommonIsHighest(policy: TypePolicy, opt: Int64Policy, xs: seq<Json>)
    requires xs != [] && Evidence(opt, xs).IsVectorizable(policy)
    ensures var t := Evidence(opt, xs).CommonRType(policy);
            && (exists j :: j in xs && RTypeOf(opt, j) == t)
            && forall j | j in xs :: Rank(RTypeOf(opt, j)) <= Rank(t)
  {
    var d := Evidence(opt, xs);
    HighestFlag(policy, d);
    forall j | j in xs ensures RTypeOf(opt, j) in d.rTypes {}
    assert xs[0] in xs;
  }

  lemma HomogeneousFlags(d: Flags)
    ensures d.IsHomogeneous() <==>
              exists t :: t in d.elementTypes && t != NULL_VALUE
                          && forall u | u in d.elementTypes :: u == t || u == NULL_VALUE
  {
    if d.IsHomogeneous() {
      var t := d.CommonElementType();
      assert t in d.elementTypes && t != NULL_VALUE;
      assert forall u | u in d.elementTypes :: u == t || u == NULL_VALUE;
    }
  }

  ghost predicate OneElementType(xs: seq<Json>) {
    && HasValue(xs)
    && forall j, k | j in xs && k in xs && !j.Null? && !k.Null? :: TypeOf(j) == TypeOf(k)
  }

  lemma OneElementTypeIsHomogeneous(opt: Int64Policy, xs: seq<Json>)
    requires OneElementType(xs)
    ensures Evidence(opt, xs).IsHomogeneous()
  {
    hide Flags.IsHomogeneous;
    var d := Evidence(opt, xs);
    var j :| j in xs && !j.Null?;
    assert TypeOf(j) in d.elementTypes;
    forall u | u in d.elementTypes ensures u == TypeOf(j) || u == NULL_VALUE {
      var k :| k in xs && TypeOf(k) == u;
    }
    HomogeneousFlags(d);
  }

  lemma HomogeneousIsOneElementType(opt: Int64Policy, xs: seq<Json>)
    requires Evidence(opt, xs).IsHomogeneous()
    ensures OneElementType(xs)
  {
    hide Flags.IsHomogeneous;
    var d := Evidence(opt, xs);
    HomogeneousFlags(d);
    var t :| t in d.elementTypes && t != NULL_VALUE && forall u | u in d.elementTypes :: u == t || u == NULL_VALUE;
    var j :| j in xs && TypeOf(j) == t;
    forall k | k in xs && !k.Null? ensures TypeOf(k) == t {
      assert TypeOf(k) in d.elementTypes;
    }
  }

  /** Homogeneous: something other than null occurs, and nothing of another JSON type. */
  lemma HomogeneousMeans(opt: Int64Policy, xs: seq<Json>)
    ensures Evidence(opt, xs).IsHomogeneous() <==> OneElementType(xs)
  {
    hide Flags.IsHomogeneous, OneElementType, Evidence;
    if Evidence(opt, xs).IsHomogeneous() {
      HomogeneousIsOneElementType(opt, xs);
    } else if OneElementType(xs) {
      OneElementTypeIsHomogeneous(opt, xs);
    }
  }

  // ----- the int64 options

  predicate IntegersOnly(xs: seq<Json>) {
    forall j | j in xs :: j.I64? || j.Null?
  }

  ghost predicate WideOccurs(opt: Int64Policy, xs: seq<Json>) {
    exists j :: j in xs && IsWide(opt, j)
  }

  ghost predicate NarrowOccurs(opt: Int64Policy, xs: seq<Json>) {
    exists j :: j in xs && IsNarrow(opt, j)
  }

  lemma WidthFlags(opt: Int64Policy, xs: seq<Json>)
    ensures RI64 in Evidence(opt, xs).rTypes <==> WideOccurs(opt, xs)
    ensures RI32 in Evidence(opt, xs).rTypes <==> NarrowOccurs(opt, xs)
  {
    forall j | j in xs ensures RTypeOf(opt, j) in Evidence(opt, xs).rTypes {}
  }

  lemma IntegerFlags(policy: TypePolicy, opt: Int64Policy, d: Flags)
    requires forall t | t in d.rTypes :: t == RI64 || t == RI32 || t == RNull
    requires RI64 in d.rTypes || RI32 in d.rTypes
    ensures d.IsVectorizable(policy) <==> policy != Strict || RI64 !in d.rTypes || RI32 !in d.rTypes
    ensures d.IsVectorizable(policy) ==> d.CommonRType(policy) == if RI64 in d.rTypes then RI64 else RI32
  {
  }

  /**
   * An array of integers and nulls: narrow if all fit and the option lets them, else what the option says. Only
   * Strict keeps narrow and wide integers apart.
   */
  lemma Int64OptionHonoured(policy: TypePolicy, opt: Int64Policy, xs: seq<Json>)
    requires IntegersOnly(xs) && HasValue(xs)
    ensures var d := Evidence(opt, xs);
            && (d.IsVectorizable(policy) <==> policy != Strict || !WideOccurs(opt, xs) || !NarrowOccurs(opt, xs))
            && (d.IsVectorizable(policy) ==>
                  KindOf(opt, d.CommonRType(policy)) ==
                    if !WideOccurs(opt, xs) then INTSXP
                    else if opt == AsDouble then REALSXP else if opt == AsString then STRSXP else INTEGER64)
  {
    hide Flags.IsVectorizable, Flags.CommonRType, WideOccurs, NarrowOccurs;
    var j :| j in xs && !j.Null?;
    assert RTypeOf(opt, j) in Evidence(opt, xs).rTypes;
    WidthFlags(opt, xs);
    IntegerFlags(policy, opt, Evidence(opt, xs));
  }

  // ----- stricter and looser policies

  predicate Looser(p: TypePolicy, q: TypePolicy) {
    q == AnythingGoes || p == q || (p == Strict && q == IntsAsDbls)
  }

  lemma LooserFlags(p: TypePolicy, q: TypePolicy, d: Flags)
    requires Looser(p, q) && d.IsVectorizable(p)
    ensures d.IsVectorizable(q) && d.CommonRType(q) == d.CommonRType(p)
  {
  }

  predicate IsAtomicValue(r: RValue) {
    r.Mat? || (r.Vec? && r.kind != VECSXP)
  }

  /** What a stricter policy makes an atomic vector or a matrix, a looser one makes the very same. */
  lemma LooserPolicySameValue(a: seq<Json>, o: Options, q: TypePolicy)
    requires Looser(o.policy, q) && IsAtomicValue(Array(a, o))
    ensures Array(a, o.(policy := q)) == Array(a, o)
  {
    var o' := o.(policy := q);
    if (o.simplifyTo == ToDataFrame || o.simplifyTo == ToMatrix) && IsMatrix(o.policy, o.int64, a) {
      LooserFlags(o.policy, q, Evidence(o.int64, Flatten(a)));
    } else {
      LooserFlags(o.policy, q, Evidence(o.int64, a));
      VectorizableIsScalar(o.int64, o.policy, a);
      assert a[0] in a;
    }
  }

  // ----- a matrix that depends on its first row

  lemma TwoRows(x: Json, y: Json)
    ensures Flatten([Arr([x]), Arr([y])]) == [x, y]
  {
    var a := [Arr([x]), Arr([y])];
    assert a[..1] == [Arr([x])] && a[..1][..0] == [];
    assert Flatten(a[..1]) == [x];
  }

  /** Unless anything goes, a first row of nulls rules a matrix out, and the same rows reversed are one. */
  lemma MatrixNeedsFirstValue()
    ensures !IsMatrix(Strict, AsDouble, [Arr([Null]), Arr([I64(1)])])
    ensures IsMatrix(Strict, AsDouble, [Arr([I64(1)]), Arr([Null])])
  {
    hide Flags.IsVectorizable, Evidence, Flatten;
    var xs := [I64(1), Null];
    TwoRows(I64(1), Null);
    assert xs[0] in xs && [I64(1)][0] in [I64(1)];
    OneFamilyVectorizes(Strict, AsDouble, xs);
  }
}
