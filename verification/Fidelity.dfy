/** What becomes of single values: which are kept, which are rounded, which are lost, and which read as missing. */
module Fidelity {
  import opened Values
  import opened Text
  import opened TypeDoctors
  import opened Scalars
  import opened Vectors
  import opened DataFrames
  import opened Simplification
  import opened Policies

  // ----- one cell

  predicate IsTruth(c: Cell, b: bool) {
    match c
    case Charsxp(bytes) => bytes == if b then [84, 82, 85, 69] else [70, 65, 76, 83, 69]  // TRUE and FALSE
    case Real(d) => d == Double(false, if b then 1.0 else 0.0)
    case Int(i) => i == if b then 1 else 0
    case Lgl(i) => i == if b then 1 else 0
    case Int64Bits(i) => i == if b then 1 else 0
    case _ => false
  }

  /**
   * The cell stands for the JSON scalar: null is missing, texts, truth values and integers are kept, and numbers are
   * kept up to rounding: a double in a text to six places, an integer among doubles to the nearest one.
   */
  predicate Denotes(c: Cell, j: Json) {
    match j
    case Null => IsNA(c)
    case Str(text) => c == Charsxp(text)
    case Bool(b) => IsTruth(c, b)
    case Dbl(d) => c == Charsxp(DoubleText(d)) || c == Real(d)
    case U64(u) => c == Charsxp(IntText(u))
    case I64(i) =>
      (match c
       case Charsxp(text) => text == IntText(i)
       case Real(d) => d == ToDouble(i)
       case Int(v) => v == i && v != NA_INTEGER
       case Int64Bits(v) => v == i
       case _ => false)
    case _ => false
  }

  function NumberOf(d: Double): real {
    if d.negative then 0.0 - d.magnitude else d.magnitude
  }

  /** The cell has exactly the value of the JSON scalar, without any rounding. */
  ghost predicate Same(c: Cell, j: Json) {
    match j
    case Null => IsNA(c)
    case Str(text) => c == Charsxp(text)
    case Bool(b) => IsTruth(c, b)
    case Dbl(d) => c == Real(d) || (c.Charsxp? && ReadsAs(c.bytes, d))
    case U64(u) => c == Charsxp(IntText(u))
    case I64(i) =>
      (match c
       case Charsxp(text) => text == IntText(i)
       case Real(d) => NumberOf(d) == i as real
       case Int(v) => v == i && v != NA_INTEGER
       case Int64Bits(v) => v == i
       case _ => false)
    case _ => false
  }

  /**
   * No rounding is needed: a double that becomes a text is a multiple of a millionth, and an integer that becomes a
   * double is a multiple of its last place among doubles.
   */
  predicate Unrounded(kind: VecKind, j: Json) {
    match j
    case Dbl(d) => kind == STRSXP ==> Millionths(d) as real == d.magnitude * 1000000.0
    case I64(i) => kind == REALSXP ==> Absolute(i) % LastPlace(Absolute(i)) == 0
    case _ => true
  }

  lemma NumberExactly(i: Int64)
    ensures NumberOf(ToDouble(i)) == i as real <==> Absolute(i) % LastPlace(Absolute(i)) == 0
  {
    hide ToDouble, LastPlace;
    ToDoubleNearest(i);
    ToDoubleExactly(i);
  }

  /** A cell has exactly the element's value if it stands for it up to rounding, and no rounding was needed. */
  lemma SameExactly(kind: VecKind, j: Json)
    requires kind != VECSXP
    ensures Same(ScalarDispatch(kind, j), j) <==> Denotes(ScalarDispatch(kind, j), j) && Unrounded(kind, j)
  {
    hide DoubleText, ReadsAs, Millionths, IntText, ToInt32, ToDouble, NumberOf, LastPlace, Absolute;
    match j
    case Dbl(d) => DoubleTextExactly(d);
    case I64(i) => NumberExactly(i);
    case _ =>
  }

  /** A vector type can hold values of an R type. */
  predicate CanHold(kind: VecKind, t: RType) {
    match t
    case RNull => true
    case RChr => kind == STRSXP
    case RU64 => kind == STRSXP
    case RDbl => kind == STRSXP || kind == REALSXP
    case RI64 => kind == STRSXP || kind == REALSXP || kind == INTEGER64
    case RI32 => kind == STRSXP || kind == REALSXP || kind == INTEGER64 || kind == INTSXP
    case RLgl => true
    case _ => false
  }

  /** For one element: its conversion stands for it exactly if the vector type can hold its R type. */
  lemma ConversionDenotes(kind: VecKind, opt: Int64Policy, j: Json)
    requires kind != VECSXP && (kind == INTSXP ==> opt != Always)
    ensures Denotes(ScalarDispatch(kind, j), j) <==> CanHold(kind, RTypeOf(opt, j))
  {
    hide DoubleText, IntText, ToDouble, ToInt32;
    if j.I64? {
      NarrowingExact(j.i);
    }
  }

  // ----- the type that a policy picks, and what it can hold

  /** Among elements of the types `s`, a policy keeps those of type `t`. */
  predicate Keeps(policy: TypePolicy, opt: Int64Policy, s: set<RType>, t: RType) {
    || policy == AnythingGoes
    || RU64 in s
    || match policy
       case IntsAsDbls =>
         if RLgl in s then t == RLgl
         else t != RChr || (RDbl !in s && RI64 !in s && RI32 !in s)
              || (RDbl !in s && RI64 in s && opt == AsString)
       case _ =>
         if RLgl in s then t == RLgl
         else if RI32 in s then t == RI32
         else if RI64 in s then t == RI64 || opt == AsString || (opt == AsDouble && t == RDbl)
         else t == RDbl || RDbl !in s
  }

  /** Among elements of the types `s`, a policy keeps all: said of the set as a whole. */
  predicate KeepsAll(policy: TypePolicy, opt: Int64Policy, s: set<RType>) {
    || policy == AnythingGoes
    || RU64 in s
    || (forall t, u | t in s && u in s && t != RNull && u != RNull :: t == u)
    || (policy == Strict && RI64 in s && RI32 !in s && RLgl !in s
        && (opt == AsString || (opt == AsDouble && RChr !in s)))
    || (policy == IntsAsDbls && RLgl !in s && (RChr !in s || (RDbl !in s && RI64 in s && opt == AsString)))
  }

  lemma KeepsAllMeans(policy: TypePolicy, opt: Int64Policy, s: set<RType>)
    requires RArray !in s && RObject !in s && (opt == Always ==> RI32 !in s)
    ensures KeepsAll(policy, opt, s) <==> forall t | t in s && t != RNull :: Keeps(policy, opt, s, t)
  {
  }

  /** The common type that a policy picks can hold a type exactly if the policy keeps it. */
  lemma PickedTypeHolds(policy: TypePolicy, opt: Int64Policy, d: Flags, t: RType)
    requires RArray !in d.rTypes && RObject !in d.rTypes && t in d.rTypes && t != RNull
    requires opt == Always ==> RI32 !in d.rTypes
    ensures CanHold(KindOf(opt, d.CommonRType(policy)), t) <==> Keeps(policy, opt, d.rTypes, t)
  {
  }

  lemma NarrowKindMeansNarrow(opt: Int64Policy, policy: TypePolicy, xs: seq<Json>)
    requires KindOf(opt, Evidence(opt, xs).CommonRType(policy)) == INTSXP
    ensures opt != Always
  {
    var d := Evidence(opt, xs);
    assert RI32 in d.rTypes;
    var j :| j in xs && RTypeOf(opt, j) == RI32;
  }

  lemma KindAmong(policy: TypePolicy, opt: Int64Policy, xs: seq<Json>)
    requires forall e | e in xs :: IsScalar(e)
    ensures var d := Evidence(opt, xs);
            var kind := KindOf(opt, d.CommonRType(policy));
            && RArray !in d.rTypes && RObject !in d.rTypes && (opt == Always ==> RI32 !in d.rTypes)
            && kind != VECSXP && (kind == INTSXP ==> opt != Always)
  {
    var d := Evidence(opt, xs);
    assert forall t | t in d.rTypes :: t != RArray && t != RObject;
    if KindOf(opt, d.CommonRType(policy)) == INTSXP {
      NarrowKindMeansNarrow(opt, policy, xs);
    }
  }

  /**
   * A scalar among others is kept, up to rounding, exactly if the policy keeps its type among theirs; and without
   * rounding exactly if it needs none besides.
   */
  lemma KeptAmong(policy: TypePolicy, opt: Int64Policy, xs: seq<Json>, j: Json)
    requires j in xs && forall e | e in xs :: IsScalar(e)
    ensures var d := Evidence(opt, xs);
            var kind := KindOf(opt, d.CommonRType(policy));
            && kind != VECSXP
            && (Denotes(ScalarDispatch(kind, j), j) <==> j.Null? || Keeps(policy, opt, d.rTypes, RTypeOf(opt, j)))
            && (Same(ScalarDispatch(kind, j), j) <==>
                  j.Null? || (Keeps(policy, opt, d.rTypes, RTypeOf(opt, j)) && Unrounded(kind, j)))
  {
    hide ScalarDispatch, Denotes, Same, Keeps, KindOf, Flags.CommonRType;
    var d := Evidence(opt, xs);
    var kind := KindOf(opt, d.CommonRType(policy));
    KindAmong(policy, opt, xs);
    assert RTypeOf(opt, j) in d.rTypes;
    ConversionDenotes(kind, opt, j);
    SameExactly(kind, j);
    if !j.Null? {
      PickedTypeHolds(policy, opt, d, RTypeOf(opt, j));
    }
  }

  // ----- vectors, matrices and lone scalars

  lemma VectorizableKeepsAll(policy: TypePolicy, opt: Int64Policy, d: Flags)
    requires d.IsVectorizable(policy)
    ensures forall t | t in d.rTypes && t != RNull :: Keeps(policy, opt, d.rTypes, t)
  {
  }

  /** Vectors and matrices keep everything up to rounding, under any policy, and tell exactly what is rounded. */
  lemma AtomicDenotes(o: Options, xs: seq<Json>)
    requires Evidence(o.int64, xs).IsVectorizable(o.policy)
    ensures forall j | j in xs ::
              && Denotes(ScalarDispatch(AtomicKind(o, xs), j), j)
              && (Same(ScalarDispatch(AtomicKind(o, xs), j), j) <==> Unrounded(AtomicKind(o, xs), j))
  {
    VectorizableIsScalar(o.int64, o.policy, xs);
    VectorizableKeepsAll(o.policy, o.int64, Evidence(o.int64, xs));
    forall j | j in xs
      ensures Denotes(ScalarDispatch(AtomicKind(o, xs), j), j)
      ensures Same(ScalarDispatch(AtomicKind(o, xs), j), j) <==> Unrounded(AtomicKind(o, xs), j)
    {
      assert RTypeOf(o.int64, j) in Evidence(o.int64, xs).rTypes;
      KeptAmong(o.policy, o.int64, xs, j);
    }
  }

  /** A scalar on its own stands for itself; only a wide integer that becomes a double can be rounded. */
  lemma LoneDenotes(j: Json, o: Options)
    requires IsScalar(j) && !j.Null?
    ensures var r := Lone(j, o);
            && r.Vec? && r.kind != VECSXP && r.cells == [ScalarDispatch(r.kind, j)]
            && Denotes(r.cells[0], j) && (Same(r.cells[0], j) <==> Unrounded(r.kind, j))
            && (r.kind == INTEGER64 <==> j.I64? && (o.int64 == Always || (o.int64 == AsInteger64 && !IsCastable(j.i))))
  {
    if j.I64? {
      NarrowingExact(j.i);
    }
    SameExactly(Lone(j, o).kind, j);
  }

  lemma SmallIsZero(d: Double)
    requires d == Double(false, 0.0000001)
    ensures Millionths(d) == 0
  {
  }

  lemma ZeroText(d: Double)
    requires !d.negative && Millionths(d) == 0
    ensures DoubleText(d) == [ZERO, POINT, ZERO]
  {
    hide Millionths, Padded;
    PaddedZeros(6);
    assert Pow10(6) == 1000000 by { assert Pow10(3) == 1000; }
    assert WholePart(d) == [ZERO];
    assert FixedText(d) == [ZERO, POINT, ZERO, ZERO, ZERO, ZERO, ZERO, ZERO];
    TrimmedZeros(FixedText(d));
  }

  lemma {:induction false} PaddedZeros(k: nat)
    ensures Padded(k, 0) == seq(k, _ => ZERO)
  {
    if k > 0 {
      PaddedZeros(k - 1);
    }
  }

  lemma TrimmedZeros(t: Bytes)
    requires t == [ZERO, POINT, ZERO, ZERO, ZERO, ZERO, ZERO, ZERO]
    ensures TrimZeros(t) == [ZERO, POINT, ZERO]
  {
    assert t[1] == POINT;
    assert LastNotZero(t) == 1;
  }

  /** Six places are all that a text keeps: [1e-7, "a"] becomes "0.0" and "a". */
  lemma SmallDoubleTextIsZero(o: Options)
    requires o.policy == AnythingGoes && o.simplifyTo == ToVector
    ensures var xs := [Dbl(Double(false, 0.0000001)), Str([97])];
            && Array(xs, o) == Vec(STRSXP, [Charsxp([48, 46, 48]), Charsxp([97])])
            && !Same(Charsxp([48, 46, 48]), xs[0])
  {
    hide DoubleText, Same, Millionths;
    var d := Double(false, 0.0000001);
    var xs := [Dbl(d), Str([97])];
    assert xs[0] in xs && xs[1] in xs;
    ScalarsVectorize(o.int64, xs);
    SmallIsZero(d);
    ZeroText(d);
    assert RTypeOf(o.int64, xs[1]) in Evidence(o.int64, xs).rTypes;
    assert Array(xs, o) == AtomicVector(STRSXP, xs);
    assert AtomicVector(STRSXP, xs).cells == [Charsxp([ZERO, POINT, ZERO]), Charsxp([97])];
    SameExactly(STRSXP, xs[0]);
  }

  // ----- what reads as missing

  /** The elements make a vector of 64-bit integers, if any of them is a wide one. */
  predicate MakesInt64(opt: Int64Policy, xs: seq<Json>) {
    (opt == AsInteger64 || opt == Always) && forall j | j in xs :: !j.Str? && !j.U64? && !j.Dbl?
  }

  /** A vector of the given type has NA for null, for what it cannot hold, and for integers with NA's bit pattern. */
  lemma CellMissing(kind: VecKind, opt: Int64Policy, j: Json)
    requires kind != VECSXP && (kind == INTSXP ==> opt != Always)
    ensures IsNA(ScalarDispatch(kind, j)) <==>
              if kind == INTSXP && RTypeOf(opt, j) == RI64 then ToInt32(j.i) == NA_INTEGER
              else j.Null? || !CanHold(kind, RTypeOf(opt, j)) || (j == I64(NA_INTEGER64) && kind == INTEGER64)
  {
    hide ToInt32, DoubleText, IntText, ToDouble;
    if j.I64? {
      NarrowingExact(j.i);
    }
  }

  /** Among elements of the types `s`, wide integers are stored as 64-bit integers. */
  predicate StoresInt64(policy: TypePolicy, opt: Int64Policy, s: set<RType>) {
    && (opt == AsInteger64 || opt == Always)
    && RU64 !in s
    && match policy
       case AnythingGoes => RChr !in s && RDbl !in s
       case IntsAsDbls => RLgl !in s && RDbl !in s
       case Strict => RLgl !in s && RI32 !in s
  }

  /** Among elements of the types `s`, wide integers are cut to 32 bits. */
  predicate CutsIntegers(policy: TypePolicy, s: set<RType>) {
    policy == Strict && RI32 in s && RLgl !in s && RU64 !in s
  }

  lemma PickedInteger(policy: TypePolicy, opt: Int64Policy, d: Flags)
    requires RArray !in d.rTypes && RObject !in d.rTypes && RI64 in d.rTypes
    ensures KindOf(opt, d.CommonRType(policy)) == INTEGER64 <==> StoresInt64(policy, opt, d.rTypes)
    ensures KindOf(opt, d.CommonRType(policy)) == INTSXP <==> CutsIntegers(policy, d.rTypes)
  {
  }

  lemma KeptInt64(policy: TypePolicy, opt: Int64Policy, s: set<RType>)
    requires RI64 in s && KeepsAll(policy, opt, s)
    ensures StoresInt64(policy, opt, s) <==>
              (opt == AsInteger64 || opt == Always) && RChr !in s && RU64 !in s && RDbl !in s
  {
  }

  /** Where everything is kept, the elements tell whether they make 64-bit integers. */
  lemma Int64ByElements(policy: TypePolicy, opt: Int64Policy, xs: seq<Json>)
    requires I64(NA_INTEGER64) in xs && forall j | j in xs :: IsScalar(j)
    requires KeepsAll(policy, opt, Evidence(opt, xs).rTypes)
    ensures var d := Evidence(opt, xs);
            && (KindOf(opt, d.CommonRType(policy)) == INTEGER64 <==> MakesInt64(opt, xs))
            && (StoresInt64(policy, opt, d.rTypes) <==> MakesInt64(opt, xs))
  {
    hide Flags.CommonRType, KeepsAll, StoresInt64;
    var d := Evidence(opt, xs);
    forall j | j in xs ensures RTypeOf(opt, j) in d.rTypes {}
    assert RTypeOf(opt, I64(NA_INTEGER64)) == RI64;
    assert forall t | t in d.rTypes :: t != RArray && t != RObject;
    KeptInt64(policy, opt, d.rTypes);
    PickedInteger(policy, opt, d);
  }

  /**
   * Among elements of the types `s`, the element reads as NA: it is null, or of a type that is not kept, or it is an
   * integer that is stored as, or cut to, the bit pattern of NA.
   */
  predicate ReadsMissing(policy: TypePolicy, opt: Int64Policy, s: set<RType>, j: Json) {
    if j.Null? then true
    else if RTypeOf(opt, j) == RI64 && CutsIntegers(policy, s) then ToInt32(j.i) == NA_INTEGER
    else if Keeps(policy, opt, s, RTypeOf(opt, j)) then j == I64(NA_INTEGER64) && StoresInt64(policy, opt, s)
    else true
  }

  /** Under any policy and option: a scalar among others reads as NA in exactly these cases. */
  lemma MissingAmong(policy: TypePolicy, opt: Int64Policy, xs: seq<Json>, j: Json)
    requires j in xs && forall e | e in xs :: IsScalar(e)
    ensures var d := Evidence(opt, xs);
            var kind := KindOf(opt, d.CommonRType(policy));
            kind != VECSXP && (IsNA(ScalarDispatch(kind, j)) <==> ReadsMissing(policy, opt, d.rTypes, j))
  {
    hide ScalarDispatch, CanHold, Keeps, KindOf, Flags.CommonRType, IsNA, ToInt32, StoresInt64;
    var d := Evidence(opt, xs);
    var kind, t := KindOf(opt, d.CommonRType(policy)), RTypeOf(opt, j);
    KindAmong(policy, opt, xs);
    assert t in d.rTypes;
    CellMissing(kind, opt, j);
    if t == RI64 {
      PickedInteger(policy, opt, d);
    }
    if !j.Null? {
      PickedTypeHolds(policy, opt, d, t);
    }
  }

  /** Where everything is kept, only null and the smallest 64-bit integer can read as NA. */
  lemma MissingAmongKept(policy: TypePolicy, opt: Int64Policy, xs: seq<Json>, j: Json)
    requires j in xs && KeepsAll(policy, opt, Evidence(opt, xs).rTypes) && forall e | e in xs :: IsScalar(e)
    ensures ReadsMissing(policy, opt, Evidence(opt, xs).rTypes, j) <==>
              j.Null? || (j == I64(NA_INTEGER64) && MakesInt64(opt, xs))
  {
    hide StoresInt64, MakesInt64, ToInt32, KeepsAll;
    var s := Evidence(opt, xs).rTypes;
    assert RTypeOf(opt, j) in s;
    NoNarrowUnderAlways(opt, xs);
    KeepsAllMeans(policy, opt, s);
    if j == I64(NA_INTEGER64) {
      Int64ByElements(policy, opt, xs);
    }
  }

  lemma LoneMissing(j: Json, o: Options)
    requires IsScalar(j) && !j.Null?
    ensures var r := Lone(j, o);
            r.Vec? && |r.cells| == 1 && (IsNA(r.cells[0]) <==> j == I64(NA_INTEGER64) && r.kind == INTEGER64)
  {
    if j.I64? {
      NarrowingExact(j.i);
    }
  }

  lemma NoNarrowUnderAlways(opt: Int64Policy, xs: seq<Json>)
    ensures opt == Always ==> RI32 !in Evidence(opt, xs).rTypes
  {
  }

  lemma VectorizableKeepsSet(policy: TypePolicy, opt: Int64Policy, xs: seq<Json>)
    requires Evidence(opt, xs).IsVectorizable(policy)
    ensures KeepsAll(policy, opt, Evidence(opt, xs).rTypes)
  {
    hide Flags.IsVectorizable, KeepsAll, Keeps;
    var d := Evidence(opt, xs);
    VectorizableKeepsAll(policy, opt, d);
    VectorizableIsScalar(opt, policy, xs);
    assert forall t | t in d.rTypes :: t != RArray && t != RObject;
    NoNarrowUnderAlways(opt, xs);
    KeepsAllMeans(policy, opt, d.rTypes);
  }

  /**
   * Missing means null: in a vector or a matrix, under any policy, an entry is NA exactly if its element is null, or
   * is the smallest 64-bit integer where the elements make a vector of 64-bit integers.
   */
  lemma AtomicMissing(o: Options, xs: seq<Json>, j: Json)
    requires Evidence(o.int64, xs).IsVectorizable(o.policy) && j in xs
    ensures IsNA(ScalarDispatch(AtomicKind(o, xs), j)) <==>
              j.Null? || (j == I64(NA_INTEGER64) && MakesInt64(o.int64, xs))
  {
    VectorizableKeepsSet(o.policy, o.int64, xs);
    VectorizableIsScalar(o.int64, o.policy, xs);
    MissingAmong(o.policy, o.int64, xs, j);
    MissingAmongKept(o.policy, o.int64, xs, j);
  }

  /** The exception occurs: the array [-9223372036854775808] reads as NA under the integer64 option. */
  lemma SmallestIntegerIsMissing(o: Options)
    requires o.int64 == AsInteger64 && o.simplifyTo == ToVector
    ensures var i := -0x8000_0000_0000_0000;
            Array([I64(i)], o) == Vec(INTEGER64, [Int64Bits(i)]) && IsNA(Int64Bits(i))
  {
    var xs := [I64(NA_INTEGER64)];
    assert xs[0] in xs;
    assert Evidence(o.int64, xs).rTypes == {RI64};
    hide Evidence, ToInt32, IntText, ToDouble;
    assert AtomicKind(o, xs) == INTEGER64;
    assert Array(xs, o) == AtomicVector(INTEGER64, xs) by { hide Evidence, AtomicVector, AllObjects, AtomicKind; }
    assert AtomicVector(INTEGER64, xs).cells == [Int64Bits(NA_INTEGER64)];
  }

  // ----- data frame columns

  lemma NullKind(policy: TypePolicy, d: Flags)
    requires d.CommonRType(policy) == RNull
    ensures forall t | t in d.rTypes :: t == RNull
  {
  }

  /** A column of the null kind holds nulls only, so nothing is left out where its values are not written. */
  lemma NullColumnIsNull(policy: TypePolicy, opt: Int64Policy, xs: seq<Json>, j: Json, o: Options)
    requires Evidence(opt, xs).CommonRType(policy) == RNull && j in xs
    ensures j == Null && CellFrom(j, NullColumn, o) == ScalarDispatch(LGLSXP, j)
  {
    NullKind(policy, Evidence(opt, xs));
    assert RTypeOf(opt, j) in Evidence(opt, xs).rTypes;
  }

  /** A column becomes a list exactly if an array or an object occurs in it. */
  lemma ListColumnMeans(o: Options, values: seq<Json>)
    ensures ColumnKindOf(o.policy, o.int64, Evidence(o.int64, values)).ListColumn?
            <==> !(forall v | v in values :: IsScalar(v))
  {
    var d := Evidence(o.int64, values);
    if v :| v in values && !IsScalar(v) {
      assert RTypeOf(o.int64, v) in d.rTypes;
    }
  }

  lemma ScalarColumnKind(o: Options, xs: seq<Json>)
    requires forall v | v in xs :: IsScalar(v)
    ensures var kind := ColumnKindOf(o.policy, o.int64, Evidence(o.int64, xs));
            && !kind.ListColumn?
            && VectorKind(kind) == KindOf(o.int64, Evidence(o.int64, xs).CommonRType(o.policy)) != VECSXP
            && forall j | j in xs :: CellFrom(j, kind, o) == ScalarDispatch(VectorKind(kind), j)
  {
    var d := Evidence(o.int64, xs);
    var kind := ColumnKindOf(o.policy, o.int64, d);
    assert RArray !in d.rTypes && RObject !in d.rTypes;
    forall j | j in xs && kind.NullColumn? ensures CellFrom(j, kind, o) == ScalarDispatch(LGLSXP, j) {
      NullColumnIsNull(o.policy, o.int64, xs, j, o);
    }
  }

  /**
   * Under any policy and option, a column of scalars keeps all the values found under its key, up to rounding,
   * exactly if the policy keeps all the types that occur among them; and exactly if none needs rounding besides.
   */
  lemma ColumnDenotes(o: Options, xs: seq<Json>)
    requires forall v | v in xs :: IsScalar(v)
    ensures var d := Evidence(o.int64, xs);
            var kind := ColumnKindOf(o.policy, o.int64, d);
            && ((forall j | j in xs :: Denotes(CellFrom(j, kind, o), j)) <==> KeepsAll(o.policy, o.int64, d.rTypes))
            && ((forall j | j in xs :: Same(CellFrom(j, kind, o), j)) <==>
                  KeepsAll(o.policy, o.int64, d.rTypes) && forall j | j in xs :: Unrounded(VectorKind(kind), j))
  {
    hide KeepsAll, Keeps, Denotes, Same, Unrounded, ColumnKindOf, CellFrom, KindOf, Flags.CommonRType;
    var s := Evidence(o.int64, xs).rTypes;
    var kind := ColumnKindOf(o.policy, o.int64, Evidence(o.int64, xs));
    ScalarColumnKind(o, xs);
    NoNarrowUnderAlways(o.int64, xs);
    KeepsAllMeans(o.policy, o.int64, s);
    forall j | j in xs
      ensures Denotes(CellFrom(j, kind, o), j) <==> j.Null? || Keeps(o.policy, o.int64, s, RTypeOf(o.int64, j))
      ensures Same(CellFrom(j, kind, o), j) <==> Denotes(CellFrom(j, kind, o), j) && Unrounded(VectorKind(kind), j)
    {
      KeptAmong(o.policy, o.int64, xs, j);
      SameExactly(VectorKind(kind), j);
    }
    forall j | j in xs ensures RTypeOf(o.int64, j) in s && (RTypeOf(o.int64, j) == RNull <==> j.Null?) {}
    if forall j | j in xs :: Denotes(CellFrom(j, kind, o), j) {
      forall t | t in s && t != RNull ensures Keeps(o.policy, o.int64, s, t) {
        var j :| j in xs && RTypeOf(o.int64, j) == t;
      }
    }
  }

  /** Under AnythingGoes every column keeps its values; under the other policies, if it could be a vector. */
  lemma ColumnsKeepValues(policy: TypePolicy, opt: Int64Policy, xs: seq<Json>)
    requires policy == AnythingGoes || Evidence(opt, xs).IsVectorizable(policy)
    ensures KeepsAll(policy, opt, Evidence(opt, xs).rTypes)
  {
    if policy != AnythingGoes {
      VectorizableKeepsSet(policy, opt, xs);
    }
  }

  /** A 32-bit integer column keeps every integer exactly if no wide one was seen, which only Strict allows. */
  lemma IntColumnNarrows(policy: TypePolicy, opt: Int64Policy, xs: seq<Json>)
    requires ColumnKindOf(policy, opt, Evidence(opt, xs)) == Atomic(INTSXP)
    ensures (forall j | j in xs && j.I64? :: ScalarDispatch(INTSXP, j).i == j.i && j.i != NA_INTEGER)
            <==> RI64 !in Evidence(opt, xs).rTypes
    ensures policy != Strict ==> RI64 !in Evidence(opt, xs).rTypes
  {
    var d := Evidence(opt, xs);
    NarrowKindMeansNarrow(opt, policy, xs);
    forall j | j in xs && j.I64?
      ensures ScalarDispatch(INTSXP, j).i == j.i && j.i != NA_INTEGER <==> RTypeOf(opt, j) == RI32
      ensures RTypeOf(opt, j) in d.rTypes
    {
      NarrowingExact(j.i);
    }
  }

  /**
   * Under any policy, in a column of scalars: a cell stands for the row's first value for the key, up to rounding or
   * without, exactly if the policy keeps that value; so all cells do in a column that keeps all its values.
   */
  lemma FrameCellDenotes(o: Options, rows: seq<Json>, key: Bytes, i: nat)
    requires AllObjects(rows) && i < |rows| && FirstIndex(rows[i].members, key) >= 0
    requires forall v | v in ValuesUnder(Fields(rows), key) :: IsScalar(v)
    ensures var s := Evidence(o.int64, ValuesUnder(Fields(rows), key)).rTypes;
            var kind := KindOfColumn(o, rows, key);
            var c, value := CellOf(rows[i], key, kind, o), rows[i].members[FirstIndex(rows[i].members, key)].value;
            && (Denotes(c, value) <==> value == Null || Keeps(o.policy, o.int64, s, RTypeOf(o.int64, value)))
            && (Same(c, value) <==> Denotes(c, value) && Unrounded(VectorKind(kind), value))
            && (KeepsAll(o.policy, o.int64, s) ==> Denotes(c, value))
  {
    hide Denotes, Same, Keeps, KeepsAll, ColumnKindOf, CellFrom, KindOf, ScalarDispatch, Flags.CommonRType;
    var xs, k := ValuesUnder(Fields(rows), key), FirstIndex(rows[i].members, key);
    ScalarColumnKind(o, xs);
    ValueOfRow(rows, i, k);
    KeptAmong(o.policy, o.int64, xs, rows[i].members[k].value);
    SameExactly(VectorKind(KindOfColumn(o, rows, key)), rows[i].members[k].value);
    if KeepsAll(o.policy, o.int64, Evidence(o.int64, xs).rTypes) {
      ColumnDenotes(o, xs);
    }
  }

  /**
   * Missing, under any policy: a cell is NA exactly if the row lacks the key or its first value for it reads as NA;
   * that is null, the smallest 64-bit integer apart, in a column that keeps all its values.
   */
  lemma FrameCellMissing(o: Options, rows: seq<Json>, key: Bytes, i: nat)
    requires AllObjects(rows) && i < |rows|
    requires forall v | v in ValuesUnder(Fields(rows), key) :: IsScalar(v)
    ensures var xs, k := ValuesUnder(Fields(rows), key), FirstIndex(rows[i].members, key);
            var s := Evidence(o.int64, xs).rTypes;
            var missing := IsNA(CellOf(rows[i], key, KindOfColumn(o, rows, key), o));
            if k < 0 then missing
            else
              var value := rows[i].members[k].value;
              && (missing <==> ReadsMissing(o.policy, o.int64, s, value))
              && (KeepsAll(o.policy, o.int64, s) ==>
                    (missing <==> value == Null || (value == I64(NA_INTEGER64) && MakesInt64(o.int64, xs))))
  {
    hide ReadsMissing, KeepsAll, ColumnKindOf, CellFrom, KindOf, ScalarDispatch, Flags.CommonRType, MakesInt64;
    var xs, k := ValuesUnder(Fields(rows), key), FirstIndex(rows[i].members, key);
    ScalarColumnKind(o, xs);
    if k >= 0 {
      var value := rows[i].members[k].value;
      ValueOfRow(rows, i, k);
      MissingAmong(o.policy, o.int64, xs, value);
      if KeepsAll(o.policy, o.int64, Evidence(o.int64, xs).rTypes) {
        MissingAmongKept(o.policy, o.int64, xs, value);
      }
    }
  }

  // ----- data frames that lose values

  /** Two rows with one field each, under the same key. */
  function TwoRecords(key: Bytes, x: Json, y: Json): (rows: seq<Json>)
    ensures AllObjects(rows)
  {
    [Obj([Member(key, x)]), Obj([Member(key, y)])]
  }

  lemma TwoFields(key: Bytes, x: Json, y: Json)
    ensures var fields := Fields(TwoRecords(key, x, y));
            && fields == [Member(key, x), Member(key, y)]
            && ColumnKeys(fields) == [key] && ValuesUnder(fields, key) == [x, y]
  {
    var rows, fields := TwoRecords(key, x, y), [Member(key, x), Member(key, y)];
    assert rows[..1] == [rows[0]] && rows[..1][..0] == [];
    assert Fields(rows[..1]) == [Member(key, x)];
    assert fields[..1] == [Member(key, x)] && fields[..1][..0] == [];
    assert ColumnKeys(fields[..1]) == [key] && ValuesUnder(fields[..1], key) == [x];
  }

  lemma TwoRecordFrame(key: Bytes, x: Json, y: Json, o: Options)
    requires o.simplifyTo == ToDataFrame && IsScalar(x) && IsScalar(y)
    ensures var kind := KindOf(o.int64, Evidence(o.int64, [x, y]).CommonRType(o.policy));
            && kind != VECSXP
            && Array(TwoRecords(key, x, y), o) ==
                 Frame([key], [Vec(kind, [ScalarDispatch(kind, x), ScalarDispatch(kind, y)])], 2)
  {
    hide KindOf, Flags.CommonRType, ScalarDispatch;
    var rows, xs := TwoRecords(key, x, y), [x, y];
    TwoFields(key, x, y);
    ScalarColumnKind(o, xs);
    assert xs[0] in xs && xs[1] in xs;
    var kind := KindOfColumn(o, rows, key);
    assert FirstIndex(rows[0].members, key) == 0 && FirstIndex(rows[1].members, key) == 0;
    assert ColumnOf(rows, key, o).cells ==
      [ScalarDispatch(VectorKind(kind), x), ScalarDispatch(VectorKind(kind), y)];
    assert Array(rows, o).columns == [ColumnOf(rows, key, o)];
  }

  lemma TypesOfTwo(opt: Int64Policy, x: Json, y: Json)
    ensures Evidence(opt, [x, y]).rTypes == {RTypeOf(opt, x), RTypeOf(opt, y)}
  {
    assert [x, y][0] in [x, y] && [x, y][1] in [x, y];
  }

  /** Strict cuts integers short: rows of 1 and a wide integer make a column of 1 and that integer's low 32 bits. */
  lemma StrictColumnCuts(key: Bytes, i: Int64, o: Options)
    requires o.policy == Strict && o.int64 != Always && o.simplifyTo == ToDataFrame && !IsCastable(i)
    ensures Array(TwoRecords(key, I64(1), I64(i)), o) == Frame([key], [Vec(INTSXP, [Int(1), Int(ToInt32(i))])], 2)
  {
    hide Array, TwoRecords, Evidence, ToInt32;
    TypesOfTwo(o.int64, I64(1), I64(i));
    assert Evidence(o.int64, [I64(1), I64(i)]).CommonRType(Strict) == RI32;
    NarrowingExact(1);
    TwoRecordFrame(key, I64(1), I64(i), o);
  }

  /** So 3000000000 becomes -1294967296, and 2147483648 reads as missing. */
  lemma StrictColumnWraps(key: Bytes, o: Options)
    requires o.policy == Strict && o.int64 != Always && o.simplifyTo == ToDataFrame
    ensures Array(TwoRecords(key, I64(1), I64(3000000000)), o) ==
              Frame([key], [Vec(INTSXP, [Int(1), Int(-1294967296)])], 2)
    ensures Array(TwoRecords(key, I64(1), I64(2147483648)), o) ==
              Frame([key], [Vec(INTSXP, [Int(1), Int(NA_INTEGER)])], 2)
  {
    hide Array, TwoRecords;
    StrictColumnCuts(key, 3000000000, o);
    StrictColumnCuts(key, 2147483648, o);
  }

  /** IntsAsDbls loses texts: rows of a text and a double make a column of NA and the double. */
  lemma NumbersColumnLosesText(key: Bytes, text: Bytes, d: Double, o: Options)
    requires o.policy == IntsAsDbls && o.simplifyTo == ToDataFrame
    ensures Array(TwoRecords(key, Str(text), Dbl(d)), o) == Frame([key], [Vec(REALSXP, [NaReal, Real(d)])], 2)
  {
    hide Array, TwoRecords, Evidence;
    TypesOfTwo(o.int64, Str(text), Dbl(d));
    assert Evidence(o.int64, [Str(text), Dbl(d)]).CommonRType(IntsAsDbls) == RDbl;
    TwoRecordFrame(key, Str(text), Dbl(d), o);
  }
}
