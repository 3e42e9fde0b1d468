/** The evidence about element types that decides how an array is represented (Type_Doctor.hpp). */
module TypeDoctors {
  import opened Values

  datatype ElementType = ARRAY | OBJECT | STRING | DOUBLE | INT64 | UINT64 | BOOL | NULL_VALUE

  datatype RType = RArray | RObject | RChr | RU64 | RDbl | RI64 | RI32 | RLgl | RNull

  function TypeOf(j: Json): ElementType {
    match j
    case Arr(_) => ARRAY
    case Obj(_) => OBJECT
    case Str(_) => STRING
    case Dbl(_) => DOUBLE
    case I64(_) => INT64
    case U64(_) => UINT64
    case Bool(_) => BOOL
    case Null => NULL_VALUE
  }

  /** Fits an R integer: INT_MIN is excluded, being NA_INTEGER. */
  predicate IsCastable(i: Int64) {
    -0x8000_0000 < i <= 0x7fff_ffff
  }

  /** Counts as a 32-bit integer; under Always no integer does. */
  predicate IsNarrow(opt: Int64Policy, j: Json) {
    j.I64? && opt != Always && IsCastable(j.i)
  }

  predicate IsWide(opt: Int64Policy, j: Json) {
    j.I64? && !IsNarrow(opt, j)
  }

  function RTypeOf(opt: Int64Policy, j: Json): RType {
    match j
    case Arr(_) => RArray
    case Obj(_) => RObject
    case Str(_) => RChr
    case Dbl(_) => RDbl
    case I64(_) => if IsNarrow(opt, j) then RI32 else RI64
    case U64(_) => RU64
    case Bool(_) => RLgl
    case Null => RNull
  }

  /**
   * The flags of a doctor, one for each JSON element type and one for each R type: a flag that is up is a member
   * of its set.
   */
  datatype Flags = Flags(elementTypes: set<ElementType>, rTypes: set<RType>) {

    /** Merging; the 32-bit flag of the other doctor is ignored under Always. */
    function Merge(opt: Int64Policy, that: Flags): Flags {
      Flags(elementTypes + that.elementTypes,
            rTypes + if opt == Always then that.rTypes - {RI32} else that.rTypes)
    }

    predicate Saw(t: ElementType) {
      t in elementTypes
    }

    predicate HasNull() {
      RNull in rTypes
    }

    predicate IsHomogeneous() {
      if Saw(ARRAY) then
        !(Saw(OBJECT) || Saw(STRING) || Saw(DOUBLE) || Saw(INT64) || Saw(BOOL) || Saw(UINT64))
      else if Saw(OBJECT) then !(Saw(STRING) || Saw(DOUBLE) || Saw(INT64) || Saw(BOOL) || Saw(UINT64))
      else if Saw(STRING) then !(Saw(DOUBLE) || Saw(INT64) || Saw(BOOL) || Saw(UINT64))
      else if Saw(DOUBLE) then !(Saw(INT64) || Saw(BOOL) || Saw(UINT64))
      else if Saw(INT64) then !(Saw(BOOL) || Saw(UINT64))
      else if Saw(BOOL) then !Saw(UINT64)
      else Saw(UINT64)
    }

    function CommonElementType(): ElementType {
      if Saw(ARRAY) then ARRAY
      else if Saw(OBJECT) then OBJECT
      else if Saw(STRING) then STRING
      else if Saw(UINT64) then UINT64
      else if Saw(DOUBLE) then DOUBLE
      else if Saw(INT64) then INT64
      else if Saw(BOOL) then BOOL
      else NULL_VALUE
    }

    function CommonRType(policy: TypePolicy): RType {
      var chr, dbl, lgl, u64 := RChr in rTypes, RDbl in rTypes, RLgl in rTypes, RU64 in rTypes;
      var i64, i32 := RI64 in rTypes, RI32 in rTypes;
      if RObject in rTypes then RObject
      else if RArray in rTypes then RArray
      else if policy == AnythingGoes then
        if chr then RChr else if u64 then RU64 else if dbl then RDbl else if i64 then RI64
        else if i32 then RI32 else if lgl then RLgl else RNull
      else if chr && !(dbl || i64 || i32 || lgl || u64) then RChr
      else if policy == Strict && dbl && !(i64 || i32 || lgl || u64) then RDbl
      else if policy == Strict && i64 && !(i32 || lgl || u64) then RI64
      else if policy == Strict && i32 && !(lgl || u64) then RI32
      else if policy == IntsAsDbls && dbl && !(lgl || u64) then RDbl
      else if policy == IntsAsDbls && i64 && !(lgl || u64) then RI64
      else if policy == IntsAsDbls && i32 && !(lgl || u64) then RI32
      else if lgl && !u64 then RLgl
      else if u64 then RU64
      else RNull
    }

    predicate IsVectorizable(policy: TypePolicy) {
      var chr, dbl, lgl, u64 := RChr in rTypes, RDbl in rTypes, RLgl in rTypes, RU64 in rTypes;
      var i64, i32 := RI64 in rTypes, RI32 in rTypes;
      if RObject in rTypes || RArray in rTypes then false
      else if policy == AnythingGoes then true
      else if chr then !(dbl || i64 || i32 || lgl || u64)
      else if policy == Strict && dbl then !(i64 || i32 || lgl || u64)
      else if policy == Strict && i64 then !(i32 || lgl || u64)
      else if policy == Strict && i32 then !(lgl || u64)
      else if policy == IntsAsDbls && (dbl || i64 || i32) then !(lgl || u64)
      else if lgl then !u64
      else u64
    }
  }

  /** What a doctor that has seen exactly `xs` should know: which types occur, and nothing else. */
  function Evidence(opt: Int64Policy, xs: seq<Json>): Flags {
    Flags(set x | x in xs :: TypeOf(x), set x | x in xs :: RTypeOf(opt, x))
  }

  /** The flags raised by one more element. */
  function Raised(opt: Int64Policy, flags: Flags, j: Json): Flags {
    Flags(flags.elementTypes + {TypeOf(j)}, flags.rTypes + {RTypeOf(opt, j)})
  }

  /** Merging the doctors of two arrays gives the doctor of their concatenation. */
  lemma MergeIsConcat(opt: Int64Policy, xs: seq<Json>, ys: seq<Json>)
    ensures Evidence(opt, xs).Merge(opt, Evidence(opt, ys)) == Evidence(opt, xs + ys)
  {
    assert forall x :: x in xs + ys <==> x in xs || x in ys;
    assert opt == Always ==> RI32 !in Evidence(opt, ys).rTypes;
  }

  /** Adding one element to the doctor of `xs` gives the doctor of `xs + [j]`. */
  lemma AddIsAppend(opt: Int64Policy, xs: seq<Json>, j: Json)
    ensures Raised(opt, Evidence(opt, xs), j) == Evidence(opt, xs + [j])
  {
    assert forall x :: x in xs + [j] <==> x in xs || x == j;
  }

  /** The doctor does not depend on the order of the elements, nor on how often each occurs. */
  lemma OrderIrrelevant(opt: Int64Policy, xs: seq<Json>, ys: seq<Json>)
    requires forall x :: x in xs <==> x in ys
    ensures Evidence(opt, xs) == Evidence(opt, ys)
  {
  }

  /** The doctor itself: flags that are only ever raised. */
  class TypeDoctor {
    const opt: Int64Policy
    var flags: Flags

    constructor Empty(opt: Int64Policy)
      ensures this.opt == opt && flags == Evidence(opt, [])
    {
      this.opt := opt;
      flags := Flags({}, {});
    }

    /** Diagnoses a whole array. */
    constructor (opt: Int64Policy, elements: seq<Json>)
      ensures this.opt == opt && flags == Evidence(opt, elements)
    {
      this.opt := opt;
      flags := Flags({}, {});
      new;
      for k := 0 to |elements|
        invariant flags == Evidence(opt, elements[..k])
      {
        AddElement(elements[k]);
        AddIsAppend(opt, elements[..k], elements[k]);
        assert elements[..k] + [elements[k]] == elements[..k + 1];
      }
      assert elements[..|elements|] == elements;
    }

    method Raise(elementType: ElementType, rType: RType)
      modifies this
      ensures flags == Flags(old(flags).elementTypes + {elementType}, old(flags).rTypes + {rType})
    {
      flags := Flags(flags.elementTypes + {elementType}, flags.rTypes + {rType});
    }

    method AddElement(element: Json)
      modifies this
      ensures flags == Raised(opt, old(flags), element)
    {
      match element
      case Arr(_) => Raise(ARRAY, RArray);
      case Obj(_) => Raise(OBJECT, RObject);
      case Str(_) => Raise(STRING, RChr);
      case Dbl(_) => Raise(DOUBLE, RDbl);
      case I64(i) =>
        if opt == Always {
          Raise(INT64, RI64);
        } else if IsCastable(i) {
          Raise(INT64, RI32);
        } else {
          Raise(INT64, RI64);
        }
      case Bool(_) => Raise(BOOL, RLgl);
      case Null => Raise(NULL_VALUE, RNull);
      case U64(_) => Raise(UINT64, RU64);
    }

    /** Takes in what another doctor of the same policies has seen. */
    method Update(that: TypeDoctor)
      requires that != this && that.opt == opt
      modifies this
      ensures flags == old(flags).Merge(opt, that.flags)
    {
      flags := flags.(elementTypes := flags.elementTypes + that.flags.elementTypes);
      var narrow := RI32 in flags.rTypes;
      if opt != Always {
        narrow := narrow || RI32 in that.flags.rTypes;
      }
      var others := (flags.rTypes + that.flags.rTypes) - {RI32};
      flags := flags.(rTypes := if narrow then others + {RI32} else others);
    }
  }
}
