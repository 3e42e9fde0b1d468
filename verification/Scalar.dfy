/** Conversions of one JSON scalar to one element of an R vector (scalar.hpp). */
module Scalars {
  import opened Values
  import opened Text
  import opened TypeDoctors

  const TEXT_TRUE: Bytes := [84, 82, 85, 69]        // TRUE
  const TEXT_FALSE: Bytes := [70, 65, 76, 83, 69]   // FALSE

  /** static_cast<int>(): the low 32 bits, as a signed number. */
  function ToInt32(i: Int64): Int32 {
    (i + 0x8000_0000) % 0x1_0000_0000 - 0x8000_0000
  }

  lemma NarrowingExact(i: Int64)
    ensures IsCastable(i) <==> ToInt32(i) == i && ToInt32(i) != NA_INTEGER
    ensures (ToInt32(i) - i) % 0x1_0000_0000 == 0
  {
  }

  function Flag(b: bool): Int32 {
    if b then 1 else 0
  }

  function NaOf(kind: VecKind): Cell {
    match kind
    case STRSXP => NaString
    case REALSXP => NaReal
    case INTSXP => Int(NA_INTEGER)
    case LGLSXP => Lgl(NA_INTEGER)
    case INTEGER64 => Int64Bits(NA_INTEGER64)
    case VECSXP => Ref(Vec(INTSXP, [Int(NA_INTEGER)]))
  }

  /** The conversion that looks at the element's type first, and turns anything unsuitable into NA. */
  function ScalarDispatch(kind: VecKind, j: Json): (c: Cell)
    requires kind != VECSXP
    ensures !c.Ref?
  {
    match kind
    case STRSXP =>
      (match j
       case Str(text) => Charsxp(text)
       case Dbl(d) => Charsxp(DoubleText(d))
       case I64(i) => Charsxp(IntText(i))
       case Bool(b) => Charsxp(if b then TEXT_TRUE else TEXT_FALSE)
       case U64(u) => Charsxp(IntText(u))
       case _ => NaString)
    case REALSXP =>
      (match j
       case Dbl(d) => Real(d)
       case I64(i) => Real(ToDouble(i))
       case Bool(b) => Real(Double(false, if b then 1.0 else 0.0))
       case _ => NaReal)
    case INTSXP =>
      (match j
       case I64(i) => Int(ToInt32(i))
       case Bool(b) => Int(Flag(b))
       case _ => Int(NA_INTEGER))
    case LGLSXP =>
      (match j
       case Bool(b) => Lgl(Flag(b))
       case _ => Lgl(NA_INTEGER))
    case INTEGER64 =>
      (match j
       case I64(i) => Int64Bits(i)
       case Bool(b) => Int64Bits(Flag(b))
       case _ => Int64Bits(NA_INTEGER64))
  }

  /** The C++ type a typed conversion reads an element as. */
  datatype InType = InBool | InInt64 | InDouble | InString | InUint64

  predicate ReadableAs(inT: InType, j: Json) {
    match inT
    case InBool => j.Bool?
    case InInt64 => j.I64?
    case InDouble => j.Dbl?
    case InString => j.Str?
    case InUint64 => j.U64?
  }

  /** The pairs of types for which a typed conversion exists. */
  predicate HasConversion(inT: InType, rT: RType) {
    match inT
    case InBool => rT.RChr? || rT.RDbl? || rT.RI64? || rT.RI32? || rT.RLgl?
    case InInt64 => rT.RChr? || rT.RDbl? || rT.RI64? || rT.RI32?
    case InDouble => rT.RChr? || rT.RDbl?
    case InString => rT == RChr
    case InUint64 => rT == RChr
  }

  function TypedKind(rT: RType): VecKind
    requires rT.RChr? || rT.RDbl? || rT.RI64? || rT.RI32? || rT.RLgl?
  {
    match rT
    case RChr => STRSXP
    case RDbl => REALSXP
    case RI64 => INTEGER64
    case RI32 => INTSXP
    case RLgl => LGLSXP
  }

  /** Reads the element as an `inT` without looking at its type: only for elements that are one. */
  function ReadTyped(inT: InType, rT: RType, j: Json): Cell
    requires HasConversion(inT, rT) && ReadableAs(inT, j)
  {
    match inT
    case InBool =>
      (match rT
       case RChr => Charsxp(if j.b then TEXT_TRUE else TEXT_FALSE)
       case RDbl => Real(Double(false, if j.b then 1.0 else 0.0))
       case RI64 => Int64Bits(if j.b then 1 else 0)
       case RI32 => Int(if j.b then 1 else 0)
       case RLgl => Lgl(if j.b then 1 else 0))
    case InInt64 =>
      (match rT
       case RChr => Charsxp(IntText(j.i))
       case RDbl => Real(ToDouble(j.i))
       case RI64 => Int64Bits(j.i)
       case RI32 => Int(ToInt32(j.i)))
    case InDouble => if rT == RChr then Charsxp(DoubleText(j.d)) else Real(j.d)
    case InString => Charsxp(j.text)
    case InUint64 => Charsxp(IntText(j.u))
  }

  /** A typed conversion is applied to an element of its type, or to a null that is checked for. */
  predicate Accessible(inT: InType, hasNulls: bool, j: Json) {
    ReadableAs(inT, j) || (hasNulls && j.Null?)
  }

  /** The typed conversion, with or without the check for null. */
  function GetScalar(inT: InType, rT: RType, hasNulls: bool, j: Json): (c: Cell)
    requires HasConversion(inT, rT) && Accessible(inT, hasNulls, j)
    ensures c == ScalarDispatch(TypedKind(rT), j)
  {
    if hasNulls && j.Null? then NaOf(TypedKind(rT)) else ReadTyped(inT, rT, j)
  }

  /** The R vector type of a common R type: the third row follows the int64 option. */
  function KindOf(opt: Int64Policy, rT: RType): VecKind {
    match rT
    case RChr => STRSXP
    case RU64 => STRSXP
    case RDbl => REALSXP
    case RI64 => (match opt case AsDouble => REALSXP case AsString => STRSXP case _ => INTEGER64)
    case RI32 => INTSXP
    case RLgl => LGLSXP
    case RNull => LGLSXP
    case RArray => VECSXP
    case RObject => VECSXP
  }

  /** An integer on its own: narrow if it fits and the option allows, else by the option (utils.hpp). */
  function ResolveInt64(opt: Int64Policy, i: Int64): RValue {
    if opt == Always then Vec(INTEGER64, [Int64Bits(i)])
    else if IsCastable(i) then Vec(INTSXP, [Int(ToInt32(i))])
    else
      match opt
      case AsDouble => Vec(REALSXP, [Real(ToDouble(i))])
      case AsString => Vec(STRSXP, [Charsxp(IntText(i))])
      case AsInteger64 => Vec(INTEGER64, [Int64Bits(i)])
  }

  /** A scalar on its own becomes a vector of length one; null becomes what the caller chose. */
  function Lone(j: Json, o: Options): RValue
    requires IsScalar(j)
  {
    match j
    case Str(text) => Vec(STRSXP, [Charsxp(text)])
    case Dbl(d) => Vec(REALSXP, [Real(d)])
    case I64(i) => ResolveInt64(o.int64, i)
    case U64(u) => Vec(STRSXP, [Charsxp(IntText(u))])
    case Bool(b) => Vec(LGLSXP, [Lgl(Flag(b))])
    case Null => Given(o.singleNull)
  }
}
