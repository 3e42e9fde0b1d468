/** The values on both sides of the simplifier: parsed JSON trees, R objects, and the caller's options. */
module Values {

  type Byte = b: int | 0 <= b < 0x100
  type Bytes = seq<Byte>

  type Int64 = i: int | -0x8000_0000_0000_0000 <= i < 0x8000_0000_0000_0000
  type UInt64 = i: int | 0 <= i < 0x1_0000_0000_0000_0000
  type Int32 = i: int | -0x8000_0000 <= i < 0x8000_0000

  type Magnitude = r: real | r >= 0.0

  /** A finite double: its sign bit (negative zero is a value of its own) and its exact magnitude. */
  datatype Double = Double(negative: bool, magnitude: Magnitude)

  /** A parsed JSON element. Objects keep their members in order and may repeat a key. */
  datatype Json =
    | Arr(elems: seq<Json>)
    | Obj(members: seq<Member>)
    | Str(text: Bytes)
    | Dbl(d: Double)
    | I64(i: Int64)
    | U64(u: UInt64)
    | Bool(b: bool)
    | Null

  datatype Member = Member(key: Bytes, value: Json)

  /** Sizes are counted in 24 bits: a container of more elements than this reports just this many. */
  const MAX_COUNT: nat := 0xFF_FFFF

  /** The size that a container of `n` elements reports. */
  function Counted(n: nat): nat {
    if n > MAX_COUNT then MAX_COUNT else n
  }

  predicate IsScalar(j: Json) {
    !j.Arr? && !j.Obj?
  }

  function KeysOf(members: seq<Member>): (keys: seq<Bytes>)
    ensures |keys| == |members|
  {
    seq(|members|, i requires 0 <= i < |members| => members[i].key)
  }

  /** Where a name first occurs, or -1. */
  function FirstPosition(names: seq<Bytes>, key: Bytes): (r: int)
    ensures -1 <= r < |names|
    ensures r == -1 ==> key !in names
    ensures r >= 0 ==> names[r] == key && key !in names[..r]
  {
    if names == [] then -1
    else
      var r := FirstPosition(names[..|names| - 1], key);
      if r >= 0 then r else if names[|names| - 1] == key then |names| - 1 else -1
  }

  /** The position of the first member named `key`, or -1: what one key lookup by name finds. */
  function FirstIndex(members: seq<Member>, key: Bytes): (r: int)
    ensures -1 <= r < |members|
    ensures r == -1 ==> forall i | 0 <= i < |members| :: members[i].key != key
    ensures r >= 0 ==> members[r].key == key && forall i | 0 <= i < r :: members[i].key != key
  {
    var keys := KeysOf(members);
    assert forall i | 0 <= i < |members| :: members[i].key == keys[i];
    var r := FirstPosition(keys, key);
    assert r >= 0 ==> forall i | 0 <= i < r :: keys[i] == keys[..r][i];
    r
  }

  /** The policies that decide the R type of an array of scalars. */
  datatype TypePolicy = AnythingGoes | IntsAsDbls | Strict

  datatype Int64Policy = AsDouble | AsString | AsInteger64 | Always

  datatype SimplifyTo = ToDataFrame | ToMatrix | ToVector | ToList

  /** An R object handed in by the caller and handed back untouched. */
  datatype Foreign = Foreign(id: int)

  datatype Options = Options(
    policy: TypePolicy,
    int64: Int64Policy,
    simplifyTo: SimplifyTo,
    emptyArray: Foreign,
    emptyObject: Foreign,
    singleNull: Foreign)

  /** The R vector types that are built; INTEGER64 is a REALSXP whose payload is 64-bit integers. */
  datatype VecKind = STRSXP | REALSXP | INTSXP | LGLSXP | INTEGER64 | VECSXP

  const NA_INTEGER: Int32 := -0x8000_0000
  const NA_INTEGER64: Int64 := -0x8000_0000_0000_0000

  /** One element of an R vector. NA_STRING and NA_REAL are values apart; the integer NAs are bit patterns. */
  datatype Cell =
    | NaString
    | Charsxp(bytes: Bytes)
    | NaReal
    | Real(d: Double)
    | Int(i: Int32)
    | Lgl(l: Int32)
    | Int64Bits(bits: Int64)
    | Ref(value: RValue)

  datatype RValue =
    | Vec(kind: VecKind, cells: seq<Cell>)
    | Mat(kind: VecKind, cells: seq<Cell>, nRows: nat, nCols: nat)
    | Named(names: seq<Bytes>, cells: seq<Cell>)
    | Frame(names: seq<Bytes>, columns: seq<RValue>, nRows: nat)
    | Given(object: Foreign)

  predicate IsNA(c: Cell) {
    match c
    case NaString => true
    case NaReal => true
    case Int(i) => i == NA_INTEGER
    case Lgl(l) => l == NA_INTEGER
    case Int64Bits(b) => b == NA_INTEGER64
    case _ => false
  }

  /** Making a CHARSXP from bytes with an embedded nul throws, and that ends the whole call. */
  datatype Error = EmbeddedNul

  datatype Result<+T> = Success(value: T) | Failure(error: Error) {
    predicate IsFailure() { Failure? }
    function PropagateFailure<U>(): Result<U> requires Failure? { Failure(error) }
    function Extract(): T requires Success? { value }
  }

  datatype Option<+T> = None | Some(value: T)

  predicate EmbedsNul(text: Bytes) {
    0 in text
  }

  /** The outcome of making an R string from bytes. */
  function Made(text: Bytes): Result<Bytes> {
    if EmbedsNul(text) then Failure(EmbeddedNul) else Success(text)
  }

  /** Making a string is refused exactly for a zero byte, and otherwise gives the very bytes. */
  lemma MadeExactly(text: Bytes)
    ensures Made(text).Failure? <==> exists k :: 0 <= k < |text| && text[k] == 0
    ensures Made(text).Success? ==> Made(text).value == text
  {
  }

  /** Some CHARSXP inside `r` would hold a nul byte. */
  ghost predicate HasNul(r: RValue)
  {
    match r
    case Vec(_, cells) => exists i :: 0 <= i < |cells| && CellHasNul(cells[i])
    case Mat(_, cells, _, _) => exists i :: 0 <= i < |cells| && CellHasNul(cells[i])
    case Named(names, cells) =>
      || (exists i :: 0 <= i < |names| && EmbedsNul(names[i]))
      || (exists i :: 0 <= i < |cells| && CellHasNul(cells[i]))
    case Frame(names, columns, _) =>
      || (exists i :: 0 <= i < |names| && EmbedsNul(names[i]))
      || (exists i :: 0 <= i < |columns| && HasNul(columns[i]))
    case Given(_) => false
  }

  ghost predicate CellHasNul(c: Cell)
  {
    match c
    case Charsxp(bytes) => EmbedsNul(bytes)
    case Ref(value) => HasNul(value)
    case _ => false
  }

  /** The outcome of building `r`: it is returned unless one of its strings cannot be made. */
  ghost function Checked(r: RValue): Result<RValue>
  {
    if HasNul(r) then Failure(EmbeddedNul) else Success(r)
  }
}
