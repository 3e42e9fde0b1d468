/** The columns of a data frame: discovery, lookup and type evidence (dataframe.hpp). */
module DataFrames {
  import opened Values
  import opened TypeDoctors

  predicate AllObjects(rows: seq<Json>) {
    forall i | 0 <= i < |rows| :: rows[i].Obj?
  }

  /** All fields of all rows, in document order. */
  function Fields(rows: seq<Json>): seq<Member>
    requires AllObjects(rows)
  {
    if rows == [] then [] else Fields(rows[..|rows| - 1]) + rows[|rows| - 1].members
  }

  /** The distinct keys of the fields, in order of first appearance. */
  function ColumnKeys(fields: seq<Member>): seq<Bytes> {
    if fields == [] then []
    else
      var keys := ColumnKeys(fields[..|fields| - 1]);
      var key := fields[|fields| - 1].key;
      if key in keys then keys else keys + [key]
  }

  /** Every value found under a key, repeated occurrences included. */
  function ValuesUnder(fields: seq<Member>, key: Bytes): seq<Json> {
    if fields == [] then []
    else
      var last := fields[|fields| - 1];
      ValuesUnder(fields[..|fields| - 1], key) + if last.key == key then [last.value] else []
  }

  predicate Distinct(keys: seq<Bytes>) {
    forall i, j | 0 <= i < j < |keys| :: keys[i] != keys[j]
  }

  lemma {:induction false} ColumnKeysAre(fields: seq<Member>)
    ensures Distinct(ColumnKeys(fields))
    ensures forall key :: key in ColumnKeys(fields) <==> exists i :: 0 <= i < |fields| && fields[i].key == key
  {
    if fields != [] {
      var rest, last := fields[..|fields| - 1], fields[|fields| - 1];
      ColumnKeysAre(rest);
      forall key ensures key in ColumnKeys(fields) <==> exists i :: 0 <= i < |fields| && fields[i].key == key {
        if key in ColumnKeys(fields) {
          if key in ColumnKeys(rest) {
            var i :| 0 <= i < |rest| && rest[i].key == key;
            assert fields[i].key == key;
          } else {
            assert fields[|fields| - 1].key == key;
          }
        }
        if i :| 0 <= i < |fields| && fields[i].key == key {
          if i < |rest| {
            assert rest[i].key == key;
          }
        }
      }
    }
  }

  /** Columns are ordered by where their key first appears. */
  lemma {:induction false} ColumnKeysInOrder(fields: seq<Member>, i: nat, j: nat)
    requires i < j < |ColumnKeys(fields)|
    ensures 0 <= FirstIndex(fields, ColumnKeys(fields)[i]) < FirstIndex(fields, ColumnKeys(fields)[j])
  {
    var rest, last := fields[..|fields| - 1], fields[|fields| - 1];
    var keys := ColumnKeys(rest);
    ColumnKeysAre(rest);
    if j < |keys| {
      ColumnKeysInOrder(rest, i, j);
    } else {
      assert keys[i] in keys;
      assert last.key !in keys;
    }
  }

  lemma AppendField(fields: seq<Member>, field: Member)
    ensures ColumnKeys(fields + [field]) ==
              if field.key in ColumnKeys(fields) then ColumnKeys(fields) else ColumnKeys(fields) + [field.key]
    ensures forall key :: ValuesUnder(fields + [field], key) ==
              ValuesUnder(fields, key) + if field.key == key then [field.value] else []
  {
    assert (fields + [field])[..|fields|] == fields;
  }

  lemma {:induction false} NoValues(fields: seq<Member>, key: Bytes)
    requires key !in ColumnKeys(fields)
    ensures ValuesUnder(fields, key) == []
  {
    if fields != [] {
      NoValues(fields[..|fields| - 1], key);
    }
  }

  /** Each column has the doctor of exactly the values found under its key. */
  ghost predicate Doctors(opt: Int64Policy, keys: seq<Bytes>, schema: seq<Flags>, fields: seq<Member>) {
    && |schema| == |keys|
    && forall j | 0 <= j < |keys| :: schema[j] == Evidence(opt, ValuesUnder(fields, keys[j]))
  }

  lemma NewColumn(opt: Int64Policy, keys: seq<Bytes>, schema: seq<Flags>, fields: seq<Member>, key: Bytes)
    requires Doctors(opt, keys, schema, fields) && key !in ColumnKeys(fields)
    ensures Doctors(opt, keys + [key], schema + [Evidence(opt, [])], fields)
  {
    NoValues(fields, key);
  }

  lemma RouteField(opt: Int64Policy, keys: seq<Bytes>, schema: seq<Flags>, fields: seq<Member>, field: Member, col: nat)
    requires Distinct(keys) && Doctors(opt, keys, schema, fields) && col < |keys| && keys[col] == field.key
    ensures Doctors(opt, keys, schema[col := Raised(opt, schema[col], field.value)], fields + [field])
  {
    AppendField(fields, field);
    AddIsAppend(opt, ValuesUnder(fields, field.key), field.value);
    var next := schema[col := Raised(opt, schema[col], field.value)];
    forall j | 0 <= j < |keys| ensures next[j] == Evidence(opt, ValuesUnder(fields + [field], keys[j])) {
      if j != col {
        assert keys[j] != keys[col];
        assert ValuesUnder(fields + [field], keys[j]) == ValuesUnder(fields, keys[j]);
      }
    }
  }

  lemma {:induction false} UnderKey(fields: seq<Member>, k: nat)
    requires k < |fields|
    ensures fields[k].value in ValuesUnder(fields, fields[k].key)
  {
    if k < |fields| - 1 {
      UnderKey(fields[..|fields| - 1], k);
    }
  }

  lemma {:induction false} FromKey(fields: seq<Member>, key: Bytes, value: Json)
    requires value in ValuesUnder(fields, key)
    ensures Member(key, value) in fields
  {
    var last := fields[|fields| - 1];
    if last != Member(key, value) {
      FromKey(fields[..|fields| - 1], key, value);
    }
  }

  /** Row by row, and in each row field by field, all fields are there, in document order. */
  lemma {:induction false} FieldsInOrder(rows: seq<Json>, i: nat, k: nat)
    requires AllObjects(rows) && i < |rows| && k < |rows[i].members|
    ensures var p := |Fields(rows[..i])| + k; p < |Fields(rows)| && Fields(rows)[p] == rows[i].members[k]
  {
    var rest := rows[..|rows| - 1];
    if i < |rest| {
      FieldsInOrder(rest, i, k);
      assert rest[..i] == rows[..i];
    } else {
      assert rows[..i] == rest;
    }
  }

  lemma {:induction false} RowOfField(rows: seq<Json>, p: nat) returns (i: nat, k: nat)
    requires AllObjects(rows) && p < |Fields(rows)|
    ensures i < |rows| && k < |rows[i].members| && rows[i].members[k] == Fields(rows)[p]
  {
    var rest := rows[..|rows| - 1];
    if p < |Fields(rest)| {
      i, k := RowOfField(rest, p);
    } else {
      i, k := |rest|, p - |Fields(rest)|;
    }
  }

  /** The values of a column are those of exactly the fields with its key, in whichever row. */
  lemma ValuesUnderAre(rows: seq<Json>, key: Bytes, value: Json)
    requires AllObjects(rows)
    ensures value in ValuesUnder(Fields(rows), key) <==>
              exists i, k :: 0 <= i < |rows| && 0 <= k < |rows[i].members| && rows[i].members[k] == Member(key, value)
  {
    if value in ValuesUnder(Fields(rows), key) {
      FromKey(Fields(rows), key, value);
      var p :| 0 <= p < |Fields(rows)| && Fields(rows)[p] == Member(key, value);
      var i, k := RowOfField(rows, p);
    }
    if i, k :| 0 <= i < |rows| && 0 <= k < |rows[i].members| && rows[i].members[k] == Member(key, value) {
      ValueOfRow(rows, i, k);
    }
  }

  /** Every value of a row is among the values of its column. */
  lemma ValueOfRow(rows: seq<Json>, i: nat, k: nat)
    requires AllObjects(rows) && i < |rows| && k < |rows[i].members|
    ensures rows[i].members[k].value in ValuesUnder(Fields(rows), rows[i].members[k].key)
  {
    FieldsInOrder(rows, i, k);
    UnderKey(Fields(rows), |Fields(rows[..i])| + k);
  }

  const MIN_HASHED_COLUMNS: nat := 16

  /** same_key(): a byte-by-byte comparison. */
  method SameKey(a: Bytes, b: Bytes) returns (same: bool)
    ensures same <==> a == b
  {
    if |a| != |b| {
      return false;
    }
    for i := 0 to |a|
      invariant a[..i] == b[..i]
    {
      if a[i] != b[i] {
        return false;
      }
    }
    return true;
  }

  /** Every row has exactly the keys of the columns, in their order. */
  predicate Regular(rows: seq<Json>, keys: seq<Bytes>)
    requires AllObjects(rows)
  {
    forall i | 0 <= i < |rows| :: KeysOf(rows[i].members) == keys
  }

  lemma FieldsSnoc(rows: seq<Json>, row: Json)
    requires AllObjects(rows) && row.Obj?
    ensures AllObjects(rows + [row]) && Fields(rows + [row]) == Fields(rows) + row.members
  {
    assert (rows + [row])[..|rows|] == rows;
  }

  lemma RowKeysAreColumns(rows: seq<Json>, r: nat)
    requires AllObjects(rows) && r < |rows|
    ensures forall key | key in KeysOf(rows[r].members) :: key in ColumnKeys(Fields(rows))
  {
    var members := rows[r].members;
    ColumnKeysAre(Fields(rows));
    forall key | key in KeysOf(members) ensures key in ColumnKeys(Fields(rows)) {
      var k :| 0 <= k < |members| && KeysOf(members)[k] == key;
      FieldsInOrder(rows, r, k);
    }
  }

  lemma LongerHasMore(short: seq<Bytes>, long: seq<Bytes>)
    requires Distinct(long) && short <= long
    ensures (forall key | key in long :: key in short) ==> short == long
  {
    if short != long {
      assert long[|short|] in long;
      assert long[|short|] !in short;
    }
  }

  lemma NewColumnsFromRow(rows: seq<Json>, row: Json)
    requires AllObjects(rows) && row.Obj?
    ensures forall key | key in ColumnKeys(Fields(rows + [row])) ::
              key in ColumnKeys(Fields(rows)) || key in KeysOf(row.members)
  {
    var before, after := Fields(rows), Fields(rows + [row]);
    FieldsSnoc(rows, row);
    ColumnKeysAre(before);
    ColumnKeysAre(after);
    forall key | key in ColumnKeys(after) ensures key in ColumnKeys(before) || key in KeysOf(row.members) {
      var k :| 0 <= k < |after| && after[k].key == key;
      if k < |before| {
        assert before[k].key == key;
      } else {
        assert KeysOf(row.members)[k - |before|] == key;
      }
    }
  }

  /** How one more row decides regularity: it repeats the columns, adds none, and is as long as the first row. */
  lemma RegularStep(rows: seq<Json>, row: Json, keys0: seq<Bytes>, keys1: seq<Bytes>)
    requires AllObjects(rows) && row.Obj? && AllObjects(rows + [row])
    requires keys0 == ColumnKeys(Fields(rows)) && keys1 == ColumnKeys(Fields(rows + [row])) && keys0 <= keys1
    ensures Regular(rows + [row], keys1)
            <==> Regular(rows, keys0) && KeysOf(row.members) <= keys1 && |row.members| == |(rows + [row])[0].members|
  {
    var rows1, own := rows + [row], KeysOf(row.members);
    ColumnKeysAre(Fields(rows1));
    NewColumnsFromRow(rows, row);
    LongerHasMore(keys0, keys1);
    assert rows1[|rows|] == row;
    if Regular(rows, keys0) && own <= keys1 && |row.members| == |rows1[0].members| {
      if rows != [] {
        assert KeysOf(rows[0].members) == keys0;
        assert own == keys0;
      }
      LongerHasMore(own, keys1);
      assert own == keys1;
    }
    if Regular(rows1, keys1) {
      assert KeysOf(rows1[0].members) == keys1 && KeysOf(rows1[|rows|].members) == keys1;
      if rows != [] {
        RowKeysAreColumns(rows, 0);
        forall r | 0 <= r < |rows| ensures KeysOf(rows[r].members) == keys0 {
          assert rows1[r] == rows[r];
        }
      }
    }
  }

  lemma PrefixStep(members: seq<Member>, pos: nat, keys0: seq<Bytes>, keys1: seq<Bytes>)
    requires pos < |members| && keys0 <= keys1 && |keys1| <= |keys0| + 1
    ensures KeysOf(members[..pos + 1]) <= keys1
            <==> KeysOf(members[..pos]) <= keys0 && pos < |keys1| && keys1[pos] == members[pos].key
  {
    assert KeysOf(members[..pos + 1]) == KeysOf(members[..pos]) + [members[pos].key];
  }

  class ColumnSchema {
    const opt: Int64Policy
    var index: map<Bytes, int>  // column by key, from MIN_HASHED_COLUMNS columns on
    var keys: seq<Bytes>        // column `j` has key `keys[j]`
    var schema: seq<Flags>      // and the doctor `schema[j]`
    var isRegular: bool

    /** The keys are distinct, and the hash index is empty or complete. */
    ghost predicate Valid()
      reads this
    {
      && Distinct(keys)
      && |schema| == |keys|
      && (if |keys| < MIN_HASHED_COLUMNS then index == map[] else IsIndexOf(index, keys))
    }

    static ghost predicate IsIndexOf(index: map<Bytes, int>, keys: seq<Bytes>) {
      && (forall key | key in index :: key in keys)
      && (forall j | 0 <= j < |keys| :: keys[j] in index && index[keys[j]] == j)
    }

    constructor (opt: Int64Policy)
      ensures Valid() && this.opt == opt && keys == [] && isRegular
    {
      this.opt := opt;
      index, keys, schema, isRegular := map[], [], [], true;
    }

    /** The column of a key, or -1. `pos` is only a guess and cannot change the answer. */
    method Find(key: Bytes, pos: nat) returns (col: int)
      requires Valid()
      ensures -1 <= col < |keys|
      ensures col >= 0 ==> keys[col] == key
      ensures col == -1 <==> key !in keys
    {
      if pos < |keys| {
        var same := SameKey(keys[pos], key);
        if same {
          return pos;
        }
      }
      if |keys| < MIN_HASHED_COLUMNS {
        for j := 0 to |keys|
          invariant key !in keys[..j]
        {
          var same := SameKey(keys[j], key);
          if same {
            return j;
          }
        }
        return -1;
      }
      return if key in index then index[key] else -1;
    }

    /** Fills the empty index with every column. */
    method IndexAll()
      requires Distinct(keys) && index == map[]
      modifies this`index
      ensures IsIndexOf(index, keys)
    {
      for j := 0 to |keys|
        invariant IsIndexOf(index, keys[..j])
      {
        if keys[j] !in index {
          index := index[keys[j] := j];
        }
      }
      assert keys[..|keys|] == keys;
    }

    /** Appends a column for a key that has none, and indexes it if the schema is wide. */
    method Add(key: Bytes) returns (col: int)
      requires Valid() && key !in keys
      modifies this
      ensures Valid() && isRegular == old(isRegular)
      ensures keys == old(keys) + [key] && col == |old(keys)|
      ensures schema == old(schema) + [Evidence(opt, [])]
    {
      col := |keys|;
      assert Evidence(opt, []) == Flags({}, {});
      keys := keys + [key];
      schema := schema + [Flags({}, {})];
      if |keys| == MIN_HASHED_COLUMNS {
        IndexAll();
      } else if |keys| > MIN_HASHED_COLUMNS {
        if key !in index {
          index := index[key := col];
        }
      }
    }

    /** The columns and their doctors are those of exactly the fields `fs`. */
    ghost predicate Describes(fs: seq<Member>)
      reads this
    {
      && keys == ColumnKeys(fs)
      && Doctors(opt, keys, schema, fs)
    }

    /** Routes one field to its column, adding the column if it is new. */
    method ScanField(field: Member, pos: nat, ghost fs: seq<Member>)
      requires Valid() && Describes(fs)
      modifies this
      ensures Valid() && Describes(fs + [field])
      ensures old(keys) <= keys && |keys| <= |old(keys)| + 1
      ensures isRegular <==> old(isRegular) && pos < |keys| && keys[pos] == field.key
    {
      hide Evidence, Doctors, IsIndexOf;
      var col := Find(field.key, pos);
      AppendField(fs, field);
      if col < 0 {
        NewColumn(opt, keys, schema, fs, field.key);
        col := Add(field.key);
      }
      isRegular := isRegular && col == pos;
      RouteField(opt, keys, schema, fs, field, col);
      schema := schema[col := Raised(opt, schema[col], field.value)];
    }

    method ScanRow(members: seq<Member>, ghost fs: seq<Member>)
      requires Valid() && Describes(fs)
      modifies this
      ensures Valid() && Describes(fs + members)
      ensures old(keys) <= keys
      ensures isRegular <==> old(isRegular) && KeysOf(members) <= keys
    {
      assert fs + members[..0] == fs;
      for pos := 0 to |members|
        invariant Valid() && Describes(fs + members[..pos])
        invariant old(keys) <= keys
        invariant isRegular <==> old(isRegular) && KeysOf(members[..pos]) <= keys
      {
        ghost var keys0 := keys;
        ScanField(members[pos], pos, fs + members[..pos]);
        PrefixStep(members, pos, keys0, keys);
        assert fs + members[..pos + 1] == (fs + members[..pos]) + [members[pos]];
      }
      assert members[..|members|] == members;
    }

    /** One more row: its fields are routed, and its keys and length decide whether the rows are still regular. */
    method AddRow(row: Json, firstRowLength: nat, ghost rows: seq<Json>)
      requires row.Obj? && AllObjects(rows) && Valid() && Describes(Fields(rows))
      requires isRegular <==> Regular(rows, keys)
      requires firstRowLength == |(rows + [row])[0].members|
      modifies this
      ensures AllObjects(rows + [row]) && Valid() && Describes(Fields(rows + [row]))
      ensures isRegular <==> Regular(rows + [row], keys)
    {
      ghost var keys0 := keys;
      FieldsSnoc(rows, row);
      ScanRow(row.members, Fields(rows));
      isRegular := isRegular && |row.members| == firstRowLength;
      RegularStep(rows, row, keys0, keys);
    }
  }

  /**
   * One pass over the rows. An array with anything but objects in it is not a data frame. Otherwise the columns
   * are the distinct keys, each with the doctor of all its values, and the regularity flag is exact.
   */
  method DiagnoseDataFrame(opt: Int64Policy, rows: seq<Json>) returns (cols: ColumnSchema?)
    ensures cols == null <==> !AllObjects(rows)
    ensures cols != null ==>
              && fresh(cols) && cols.opt == opt && cols.Valid() && cols.Describes(Fields(rows))
              && (cols.isRegular <==> Regular(rows, cols.keys))
  {
    cols := new ColumnSchema(opt);
    var firstRowLength: Option<nat> := None;
    for i := 0 to |rows|
      invariant AllObjects(rows[..i])
      invariant fresh(cols) && cols.opt == opt && cols.Valid() && cols.Describes(Fields(rows[..i]))
      invariant firstRowLength == if i == 0 then None else Some(|rows[0].members|)
      invariant cols.isRegular <==> Regular(rows[..i], cols.keys)
    {
      if !rows[i].Obj? {
        return null;
      }
      var rowLength := |rows[i].members|;
      if firstRowLength == None {
        firstRowLength := Some(rowLength);
      }
      cols.AddRow(rows[i], firstRowLength.value, rows[..i]);
      assert rows[..i] + [rows[i]] == rows[..i + 1];
    }
    assert rows[..|rows|] == rows;
  }
}
