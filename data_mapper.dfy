/**
 * Stored-procedure parameter preparation and result mapping
 * (Server/LuciferCore/Database/DataMapper.cs and its older copy
 * Server/LuciferCore/Databasse/DataMapper.cs): keys gain a leading '@', null
 * becomes DBNull, a DataTable argument (in the first copy only) becomes the single
 * table-valued parameter, and the first column of a result table is read as a
 * list of scalars. Reflection over public properties is replaced by the explicit
 * list of (name, value) pairs it would produce; Convert.ChangeType is the
 * parameter `convert`, with None for a conversion that throws.
 */
module DataMappers {
  import opened Wrappers
  import opened Text

  /**
   * The values that travel as parameters and come back in result cells. A DataTable
   * is represented by its TableName and DisplayExpression, the two properties its
   * text is made of.
   */
  datatype Value = Null | DBNull | Str(s: string) | Int(i: int) | Table(tableName: string, displayExpression: string)

  /** The argument of ToParameterDictionary(object), by its runtime type. */
  datatype Argument =
    | DictionaryArg(entries: seq<(string, Value)>)
    | DataTableArg(table: Value, properties: seq<(string, Value)>)
    | ObjectArg(properties: seq<(string, Value)>)

  const TableParam: string := "@TableParam"

  /** NormalizeKey: prefix '@' unless the key already starts with it. */
  function NormalizeKey(key: string): (r: string)
    ensures |r| > 0 && r[0] == '@'
    ensures r == key <==> StartsWith(key, "@")
    ensures r == key || r == "@" + key
  {
    if StartsWith(key, "@") then key else "@" + key
  }

  lemma NormalizeKeyIdempotent(key: string)
    ensures NormalizeKey(NormalizeKey(key)) == NormalizeKey(key)
  {
  }

  /** Two different keys normalise alike exactly when one is the other with '@' in front. */
  lemma KeysCollide(a: string, b: string)
    requires a != b
    ensures NormalizeKey(a) == NormalizeKey(b) <==> (a == "@" + b && !StartsWith(b, "@")) || (b == "@" + a && !StartsWith(a, "@"))
  {
    assert ("@" + a)[1..] == a && ("@" + b)[1..] == b;
    if a == "@" + b {
      assert StartsWith(a, "@");
    }
    if b == "@" + a {
      assert StartsWith(b, "@");
    }
  }

  /** NormalizeValue: null becomes DBNull; every other value is kept. */
  function NormalizeValue(v: Value): (r: Value)
    ensures r != Null
    ensures v != Null ==> r == v
  {
    if v.Null? then DBNull else v
  }

  // ---------------------------------------------------------------- building parameters

  /** The normalised keys of `pairs`, in order. */
  function Keys(pairs: seq<(string, Value)>): (ks: seq<string>)
    ensures |ks| == |pairs|
    ensures forall i :: 0 <= i < |pairs| ==> ks[i] == NormalizeKey(pairs[i].0)
  {
    if pairs == [] then [] else Keys(pairs[..|pairs| - 1]) + [NormalizeKey(pairs[|pairs| - 1].0)]
  }

  predicate Distinct(ks: seq<string>)
  {
    forall i, j :: 0 <= i < j < |ks| ==> ks[i] != ks[j]
  }

  lemma DistinctPush(ks: seq<string>, k: string)
    ensures Distinct(ks + [k]) <==> Distinct(ks) && k !in ks
  {
    if Distinct(ks + [k]) {
      assert forall i, j :: 0 <= i < j < |ks| ==> ks[i] == (ks + [k])[i] && ks[j] == (ks + [k])[j];
      forall i | 0 <= i < |ks|
        ensures ks[i] != k
      {
        assert (ks + [k])[i] == ks[i] && (ks + [k])[|ks|] == k;
      }
    }
  }

  /**
   * Enumerable.ToDictionary with normalised keys and values: entries are added in
   * order and a key already present throws ArgumentException.
   */
  function ToDictionary(pairs: seq<(string, Value)>): (r: Result<map<string, Value>>)
    ensures r.Failure? ==> r.error == "ArgumentException"
  {
    if pairs == [] then Success(map[])
    else
      match ToDictionary(pairs[..|pairs| - 1])
      case Failure(e) => Failure(e)
      case Success(m) =>
        var k := NormalizeKey(pairs[|pairs| - 1].0);
        if k in m then Failure("ArgumentException")
        else Success(m[k := NormalizeValue(pairs[|pairs| - 1].1)])
  }

  /**
   * ToDictionary succeeds exactly when the normalised keys are pairwise different;
   * then it maps exactly those keys, each to its own normalised value.
   */
  lemma {:induction false} ToDictionaryMeaning(pairs: seq<(string, Value)>)
    ensures ToDictionary(pairs).Success? <==> Distinct(Keys(pairs))
    ensures ToDictionary(pairs).Success? ==> forall k :: k in ToDictionary(pairs).value <==> k in Keys(pairs)
    ensures ToDictionary(pairs).Success? ==>
              forall i :: 0 <= i < |pairs| ==> ToDictionary(pairs).value[Keys(pairs)[i]] == NormalizeValue(pairs[i].1)
  {
    if pairs != [] {
      var init := pairs[..|pairs| - 1];
      var k := NormalizeKey(pairs[|pairs| - 1].0);
      ToDictionaryMeaning(init);
      assert Keys(pairs) == Keys(init) + [k];
      DistinctPush(Keys(init), k);
      if ToDictionary(pairs).Success? {
        var m := ToDictionary(init).value;
        assert ToDictionary(pairs).value == m[k := NormalizeValue(pairs[|pairs| - 1].1)];
        forall i | 0 <= i < |pairs| - 1
          ensures ToDictionary(pairs).value[Keys(pairs)[i]] == NormalizeValue(pairs[i].1)
        {
          assert Keys(pairs)[i] == Keys(init)[i] && pairs[i] == init[i];
          assert Keys(init)[i] in m;
        }
      }
    }
  }

  /** The last index of `ks` holding the same key as index `i`. */
  predicate LastOccurrence(ks: seq<string>, i: int)
    requires 0 <= i < |ks|
  {
    forall j :: i < j < |ks| ==> ks[j] != ks[i]
  }

  /** The dictionary the property loop builds: one assignment per property, later ones winning. */
  function PropertyMap(properties: seq<(string, Value)>): map<string, Value>
  {
    if properties == [] then map[]
    else PropertyMap(properties[..|properties| - 1])[NormalizeKey(properties[|properties| - 1].0) := NormalizeValue(properties[|properties| - 1].1)]
  }

  /**
   * The property loop never fails: it maps exactly the normalised names, and a
   * name given twice keeps the value of its last assignment.
   */
  lemma {:induction false} PropertyMapMeaning(properties: seq<(string, Value)>)
    ensures forall k :: k in PropertyMap(properties) <==> k in Keys(properties)
    ensures forall i :: 0 <= i < |properties| && LastOccurrence(Keys(properties), i) ==>
              PropertyMap(properties)[Keys(properties)[i]] == NormalizeValue(properties[i].1)
  {
    PropertyMapDomain(properties);
    forall i | 0 <= i < |properties| && LastOccurrence(Keys(properties), i)
      ensures PropertyMap(properties)[Keys(properties)[i]] == NormalizeValue(properties[i].1)
    {
      LastAssignmentWins(properties, i);
    }
  }

  /** The property loop maps exactly the normalised names. */
  lemma {:induction false} PropertyMapDomain(properties: seq<(string, Value)>)
    ensures forall k :: k in PropertyMap(properties) <==> k in Keys(properties)
  {
    if properties != [] {
      var init := properties[..|properties| - 1];
      PropertyMapDomain(init);
      assert Keys(properties) == Keys(init) + [NormalizeKey(properties[|properties| - 1].0)];
    }
  }

  /** The assignment at index `i`, when no later one has the same name, is the value kept. */
  lemma {:induction false} LastAssignmentWins(properties: seq<(string, Value)>, i: int)
    requires 0 <= i < |properties| && LastOccurrence(Keys(properties), i)
    ensures Keys(properties)[i] in PropertyMap(properties)
    ensures PropertyMap(properties)[Keys(properties)[i]] == NormalizeValue(properties[i].1)
  {
    var init, n := properties[..|properties| - 1], |properties| - 1;
    var x, k := NormalizeKey(properties[i].0), NormalizeKey(properties[n].0);
    assert PropertyMap(properties) == PropertyMap(init)[k := NormalizeValue(properties[n].1)];
    if i < n {
      assert Keys(properties)[n] != Keys(properties)[i];
      assert LastOccurrence(Keys(init), i) by {
        forall j | i < j < |init|
          ensures Keys(init)[j] != Keys(init)[i]
        {
          assert Keys(properties)[j] != Keys(properties)[i];
        }
      }
      LastAssignmentWins(init, i);
      assert init[i] == properties[i];
    }
  }

  /** With pairwise different keys, the dictionary branch and the property loop build the same map. */
  lemma {:induction false} DictionaryMatchesProperties(pairs: seq<(string, Value)>)
    requires Distinct(Keys(pairs))
    ensures ToDictionary(pairs) == Success(PropertyMap(pairs))
  {
    if pairs != [] {
      var init := pairs[..|pairs| - 1];
      assert Keys(pairs) == Keys(init) + [NormalizeKey(pairs[|pairs| - 1].0)];
      DistinctPush(Keys(init), NormalizeKey(pairs[|pairs| - 1].0));
      DictionaryMatchesProperties(init);
      ToDictionaryMeaning(init);
    }
  }

  /** The object branch: assign each reflected property under its normalised name. */
  method FromProperties(properties: seq<(string, Value)>) returns (result: map<string, Value>)
    ensures result == PropertyMap(properties)
  {
    result := map[];
    for i := 0 to |properties|
      invariant result == PropertyMap(properties[..i])
    {
      assert properties[..i + 1][..i] == properties[..i];
      var (name, value) := properties[i];
      result := result[NormalizeKey(name) := NormalizeValue(value)];
    }
    assert properties[..|properties|] == properties;
  }

  /**
   * ToParameterDictionary(object) of Server/LuciferCore/Database/DataMapper.cs: a
   * dictionary through ToDictionary, a DataTable as the single "@TableParam" entry,
   * any other object through its properties.
   */
  method ToParameterDictionary(arg: Argument) returns (r: Result<map<string, Value>>)
    ensures arg.DictionaryArg? ==> r == ToDictionary(arg.entries)
    ensures arg.DataTableArg? ==> r == Success(map[TableParam := arg.table])
    ensures arg.ObjectArg? ==> r == Success(PropertyMap(arg.properties))
  {
    match arg
    case DictionaryArg(entries) =>
      r := ToDictionary(entries);
    case DataTableArg(table, _) =>
      r := Success(map[TableParam := table]);
    case ObjectArg(properties) =>
      var m := FromProperties(properties);
      r := Success(m);
  }

  /**
   * ToParameterDictionary(object) of Server/LuciferCore/Databasse/DataMapper.cs: the
   * same, except that a DataTable has no case of its own and is reflected over its
   * public properties like any other object.
   */
  method ToParameterDictionaryOld(arg: Argument) returns (r: Result<map<string, Value>>)
    ensures arg.DictionaryArg? ==> r == ToDictionary(arg.entries)
    ensures !arg.DictionaryArg? ==> r == Success(PropertyMap(arg.properties))
  {
    if arg.DictionaryArg? {
      r := ToDictionary(arg.entries);
    } else {
      var m := FromProperties(arg.properties);
      r := Success(m);
    }
  }

  /**
   * The two copies part ways on a DataTable: the current one passes the table itself
   * under "@TableParam"; the old one passes its properties, so unless a property is
   * named "TableParam" or "@TableParam" the table is not passed at all.
   */
  lemma CopiesDifferOnTables(table: Value, properties: seq<(string, Value)>)
    requires forall i :: 0 <= i < |properties| ==> NormalizeKey(properties[i].0) != TableParam
    ensures TableParam !in PropertyMap(properties)
  {
    PropertyMapMeaning(properties);
  }

  /** "x" and "@x" in one argument list make ToDictionary throw. */
  lemma AtAndBareCollide(key: string, v: Value, w: Value)
    requires !StartsWith(key, "@")
    ensures ToDictionary([(key, v), ("@" + key, w)]) == Failure("ArgumentException")
  {
    assert StartsWith("@" + key, "@");
    ToDictionaryMeaning([(key, v), ("@" + key, w)]);
    assert Keys([(key, v), ("@" + key, w)])[0] == Keys([(key, v), ("@" + key, w)])[1];
  }

  // ---------------------------------------------------------------- reading results

  /**
   * ToString of a non-null value: a string is itself, an integer its decimal text, and
   * a DataTable its TableName, followed by " + " and the DisplayExpression when that is set.
   */
  function Show(v: Value): string
  {
    match v
    case Str(s) => s
    case Int(i) => IntToString(i)
    case Table(name, expression) => if expression == "" then name else name + " + " + expression
    case _ => ""
  }

  /** GetScalarValue<string>: the default for null or DBNull, otherwise the value's text. */
  function GetScalarString(value: Value, defaultValue: Option<string>): (r: Option<string>)
    ensures value.Null? || value.DBNull? ==> r == defaultValue
    ensures !(value.Null? || value.DBNull?) ==> r.Some?
    ensures value.Str? ==> r == Some(value.s)
    ensures value.Table? ==> r.Some? && value.tableName <= r.value
    ensures value.Table? && value.displayExpression == "" ==> r == Some(value.tableName)
  {
    if value.Null? || value.DBNull? then defaultValue else Some(Show(value))
  }

  /** An unnamed table without a display expression reads as the empty string, not its type name. */
  lemma UnnamedTableIsEmpty(defaultValue: Option<string>)
    ensures GetScalarString(Table("", ""), defaultValue) == Some("")
  {
  }

  /** A 64-bit integer read back as a string parses back to itself. */
  lemma ScalarStringOfInt(i: int, defaultValue: Option<string>)
    requires Int64Min <= i <= Int64Max
    ensures GetScalarString(Int(i), defaultValue).Some?
    ensures ParseInt64(GetScalarString(Int(i), defaultValue).value) == Some(i)
  {
    ParseIntToString(i);
  }

  /** GetScalarValue<T> for any other T: the default for null, DBNull or a failed conversion. */
  function GetScalarValue<T>(value: Value, defaultValue: T, convert: Value -> Option<T>): (r: T)
    ensures value.Null? || value.DBNull? || convert(value).None? ==> r == defaultValue
    ensures !(value.Null? || value.DBNull?) && convert(value).Some? ==> r == convert(value).value
  {
    if value.Null? || value.DBNull? then defaultValue
    else match convert(value)
      case None => defaultValue
      case Some(x) => x
  }

  /** The first cells of the rows, in order, without those that hold DBNull; None when a row has no cell. */
  function FirstCells(rows: seq<seq<Value>>): Option<seq<Value>>
  {
    if rows == [] then Some([])
    else match FirstCells(rows[..|rows| - 1])
      case None => None
      case Some(cells) =>
        var row := rows[|rows| - 1];
        if row == [] then None
        else if row[0].DBNull? then Some(cells) else Some(cells + [row[0]])
  }

  /** Converting each cell in order; the first failure throws. */
  function ConvertAll<T>(cells: seq<Value>, convert: Value -> Option<T>): (r: Result<seq<T>>)
    ensures r.Success? ==> |r.value| == |cells|
    ensures r.Success? ==> forall i :: 0 <= i < |cells| ==> convert(cells[i]) == Some(r.value[i])
    ensures r.Failure? ==> r.error == "InvalidCastException" && exists i :: 0 <= i < |cells| && convert(cells[i]).None?
  {
    if cells == [] then Success([])
    else match ConvertAll(cells[..|cells| - 1], convert)
      case Failure(e) => Failure(e)
      case Success(xs) =>
        match convert(cells[|cells| - 1])
        case None => Failure("InvalidCastException")
        case Some(x) => Success(xs + [x])
  }

  /** The rows read one after the other, as the loop of MapPrimitiveList does, stopping at the first throw. */
  function PrimitiveList<T>(rows: seq<seq<Value>>, convert: Value -> Option<T>): (r: Result<seq<T>>)
    ensures r.Failure? ==> r.error in ["IndexOutOfRangeException", "InvalidCastException"]
  {
    if rows == [] then Success([])
    else match PrimitiveList(rows[..|rows| - 1], convert)
      case Failure(e) => Failure(e)
      case Success(xs) =>
        var row := rows[|rows| - 1];
        if row == [] then Failure("IndexOutOfRangeException")
        else if row[0].DBNull? then Success(xs)
        else match convert(row[0])
          case None => Failure("InvalidCastException")
          case Some(x) => Success(xs + [x])
  }

  /**
   * When every row has a cell, the reading is the conversion of the non-DBNull first
   * cells, in row order; otherwise it throws.
   */
  lemma {:induction false} PrimitiveListMeaning<T>(rows: seq<seq<Value>>, convert: Value -> Option<T>)
    ensures FirstCells(rows).Some? ==> PrimitiveList(rows, convert) == ConvertAll(FirstCells(rows).value, convert)
    ensures FirstCells(rows).None? ==> PrimitiveList(rows, convert).Failure?
  {
    if rows != [] {
      var init := rows[..|rows| - 1];
      PrimitiveListMeaning(init, convert);
      if FirstCells(init).Some? {
        var cells := FirstCells(init).value;
        var row := rows[|rows| - 1];
        if row != [] && !row[0].DBNull? {
          assert (cells + [row[0]])[..|cells|] == cells;
        }
      }
    }
  }

  /** Once a prefix of the rows throws, the whole reading throws the same. */
  lemma {:induction false} PrimitiveListFailureStays<T>(rows: seq<seq<Value>>, i: nat, convert: Value -> Option<T>)
    requires i <= |rows| && PrimitiveList(rows[..i], convert).Failure?
    ensures PrimitiveList(rows, convert) == PrimitiveList(rows[..i], convert)
    decreases |rows| - i
  {
    if i < |rows| {
      assert rows[..i + 1][..i] == rows[..i];
      PrimitiveListFailureStays(rows, i + 1, convert);
    } else {
      assert rows[..i] == rows;
    }
  }

  /**
   * MapPrimitiveList: one converted element per row whose first cell is not DBNull,
   * in row order. A row without cells (a table without columns) throws
   * IndexOutOfRangeException, a failed conversion throws InvalidCastException;
   * whichever comes first in row order wins.
   */
  method MapPrimitiveList<T>(rows: seq<seq<Value>>, convert: Value -> Option<T>) returns (r: Result<seq<T>>)
    ensures r == PrimitiveList(rows, convert)
    ensures FirstCells(rows).Some? ==> r == ConvertAll(FirstCells(rows).value, convert)
    ensures FirstCells(rows).None? ==> r.Failure?
  {
    PrimitiveListMeaning(rows, convert);
    var list: seq<T> := [];
    for i := 0 to |rows|
      invariant PrimitiveList(rows[..i], convert) == Success(list)
    {
      assert rows[..i + 1][..i] == rows[..i];
      var row := rows[i];
      if row == [] {
        PrimitiveListFailureStays(rows, i + 1, convert);
        return Failure("IndexOutOfRangeException");
      }
      if !row[0].DBNull? {
        var x := convert(row[0]);
        if x.None? {
          PrimitiveListFailureStays(rows, i + 1, convert);
          return Failure("InvalidCastException");
        }
        list := list + [x.value];
      }
    }
    assert rows[..|rows|] == rows;
    return Success(list);
  }
}
