/**
 * The pure parts of the database wrapper: the query strings and value tuples
 * built by insert_data and update_data, and the dictionary returned by
 * get_user_credentials. Executing the queries is not part of this model.
 */
module Database {
  import opened Wrappers
  import opened Dicts

  /** A column value as the wrapper passes it on: None, a string, an integer or a timestamp. */
  datatype Value = Null | Str(s: string) | Int(i: int) | Time(t: int)

  /**
   * The columns of user_table, in table order; ColumnName is the column's
   * name in SQL and in the dicts the wrapper returns.
   */
  datatype Column =
    | UserId | Username | FirstName | LastName | Password | Email | PhoneNumber | CreatedTime | LastUpdate

  function ColumnName(c: Column): string
  {
    match c
    case UserId => "user_ID"
    case Username => "username"
    case FirstName => "first_name"
    case LastName => "last_name"
    case Password => "password"
    case Email => "email"
    case PhoneNumber => "phone_number"
    case CreatedTime => "created_time"
    case LastUpdate => "last_update"
  }

  /** Different columns have different names. */
  lemma ColumnNameInjective(a: Column, b: Column)
    ensures ColumnName(a) == ColumnName(b) ==> a == b
  {
    if a != b {
      assert ColumnName(a)[..|ColumnName(a)|] == ColumnName(a);
    }
  }

  /** The length of the parts written out with a separator after each of them. */
  function Span(parts: seq<string>, sep: string): nat
  {
    if parts == [] then 0 else Span(parts[..|parts| - 1], sep) + |parts[|parts| - 1]| + |sep|
  }

  /**
   * sep.join(parts): the parts in order with one separator between
   * neighbours, so it is one separator shorter than the parts each followed by one.
   */
  function Join(parts: seq<string>, sep: string): (s: string)
    ensures parts == [] ==> s == ""
    ensures parts != [] ==> |s| + |sep| == Span(parts, sep)
  {
    if |parts| == 0 then ""
    else if |parts| == 1 then
      assert parts[..0] == [];
      parts[0]
    else Join(parts[..|parts| - 1], sep) + sep + parts[|parts| - 1]
  }

  /** Where part i starts in the joined string: the parts before it, each followed by a separator. */
  function Offset(parts: seq<string>, sep: string, i: nat): nat
    requires i <= |parts|
  {
    Span(parts[..i], sep)
  }

  /** Part i of the joined string sits at its offset. */
  lemma {:induction false} JoinPart(parts: seq<string>, sep: string, i: nat)
    requires i < |parts|
    ensures Offset(parts, sep, i) + |parts[i]| <= |Join(parts, sep)|
    ensures Join(parts, sep)[Offset(parts, sep, i)..Offset(parts, sep, i) + |parts[i]|] == parts[i]
    decreases |parts|
  {
    var n := |parts|;
    if n == 1 {
      assert parts[..0] == [];
      assert Join(parts, sep) == parts[0];
    } else if i == n - 1 {
      JoinLast(parts, sep);
    } else {
      JoinPart(parts[..n - 1], sep, i);
      JoinPartStep(parts, sep, i);
    }
  }

  /** A part that sits at its offset among all but the last part keeps that place once the last is joined on. */
  lemma JoinPartStep(parts: seq<string>, sep: string, i: nat)
    requires i < |parts| - 1
    requires Offset(parts[..|parts| - 1], sep, i) + |parts[i]| <= |Join(parts[..|parts| - 1], sep)|
    requires Join(parts[..|parts| - 1], sep)[Offset(parts[..|parts| - 1], sep, i)..Offset(parts[..|parts| - 1], sep, i) + |parts[i]|]
             == parts[i]
    ensures Offset(parts, sep, i) + |parts[i]| <= |Join(parts, sep)|
    ensures Join(parts, sep)[Offset(parts, sep, i)..Offset(parts, sep, i) + |parts[i]|] == parts[i]
  {
    var n := |parts|;
    var init := parts[..n - 1];
    var o := Offset(parts, sep, i);
    assert Offset(init, sep, i) == o by {
      assert init[..i] == parts[..i];
    }
    var j := Join(init, sep);
    assert Join(parts, sep) == j + sep + parts[n - 1];
    SliceOfPrefix(j + sep, parts[n - 1], o, o + |parts[i]|);
    SliceOfPrefix(j, sep, o, o + |parts[i]|);
  }

  /** Every part but the first is preceded by a separator. */
  lemma {:induction false} JoinSeparator(parts: seq<string>, sep: string, i: nat)
    requires 0 < i < |parts|
    ensures |sep| <= Offset(parts, sep, i) <= |Join(parts, sep)|
    ensures Join(parts, sep)[Offset(parts, sep, i) - |sep|..Offset(parts, sep, i)] == sep
    decreases |parts|
  {
    var n := |parts|;
    if i == n - 1 {
      JoinLast(parts, sep);
    } else {
      var init := parts[..n - 1];
      JoinSeparator(init, sep, i);
      var o := Offset(parts, sep, i);
      assert Offset(init, sep, i) == o by {
        assert init[..i] == parts[..i];
      }
      var j := Join(init, sep);
      assert Join(parts, sep) == j + sep + parts[n - 1];
      SliceOfPrefix(j + sep, parts[n - 1], o - |sep|, o);
      SliceOfPrefix(j, sep, o - |sep|, o);
    }
  }

  /** The last of two or more parts ends the joined string, after a separator. */
  lemma JoinLast(parts: seq<string>, sep: string)
    requires |parts| > 1
    ensures var o := Offset(parts, sep, |parts| - 1);
            var j := Join(parts, sep);
            |sep| <= o && o + |parts[|parts| - 1]| == |j| &&
            j[o..] == parts[|parts| - 1] && j[o - |sep|..o] == sep
  {
    var n := |parts|;
    var init := parts[..n - 1];
    var j := Join(init, sep);
    assert parts[..n - 1] == init;
    assert Offset(parts, sep, n - 1) == |j| + |sep|;
    var whole := j + sep + parts[n - 1];
    assert Join(parts, sep) == whole;
    assert whole[|j| + |sep|..] == parts[n - 1];
    assert whole[|j|..|j| + |sep|] == sep;
  }

  /** A slice that lies inside the first of two strings is a slice of that string. */
  lemma SliceOfPrefix(a: string, b: string, lo: nat, hi: nat)
    requires lo <= hi <= |a|
    ensures |a| <= |a + b| && (a + b)[lo..hi] == a[lo..hi]
  {
  }

  /** Joining from the front: the first part, a separator, then the rest joined. */
  lemma {:induction false} JoinFront(first: string, rest: seq<string>, sep: string)
    requires rest != []
    ensures Join([first] + rest, sep) == first + sep + Join(rest, sep)
    decreases |rest|
  {
    var parts := [first] + rest;
    var n := |parts|;
    assert parts[..n - 1] == [first] + rest[..|rest| - 1];
    if |rest| > 1 {
      JoinFront(first, rest[..|rest| - 1], sep);
    } else {
      assert [first] + rest[..0] == [first];
    }
  }

  /** Every character of the joined string comes from a part or from the separator. */
  lemma {:induction false} JoinChars(parts: seq<string>, sep: string, x: char)
    requires x in Join(parts, sep)
    ensures x in sep || exists i :: 0 <= i < |parts| && x in parts[i]
    decreases |parts|
  {
    var n := |parts|;
    if n > 1 {
      var init := parts[..n - 1];
      if x in Join(init, sep) {
        JoinChars(init, sep, x);
        if !(x in sep) {
          var i :| 0 <= i < |init| && x in init[i];
          assert parts[i] == init[i];
        }
      } else if !(x in sep) {
        assert x in parts[n - 1];
      }
    } else {
      assert x in parts[0];
    }
  }

  /** Number of occurrences of a character. */
  function CountChar(s: string, c: char): nat
  {
    if s == [] then 0 else CountChar(s[..|s| - 1], c) + (if s[|s| - 1] == c then 1 else 0)
  }

  lemma {:induction false} CountCharAppend(a: string, b: string, c: char)
    ensures CountChar(a + b, c) == CountChar(a, c) + CountChar(b, c)
    decreases |b|
  {
    if b == [] {
      assert a + b == a;
    } else {
      assert (a + b)[..|a + b| - 1] == a + b[..|b| - 1];
      CountCharAppend(a, b[..|b| - 1], c);
    }
  }

  lemma {:induction false} CountCharAbsent(s: string, c: char)
    requires c !in s
    ensures CountChar(s, c) == 0
    decreases |s|
  {
    if s != [] {
      assert s == s[..|s| - 1] + [s[|s| - 1]];
      CountCharAbsent(s[..|s| - 1], c);
    }
  }

  /** ', '.join(['%s'] * n). */
  function Placeholders(n: nat): string
  {
    Join(seq(n, _ => "%s"), ", ")
  }

  /** There is one '%s' placeholder per column: n '%' signs, in a string 4n - 2 characters long. */
  lemma {:induction false} PlaceholderCount(n: nat)
    ensures CountChar(Placeholders(n), '%') == n
    ensures |Placeholders(n)| == if n == 0 then 0 else 4 * n - 2
  {
    if n > 1 {
      var parts := seq(n, _ => "%s");
      assert parts[..n - 1] == seq(n - 1, _ => "%s");
      PlaceholderCount(n - 1);
      CountCharAppend(Placeholders(n - 1), ", ", '%');
      CountCharAppend(Placeholders(n - 1) + ", ", "%s", '%');
      assert CountChar(", ", '%') == 0 by {
        assert ", "[..1] == ",";
        assert ","[..0] == "";
      }
      assert CountChar("%s", '%') == 1 by {
        assert "%s"[..1] == "%";
        assert "%"[..0] == "";
      }
    } else if n == 1 {
      assert "%s"[..1] == "%";
      assert "%"[..0] == "";
    }
  }

  /** The value tuple of insert_data: same order and length, '' becomes None. */
  function InsertValues(data: seq<(string, Value)>): (values: seq<Value>)
    ensures |values| == |data|
    ensures forall i :: 0 <= i < |data| ==> values[i] == (if data[i].1 == Str("") then Null else data[i].1)
  {
    if data == [] then []
    else
      var v := data[|data| - 1].1;
      InsertValues(data[..|data| - 1]) + [if v == Str("") then Null else v]
  }

  /** When no value is the empty string, the value tuple is the values as given. */
  lemma InsertValuesKeepsFilled(data: seq<(string, Value)>)
    requires forall i :: 0 <= i < |data| ==> data[i].1 != Str("")
    ensures InsertValues(data) == seq(|data|, i requires 0 <= i < |data| => data[i].1)
  {
  }

  /** A string that contains no '%' outside its placeholders. */
  predicate NoPercent(s: string)
  {
    '%' !in s
  }

  /**
   * With no '%' in the table name or the column names, the statement's
   * '%' signs are exactly the n placeholders of its n columns.
   */
  lemma InsertStatementPlaceholders(table: string, columns: seq<string>)
    requires NoPercent(table) && forall i :: 0 <= i < |columns| ==> NoPercent(columns[i])
    ensures CountChar("INSERT INTO " + table + " (" + Join(columns, ", ") + ") VALUES (" + Placeholders(|columns|) + ")", '%')
            == |columns|
  {
    var joined := Join(columns, ", ");
    forall x | x in joined
      ensures x != '%'
    {
      JoinChars(columns, ", ", x);
    }
    var front := "INSERT INTO " + table + " (" + joined + ") VALUES (";
    assert '%' !in front;
    CountCharAbsent(front, '%');
    CountCharAbsent(")", '%');
    PlaceholderCount(|columns|);
    CountCharAppend(front, Placeholders(|columns|), '%');
    CountCharAppend(front + Placeholders(|columns|), ")", '%');
    assert front + Placeholders(|columns|) + ")" ==
           "INSERT INTO " + table + " (" + joined + ") VALUES (" + Placeholders(|columns|) + ")";
  }

  /**
   * insert_data: the parameterised INSERT statement names the columns in key
   * order and has one placeholder per column; the value tuple follows the
   * same order, so with no stray '%' the placeholders and values agree in number.
   */
  function InsertData(table: string, data: Dict<string, Value>): (r: (string, seq<Value>))
    requires Listed(data)
    ensures r.0 == "INSERT INTO " + table + " (" + Join(data.keys, ", ") + ") VALUES (" + Placeholders(|data.keys|) + ")"
    ensures r.1 == InsertValues(Items(data))
    ensures |r.1| == |data.keys|
    ensures NoPercent(table) && (forall i :: 0 <= i < |data.keys| ==> NoPercent(data.keys[i])) ==>
              CountChar(r.0, '%') == |r.1|
  {
    var columns := Join(data.keys, ", ");
    var placeholders := Placeholders(|data.keys|);
    if NoPercent(table) && (forall i :: 0 <= i < |data.keys| ==> NoPercent(data.keys[i])) then
      InsertStatementPlaceholders(table, data.keys);
      ("INSERT INTO " + table + " (" + columns + ") VALUES (" + placeholders + ")", InsertValues(Items(data)))
    else
      ("INSERT INTO " + table + " (" + columns + ") VALUES (" + placeholders + ")", InsertValues(Items(data)))
  }

  /** The statement of test_database.py's insert test. */
  lemma InsertDataExample()
    ensures var data := Dict(["ID", "username"], map["ID" := Int(1), "username" := Str("test_user")]);
            Listed(data) &&
            InsertData("user_table", data) ==
            ("INSERT INTO " + "user_table" + " (" + "ID, username" + ") VALUES (" + "%s, %s" + ")",
             [Int(1), Str("test_user")])
  {
    var data := Dict(["ID", "username"], map["ID" := Int(1), "username" := Str("test_user")]);
    var pairs := [("ID", Int(1)), ("username", Str("test_user"))];
    assert Items(data) == pairs;
    assert ["ID", "username"][..1] == ["ID"];
    assert Join(data.keys, ", ") == "ID, username";
    assert seq(2, _ => "%s") == ["%s", "%s"];
    assert ["%s", "%s"][..1] == ["%s"];
    assert Placeholders(2) == "%s, %s";
    assert pairs[..1] == [("ID", Int(1))];
    assert InsertValues(pairs) == [Int(1), Str("test_user")];
  }

  // --------------------------------------------------------------- update_data

  function DigitChar(d: nat): char
    requires d < 10
  {
    "0123456789"[d]
  }

  /** Python's str() of a non-negative integer. */
  function NatToString(n: nat): (s: string)
    ensures |s| > 0 && forall i :: 0 <= i < |s| ==> '0' <= s[i] <= '9'
  {
    if n < 10 then [DigitChar(n)] else NatToString(n / 10) + [DigitChar(n % 10)]
  }

  /** Python's str() of an integer. */
  function IntToString(n: int): string
  {
    if n < 0 then "-" + NatToString(-n) else NatToString(n)
  }

  /** The value of a string of decimal digits. */
  function DigitsValue(s: string): nat
    requires forall i :: 0 <= i < |s| ==> '0' <= s[i] <= '9'
  {
    if s == [] then 0 else DigitsValue(s[..|s| - 1]) * 10 + ((s[|s| - 1] as int) - ('0' as int))
  }

  /** The rendered id reads back as the same number. */
  lemma {:induction false} NatToStringRoundTrip(n: nat)
    ensures DigitsValue(NatToString(n)) == n
  {
    if n >= 10 {
      NatToStringRoundTrip(n / 10);
      var s := NatToString(n);
      assert s[..|s| - 1] == NatToString(n / 10);
    }
  }

  /** "col = 'value'" for every pair, in order. */
  function Assignments(data: seq<(string, string)>): (a: seq<string>)
    ensures |a| == |data| && forall i :: 0 <= i < |data| ==> a[i] == data[i].0 + " = '" + data[i].1 + "'"
  {
    if data == [] then [] else Assignments(data[..|data| - 1]) + [data[|data| - 1].0 + " = '" + data[|data| - 1].1 + "'"]
  }

  /** The key column named by update_data. */
  function PrimaryKey(objectName: string): string
  {
    objectName + "_ID"
  }

  function UpdateHead(table: string): string
  {
    "UPDATE " + table + " SET "
  }

  function UpdateTail(objectName: string, id: int): string
  {
    " WHERE " + PrimaryKey(objectName) + " = " + IntToString(id) + " "
  }

  /**
   * update_data: values are given as the text str() makes of them. The
   * statement is the head, the SET list of "col = 'value'" assignments joined
   * by ", ", and the tail naming the key column objectName + "_ID" and the id,
   * with a space after the id.
   */
  function UpdateData(table: string, data: seq<(string, string)>, objectName: string, id: int): (q: string)
    ensures |UpdateHead(table)| + |UpdateTail(objectName, id)| <= |q|
    ensures q[..|UpdateHead(table)|] == UpdateHead(table)
    ensures q[|UpdateHead(table)|..|q| - |UpdateTail(objectName, id)|] == Join(Assignments(data), ", ")
    ensures q[|q| - |UpdateTail(objectName, id)|..] == UpdateTail(objectName, id)
    ensures q[|q| - 1] == ' '
  {
    var head := UpdateHead(table);
    var tail := UpdateTail(objectName, id);
    var setList := Join(Assignments(data), ", ");
    ThreeParts(head, setList, tail);
    head + setList + tail
  }

  /** A string made of three pieces can be cut back into them. */
  lemma ThreeParts(a: string, b: string, c: string)
    ensures (a + b + c)[..|a|] == a
    ensures (a + b + c)[|a|..|a + b + c| - |c|] == b
    ensures (a + b + c)[|a + b + c| - |c|..] == c
  {
  }

  /** The statement of test_database.py's update test, with the trailing space the code writes. */
  lemma UpdateDataExample()
    ensures UpdateData("user_table", [("username", "test_user")], "user", 1) ==
            "UPDATE " + "user_table" + " SET " + "username = 'test_user'" + " WHERE " + "user_ID" + " = " + "1" + " "
  {
    var a := Assignments([("username", "test_user")]);
    assert [("username", "test_user")][..0] == [];
    assert a == ["username" + " = '" + "test_user" + "'"];
    assert Join(a, ", ") == "username = 'test_user'";
    assert IntToString(1) == "1";
    assert PrimaryKey("user") == "user_ID";
  }

  // ------------------------------------------------------- get_user_credentials

  const UserColumns: seq<Column> :=
    [UserId, Username, FirstName, LastName, Password, Email, PhoneNumber, CreatedTime, LastUpdate]

  function Min(a: int, b: int): int
  {
    if a < b then a else b
  }

  /** The position of a column in user_table. */
  function ColumnIndex(c: Column): (i: nat)
    ensures i < |UserColumns| && UserColumns[i] == c
  {
    match c
    case UserId => 0
    case Username => 1
    case FirstName => 2
    case LastName => 3
    case Password => 4
    case Email => 5
    case PhoneNumber => 6
    case CreatedTime => 7
    case LastUpdate => 8
  }

  lemma UserColumnsDistinct()
    ensures Distinct(UserColumns)
    ensures forall i :: 0 <= i < |UserColumns| ==> ColumnIndex(UserColumns[i]) == i
  {
  }

  /** The first n columns mapped to the first n values. */
  function ColumnMap(values: seq<Value>, n: nat): (m: map<Column, Value>)
    requires n <= |UserColumns| && n <= |values|
    ensures forall i :: 0 <= i < n ==> UserColumns[i] in m && m[UserColumns[i]] == values[i]
    ensures forall c :: c in m ==> ColumnIndex(c) < n
  {
    if n == 0 then map[]
    else
      UserColumnsDistinct();
      ColumnMap(values, n - 1)[UserColumns[n - 1] := values[n - 1]]
  }

  /** dict(zip(column names, values)) for the columns of user_table. */
  function RowDict(values: seq<Value>): (d: Dict<Column, Value>)
    ensures WellFormed(d)
    ensures d.keys == UserColumns[..Min(|UserColumns|, |values|)]
    ensures forall i :: 0 <= i < |d.keys| ==> d.entries[d.keys[i]] == values[i]
  {
    var n := Min(|UserColumns|, |values|);
    var d := Dict(UserColumns[..n], ColumnMap(values, n));
    UserColumnsDistinct();
    assert forall c :: c in d.entries ==> d.keys[ColumnIndex(c)] == c;
    d
  }

  /**
   * get_user_credentials: the fetched row under the column names of
   * user_table, in column order, or an empty dict when there is no row.
   */
  function UserCredentials(row: Option<seq<Value>>): (d: Dict<Column, Value>)
    ensures WellFormed(d)
    ensures row.None? || row.value == [] ==> d == Empty()
    ensures row.Some? && row.value != [] ==>
              d.keys == UserColumns[..Min(|UserColumns|, |row.value|)] &&
              forall i :: 0 <= i < |d.keys| ==> d.entries[d.keys[i]] == row.value[i]
  {
    if row.None? || row.value == [] then Empty()
    else
      RowDict(row.value)
  }

  /**
   * A full row's items pair each column of user_table with its value, in
   * column order: the dictionary of test_database.py's credentials test.
   */
  lemma FullRowItems(row: seq<Value>)
    requires |row| == |UserColumns|
    ensures |Items(UserCredentials(Some(row)))| == |row|
    ensures forall i :: 0 <= i < |row| ==> Items(UserCredentials(Some(row)))[i] == (UserColumns[i], row[i])
  {
    assert UserColumns[..|row|] == UserColumns;
  }
}