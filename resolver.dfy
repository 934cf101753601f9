/**
  Resolution of one placeholder, of a table cell, of a table and of a step
  argument, as pure functions of the fixture store and the suite config.
 */
module Resolver {
  import opened Values
  import opened Patterns
  import opened Config

  /** The map the config walk starts from. Before any suite has started the
      captured config is null; the model treats it as an empty map, so every
      segment is missing and the result is null. */
  function RootOf(suiteConfig: Value): map<string, Value> {
    if suiteConfig.Arr? then suiteConfig.entries else map[]
  }

  /** getValueFromArray: the entry `key` of the array fixture `var`. When the
      fixture is not an array (or absent) the model returns null. */
  function GetValueFromArray(arg: string, fixtures: map<string, Value>): Value
    requires ArraySplit(arg).ArrayRef?
  {
    var m := ArraySplit(arg);
    var fixture := Fixture(fixtures, m.name);
    if fixture.Arr? && m.key in fixture.entries then fixture.entries[m.key] else Null
  }

  /** getValueFromParam. A string that is not a placeholder comes back as it
      is. Otherwise the body between the delimiters is resolved by the first
      mode that applies: a config path, then an array entry, then a plain
      fixture. */
  function GetValueFromParam(param: string, fixtures: map<string, Value>, suiteConfig: Value): (r: Value)
    ensures !IsParam(param) ==> r == Str(param)
    ensures IsParam(param) && ConfigPath(Body(param)) != [] ==>
      r == ConfigValue(RootOf(suiteConfig), ConfigPath(Body(param)))
    ensures IsParam(param) && ConfigPath(Body(param)) == [] && ArraySplit(Body(param)).ArrayRef? ==>
      r == GetValueFromArray(Body(param), fixtures)
    ensures IsParam(param) && ConfigPath(Body(param)) == [] && ArraySplit(Body(param)).NoArray? ==>
      r == Fixture(fixtures, Body(param))
  {
    if !IsParam(param) then Str(param)
    else
      var arg := RemoveBraces(param);
      FilterYieldsBody(param);
      ConfigRefIff(arg);
      ConfigSegmentsArePath(arg);
      if IsConfigRef(arg) then ConfigValue(RootOf(suiteConfig), ConfigSegments(arg))
      else if ArraySplit(arg).ArrayRef? then GetValueFromArray(arg, fixtures)
      else Fixture(fixtures, arg)
  }

  /** `{{prefix:seg1:...:segN}}` resolves to the value the walk finds along
      exactly those segments, whatever the colon-free prefix (`config`, any
      other word, or nothing). */
  lemma ConfigTokenResolves(prefix: string, path: seq<string>, fixtures: map<string, Value>, suiteConfig: Value)
    requires AllNameChars(prefix) && path != [] && ValidSegments(path)
    ensures GetValueFromParam(Wrap(prefix + JoinColon(path)), fixtures, suiteConfig)
         == ConfigValue(RootOf(suiteConfig), path)
  {
    var body := prefix + JoinColon(path);
    ConfigPathOfJoin(prefix, path);
    JoinColonChars(path);
    WrapBody(body);
  }

  /** `{{name[key]}}` resolves to `fixture[name][key]` when the fixture is an
      array holding that key, and to null otherwise. */
  lemma ArrayTokenResolves(name: string, key: string, fixtures: map<string, Value>, suiteConfig: Value)
    requires name != [] && AllNameChars(name)
    requires key != [] && AllNameChars(key) && forall i :: 0 <= i < |key| ==> key[i] != '['
    ensures var fixture := Fixture(fixtures, name);
      GetValueFromParam(Wrap(name + "[" + key + "]"), fixtures, suiteConfig)
        == if fixture.Arr? && key in fixture.entries then fixture.entries[key] else Null
  {
    var body := name + "[" + key + "]";
    ArraySplitOfRef(name, key);
    forall i | 0 <= i < |body|
      ensures BodyChar(body[i]) && body[i] != ':'
    {
      if i < |name| {
        assert body[i] == name[i];
      } else if |name| < i < |body| - 1 {
        assert body[i] == key[i - |name| - 1];
      }
    }
    NoColonNoPath(body);
    WrapBody(body);
  }

  /** `{{name}}` for a word without '[' (and so without ':') resolves to the
      fixture stored under the name. */
  lemma FixtureTokenResolves(name: string, fixtures: map<string, Value>, suiteConfig: Value)
    requires name != [] && AllNameChars(name) && forall i :: 0 <= i < |name| ==> name[i] != '['
    ensures GetValueFromParam(Wrap(name), fixtures, suiteConfig) == Fixture(fixtures, name)
  {
    assert forall i :: 0 <= i < |name| ==> BodyChar(name[i]) && name[i] != ':';
    NoColonNoPath(name);
    NoBracketNoArray(name);
    WrapBody(name);
  }

  /** The order of the modes decides: `a[b:c]` fits the array pattern but is
      resolved as the config path `c]`. */
  lemma ConfigBeforeArray(fixtures: map<string, Value>, suiteConfig: Value)
    ensures ArraySplit("a[b:c]") == ArrayRef("a", "b:c")
    ensures GetValueFromParam(Wrap("a[b:c]"), fixtures, suiteConfig) == ConfigValue(RootOf(suiteConfig), ["c]"])
  {
    var body := "a[b:c]";
    ArraySplitOfRef("a", "b:c");
    assert AllNameChars("a[b");
    assert ValidSegments(["c]"]);
    assert "a[b" + JoinColon(["c]"]) == body;
    ConfigPathOfJoin("a[b", ["c]"]);
    assert ConfigPath(body) == ["c]"] && AllBodyChars(body);
    WrapBody(body);
    assert IsParam(Wrap(body)) && Body(Wrap(body)) == body;
    assert "a" + "[" + "b:c" + "]" == body;
    assert ArraySplit(body) == ArrayRef("a", "b:c");
    assert GetValueFromParam(Wrap(body), fixtures, suiteConfig) == ConfigValue(RootOf(suiteConfig), ["c]"]);
  }

  /** `{{username}}` on a store holding `username`. */
  lemma FixtureExample(fixtures: map<string, Value>, suiteConfig: Value)
    requires "username" in fixtures && fixtures["username"] == Str("alice")
    ensures GetValueFromParam(Wrap("username"), fixtures, suiteConfig) == Str("alice")
  {
    assert AllNameChars("username");
    FixtureTokenResolves("username", fixtures, suiteConfig);
  }

  /** `{{missing}}` on a store without `missing` gives null, not the literal. */
  lemma MissingFixtureExample(fixtures: map<string, Value>, suiteConfig: Value)
    requires "missing" !in fixtures
    ensures GetValueFromParam(Wrap("missing"), fixtures, suiteConfig) == Null
  {
    assert AllNameChars("missing");
    FixtureTokenResolves("missing", fixtures, suiteConfig);
  }

  /** `{{users[0]}}` on a store whose `users` is the list `a`, `b`. */
  lemma ArrayExample(fixtures: map<string, Value>, suiteConfig: Value)
    requires "users" in fixtures && fixtures["users"] == Arr(map["0" := Str("a"), "1" := Str("b")])
    ensures GetValueFromParam(Wrap("users[0]"), fixtures, suiteConfig) == Str("a")
  {
    assert AllNameChars("users") && AllNameChars("0");
    assert "users" + "[" + "0" + "]" == "users[0]";
    ArrayTokenResolves("users", "0", fixtures, suiteConfig);
  }

  /** `{{config:db:host}}` gives the host of the `db` section. */
  lemma ConfigExample(fixtures: map<string, Value>, settings: map<string, Value>, db: map<string, Value>)
    requires "db" in settings && settings["db"] == Arr(db)
    requires "host" in db && db["host"] == Str("localhost")
    ensures GetValueFromParam(Wrap("config:db:host"), fixtures, Arr(settings)) == Str("localhost")
  {
    assert AllNameChars("config") && ValidSegments(["db", "host"]);
    assert "config" + JoinColon(["db", "host"]) == "config:db:host";
    ConfigTokenResolves("config", ["db", "host"], fixtures, Arr(settings));
    assert PathLookup(settings, ["db", "host"]) == Found(Str("localhost"));
    WalkFollowsFullPath(settings, Null, ["db", "host"]);
  }

  /** `{{config:db:nope}}` where `db` has no `nope` gives the whole `db`
      section, not null: the walk keeps the last value it found. */
  lemma PartialConfigExample(fixtures: map<string, Value>, settings: map<string, Value>, db: map<string, Value>)
    requires "db" in settings && settings["db"] == Arr(db)
    requires "nope" !in db
    ensures GetValueFromParam(Wrap("config:db:nope"), fixtures, Arr(settings)) == Arr(db)
  {
    assert AllNameChars("config") && ValidSegments(["db", "nope"]);
    assert "config" + JoinColon(["db", "nope"]) == "config:db:nope";
    ConfigTokenResolves("config", ["db", "nope"], fixtures, Arr(settings));
    var st := Step(Start(settings), "db");
    assert st == WalkState(db, Arr(db), false);
    assert Walk(Start(settings), ["db", "nope"]) == Walk(st, ["nope"]);
  }

  // ---------------------------------------------------------------------
  // Tables and step arguments
  // ---------------------------------------------------------------------

  /** One table cell. A Gherkin cell is a string; a cell of another kind is
      never a placeholder and comes back unchanged. */
  function ResolveCell(cell: Value, fixtures: map<string, Value>, suiteConfig: Value): Value
  {
    if cell.Str? then GetValueFromParam(cell.s, fixtures, suiteConfig) else cell
  }

  function ResolveRow(row: seq<Value>, fixtures: map<string, Value>, suiteConfig: Value): seq<Value> {
    seq(|row|, j requires 0 <= j < |row| => ResolveCell(row[j], fixtures, suiteConfig))
  }

  /** The rows of the table built by getValueFromTableNode: each row with
      every cell resolved, in order. A row without cells never gets an entry
      in the built array, so it is not there. */
  function ResolveTable(rows: seq<seq<Value>>, fixtures: map<string, Value>, suiteConfig: Value): seq<seq<Value>>
    decreases |rows|
  {
    if rows == [] then []
    else
      var last := rows[|rows| - 1];
      ResolveTable(rows[..|rows| - 1], fixtures, suiteConfig)
        + (if last == [] then [] else [ResolveRow(last, fixtures, suiteConfig)])
  }

  /** A table whose rows all have cells keeps its row count and each row's
      cell count, and each cell is the resolution of the cell in its place. */
  lemma {:induction false} ResolveTableShape(rows: seq<seq<Value>>, fixtures: map<string, Value>, suiteConfig: Value)
    requires forall i :: 0 <= i < |rows| ==> rows[i] != []
    ensures var t := ResolveTable(rows, fixtures, suiteConfig);
      && |t| == |rows|
      && (forall i :: 0 <= i < |rows| ==> |t[i]| == |rows[i]|)
      && (forall i, j :: 0 <= i < |rows| && 0 <= j < |rows[i]| ==>
            t[i][j] == ResolveCell(rows[i][j], fixtures, suiteConfig))
    decreases |rows|
  {
    if rows != [] {
      var init := rows[..|rows| - 1];
      ResolveTableShape(init, fixtures, suiteConfig);
    }
  }

  /** The rows that have cells, in order. */
  function CellRows(rows: seq<seq<Value>>): (r: seq<seq<Value>>)
    ensures forall i :: 0 <= i < |r| ==> r[i] != []
    ensures |r| <= |rows|
    decreases |rows|
  {
    if rows == [] then []
    else (if rows[0] == [] then [] else [rows[0]]) + CellRows(rows[1..])
  }

  lemma {:induction false} CellRowsConcat(a: seq<seq<Value>>, b: seq<seq<Value>>)
    ensures CellRows(a + b) == CellRows(a) + CellRows(b)
    decreases |a|
  {
    if a == [] {
      assert a + b == b;
    } else {
      assert (a + b)[0] == a[0] && (a + b)[1..] == a[1..] + b;
      CellRowsConcat(a[1..], b);
    }
  }

  /** For every table: the rebuilt table holds exactly the rows that have
      cells, in order, each with every cell resolved. Rows without cells are
      dropped, and nothing else is. */
  lemma {:induction false} ResolveTableRows(rows: seq<seq<Value>>, fixtures: map<string, Value>, suiteConfig: Value)
    ensures var t := ResolveTable(rows, fixtures, suiteConfig);
      && |t| == |CellRows(rows)|
      && forall i :: 0 <= i < |t| ==> t[i] == ResolveRow(CellRows(rows)[i], fixtures, suiteConfig)
    decreases |rows|
  {
    if rows != [] {
      var init := rows[..|rows| - 1];
      var last := rows[|rows| - 1];
      ResolveTableRows(init, fixtures, suiteConfig);
      assert rows == init + [last];
      CellRowsConcat(init, [last]);
      assert [last][1..] == [];
    }
  }

  /** A step argument: a scalar (a string when it is `Str`), a table given
      by its rows, or any other object (a multi-line string node, say). */
  datatype Arg = Scalar(value: Value) | Table(rows: seq<seq<Value>>) | Node(text: string)

  /** What beforeStep makes of one argument: strings resolved, tables
      resolved cell by cell, everything else untouched. */
  function ResolveArg(arg: Arg, fixtures: map<string, Value>, suiteConfig: Value): Arg {
    match arg
    case Scalar(Str(s)) => Scalar(GetValueFromParam(s, fixtures, suiteConfig))
    case Table(rows) => Table(ResolveTable(rows, fixtures, suiteConfig))
    case _ => arg
  }
}
