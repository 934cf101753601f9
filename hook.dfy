/**
  The hook object: the captured suite config and the two event handlers,
  with the resolver's methods as the hook runs them. The two loops of the
  resolver (the config walk and the table rebuild) are written as loops, and
  every method is proved against the functions of Config and Resolver.

  The source keeps the suite config in a static field; here it is a field
  of the one hook object. The fixture store is passed to each call.
 */
module Hook {
  import opened Values
  import opened Patterns
  import opened Config
  import opened Resolver

  /** `new TableNode($table)` seen through its rows: the rows of the built
      array in index order, for the indices below n that it has. */
  function TableNodeRows(table: map<nat, seq<Value>>, n: nat): seq<seq<Value>>
    decreases n
  {
    if n == 0 then []
    else TableNodeRows(table, n - 1) + (if n - 1 in table then [table[n - 1]] else [])
  }

  /** The array getValueFromTableNode builds, up to row n, gives the rows of
      the resolved table. */
  lemma {:induction false} TableNodeRowsResolved(
    table: map<nat, seq<Value>>, rows: seq<seq<Value>>, n: nat,
    fixtures: map<string, Value>, suiteConfig: Value)
    requires n <= |rows|
    requires forall k: nat :: k < n ==> (k in table <==> rows[k] != [])
    requires forall k: nat :: k < n && k in table ==> table[k] == ResolveRow(rows[k], fixtures, suiteConfig)
    ensures TableNodeRows(table, n) == ResolveTable(rows[..n], fixtures, suiteConfig)
    decreases n
  {
    if n > 0 {
      TableNodeRowsResolved(table, rows, n - 1, fixtures, suiteConfig);
      assert rows[..n][..n - 1] == rows[..n - 1];
      assert rows[..n][n - 1] == rows[n - 1];
    }
  }

  class GherkinParam {
    /** The settings of the current suite; null before the first suite starts. */
    var suiteConfig: Value

    constructor ()
      ensures suiteConfig == Null
    {
      suiteConfig := Null;
    }

    /** beforeSuite: capture the new suite's settings, replacing the old ones. */
    method BeforeSuite(settings: map<string, Value>)
      modifies this
      ensures suiteConfig == Arr(settings)
    {
      suiteConfig := Arr(settings);
    }

    /** getValueFromParam as the hook runs it: the same dispatch as the
      function Resolver.GetValueFromParam, with config mode going through the
      loop of GetValueFromConfig. */
    method GetValueFromParam(param: string, fixtures: map<string, Value>) returns (value: Value)
      ensures value == Resolver.GetValueFromParam(param, fixtures, suiteConfig)
    {
      if !IsParam(param) {
        return Str(param);
      }
      var arg := RemoveBraces(param);
      FilterYieldsBody(param);
      ConfigRefIff(arg);
      ConfigSegmentsArePath(arg);
      if IsConfigRef(arg) {
        value := GetValueFromConfig(arg);
      } else if ArraySplit(arg).ArrayRef? {
        value := GetValueFromArray(arg, fixtures);
      } else {
        value := Fixture(fixtures, arg);
      }
    }

    /** getValueFromConfig: walk the captured config along the segments
      preg_match_all finds in the body. */
    method GetValueFromConfig(param: string) returns (value: Value)
      ensures value == ConfigValue(RootOf(suiteConfig), ConfigSegments(param))
    {
      value := Null;
      var config := RootOf(suiteConfig);
      var args := ConfigSegments(param);
      ghost var goal := Walk(Start(config), args);
      var i := 0;
      while i < |args|
        invariant 0 <= i <= |args|
        invariant Walk(WalkState(config, value, false), args[i..]) == goal
      {
        var arg := args[i];
        assert args[i..][1..] == args[i + 1..];
        if arg in config {
          value := config[arg];
          if !value.Arr? {
            WalkFromStopped(WalkState(config, value, true), args[i + 1..]);
            break;
          }
          config := value.entries;
        }
        i := i + 1;
      }
    }

    /** getValueFromTableNode: fill `$table[$i][$j]` with the resolution of
      each cell, then build a table node from it. Cells of a row are visited
      in order, so the assignment to `$table[$i][$j]` appends to row i,
      creating the row at its first cell. */
    method GetValueFromTableNode(rows: seq<seq<Value>>, fixtures: map<string, Value>) returns (node: seq<seq<Value>>)
      ensures node == ResolveTable(rows, fixtures, suiteConfig)
    {
      ghost var config := suiteConfig;
      var table: map<nat, seq<Value>> := map[];
      for i := 0 to |rows|
        invariant config == suiteConfig
        invariant forall k: nat :: k in table <==> k < i && rows[k] != []
        invariant forall k: nat :: k in table ==> table[k] == ResolveRow(rows[k], fixtures, config)
      {
        var row := rows[i];
        for j := 0 to |row|
          invariant config == suiteConfig
          invariant forall k: nat :: k in table <==> (k < i && rows[k] != []) || (k == i && 0 < j)
          invariant forall k: nat :: k in table && k != i ==> table[k] == ResolveRow(rows[k], fixtures, config)
          invariant 0 < j ==> table[i] == ResolveRow(row[..j], fixtures, config)
        {
          var cell := row[j];
          if cell.Str? {
            cell := GetValueFromParam(cell.s, fixtures);
          }
          assert cell == ResolveCell(row[j], fixtures, config);
          assert ResolveRow(row[..j + 1], fixtures, config) == ResolveRow(row[..j], fixtures, config) + [cell];
          table := table[i := (if i in table then table[i] else []) + [cell]];
        }
        assert row[..|row|] == row;
      }
      TableNodeRowsResolved(table, rows, |rows|, fixtures, config);
      assert rows[..|rows|] == rows;
      node := TableNodeRows(table, |rows|);
    }

    /** beforeStep: rewrite the step's arguments in place. Strings are
      resolved, table nodes rebuilt with resolved cells, and all other
      arguments left as they are. */
    method BeforeStep(args: array<Arg>, fixtures: map<string, Value>)
      modifies args
      ensures forall k :: 0 <= k < args.Length ==> args[k] == ResolveArg(old(args[k]), fixtures, suiteConfig)
    {
      for index := 0 to args.Length
        invariant forall k :: 0 <= k < index ==> args[k] == ResolveArg(old(args[k]), fixtures, suiteConfig)
        invariant forall k :: index <= k < args.Length ==> args[k] == old(args[k])
      {
        match args[index] {
          case Scalar(Str(s)) =>
            var value := GetValueFromParam(s, fixtures);
            args[index] := Scalar(value);
          case Table(rows) =>
            var node := GetValueFromTableNode(rows, fixtures);
            args[index] := Table(node);
          case _ =>
        }
      }
    }
  }

  /** Two suites in a row: once the second has started, config lookups see
      only its settings. */
  method SuiteSwitch(first: map<string, Value>, second: map<string, Value>, param: string)
    returns (value: Value)
    ensures value == ConfigValue(second, ConfigSegments(param))
  {
    var hook := new GherkinParam();
    hook.BeforeSuite(first);
    hook.BeforeSuite(second);
    value := hook.GetValueFromConfig(param);
  }
}
