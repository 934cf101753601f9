/**
  The walk of getValueFromConfig over the segments of a config path.

  The loop keeps two variables, the value found so far and the map it looks
  into, and may leave early. A walk state holds the two and whether the loop
  has left. One step per segment:
    - a key missing from the current map changes nothing, and the walk goes
      on with the next segment (it does not stop);
    - a present key sets the value; an array value becomes the map looked
      into next, any other value ends the walk.
 */
module Config {
  import opened Values

  datatype WalkState = WalkState(config: map<string, Value>, value: Value, stopped: bool)

  /** The state before the first segment: the suite config, and null. */
  function Start(root: map<string, Value>): WalkState {
    WalkState(root, Null, false)
  }

  /** One iteration of the loop, for one segment. */
  function Step(st: WalkState, key: string): WalkState {
    if st.stopped || key !in st.config then st
    else
      var v := st.config[key];
      if v.Arr? then WalkState(v.entries, v, false) else WalkState(st.config, v, true)
  }

  /** The loop over a whole path. */
  function Walk(st: WalkState, path: seq<string>): WalkState
    decreases |path|
  {
    if path == [] then st else Walk(Step(st, path[0]), path[1..])
  }

  /** The value getValueFromConfig returns for a path. */
  function ConfigValue(root: map<string, Value>, path: seq<string>): Value {
    Walk(Start(root), path).value
  }

  /** Walking a path in two parts is walking it at once. */
  lemma {:induction false} WalkConcat(st: WalkState, p: seq<string>, q: seq<string>)
    ensures Walk(st, p + q) == Walk(Walk(st, p), q)
    decreases |p|
  {
    if p != [] {
      assert (p + q)[0] == p[0] && (p + q)[1..] == p[1..] + q;
      WalkConcat(Step(st, p[0]), p[1..], q);
    } else {
      assert p + q == q;
    }
  }

  /** After the loop has left, no later segment changes anything. */
  lemma {:induction false} WalkFromStopped(st: WalkState, path: seq<string>)
    requires st.stopped
    ensures Walk(st, path) == st
    decreases |path|
  {
    if path != [] {
      WalkFromStopped(st, path[1..]);
    }
  }

  /** A segment missing from the map in effect at its turn is skipped: the
      result is that of the path without it. */
  lemma WalkSkipsMissing(st: WalkState, p: seq<string>, key: string, q: seq<string>)
    requires key !in Walk(st, p).config
    ensures Walk(st, p + [key] + q) == Walk(st, p + q)
  {
    assert p + [key] + q == p + ([key] + q);
    WalkConcat(st, p, [key] + q);
    WalkConcat(st, p, q);
    assert ([key] + q)[1..] == q;
  }

  /** A present key holding a non-array value ends the walk with that value,
      whatever segments follow. */
  lemma WalkStopsAtScalar(st: WalkState, key: string, rest: seq<string>)
    requires !st.stopped && key in st.config && !st.config[key].Arr?
    ensures Walk(st, [key] + rest).value == st.config[key]
  {
    assert ([key] + rest)[1..] == rest;
    WalkFromStopped(Step(st, key), rest);
  }

  /** The walk returns the last value found: a present key as the last
      segment, reached while the walk is still going, gives its value. */
  lemma WalkEndsAtLastFound(st: WalkState, p: seq<string>, key: string)
    requires !Walk(st, p).stopped && key in Walk(st, p).config
    ensures Walk(st, p + [key]).value == Walk(st, p).config[key]
  {
    WalkConcat(st, p, [key]);
  }

  /** If no segment is a key of the suite config, the result is null. */
  lemma {:induction false} WalkNoKeyIsNull(root: map<string, Value>, path: seq<string>)
    requires forall k :: 0 <= k < |path| ==> path[k] !in root
    ensures Walk(Start(root), path) == Start(root)
    ensures ConfigValue(root, path) == Null
    decreases |path|
  {
    if path != [] {
      assert path[0] !in root;
      WalkNoKeyIsNull(root, path[1..]);
    }
  }

  /** Strict lookup of a path: every segment present, every value before the
      last an array. */
  datatype Lookup = Missing | Found(v: Value)

  function PathLookup(m: map<string, Value>, path: seq<string>): Lookup
    decreases |path|
  {
    if path == [] || path[0] !in m then Missing
    else if |path| == 1 then Found(m[path[0]])
    else if m[path[0]].Arr? then PathLookup(m[path[0]].entries, path[1..])
    else Missing
  }

  /** When every segment exists and every intermediate value is an array,
      the walk returns the value at the full path. */
  lemma {:induction false} WalkFollowsFullPath(m: map<string, Value>, value: Value, path: seq<string>)
    requires PathLookup(m, path).Found?
    ensures Walk(WalkState(m, value, false), path).value == PathLookup(m, path).v
    decreases |path|
  {
    var st := WalkState(m, value, false);
    var v := m[path[0]];
    if |path| == 1 {
      assert path[1..] == [];
      if !v.Arr? {
        WalkFromStopped(Step(st, path[0]), path[1..]);
      }
    } else {
      WalkFollowsFullPath(v.entries, v, path[1..]);
    }
  }
}
