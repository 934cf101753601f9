/**
  The four regular expressions of the hook, written out as character
  predicates and scanning functions:

    REGEX_PARAM   ^{{[A-z0-9_:-]+}}$
    REGEX_FILTER  [{}]
    REGEX_CONFIG  (?:^config)?:([A-z0-9_-]+)+(?=:|$)
    REGEX_ARRAY   ^(?P<var>[A-z0-9_-]+)(?:\[(?P<key>.+)])$

  `$` is read as the end of the string. Beside each scanner stands a plain
  definition of what it finds (the body between the delimiters, the colon
  pieces of a config path, the split into array name and key), and the
  lemmas here prove the two agree.
 */
module Patterns {

  // ---------------------------------------------------------------------
  // Character classes
  // ---------------------------------------------------------------------

  /** The ASCII range `A-z`, 'A' (0x41) to 'z' (0x7A). Between 'Z' and 'a'
      it also holds `[ \ ] ^ _` and the backtick. */
  predicate InAtoZ(c: char) {
    'A' <= c <= 'z'
  }

  /** `[A-z0-9_-]`: the class of config segments and of array names. */
  predicate NameChar(c: char) {
    InAtoZ(c) || '0' <= c <= '9' || c == '_' || c == '-'
  }

  /** `[A-z0-9_:-]`: the class of a placeholder body. */
  predicate BodyChar(c: char) {
    NameChar(c) || c == ':'
  }

  predicate AllNameChars(s: string) {
    forall i :: 0 <= i < |s| ==> NameChar(s[i])
  }

  predicate AllBodyChars(s: string) {
    forall i :: 0 <= i < |s| ==> BodyChar(s[i])
  }

  /** What the `A-z` range lets into the classes, and what it keeps out. */
  lemma AtoZRange()
    ensures NameChar('[') && NameChar(']') && NameChar('\\') && NameChar('^') && NameChar('`')
    ensures !BodyChar('{') && !BodyChar('}') && !NameChar(':') && !BodyChar('\n')
  {
  }

  // ---------------------------------------------------------------------
  // REGEX_PARAM and REGEX_FILTER
  // ---------------------------------------------------------------------

  /** The placeholder written around a body. */
  function Wrap(body: string): string {
    "{{" + body + "}}"
  }

  /** REGEX_PARAM: the whole string is `{{`, one or more body characters, `}}`. */
  predicate IsParam(s: string) {
    |s| >= 5 && s[..2] == "{{" && s[|s| - 2..] == "}}" && AllBodyChars(s[2..|s| - 2])
  }

  /** The text between the two leading and the two trailing delimiter characters. */
  function Body(s: string): string
    requires IsParam(s)
  {
    s[2..|s| - 2]
  }

  /** A placeholder is exactly a non-empty body of body characters wrapped in
      delimiters, and the body comes back out of it. */
  lemma WrapBody(body: string)
    ensures IsParam(Wrap(body)) <==> body != [] && AllBodyChars(body)
    ensures IsParam(Wrap(body)) ==> Body(Wrap(body)) == body
  {
    var w := Wrap(body);
    assert w[..2] == "{{";
    assert w[|w| - 2..] == "}}";
    assert w[2..|w| - 2] == body;
  }

  lemma ParamIsWrap(s: string)
    requires IsParam(s)
    ensures s == Wrap(Body(s))
  {
    assert s == s[..2] + s[2..|s| - 2] + s[|s| - 2..];
  }

  /** preg_filter with REGEX_FILTER and an empty replacement: every brace removed. */
  function RemoveBraces(s: string): string
  {
    if s == [] then []
    else (if s[0] == '{' || s[0] == '}' then [] else [s[0]]) + RemoveBraces(s[1..])
  }

  lemma {:induction false} RemoveBracesConcat(a: string, b: string)
    ensures RemoveBraces(a + b) == RemoveBraces(a) + RemoveBraces(b)
  {
    if a != [] {
      var head := if a[0] == '{' || a[0] == '}' then [] else [a[0]];
      assert (a + b)[0] == a[0] && (a + b)[1..] == a[1..] + b;
      RemoveBracesConcat(a[1..], b);
      assert RemoveBraces(a + b) == head + RemoveBraces(a[1..] + b);
    } else {
      assert a + b == b;
    }
  }

  lemma {:induction false} RemoveBracesNoBraces(s: string)
    requires forall i :: 0 <= i < |s| ==> s[i] != '{' && s[i] != '}'
    ensures RemoveBraces(s) == s
  {
    if s != [] {
      RemoveBracesNoBraces(s[1..]);
      assert s == [s[0]] + s[1..];
    }
  }

  /** The filter at the start of resolution strips exactly the delimiters,
      because the body class holds no brace. */
  lemma FilterYieldsBody(s: string)
    requires IsParam(s)
    ensures RemoveBraces(s) == Body(s)
    ensures AllBodyChars(RemoveBraces(s))
  {
    var body := Body(s);
    ParamIsWrap(s);
    RemoveBracesConcat("{{" + body, "}}");
    RemoveBracesConcat("{{", body);
    RemoveBracesNoBraces(body);
  }

  // ---------------------------------------------------------------------
  // REGEX_CONFIG
  // ---------------------------------------------------------------------

  /** One match of REGEX_CONFIG: the text of group 1 and the offset where the match ends. */
  datatype ConfigMatch = NoMatch | Match(text: string, end: nat)

  /** The end of the longest run of name characters starting at p. */
  function RunEnd(s: string, p: nat): (q: nat)
    requires p <= |s|
    ensures p <= q <= |s|
    ensures forall i :: p <= i < q ==> NameChar(s[i])
    ensures q == |s| || !NameChar(s[q])
    decreases |s| - p
  {
    if p < |s| && NameChar(s[p]) then RunEnd(s, p + 1) else p
  }

  predicate HasConfigPrefix(s: string) {
    |s| >= 6 && s[..6] == "config"
  }

  /** An attempt to match REGEX_CONFIG starting at offset p. `^config` can
      only be taken at offset 0; if it is taken and the rest fails, the
      engine retries without it, which needs a ':' at offset 0, where the
      string has a 'c'. Both `+` are greedy and `(?=:|$)` follows the run,
      and every shorter run is followed by a name character, so only the
      longest run can succeed. */
  function ConfigMatchAt(s: string, p: nat): (m: ConfigMatch)
    requires p <= |s|
    ensures m.Match? ==> p < m.end <= |s|
  {
    var colon := if p == 0 && HasConfigPrefix(s) then 6 else p;
    if colon < |s| && s[colon] == ':' then
      var q := RunEnd(s, colon + 1);
      if colon + 1 < q && (q == |s| || s[q] == ':') then Match(s[colon + 1..q], q) else NoMatch
    else NoMatch
  }

  /** preg_match_all with REGEX_CONFIG from offset p: group 1 of each
      successive match; the search resumes where a match ends. */
  function ConfigScan(s: string, p: nat): seq<string>
    requires p <= |s|
    decreases |s| - p
  {
    if p == |s| then []
    else match ConfigMatchAt(s, p)
      case Match(text, end) => [text] + ConfigScan(s, end)
      case NoMatch => ConfigScan(s, p + 1)
  }

  /** The segments `$args[1]` that getValueFromConfig walks. */
  function ConfigSegments(s: string): seq<string> {
    ConfigScan(s, 0)
  }

  /** preg_match with REGEX_CONFIG: some match starts at offset p or later. */
  predicate ConfigSearch(s: string, p: nat)
    requires p <= |s|
    decreases |s| - p
  {
    p < |s| && (ConfigMatchAt(s, p).Match? || ConfigSearch(s, p + 1))
  }

  /** The test that selects config mode. */
  predicate IsConfigRef(s: string) {
    ConfigSearch(s, 0)
  }

  /** The first ':' at or after p, or the end of the string. */
  function NextColon(s: string, p: nat): (q: nat)
    requires p <= |s|
    ensures p <= q <= |s|
    ensures q == |s| || s[q] == ':'
    ensures forall i :: p <= i < q ==> s[i] != ':'
    decreases |s| - p
  {
    if p == |s| || s[p] == ':' then p else NextColon(s, p + 1)
  }

  /** The non-empty ':'-separated pieces of s[p..], in order. */
  function Pieces(s: string, p: nat): seq<string>
    requires p <= |s|
    decreases |s| - p
  {
    if p == |s| then []
    else if s[p] == ':' then Pieces(s, p + 1)
    else
      var q := NextColon(s, p);
      [s[p..q]] + Pieces(s, q)
  }

  /** The config path a body names: its non-empty colon pieces after the
      first ':'. The text before the first ':' is never a key. */
  function ConfigPath(s: string): seq<string> {
    Pieces(s, NextColon(s, 0))
  }

  /** In a body, the run of name characters from p is the piece up to the next ':'. */
  lemma RunIsPiece(s: string, p: nat)
    requires AllBodyChars(s) && p <= |s|
    ensures RunEnd(s, p) == NextColon(s, p)
  {
  }

  /** At a ':' of a body, a match captures the piece after it, if that piece is non-empty. */
  lemma MatchAtColon(s: string, c: nat)
    requires AllBodyChars(s) && c < |s| && s[c] == ':'
    ensures var q := NextColon(s, c + 1);
      ConfigMatchAt(s, c) == if c + 1 < q then Match(s[c + 1..q], q) else NoMatch
  {
    assert c == 0 ==> !HasConfigPrefix(s);
    RunIsPiece(s, c + 1);
  }

  /** One unfolding of the scan at an offset where a match starts or not. */
  lemma ScanUnfold(s: string, p: nat)
    requires p < |s|
    ensures ConfigMatchAt(s, p).Match? ==>
      ConfigScan(s, p) == [ConfigMatchAt(s, p).text] + ConfigScan(s, ConfigMatchAt(s, p).end)
    ensures ConfigMatchAt(s, p).NoMatch? ==> ConfigScan(s, p) == ConfigScan(s, p + 1)
  {
  }

  /** One unfolding of Pieces at a ':' or at the start of a piece. */
  lemma PiecesUnfold(s: string, p: nat)
    requires p < |s|
    ensures s[p] == ':' ==> Pieces(s, p) == Pieces(s, p + 1)
    ensures s[p] != ':' ==> Pieces(s, p) == [s[p..NextColon(s, p)]] + Pieces(s, NextColon(s, p))
  {
  }

  /** From a ':' the scan yields the pieces after it. */
  lemma {:induction false} ScanAtColon(s: string, c: nat)
    requires AllBodyChars(s) && c < |s| && s[c] == ':'
    ensures ConfigScan(s, c) == Pieces(s, c + 1)
    decreases |s| - c
  {
    var q := NextColon(s, c + 1);
    MatchAtColon(s, c);
    ScanUnfold(s, c);
    if c + 1 < q {
      PiecesUnfold(s, c + 1);
      if q < |s| {
        ScanAtColon(s, q);
        PiecesUnfold(s, q);
      }
    } else if c + 1 < |s| {
      ScanAtColon(s, c + 1);
      PiecesUnfold(s, c + 1);
    }
  }

  /** Before the first ':' no match starts, except the `^config` one, which
      captures the same segment as a match at that ':' would. */
  lemma {:induction false} ScanBeforeColon(s: string, p: nat)
    requires AllBodyChars(s) && p <= NextColon(s, 0)
    ensures ConfigScan(s, p) == ConfigPath(s)
    decreases NextColon(s, 0) - p
  {
    var c := NextColon(s, 0);
    if p == c {
      if c < |s| {
        ScanAtColon(s, c);
      }
    } else if p == 0 && HasConfigPrefix(s) {
      assert s[0] == 'c' && s[1] == 'o' && s[2] == 'n' && s[3] == 'f' && s[4] == 'i' && s[5] == 'g';
      if 6 < |s| && s[6] == ':' {
        assert c == 6;
        assert ConfigMatchAt(s, 0) == ConfigMatchAt(s, 6);
        ScanAtColon(s, 6);
        if ConfigMatchAt(s, 0).NoMatch? {
          ScanBeforeColon(s, 1);
        }
      } else {
        assert ConfigMatchAt(s, 0) == NoMatch;
        ScanBeforeColon(s, 1);
      }
    } else {
      assert s[p] != ':';
      ScanBeforeColon(s, p + 1);
    }
  }

  /** For a body, the segments preg_match_all captures are the config path. */
  lemma ConfigSegmentsArePath(s: string)
    requires AllBodyChars(s)
    ensures ConfigSegments(s) == ConfigPath(s)
  {
    ScanBeforeColon(s, 0);
  }

  /** preg_match finds a match exactly when preg_match_all captures something. */
  lemma {:induction false} SearchFindsScan(s: string, p: nat)
    requires p <= |s|
    ensures ConfigSearch(s, p) <==> ConfigScan(s, p) != []
    decreases |s| - p
  {
    if p < |s| && ConfigMatchAt(s, p).NoMatch? {
      SearchFindsScan(s, p + 1);
    }
  }

  /** Config mode is chosen exactly when the body names a non-empty path. */
  lemma ConfigRefIff(s: string)
    requires AllBodyChars(s)
    ensures IsConfigRef(s) <==> ConfigPath(s) != []
  {
    SearchFindsScan(s, 0);
    ConfigSegmentsArePath(s);
  }

  /** The body `prefix:seg1:seg2:...` for a config path. */
  function JoinColon(path: seq<string>): string {
    if path == [] then [] else ":" + path[0] + JoinColon(path[1..])
  }

  predicate ValidSegments(path: seq<string>) {
    forall k :: 0 <= k < |path| ==> path[k] != [] && AllNameChars(path[k])
  }

  lemma {:induction false} PiecesOfJoin(s: string, p: nat, path: seq<string>)
    requires p <= |s| && s[p..] == JoinColon(path) && ValidSegments(path)
    ensures Pieces(s, p) == path
    decreases path
  {
    if path == [] {
      assert |s[p..]| == 0;
    } else {
      var seg := path[0];
      var q := p + 1 + |seg|;
      assert s[p..] == ":" + seg + JoinColon(path[1..]);
      assert s[p] == ':';
      assert s[p + 1..q] == seg;
      assert s[q..] == JoinColon(path[1..]);
      assert s[p + 1] == seg[0];
      assert NameChar(seg[0]);
      forall i | p + 1 <= i < q
        ensures s[i] != ':'
      {
        assert s[i] == seg[i - p - 1];
        assert NameChar(seg[i - p - 1]);
      }
      assert q == |s| || s[q] == ':' by {
        if q < |s| {
          assert path[1..] != [];
          assert s[q] == s[q..][0];
        }
      }
      assert NextColon(s, p + 1) == q;
      PiecesOfJoin(s, q, path[1..]);
    }
  }

  lemma {:induction false} JoinColonChars(path: seq<string>)
    requires ValidSegments(path)
    ensures AllBodyChars(JoinColon(path))
    ensures path != [] ==> |JoinColon(path)| >= 2 && JoinColon(path)[0] == ':'
    decreases path
  {
    if path != [] {
      JoinColonChars(path[1..]);
      var j := JoinColon(path);
      assert j == ":" + path[0] + JoinColon(path[1..]);
      forall i | 0 <= i < |j|
        ensures BodyChar(j[i])
      {
        if 0 < i <= |path[0]| {
          assert j[i] == path[0][i - 1];
        } else if i > |path[0]| {
          assert j[i] == JoinColon(path[1..])[i - 1 - |path[0]|];
        }
      }
    }
  }

  /** Round trip: the path written after any colon-free prefix is the path read back. */
  lemma ConfigPathOfJoin(prefix: string, path: seq<string>)
    requires AllNameChars(prefix) && ValidSegments(path)
    ensures ConfigPath(prefix + JoinColon(path)) == path
    ensures AllBodyChars(prefix + JoinColon(path))
  {
    var s := prefix + JoinColon(path);
    var n := |prefix|;
    JoinColonChars(path);
    assert s[n..] == JoinColon(path);
    assert NextColon(s, 0) == n by {
      PrefixHasNoColon(prefix, JoinColon(path));
    }
    PiecesOfJoin(s, n, path);
    BodyCharsConcat(prefix, JoinColon(path));
  }

  lemma PrefixHasNoColon(prefix: string, rest: string)
    requires AllNameChars(prefix) && (rest == [] || rest[0] == ':')
    ensures NextColon(prefix + rest, 0) == |prefix|
  {
    var s := prefix + rest;
    var n := |prefix|;
    forall i | 0 <= i < n
      ensures s[i] != ':'
    {
      assert s[i] == prefix[i];
    }
    assert n == |s| || s[n] == ':' by {
      if n < |s| {
        assert s[n] == rest[0];
      }
    }
  }

  lemma BodyCharsConcat(a: string, b: string)
    requires AllNameChars(a) && AllBodyChars(b)
    ensures AllBodyChars(a + b)
  {
    var s := a + b;
    forall i | 0 <= i < |s|
      ensures BodyChar(s[i])
    {
      if i < |a| {
        assert s[i] == a[i];
      } else {
        assert s[i] == b[i - |a|];
      }
    }
  }

  /** A body without any ':' names no config path. */
  lemma NoColonNoPath(s: string)
    requires forall i :: 0 <= i < |s| ==> s[i] != ':'
    ensures ConfigPath(s) == []
  {
    assert NextColon(s, 0) == |s|;
  }

  /** The pieces of a body are valid segments: non-empty words without ':'. */
  lemma {:induction false} PiecesAreSegments(s: string, p: nat)
    requires AllBodyChars(s) && p <= |s|
    ensures ValidSegments(Pieces(s, p))
    decreases |s| - p
  {
    if p < |s| {
      if s[p] == ':' {
        PiecesAreSegments(s, p + 1);
      } else {
        var q := NextColon(s, p);
        PiecesAreSegments(s, q);
        var piece := s[p..q];
        assert forall i :: 0 <= i < |piece| ==> piece[i] == s[p + i];
        assert piece != [] && AllNameChars(piece);
      }
    }
  }

  /** Every segment of a body's config path is a non-empty word without ':',
      so the paths ConfigPathOfJoin reads back are all the paths a body names. */
  lemma ConfigPathIsValid(s: string)
    requires AllBodyChars(s)
    ensures ValidSegments(ConfigPath(s))
  {
    PiecesAreSegments(s, NextColon(s, 0));
  }

  // ---------------------------------------------------------------------
  // REGEX_ARRAY
  // ---------------------------------------------------------------------

  /** The match of REGEX_ARRAY: the groups `var` and `key`. */
  datatype ArrayMatch = NoArray | ArrayRef(name: string, key: string)

  /** REGEX_ARRAY matches with a `var` group of length n: n name characters,
      '[', a non-empty key without a newline (`.+`), and a final ']'. */
  predicate ArrayShapeAt(s: string, n: nat) {
    && 1 <= n && n + 2 < |s|
    && (forall i :: 0 <= i < n ==> NameChar(s[i]))
    && s[n] == '['
    && s[|s| - 1] == ']'
    && (forall i :: n < i < |s| - 1 ==> s[i] != '\n')
  }

  /** Backtracking search for the `var` length, longest first, from n down. */
  function ArraySearch(s: string, n: nat): (m: ArrayMatch)
    ensures m.ArrayRef? ==> |m.name| <= n && ArrayShapeAt(s, |m.name|)
    ensures m.ArrayRef? ==> m.name == s[..|m.name|] && m.key == s[|m.name| + 1..|s| - 1]
    ensures m.ArrayRef? ==> forall k :: |m.name| < k <= n ==> !ArrayShapeAt(s, k)
    ensures m.NoArray? <==> forall k :: 0 <= k <= n ==> !ArrayShapeAt(s, k)
    decreases n
  {
    if n == 0 then NoArray
    else if ArrayShapeAt(s, n) then ArrayRef(s[..n], s[n + 1..|s| - 1])
    else ArraySearch(s, n - 1)
  }

  /** preg_match / preg_match_all with REGEX_ARRAY. The greedy `var` gives
      way one character at a time, so the longest name that fits wins:
      `a[b][c]` splits into `a[b]` and `c`. */
  function ArraySplit(s: string): ArrayMatch {
    ArraySearch(s, |s|)
  }

  /** What a match means: the body is `name[key]`, the name is a non-empty
      word, the key non-empty, and no longer name would fit. */
  lemma ArraySplitMeaning(s: string)
    ensures ArraySplit(s).ArrayRef? ==>
      var m := ArraySplit(s);
      && s == m.name + "[" + m.key + "]"
      && m.name != [] && AllNameChars(m.name)
      && m.key != [] && (forall i :: 0 <= i < |m.key| ==> m.key[i] != '\n')
      && forall k :: |m.name| < k < |s| ==> !ArrayShapeAt(s, k)
    ensures ArraySplit(s).NoArray? <==> forall k :: 0 <= k <= |s| ==> !ArrayShapeAt(s, k)
  {
    var m := ArraySplit(s);
    if m.ArrayRef? {
      var n := |m.name|;
      assert s == s[..n] + [s[n]] + s[n + 1..|s| - 1] + [s[|s| - 1]];
      forall i | 0 <= i < |m.key|
        ensures m.key[i] != '\n'
      {
        assert m.key[i] == s[n + 1 + i];
      }
    }
  }

  /** A name and a key without '[' split back into themselves. */
  lemma ArraySplitOfRef(name: string, key: string)
    requires name != [] && AllNameChars(name)
    requires key != [] && forall i :: 0 <= i < |key| ==> key[i] != '\n' && key[i] != '['
    ensures ArraySplit(name + "[" + key + "]") == ArrayRef(name, key)
  {
    var s := name + "[" + key + "]";
    var n := |name|;
    assert s[n] == '[';
    forall i | 0 <= i < n
      ensures NameChar(s[i])
    {
      assert s[i] == name[i];
    }
    forall i | n < i < |s| - 1
      ensures s[i] != '\n' && s[i] != '['
    {
      assert s[i] == key[i - n - 1];
    }
    assert ArrayShapeAt(s, n);
    var m := ArraySplit(s);
    assert m.ArrayRef?;
    assert |m.name| == n;
    assert s[..n] == name;
    assert s[n + 1..|s| - 1] == key;
  }

  /** A body without '[' has no array shape. */
  lemma NoBracketNoArray(s: string)
    requires forall i :: 0 <= i < |s| ==> s[i] != '['
    ensures ArraySplit(s) == NoArray
  {
  }
}
