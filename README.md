# GherkinParam placeholder resolver, modelled in Dafny

GherkinParam is a Codeception extension. Before each Gherkin step runs, it
looks at the step's arguments. A string argument, or a table cell, written as
a placeholder `{{...}}` is replaced by a value:

- `{{config:a:b}}` (any colon path) is looked up in the settings of the
  current suite, walking nested arrays segment by segment;
- `{{name[key]}}` is entry `key` of the array fixture `name`;
- `{{name}}` is the fixture `name`.

Any other string is left as it is. The suite settings are captured by the
`beforeSuite` handler and read by every later step.

The project has five modules, one file each:

- `values.dfy` — `Values`: the PHP values the resolver tells apart (`Null`,
  `Bool`, `Int`, `Str`, `Arr` for a PHP array with string keys), and
  `Fixture`, a lookup in the fixture store.
- `patterns.dfy` — `Patterns`: the four regular expressions written as
  character predicates and scanners. `IsParam` is `REGEX_PARAM`.
  `RemoveBraces` is `preg_filter` with `REGEX_FILTER`.
  `ConfigMatchAt`, `ConfigScan` and `ConfigSearch` are `REGEX_CONFIG` under
  `preg_match_all` and `preg_match`. `ArraySearch` and `ArraySplit` are
  `REGEX_ARRAY`. Beside them are plain definitions of what they find: `Body`
  (the text between the delimiters), `ConfigPath` (the non-empty colon pieces
  after the first colon) and the name/key split. Lemmas prove the scanners
  and the plain definitions agree.
- `config.dfy` — `Config`: the loop of `getValueFromConfig` as a step
  function over a walk state (current map, value found, whether the loop has
  left), plus lemmas about the walk.
- `resolver.dfy` — `Resolver`: `GetValueFromParam`, `GetValueFromArray`, the
  cell, table and argument resolution as functions, and lemmas that resolve
  each placeholder form end to end.
- `hook.dfy` — `Hook`: the class `GherkinParam`. It holds the field
  `suiteConfig`. `BeforeSuite` sets that field. The method
  `GetValueFromParam` dispatches as the function of the same name does, and
  sends config mode to the method `GetValueFromConfig`, which runs the config
  loop. `GetValueFromTableNode` runs the nested table loops and resolves each
  cell through the method `GetValueFromParam`. `BeforeStep` rewrites an
  `array<Arg>` in place, resolving strings through the same method. Each
  method is proved equal to the function it implements.

Facts about the source that the model encodes:

- The class `A-z` runs from 0x41 to 0x7A. It therefore also admits
  `[ \ ] ^ _` and the backtick, so `{{users[0]}}` is a placeholder. It admits
  no brace, so the filter removes exactly the two delimiters at each end
  (`FilterYieldsBody`).
- In config mode, the segments are the non-empty colon pieces after the first
  colon. The text before that colon is never a key, whether it is `config`,
  another word or empty. So `{{foo:bar}}` is config mode with path `[bar]`
  (`ConfigSegmentsArePath`, `ConfigRefIff`).
- In array mode, the name is the longest prefix that fits, so `a[b][c]` has
  name `a[b]` and key `c` (`ArraySplitMeaning`).
- Mode order matters. `a[b:c]` fits the array pattern but resolves as the
  config path `c]` (`ConfigBeforeArray`).
- The config walk does not stop at a missing key. It skips that segment and
  keeps the current map and value. It stops only at a non-array value
  (`WalkSkipsMissing`, `WalkStopsAtScalar`).
- A resolved value is not resolved again. A fixture whose value is itself a
  placeholder string comes back as that string.
- A table row with no cells gets no entry in the rebuilt `$table`, so it is
  absent from the new table. The new table holds exactly the rows that have
  cells, in order, each resolved cell by cell (`ResolveTableRows`). A table
  whose rows all have cells keeps its shape (`ResolveTableShape`).
- The doc comments of two functions promise more than their code does:
  - `getValueFromParam` (src/GherkinParam.php:45) says it returns the
    parameter's name when no value exists. The code returns whatever the
    fixture store gives for a missing name. The model gives null there, not
    the literal (`MissingFixtureExample`).
  - `getValueFromConfig` (src/GherkinParam.php:71) says it returns null when
    the value does not exist. The walk returns the last value it found
    instead, so `{{config:db:nope}}` gives the whole `db` section
    (`PartialConfigExample`).

Choices where PHP would fail or warn, or where the behaviour belongs to a
collaborator:

- A missing fixture is `Null`.
- In array mode, a fixture that is not an array gives `Null`. PHP 8 throws a
  TypeError from `array_key_exists` here.
- Before any `beforeSuite`, the suite config is `Null` and config lookups
  start from an empty map, so they give `Null`.

## Model

| member | source | states |
|---|---|---|
| `Patterns.IsParam` | src/GherkinParam.php:29 | the test of `REGEX_PARAM`: at least five characters, `{{` first, `}}` last, and every character between them in `[A-z0-9_:-]` |
| `Patterns.RemoveBraces` | src/GherkinParam.php:30 | `preg_filter` with `REGEX_FILTER`: the string with every `{` and `}` removed, the other characters kept in order |
| `Patterns.AtoZRange` | src/GherkinParam.php:29-32 | the `A-z` range admits `[ ] \ ^` and backtick; no brace, newline or (in the segment/name class) colon |
| `Patterns.WrapBody` | src/GherkinParam.php:29 | a string matches the placeholder pattern iff it is `{{` + a non-empty body of `[A-z0-9_:-]` + `}}`, and that body comes back out |
| `Patterns.FilterYieldsBody` | src/GherkinParam.php:29-30 | for a placeholder, removing every brace leaves exactly the text between the first two and last two characters |
| `Patterns.RunEnd` | src/GherkinParam.php:31 | the greedy `[A-z0-9_-]+` run from an offset: all name characters, ending at the end or at a non-name character |
| `Patterns.ConfigMatchAt` | src/GherkinParam.php:31 | one attempt of `REGEX_CONFIG` at an offset: `^config` only at offset 0, then `:`, the greedy name run, and the lookahead for `:` or the end; the match ends after the run |
| `Patterns.ConfigScan` | src/GherkinParam.php:78 | `preg_match_all` with `REGEX_CONFIG`: group 1 of each match in turn, the search resuming where a match ends, or one character later after a failed attempt |
| `Patterns.ConfigSearch` | src/GherkinParam.php:55 | `preg_match` with `REGEX_CONFIG`: some attempt at the offset or later matches |
| `Patterns.SearchFindsScan` | src/GherkinParam.php:55-56 | `preg_match` with the config pattern succeeds iff `preg_match_all` captures at least one segment |
| `Patterns.ConfigSegmentsArePath` | src/GherkinParam.php:78 | for a body, the captured segments are the non-empty colon pieces after the first colon |
| `Patterns.ConfigRefIff` | src/GherkinParam.php:55-57 | config mode is chosen iff the body has a non-empty piece after its first colon |
| `Patterns.ConfigPathOfJoin` | src/GherkinParam.php:31 | round trip: `prefix:seg1:...:segN` with a colon-free prefix reads back as exactly the segments |
| `Patterns.ConfigPathIsValid` | src/GherkinParam.php:31 | every segment a body names is a non-empty run of `[A-z0-9_-]`, as the capture group requires |
| `Patterns.NoColonNoPath` | src/GherkinParam.php:31 | a body without a colon names no config path |
| `Patterns.ArraySearch` | src/GherkinParam.php:32 | the backtracking search returns the longest name length that fits `name[key]` and none otherwise, with the name and key taken from the body |
| `Patterns.ArraySplit` | src/GherkinParam.php:102-103 | the `var` and `key` groups of `REGEX_ARRAY` for the whole body, or no match |
| `Patterns.ArraySplitMeaning` | src/GherkinParam.php:32 | a match splits the body as name + `[` + key + `]`, name a non-empty word, key non-empty, no longer name fits; no match iff no split fits |
| `Patterns.ArraySplitOfRef` | src/GherkinParam.php:32 | round trip: `name[key]` with a key without `[` splits back into that name and key |
| `Patterns.NoBracketNoArray` | src/GherkinParam.php:32 | a body without `[` does not match the array pattern |
| `Values.Fixture` | src/GherkinParam.php:34-38 | the value the fixture store holds under a name, null when it holds none |
| `Config.Step` | src/GherkinParam.php:79-86 | one iteration of the loop: after the `break` or on a missing key, nothing changes; a present key sets the value, and an array value becomes the map searched next while any other value ends the loop |
| `Config.Walk` | src/GherkinParam.php:78-87 | the `foreach` over the segments: one step per segment, in order |
| `Config.ConfigValue` | src/GherkinParam.php:74-88 | the walk starts from the suite config with the value null, and the value it ends with is returned |
| `Config.WalkFromStopped` | src/GherkinParam.php:82-84 | after the `break`, later segments change nothing |
| `Config.WalkSkipsMissing` | src/GherkinParam.php:79-87 | a segment missing from the map in effect is skipped: the result equals that of the path without it |
| `Config.WalkStopsAtScalar` | src/GherkinParam.php:80-84 | a present key with a non-array value ends the walk with that value, whatever follows |
| `Config.WalkEndsAtLastFound` | src/GherkinParam.php:80-88 | a present last key reached while the walk goes on gives its value: the walk returns the last value found |
| `Config.WalkNoKeyIsNull` | src/GherkinParam.php:75-88 | if no segment is a key of the suite config, the state never changes and the result is null |
| `Config.WalkFollowsFullPath` | src/GherkinParam.php:79-87 | when every segment exists and every intermediate value is an array, the result is the value at the full path |
| `Resolver.RootOf` | src/GherkinParam.php:76 | the map the config walk starts from: the suite config, or the empty map while no suite has started (the config is still null) |
| `Resolver.GetValueFromArray` | src/GherkinParam.php:98-108 | entry `key` of the fixture `var`, when that fixture is an array holding the key; null otherwise |
| `Resolver.GetValueFromParam` | src/GherkinParam.php:47-64 | a non-placeholder comes back unchanged; otherwise its body goes to the config walk if it names a config path, else to the array lookup if it splits, else to a plain fixture lookup |
| `Resolver.ConfigTokenResolves` | src/GherkinParam.php:55-56 | for a colon-free `[A-z0-9_-]` prefix and non-empty `[A-z0-9_-]` segments, `{{prefix:seg1:...:segN}}` gives the walk of the suite config along exactly those segments |
| `Resolver.ArrayTokenResolves` | src/GherkinParam.php:98-108 | for a non-empty `[A-z0-9_-]` name and a non-empty `[A-z0-9_-]` key without `[`, `{{name[key]}}` gives `fixture[name][key]` when that fixture is an array with the key, null otherwise |
| `Resolver.FixtureTokenResolves` | src/GherkinParam.php:34-38 | `{{name}}` for a word without `[` gives the fixture stored under the name |
| `Resolver.ConfigBeforeArray` | src/GherkinParam.php:55-61 | `a[b:c]` matches the array pattern, yet resolves as the config path `c]` because config is tried first |
| `Resolver.FixtureExample` | src/GherkinParam.php:63 | `{{username}}` gives the value stored under `username` |
| `Resolver.MissingFixtureExample` | src/GherkinParam.php:63 | `{{missing}}` on a store without `missing` gives null, not the literal |
| `Resolver.ArrayExample` | src/GherkinParam.php:100-107 | `{{users[0]}}` on the list `a`,`b` gives `a` |
| `Resolver.ConfigExample` | src/GherkinParam.php:73-89 | `{{config:db:host}}` gives the host of the `db` section |
| `Resolver.PartialConfigExample` | src/GherkinParam.php:71-88 | `{{config:db:nope}}`, where `db` has no `nope`, gives the whole `db` section, not null |
| `Resolver.ResolveTableShape` | src/GherkinParam.php:117-126 | for a table whose rows all have cells: same row count, same cell count per row, each cell the resolution of the input cell |
| `Resolver.ResolveCell` | src/GherkinParam.php:122 | one cell: a string cell is resolved as a parameter; a cell of another kind comes back unchanged |
| `Resolver.ResolveRow` | src/GherkinParam.php:121-123 | one row: the same number of cells, each cell resolved in its place |
| `Resolver.ResolveTable` | src/GherkinParam.php:117-126 | the rebuilt table: the rows that have cells, in order, each resolved |
| `Resolver.CellRows` | src/GherkinParam.php:120-121 | the rows that have cells, in their order: every row it returns is non-empty, and there are no more of them than input rows |
| `Resolver.ResolveTableRows` | src/GherkinParam.php:117-126 | for every table: the new table has as many rows as the input has rows with cells, and row i is the i-th such row with every cell resolved |
| `Resolver.ResolveArg` | src/GherkinParam.php:155-168 | one step argument: a string is resolved, a table is rebuilt, any other argument is left as it is |
| `Hook.TableNodeRows` | src/GherkinParam.php:125 | the rows of `new TableNode($table)`: the entries of the built array in index order, skipping the indices it has no entry for |
| `Hook.TableNodeRowsResolved` | src/GherkinParam.php:119-125 | the `$table` array the loops build, read as the new table's rows, is the resolved table |
| `Hook.GherkinParam.constructor` | src/GherkinParam.php:27 | the suite config is null before any suite starts |
| `Hook.GherkinParam.BeforeSuite` | src/GherkinParam.php:136-139 | the captured config becomes the new suite's settings, replacing the old |
| `Hook.GherkinParam.GetValueFromParam` | src/GherkinParam.php:47-64 | the method equals the function `Resolver.GetValueFromParam` under the current suite config, with config mode run by the loop method `GetValueFromConfig` |
| `Hook.GherkinParam.GetValueFromConfig` | src/GherkinParam.php:73-89 | the loop returns the walk of the captured config along the segments `preg_match_all` finds |
| `Hook.GherkinParam.GetValueFromTableNode` | src/GherkinParam.php:117-126 | the nested loops, resolving each cell through the method `GetValueFromParam`, give, in order, each row that has cells, with every cell resolved |
| `Hook.GherkinParam.BeforeStep` | src/GherkinParam.php:146-172 | every argument is rewritten in place: strings resolved through the method `GetValueFromParam`, tables cell by cell, others untouched; count and positions kept; lookups use the current suite config |
| `Hook.SuiteSwitch` | src/GherkinParam.php:136-139 | after two suites start in a row, config lookups see only the second suite's settings |

## Left out

- Event registration (src/GherkinParam.php:17-22): this is Codeception's event system. The model calls the handlers directly.
- Reflection on the step's protected `arguments` (src/GherkinParam.php:148-154, 171): the argument list is a plain `array<Arg>` that `BeforeStep` changes in place.
- `Fixtures::get` (src/GherkinParam.php:34-38) belongs to a foreign static store. It is a map parameter here, and a missing key gives null. The store's own behaviour for a missing key is not modelled.
- The `TableNode` class is foreign. A table is the list of its rows. A table built from an array is taken to list that array's rows in index order. Its column-count check and display widths are not modelled. Neither is its check of the cell values: a cell that resolves to null or to an array (`{{users[9]}}`, `{{config:db}}`) stays a `Null` or `Arr` cell here, where `TableNode` may reject it.
- Non-string table cells are returned unchanged. PHP would coerce such a scalar to a string and test the pattern, and the coerced string never matches. For an array cell, PHP 8 raises an error, which is not modelled.
- PHP's `$` also matches before a final newline. Here `$` is the end of the string.
- PHP converts numeric-string array keys to integers. Keys here are strings.
- `array_key_exists` on a value that is not an array (a non-array fixture in array mode, or the null config before any suite): PHP 8 raises a TypeError. The model returns null.
- PHP arrays keep insertion order. The model's maps do not, and no lookup depends on that order.
- The static field is shared by every instance of the extension; the model has one hook object holding it.
- tests/acceptance/_bootstrap.php is a test script that does page, database and file I/O. It contains no resolver logic.
