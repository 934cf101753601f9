/**
  The values a placeholder can resolve to, and the fixture store they come from.

  PHP values are untyped; the model keeps the kinds the resolver tells apart.
  `Arr` is a PHP array: `is_array` holds of it, and `array_key_exists` looks
  into its entries. Keys are strings (PHP's coercion of numeric-string keys to
  integers is not modelled, so the key "0" finds the entry stored under "0").
 */
module Values {

  datatype Value =
    | Null
    | Bool(b: bool)
    | Int(i: int)
    | Str(s: string)
    | Arr(entries: map<string, Value>)

  /** `Fixtures::get(name)`: the stored value, or null when nothing is stored under `name`. */
  function Fixture(fixtures: map<string, Value>, name: string): Value
  {
    if name in fixtures then fixtures[name] else Null
  }
}
