/**
 * Query preparation for the `find` command: `parse_query` turns
 * `key:value` tokens into a dict of text, and `convert` keeps the keys
 * that `type_map` knows and converts each value to that field's type.
 */
module Utils {
  import opened Wrappers
  import opened Builtins

  /** The Python type constructors `type_map` maps field names to. */
  datatype FieldType = Str | Int | Float | List

  /**
   * A converted query value. A float is kept as its IEEE 754 double bit
   * pattern; a list is a list of strings.
   */
  datatype Value = StrVal(text: string) | IntVal(n: int) | FloatVal(bits: bv64) | ListVal(items: seq<string>)

  /** The two exceptions the functions can raise. */
  datatype Error =
    | IndexError(token: string)                  // a token with no delimiter
    | ValueError(raw: string, expected: FieldType) // int() or float() rejected a value

  /** The default delimiter of `parse_query`. */
  const Delimiter := ':'

  /** `type_map`: the type each queryable field is converted to. */
  const TypeMap: map<string, FieldType> := map[
    "Orbit_type" := Str,
    "a" := Float,
    "Semilatus_rectum" := Float,
    "Name" := Str,
    "Hex_flags" := Str,
    "Last_obs" := Str,
    "Synodic_period" := Float,
    "Epoch" := Float,
    "Tp" := Float,
    "e" := Float,
    "Computer" := Str,
    "M" := Float,
    "Aphelion_dist" := Float,
    "G" := Float,
    "Peri" := Float,
    "Arc_years" := Str,
    "U" := Str,
    "Number" := Str,
    "H" := Float,
    "Other_desigs" := List,
    "rms" := Float,
    "Perturbers" := Str,
    "Perihelion_dist" := Float,
    "Num_opps" := Int,
    "Ref" := Str,
    "Principal_desig" := Str,
    "Orbital_period" := Float,
    "Num_obs" := Int,
    "Perturbers_2" := Str,
    "n" := Float,
    "Node" := Float,
    "i" := Float
  ]

  // ---------------------------------------------------------------------
  // parse_query
  // ---------------------------------------------------------------------

  /** `token.split(sep)[0]` */
  function Key(token: string, sep: char): string {
    Split(token, sep)[0]
  }

  /** `token.split(sep)[1]`, where it exists. */
  function Val(token: string, sep: char): string {
    var parts := Split(token, sep);
    if |parts| < 2 then "" else parts[1]
  }

  /** One step of the loop: the token's key and value, or IndexError when it has no delimiter. */
  function TokenEntry(token: string, sep: char): Result<(string, string), Error> {
    if |Split(token, sep)| < 2 then Failure(IndexError(token)) else Success((Key(token, sep), Val(token, sep)))
  }

  /** What `parse_query(tokens, sep)` returns or raises, token by token. */
  function QueryOf(tokens: seq<string>, sep: char): (r: Result<Dict<string>, Error>)
    ensures r.Success? ==> r.value.Valid()
  {
    if tokens == [] then Success(EmptyDict())
    else
      match QueryOf(tokens[..|tokens| - 1], sep)
      case Failure(e) => Failure(e)
      case Success(query) =>
        match TokenEntry(tokens[|tokens| - 1], sep)
        case Failure(e) => Failure(e)
        case Success(kv) => Success(query.Put(kv.0, kv.1))
  }

  /** Once a prefix of the tokens raises, the whole call raises the same error. */
  lemma {:induction false} QueryOfFailurePersists(tokens: seq<string>, n: nat, sep: char)
    requires n <= |tokens|
    requires QueryOf(tokens[..n], sep).Failure?
    ensures QueryOf(tokens, sep) == QueryOf(tokens[..n], sep)
    decreases |tokens| - n
  {
    if n < |tokens| {
      assert tokens[..n + 1][..n] == tokens[..n];
      QueryOfFailurePersists(tokens, n + 1, sep);
    } else {
      assert tokens[..n] == tokens;
    }
  }

  /** `parse_query(q_args, delimiter)` */
  method ParseQuery(tokens: seq<string>, sep: char) returns (r: Result<Dict<string>, Error>)
    ensures r == QueryOf(tokens, sep)
  {
    var query := EmptyDict();
    for i := 0 to |tokens|
      invariant QueryOf(tokens[..i], sep) == Success(query)
    {
      assert tokens[..i + 1][..i] == tokens[..i];
      var parts := Split(tokens[i], sep);
      if |parts| < 2 {
        QueryOfFailurePersists(tokens, i + 1, sep);
        return Failure(IndexError(tokens[i]));
      }
      query := query.Put(parts[0], parts[1]);
    }
    assert tokens[..|tokens|] == tokens;
    r := Success(query);
  }

  // ---------------------------------------------------------------------
  // convert
  // ---------------------------------------------------------------------

  /** `type_map[k](raw)` for the type `t`; `float()` is the parameter `parseFloat`. */
  function Coerce(t: FieldType, raw: string, parseFloat: string -> Option<bv64>): Result<Value, Error> {
    match t
    case Str => Success(StrVal(raw))
    case Int =>
      (match ParseInt(raw)
       case None => Failure(ValueError(raw, Int))
       case Some(n) => Success(IntVal(n)))
    case Float =>
      (match parseFloat(raw)
       case None => Failure(ValueError(raw, Float))
       case Some(b) => Success(FloatVal(b)))
    case List => Success(ListVal(Chars(raw)))
  }

  /**
   * What `convert` returns or raises after visiting `keys`, in that order,
   * when the field types come from `table`.
   */
  function ConvertKeys(
    keys: seq<string>, data: map<string, string>, table: map<string, FieldType>, parseFloat: string -> Option<bv64>)
    : (r: Result<Dict<Value>, Error>)
    requires forall i :: 0 <= i < |keys| ==> keys[i] in data
    ensures r.Success? ==> r.value.Valid()
  {
    if keys == [] then Success(EmptyDict())
    else
      match ConvertKeys(keys[..|keys| - 1], data, table, parseFloat)
      case Failure(e) => Failure(e)
      case Success(converted) =>
        var k := keys[|keys| - 1];
        if k !in table then Success(converted)
        else
          match Coerce(table[k], data[k], parseFloat)
          case Failure(e) => Failure(e)
          case Success(v) => Success(converted.Put(k, v))
  }

  /** What `convert(data)` returns or raises: its keys visited in iteration order. */
  function ConvertOf(data: Dict<string>, parseFloat: string -> Option<bv64>): Result<Dict<Value>, Error>
    requires data.Valid()
  {
    ConvertKeys(data.order, data.items, TypeMap, parseFloat)
  }

  /** Once a prefix of the keys raises, the whole call raises the same error. */
  lemma {:induction false} ConvertKeysFailurePersists(
    keys: seq<string>, n: nat, data: map<string, string>, table: map<string, FieldType>,
    parseFloat: string -> Option<bv64>)
    requires n <= |keys|
    requires forall i :: 0 <= i < |keys| ==> keys[i] in data
    requires ConvertKeys(keys[..n], data, table, parseFloat).Failure?
    ensures ConvertKeys(keys, data, table, parseFloat) == ConvertKeys(keys[..n], data, table, parseFloat)
    decreases |keys| - n
  {
    if n < |keys| {
      assert keys[..n + 1][..n] == keys[..n];
      ConvertKeysFailurePersists(keys, n + 1, data, table, parseFloat);
    } else {
      assert keys[..n] == keys;
    }
  }

  /**
   * The loop of `convert`, for a field-to-type table `table`: it builds a
   * fresh dict and never changes `data`; the first value `int()` or
   * `float()` rejects aborts the call.
   */
  method ConvertWith(data: Dict<string>, table: map<string, FieldType>, parseFloat: string -> Option<bv64>)
    returns (r: Result<Dict<Value>, Error>)
    requires data.Valid()
    ensures r == ConvertKeys(data.order, data.items, table, parseFloat)
  {
    var converted := EmptyDict();
    for i := 0 to |data.order|
      invariant ConvertKeys(data.order[..i], data.items, table, parseFloat) == Success(converted)
    {
      ghost var done := data.order[..i + 1];
      assert done[..i] == data.order[..i] && done[i] == data.order[i];
      var k := data.order[i];
      if k in table {
        var mapped := Coerce(table[k], data.items[k], parseFloat);
        if mapped.Failure? {
          ConvertKeysFailurePersists(data.order, i + 1, data.items, table, parseFloat);
          return Failure(mapped.error);
        }
        converted := converted.Put(k, mapped.value);
      }
    }
    assert data.order[..|data.order|] == data.order;
    r := Success(converted);
  }

  /** `convert(data)`: the loop above over `type_map`. */
  method Convert(data: Dict<string>, parseFloat: string -> Option<bv64>) returns (r: Result<Dict<Value>, Error>)
    requires data.Valid()
    ensures r == ConvertOf(data, parseFloat)
  {
    r := ConvertWith(data, TypeMap, parseFloat);
  }
}
