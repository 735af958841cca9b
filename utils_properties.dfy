/**
 * What `parse_query` and `convert` promise, stated over the functions
 * QueryOf and ConvertOf that the methods ParseQuery and Convert are proved
 * to compute.
 */
module UtilsProperties {
  import opened Wrappers
  import opened Builtins
  import opened Utils

  // ---------------------------------------------------------------------
  // parse_query
  // ---------------------------------------------------------------------

  /** A token raises IndexError exactly when it holds no delimiter. */
  lemma {:induction false} TokenEntryRaises(token: string, sep: char)
    ensures TokenEntry(token, sep).Failure? <==> sep !in token
    ensures TokenEntry(token, sep).Failure? ==> TokenEntry(token, sep) == Failure(IndexError(token))
  {
    SplitCount(token, sep);
    assert sep in token <==> multiset(token)[sep] > 0;
  }

  /**
   * A token `k:v` or `k:v:rest` gives key `k` (the text before the first
   * delimiter) and value `v` (the text up to the second delimiter, if any);
   * whatever follows a second delimiter is discarded.
   */
  lemma {:induction false} TokenEntryParts(k: string, v: string, tail: string, sep: char)
    requires sep !in k && sep !in v
    requires tail == [] || tail[0] == sep
    ensures TokenEntry(k + [sep] + v + tail, sep) == Success((k, v))
  {
    assert k + [sep] + v + tail == k + [sep] + (v + tail);
    SplitAtFirstSeparator(k, sep, v + tail);
    if tail == [] {
      assert v + tail == v;
      SplitWithoutSeparator(v, sep);
    } else {
      assert v + tail == v + [sep] + tail[1..];
      SplitAtFirstSeparator(v, sep, tail[1..]);
    }
  }

  /** The last token of a successful parse is stored over what its prefix built. */
  lemma {:induction false} QueryOfStep(tokens: seq<string>, sep: char)
    requires tokens != [] && QueryOf(tokens, sep).Success?
    ensures QueryOf(tokens[..|tokens| - 1], sep).Success?
    ensures TokenEntry(tokens[|tokens| - 1], sep).Success?
    ensures QueryOf(tokens, sep).value
            == QueryOf(tokens[..|tokens| - 1], sep).value.Put(Key(tokens[|tokens| - 1], sep), Val(tokens[|tokens| - 1], sep))
  {
  }

  /** A parse that raises has met a token without a delimiter. */
  lemma {:induction false} QueryOfFailureHasUndelimited(tokens: seq<string>, sep: char)
    requires QueryOf(tokens, sep).Failure?
    ensures exists i :: 0 <= i < |tokens| && sep !in tokens[i]
  {
    var n := |tokens| - 1;
    var prefix := tokens[..n];
    if QueryOf(prefix, sep).Failure? {
      QueryOfFailureHasUndelimited(prefix, sep);
      var i :| 0 <= i < n && sep !in prefix[i];
      assert sep !in tokens[i];
    } else {
      TokenEntryRaises(tokens[n], sep);
    }
  }

  /** Tokens that all hold a delimiter parse without raising. */
  lemma {:induction false} QueryOfDelimitedSucceeds(tokens: seq<string>, sep: char)
    requires forall i :: 0 <= i < |tokens| ==> sep in tokens[i]
    ensures QueryOf(tokens, sep).Success?
  {
    if tokens != [] {
      var n := |tokens| - 1;
      var prefix := tokens[..n];
      assert forall i :: 0 <= i < n ==> prefix[i] == tokens[i];
      QueryOfDelimitedSucceeds(prefix, sep);
      TokenEntryRaises(tokens[n], sep);
    }
  }

  /** Every token of a parse that succeeds holds a delimiter. */
  lemma {:induction false} QueryOfTokenDelimited(tokens: seq<string>, sep: char, i: nat)
    requires QueryOf(tokens, sep).Success? && i < |tokens|
    ensures sep in tokens[i]
  {
    var n := |tokens| - 1;
    var prefix := tokens[..n];
    assert QueryOf(prefix, sep).Success? && TokenEntry(tokens[n], sep).Success?;
    if i < n {
      QueryOfTokenDelimited(prefix, sep, i);
      assert prefix[i] == tokens[i];
    } else {
      TokenEntryRaises(tokens[n], sep);
    }
  }

  /** The error raised is the one of the first token without a delimiter. */
  lemma {:induction false} QueryOfFirstUndelimited(tokens: seq<string>, sep: char, i: nat)
    requires i < |tokens| && sep !in tokens[i]
    requires forall j :: 0 <= j < i ==> sep in tokens[j]
    ensures QueryOf(tokens, sep) == Failure(IndexError(tokens[i]))
  {
    var n := |tokens| - 1;
    var prefix := tokens[..n];
    assert forall j :: 0 <= j < n ==> prefix[j] == tokens[j];
    if i < n {
      QueryOfFirstUndelimited(prefix, sep, i);
    } else {
      QueryOfDelimitedSucceeds(prefix, sep);
      TokenEntryRaises(tokens[n], sep);
    }
  }

  /**
   * `parse_query` raises exactly when some token has no delimiter, and the
   * error is raised at the first such token; earlier tokens do not matter.
   */
  lemma {:induction false} QueryOfRaises(tokens: seq<string>, sep: char)
    ensures QueryOf(tokens, sep).Failure? <==> exists i :: 0 <= i < |tokens| && sep !in tokens[i]
    ensures forall i :: 0 <= i < |tokens| && sep !in tokens[i] && (forall j :: 0 <= j < i ==> sep in tokens[j])
                    ==> QueryOf(tokens, sep) == Failure(IndexError(tokens[i]))
  {
    if QueryOf(tokens, sep).Failure? {
      QueryOfFailureHasUndelimited(tokens, sep);
    } else {
      forall i | 0 <= i < |tokens| ensures sep in tokens[i] {
        QueryOfTokenDelimited(tokens, sep, i);
      }
    }
    forall i | 0 <= i < |tokens| && sep !in tokens[i] && (forall j :: 0 <= j < i ==> sep in tokens[j])
      ensures QueryOf(tokens, sep) == Failure(IndexError(tokens[i]))
    {
      QueryOfFirstUndelimited(tokens, sep, i);
    }
  }

  /** Every token's key is a key of the parsed query. */
  lemma {:induction false} QueryOfHasTokenKey(tokens: seq<string>, sep: char, i: nat)
    requires QueryOf(tokens, sep).Success? && i < |tokens|
    ensures Key(tokens[i], sep) in QueryOf(tokens, sep).value.items
  {
    var n := |tokens| - 1;
    var prefix := tokens[..n];
    QueryOfStep(tokens, sep);
    if i < n {
      QueryOfHasTokenKey(prefix, sep, i);
      assert prefix[i] == tokens[i];
    }
  }

  /** Every key of the parsed query is some token's key. */
  lemma {:induction false} QueryOfKeyFromToken(tokens: seq<string>, sep: char, k: string)
    requires QueryOf(tokens, sep).Success? && k in QueryOf(tokens, sep).value.items
    ensures exists i :: 0 <= i < |tokens| && Key(tokens[i], sep) == k
  {
    var n := |tokens| - 1;
    var prefix := tokens[..n];
    QueryOfStep(tokens, sep);
    if k == Key(tokens[n], sep) {
      assert Key(tokens[n], sep) == k;
    } else {
      QueryOfKeyFromToken(prefix, sep, k);
      var i :| 0 <= i < n && Key(prefix[i], sep) == k;
      assert prefix[i] == tokens[i];
    }
  }

  /** The keys of the parsed query are exactly the tokens' keys (none for no tokens). */
  lemma {:induction false} QueryOfKeys(tokens: seq<string>, sep: char)
    requires QueryOf(tokens, sep).Success?
    ensures forall k :: k in QueryOf(tokens, sep).value.items <==> exists i :: 0 <= i < |tokens| && Key(tokens[i], sep) == k
  {
    forall k | k in QueryOf(tokens, sep).value.items ensures exists i :: 0 <= i < |tokens| && Key(tokens[i], sep) == k {
      QueryOfKeyFromToken(tokens, sep, k);
    }
    forall i | 0 <= i < |tokens| ensures Key(tokens[i], sep) in QueryOf(tokens, sep).value.items {
      QueryOfHasTokenKey(tokens, sep, i);
    }
  }

  /** When tokens repeat a key, the value of the last of them is kept. */
  lemma {:induction false} QueryOfLastWins(tokens: seq<string>, sep: char, i: nat)
    requires QueryOf(tokens, sep).Success?
    requires i < |tokens|
    requires forall j :: i < j < |tokens| ==> Key(tokens[j], sep) != Key(tokens[i], sep)
    ensures Key(tokens[i], sep) in QueryOf(tokens, sep).value.items
    ensures QueryOf(tokens, sep).value.items[Key(tokens[i], sep)] == Val(tokens[i], sep)
  {
    var n := |tokens| - 1;
    var prefix := tokens[..n];
    QueryOfStep(tokens, sep);
    var last := Key(tokens[n], sep);
    var items := QueryOf(tokens, sep).value.items;
    assert items == QueryOf(prefix, sep).value.items[last := Val(tokens[n], sep)];
    if i < n {
      assert prefix[i] == tokens[i];
      assert forall j :: i < j < |prefix| ==> prefix[j] == tokens[j];
      QueryOfLastWins(prefix, sep, i);
      assert last != Key(tokens[i], sep);
    }
  }

  /** The `key:value` tokens of a dict of text, in its iteration order. */
  function Render(query: Dict<string>, sep: char): (tokens: seq<string>)
    requires query.Valid()
  {
    seq(|query.order|, i requires 0 <= i < |query.order| => query.order[i] + [sep] + query.items[query.order[i]])
  }

  /** The first `n` entries of a dict, as a dict. */
  function Take(query: Dict<string>, n: nat): Dict<string>
    requires query.Valid() && n <= |query.order|
  {
    Dict(query.order[..n], map k | k in query.order[..n] :: query.items[k])
  }

  /** Taking one more entry of a dict stores that entry over the shorter take. */
  lemma {:induction false} TakeStep(query: Dict<string>, n: nat)
    requires query.Valid() && 0 < n <= |query.order|
    ensures Take(query, n - 1).Valid()
    ensures Take(query, n - 1).Put(query.order[n - 1], query.items[query.order[n - 1]]) == Take(query, n)
  {
    var k := query.order[n - 1];
    var before := Take(query, n - 1);
    assert query.order[..n] == query.order[..n - 1] + [k];
    assert k !in query.order[..n - 1];
    assert k !in before.items;
    assert before.items[k := query.items[k]] == Take(query, n).items;
  }

  /** The `n`-th rendered token is that entry's `key:value`. */
  lemma {:induction false} RenderAt(query: Dict<string>, sep: char, n: nat)
    requires query.Valid() && 0 < n <= |query.order|
    requires forall k :: k in query.items ==> sep !in k && sep !in query.items[k]
    ensures Render(query, sep)[..n][..n - 1] == Render(query, sep)[..n - 1]
    ensures TokenEntry(Render(query, sep)[..n][n - 1], sep) == Success((query.order[n - 1], query.items[query.order[n - 1]]))
  {
    var k := query.order[n - 1];
    var v := query.items[k];
    assert Render(query, sep)[..n][n - 1] == k + [sep] + v + [];
    TokenEntryParts(k, v, [], sep);
  }

  /** Parsing the first `n` rendered tokens gives the first `n` entries. */
  lemma {:induction false} QueryOfRenderPrefix(query: Dict<string>, sep: char, n: nat)
    requires query.Valid() && n <= |query.order|
    requires forall k :: k in query.items ==> sep !in k && sep !in query.items[k]
    ensures QueryOf(Render(query, sep)[..n], sep) == Success(Take(query, n))
  {
    if n == 0 {
      assert Render(query, sep)[..0] == [];
      assert Take(query, 0).items == map[];
    } else {
      QueryOfRenderPrefix(query, sep, n - 1);
      RenderAt(query, sep, n);
      TakeStep(query, n);
    }
  }

  /**
   * Rendering a dict whose keys and values hold no delimiter as `key:value`
   * tokens and parsing them gives the same dict back, order included.
   */
  lemma {:induction false} QueryOfRender(query: Dict<string>, sep: char)
    requires query.Valid()
    requires forall k :: k in query.items ==> sep !in k && sep !in query.items[k]
    ensures QueryOf(Render(query, sep), sep) == Success(query)
  {
    var n := |query.order|;
    QueryOfRenderPrefix(query, sep, n);
    assert Render(query, sep)[..n] == Render(query, sep);
    TakeAll(query);
  }

  /** Taking every entry of a dict gives the dict. */
  lemma {:induction false} TakeAll(query: Dict<string>)
    requires query.Valid()
    ensures Take(query, |query.order|) == query
  {
    var all := Take(query, |query.order|);
    assert query.order[..|query.order|] == query.order;
    assert all.items == query.items;
  }

  // ---------------------------------------------------------------------
  // convert
  // ---------------------------------------------------------------------

  /** The keys that `table` knows, in the given order. */
  function Known(keys: seq<string>, table: map<string, FieldType>): seq<string> {
    if keys == [] then []
    else Known(keys[..|keys| - 1], table) + (if keys[|keys| - 1] in table then [keys[|keys| - 1]] else [])
  }

  /** `int()` or `float()` rejects the value of `k`, which `table` knows. */
  predicate Rejects(k: string, data: map<string, string>, table: map<string, FieldType>, parseFloat: string -> Option<bv64>)
    requires k in data
  {
    && k in table
    && ((table[k] == Int && ParseInt(data[k]).None?) || (table[k] == Float && parseFloat(data[k]).None?))
  }

  /**
   * A successful run over distinct keys keeps the keys `table` knows, in
   * order, each with its value converted by its type.
   */
  lemma {:induction false} ConvertKeysSuccess(
    keys: seq<string>, data: map<string, string>, table: map<string, FieldType>, parseFloat: string -> Option<bv64>)
    requires forall i :: 0 <= i < |keys| ==> keys[i] in data
    requires forall i, j :: 0 <= i < j < |keys| ==> keys[i] != keys[j]
    requires ConvertKeys(keys, data, table, parseFloat).Success?
    ensures var converted := ConvertKeys(keys, data, table, parseFloat).value;
      && converted.order == Known(keys, table)
      && (forall k :: k in converted.items <==> k in keys && k in table)
      && (forall k :: k in converted.items ==>
            k in data && k in table && Coerce(table[k], data[k], parseFloat) == Success(converted.items[k]))
  {
    if keys != [] {
      var n := |keys| - 1;
      var prefix := keys[..n];
      assert forall i :: 0 <= i < |prefix| ==> prefix[i] == keys[i];
      ConvertKeysSuccess(prefix, data, table, parseFloat);
      var k := keys[n];
      assert k !in prefix;
      assert forall x :: x in keys <==> x in prefix || x == k by {
        assert keys == prefix + [k];
      }
    }
  }

  /** A run that raises has met a value `int()` or `float()` rejects. */
  lemma {:induction false} ConvertKeysFailureRejects(
    keys: seq<string>, data: map<string, string>, table: map<string, FieldType>, parseFloat: string -> Option<bv64>)
    requires forall i :: 0 <= i < |keys| ==> keys[i] in data
    requires ConvertKeys(keys, data, table, parseFloat).Failure?
    ensures exists i :: 0 <= i < |keys| && Rejects(keys[i], data, table, parseFloat)
  {
    var n := |keys| - 1;
    var prefix := keys[..n];
    assert forall i :: 0 <= i < n ==> prefix[i] == keys[i];
    if ConvertKeys(prefix, data, table, parseFloat).Failure? {
      ConvertKeysFailureRejects(prefix, data, table, parseFloat);
      var i :| 0 <= i < n && Rejects(prefix[i], data, table, parseFloat);
      assert Rejects(keys[i], data, table, parseFloat);
    } else {
      assert Rejects(keys[n], data, table, parseFloat);
    }
  }

  /** A run in which no value is rejected does not raise. */
  lemma {:induction false} ConvertKeysAcceptedSucceeds(
    keys: seq<string>, data: map<string, string>, table: map<string, FieldType>, parseFloat: string -> Option<bv64>)
    requires forall i :: 0 <= i < |keys| ==> keys[i] in data
    requires forall i :: 0 <= i < |keys| ==> !Rejects(keys[i], data, table, parseFloat)
    ensures ConvertKeys(keys, data, table, parseFloat).Success?
  {
    if keys != [] {
      var n := |keys| - 1;
      var prefix := keys[..n];
      assert forall i :: 0 <= i < n ==> prefix[i] == keys[i];
      ConvertKeysAcceptedSucceeds(prefix, data, table, parseFloat);
      assert !Rejects(keys[n], data, table, parseFloat);
    }
  }

  /** No value of a run that succeeds was rejected. */
  lemma {:induction false} ConvertKeysSuccessAccepts(
    keys: seq<string>, data: map<string, string>, table: map<string, FieldType>, parseFloat: string -> Option<bv64>,
    i: nat)
    requires forall j :: 0 <= j < |keys| ==> keys[j] in data
    requires ConvertKeys(keys, data, table, parseFloat).Success? && i < |keys|
    ensures !Rejects(keys[i], data, table, parseFloat)
  {
    var n := |keys| - 1;
    var prefix := keys[..n];
    assert forall j :: 0 <= j < n ==> prefix[j] == keys[j];
    if i < n {
      ConvertKeysSuccessAccepts(prefix, data, table, parseFloat, i);
    }
  }

  /** The error raised is the one of the first rejected value. */
  lemma {:induction false} ConvertKeysFirstReject(
    keys: seq<string>, data: map<string, string>, table: map<string, FieldType>, parseFloat: string -> Option<bv64>,
    i: nat)
    requires forall j :: 0 <= j < |keys| ==> keys[j] in data
    requires i < |keys| && Rejects(keys[i], data, table, parseFloat)
    requires forall j :: 0 <= j < i ==> !Rejects(keys[j], data, table, parseFloat)
    ensures ConvertKeys(keys, data, table, parseFloat) == Failure(ValueError(data[keys[i]], table[keys[i]]))
  {
    var n := |keys| - 1;
    var prefix := keys[..n];
    assert forall j :: 0 <= j < n ==> prefix[j] == keys[j];
    if i < n {
      ConvertKeysFirstReject(prefix, data, table, parseFloat, i);
    } else {
      ConvertKeysAcceptedSucceeds(prefix, data, table, parseFloat);
    }
  }

  /** A run raises exactly when some value is rejected, with the first rejection's error. */
  lemma {:induction false} ConvertKeysRaises(
    keys: seq<string>, data: map<string, string>, table: map<string, FieldType>, parseFloat: string -> Option<bv64>)
    requires forall i :: 0 <= i < |keys| ==> keys[i] in data
    ensures ConvertKeys(keys, data, table, parseFloat).Failure? <==>
              exists i :: 0 <= i < |keys| && Rejects(keys[i], data, table, parseFloat)
    ensures forall i :: 0 <= i < |keys| && Rejects(keys[i], data, table, parseFloat)
                      && (forall j :: 0 <= j < i ==> !Rejects(keys[j], data, table, parseFloat))
                    ==> ConvertKeys(keys, data, table, parseFloat) == Failure(ValueError(data[keys[i]], table[keys[i]]))
  {
    if ConvertKeys(keys, data, table, parseFloat).Failure? {
      ConvertKeysFailureRejects(keys, data, table, parseFloat);
    } else {
      forall i | 0 <= i < |keys| ensures !Rejects(keys[i], data, table, parseFloat) {
        ConvertKeysSuccessAccepts(keys, data, table, parseFloat, i);
      }
    }
    forall i | 0 <= i < |keys| && Rejects(keys[i], data, table, parseFloat)
               && (forall j :: 0 <= j < i ==> !Rejects(keys[j], data, table, parseFloat))
      ensures ConvertKeys(keys, data, table, parseFloat) == Failure(ValueError(data[keys[i]], table[keys[i]]))
    {
      ConvertKeysFirstReject(keys, data, table, parseFloat, i);
    }
  }

  /**
   * A successful run of the `convert` loop over `table` keeps exactly the
   * keys the table knows, in their original order, and converts each value
   * by the field's type: text unchanged, `int()`, `float()`, or the list of
   * its characters. `convert` itself is the run over `type_map`.
   */
  lemma {:induction false} ConvertSuccess(data: Dict<string>, table: map<string, FieldType>, parseFloat: string -> Option<bv64>)
    requires data.Valid()
    requires ConvertKeys(data.order, data.items, table, parseFloat).Success?
    ensures var converted := ConvertKeys(data.order, data.items, table, parseFloat).value;
      && converted.order == Known(data.order, table)
      && (forall k :: k in converted.items <==> k in data.items && k in table)
      && (forall k :: k in converted.items && table[k] == Str ==> converted.items[k] == StrVal(data.items[k]))
      && (forall k :: k in converted.items && table[k] == Int ==>
            converted.items[k].IntVal? && ParseInt(data.items[k]) == Some(converted.items[k].n))
      && (forall k :: k in converted.items && table[k] == Float ==>
            converted.items[k].FloatVal? && parseFloat(data.items[k]) == Some(converted.items[k].bits))
      && (forall k :: k in converted.items && table[k] == List ==>
            converted.items[k] == ListVal(Chars(data.items[k])))
  {
    ConvertKeysSuccess(data.order, data.items, table, parseFloat);
  }

  /**
   * The `convert` loop over `table` raises exactly when `int()` or
   * `float()` rejects the value of some key the table knows, and the
   * ValueError is the one of the first such key in iteration order.
   * Unknown keys never raise.
   */
  lemma {:induction false} ConvertRaises(data: Dict<string>, table: map<string, FieldType>, parseFloat: string -> Option<bv64>)
    requires data.Valid()
    ensures ConvertKeys(data.order, data.items, table, parseFloat).Failure? <==>
              exists i :: 0 <= i < |data.order| && Rejects(data.order[i], data.items, table, parseFloat)
    ensures forall i :: 0 <= i < |data.order| && Rejects(data.order[i], data.items, table, parseFloat)
                      && (forall j :: 0 <= j < i ==> !Rejects(data.order[j], data.items, table, parseFloat))
                    ==> ConvertKeys(data.order, data.items, table, parseFloat)
                        == Failure(ValueError(data.items[data.order[i]], table[data.order[i]]))
  {
    ConvertKeysRaises(data.order, data.items, table, parseFloat);
  }

  /** A key the table does not know is left out of the result. */
  lemma {:induction false} ConvertDropsUnknown(data: Dict<string>, table: map<string, FieldType>, parseFloat: string -> Option<bv64>, k: string)
    requires data.Valid()
    requires ConvertKeys(data.order, data.items, table, parseFloat).Success?
    requires k !in table
    ensures k !in ConvertKeys(data.order, data.items, table, parseFloat).value.items
  {
    ConvertKeysSuccess(data.order, data.items, table, parseFloat);
  }

  /** A key the table knows keeps its value converted by its type. */
  lemma {:induction false} ConvertKeepsKnown(data: Dict<string>, table: map<string, FieldType>, parseFloat: string -> Option<bv64>, k: string)
    requires data.Valid()
    requires ConvertKeys(data.order, data.items, table, parseFloat).Success?
    requires k in data.items && k in table
    ensures k in ConvertKeys(data.order, data.items, table, parseFloat).value.items
    ensures Coerce(table[k], data.items[k], parseFloat)
            == Success(ConvertKeys(data.order, data.items, table, parseFloat).value.items[k])
  {
    ConvertKeysSuccess(data.order, data.items, table, parseFloat);
  }

  /** One rejected value aborts the whole call, whatever the other keys hold. */
  lemma {:induction false} ConvertAbortsOnReject(data: Dict<string>, table: map<string, FieldType>, parseFloat: string -> Option<bv64>, k: string)
    requires data.Valid()
    requires k in data.items && Rejects(k, data.items, table, parseFloat)
    ensures ConvertKeys(data.order, data.items, table, parseFloat).Failure?
  {
    ConvertKeysRaises(data.order, data.items, table, parseFloat);
    var i :| 0 <= i < |data.order| && data.order[i] == k;
    assert Rejects(data.order[i], data.items, table, parseFloat);
  }

  /** `Arc_length` is not a `type_map` field. */
  lemma {:induction false} ArcLengthNotInTypeMap()
    ensures "Arc_length" !in TypeMap
  {
  }

  /** The count fields of `type_map` are integers. */
  lemma {:induction false} CountFieldTypes()
    ensures "Num_opps" in TypeMap && TypeMap["Num_opps"] == Int
    ensures "Num_obs" in TypeMap && TypeMap["Num_obs"] == Int
  {
  }

  /** The designation and name fields of `type_map` are text. */
  lemma {:induction false} TextFieldTypes()
    ensures "Name" in TypeMap && TypeMap["Name"] == Str
    ensures "Principal_desig" in TypeMap && TypeMap["Principal_desig"] == Str
    ensures "Arc_years" in TypeMap && TypeMap["Arc_years"] == Str
    ensures "Number" in TypeMap && TypeMap["Number"] == Str
  {
  }

  /** `Other_desigs` is the one list field of `type_map`; `Aphelion_dist` is a float. */
  lemma {:induction false} ListAndFloatFieldTypes()
    ensures "Other_desigs" in TypeMap && TypeMap["Other_desigs"] == List
    ensures forall k :: k in TypeMap && TypeMap[k] == List ==> k == "Other_desigs"
    ensures "Aphelion_dist" in TypeMap && TypeMap["Aphelion_dist"] == Float
  {
  }

  /** `Arc_length` is not in `type_map`, so a query on it is dropped. */
  lemma {:induction false} ArcLengthIsDropped(data: Dict<string>, parseFloat: string -> Option<bv64>)
    requires data.Valid()
    requires ConvertOf(data, parseFloat).Success?
    ensures "Arc_length" !in ConvertOf(data, parseFloat).value.items
  {
    ArcLengthNotInTypeMap();
    ConvertDropsUnknown(data, TypeMap, parseFloat, "Arc_length");
  }

  /** `Num_opps` and `Num_obs` must be integers: any other value aborts the whole call. */
  lemma {:induction false} CountsMustBeIntegers(data: Dict<string>, parseFloat: string -> Option<bv64>, k: string)
    requires data.Valid()
    requires k == "Num_opps" || k == "Num_obs"
    requires k in data.items && ParseInt(data.items[k]).None?
    ensures ConvertOf(data, parseFloat).Failure?
  {
    CountFieldTypes();
    ConvertAbortsOnReject(data, TypeMap, parseFloat, k);
  }

  /** The text fields `Name`, `Principal_desig`, `Arc_years` and `Number` keep their value. */
  lemma {:induction false} TextFieldsUnchanged(data: Dict<string>, parseFloat: string -> Option<bv64>, k: string)
    requires data.Valid()
    requires ConvertOf(data, parseFloat).Success?
    requires k == "Name" || k == "Principal_desig" || k == "Arc_years" || k == "Number"
    requires k in data.items
    ensures k in ConvertOf(data, parseFloat).value.items
    ensures ConvertOf(data, parseFloat).value.items[k] == StrVal(data.items[k])
  {
    TextFieldTypes();
    ConvertKeepsKnown(data, TypeMap, parseFloat, k);
  }

  /** `Other_desigs` becomes the list of its value's characters, which join back to the value. */
  lemma {:induction false} OtherDesigsAreCharacters(data: Dict<string>, parseFloat: string -> Option<bv64>)
    requires data.Valid()
    requires ConvertOf(data, parseFloat).Success?
    requires "Other_desigs" in data.items
    ensures var converted := ConvertOf(data, parseFloat).value;
      && "Other_desigs" in converted.items
      && converted.items["Other_desigs"].ListVal?
      && |converted.items["Other_desigs"].items| == |data.items["Other_desigs"]|
      && (forall c :: c in converted.items["Other_desigs"].items ==> |c| == 1)
      && Concat(converted.items["Other_desigs"].items) == data.items["Other_desigs"]
  {
    ListAndFloatFieldTypes();
    ConvertKeepsKnown(data, TypeMap, parseFloat, "Other_desigs");
    ConcatChars(data.items["Other_desigs"]);
  }

  // ---------------------------------------------------------------------
  // find: convert(parse_query(tokens))
  // ---------------------------------------------------------------------

  /**
   * The query `find` sends: its keys are the tokens' keys that the type
   * table knows; every other key has been dropped without a word.
   */
  lemma {:induction false} FindQueryKeys(tokens: seq<string>, table: map<string, FieldType>, parseFloat: string -> Option<bv64>)
    requires QueryOf(tokens, Delimiter).Success?
    requires var query := QueryOf(tokens, Delimiter).value;
      ConvertKeys(query.order, query.items, table, parseFloat).Success?
    ensures var query := QueryOf(tokens, Delimiter).value;
      forall k :: k in ConvertKeys(query.order, query.items, table, parseFloat).value.items <==>
        k in table && exists i :: 0 <= i < |tokens| && Key(tokens[i], Delimiter) == k
  {
    QueryOfKeys(tokens, Delimiter);
    ConvertSuccess(QueryOf(tokens, Delimiter).value, table, parseFloat);
  }

  /** `str(n)` never holds the delimiter. */
  lemma {:induction false} IntToStringHasNoDelimiter(n: int)
    ensures Delimiter !in IntToString(n)
  {
    var digits := NatToString(if n < 0 then -n else n);
    assert forall i :: 0 <= i < |digits| ==> digits[i] != Delimiter;
    if n < 0 {
      assert IntToString(n) == ['-'] + digits;
    }
  }

  /**
   * The query of the `find` documentation example,
   * `-q Aphelion_dist:3.1948214 Num_opps:38`, for any float text and any
   * integer: `parse_query` gives both entries in order, and `convert`
   * makes the first a float and the second an integer.
   */
  lemma {:induction false} FindExample(f: string, n: int, parseFloat: string -> Option<bv64>, bits: bv64)
    requires Delimiter !in f && parseFloat(f) == Some(bits)
    ensures QueryOf(["Aphelion_dist:" + f, "Num_opps:" + IntToString(n)], Delimiter)
            == Success(Dict(["Aphelion_dist", "Num_opps"], map["Aphelion_dist" := f, "Num_opps" := IntToString(n)]))
    ensures ConvertOf(QueryOf(["Aphelion_dist:" + f, "Num_opps:" + IntToString(n)], Delimiter).value, parseFloat)
            == Success(Dict(["Aphelion_dist", "Num_opps"], map["Aphelion_dist" := FloatVal(bits), "Num_opps" := IntVal(n)]))
  {
    var count := IntToString(n);
    var query := Dict(["Aphelion_dist", "Num_opps"], map["Aphelion_dist" := f, "Num_opps" := count]);
    assert |"Num_opps"| != |"Aphelion_dist"|;
    assert query.Valid();
    IntToStringHasNoDelimiter(n);
    assert Delimiter !in "Aphelion_dist" && Delimiter !in "Num_opps";
    assert "Aphelion_dist:" == "Aphelion_dist" + [Delimiter] && "Num_opps:" == "Num_opps" + [Delimiter];
    assert Render(query, Delimiter) == ["Aphelion_dist:" + f, "Num_opps:" + count];
    QueryOfRender(query, Delimiter);
    ListAndFloatFieldTypes();
    CountFieldTypes();
    ConvertFloatThenInt("Aphelion_dist", f, "Num_opps", n, TypeMap, parseFloat, bits);
  }

  /**
   * Converting a two-entry query whose first field the table types as a
   * float and whose second as an integer.
   */
  lemma {:induction false} ConvertFloatThenInt(
    a: string, f: string, b: string, n: int, table: map<string, FieldType>,
    parseFloat: string -> Option<bv64>, bits: bv64)
    requires a != b
    requires a in table && table[a] == Float && b in table && table[b] == Int
    requires parseFloat(f) == Some(bits)
    ensures Dict([a, b], map[a := f, b := IntToString(n)]).Valid()
    ensures ConvertKeys([a, b], map[a := f, b := IntToString(n)], table, parseFloat)
            == Success(Dict([a, b], map[a := FloatVal(bits), b := IntVal(n)]))
  {
    var keys := [a, b];
    var data := map[a := f, b := IntToString(n)];
    ParseIntOfIntToString(n);
    var first := Dict([a], map[a := FloatVal(bits)]);
    assert Coerce(table[a], data[a], parseFloat) == Success(FloatVal(bits));
    assert Coerce(table[b], data[b], parseFloat) == Success(IntVal(n));
    assert [a][..0] == [] && ConvertKeys([], data, table, parseFloat) == Success(EmptyDict());
    assert EmptyDict<Value>().Put(a, FloatVal(bits)) == first;
    assert ConvertKeys([a], data, table, parseFloat) == Success(first);
    assert keys[..1] == [a];
    assert ConvertKeys(keys, data, table, parseFloat) == Success(first.Put(b, IntVal(n)));
    assert b !in first.items;
    assert first.Put(b, IntVal(n)).order == [a] + [b] == keys;
    assert first.Put(b, IntVal(n)).items == map[a := FloatVal(bits), b := IntVal(n)];
    assert Dict(keys, data).Valid();
  }
}
