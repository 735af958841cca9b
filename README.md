# streampc query preparation, modelled in Dafny

streampc's `find` command takes `key:value` arguments from the command line.
It turns them into a MongoDB filter in two steps, both in `utils.py`:

* `parse_query(q_args, delimiter=':')` splits each argument on the delimiter.
  It stores `parts[0] -> parts[1]` in a dict. An argument without a delimiter
  raises `IndexError`.
* `convert(data)` walks the dict in iteration order and keeps only the fields
  listed in `type_map`. It converts each kept value with that field's type:
  `str` leaves it as is, `int` parses an integer, `float` parses a float and
  `list` splits the text into its characters. A value that `int()` or `float()`
  rejects raises `ValueError` and aborts the whole call.

The model has four modules:

* `Wrappers` (`wrappers.dfy`): `Option` and `Result`, which stand in for
  `None` and for raised exceptions.
* `Builtins` (`builtins.dfy`): the Python built-ins these functions rely on.
  * `Dict` is an insertion-ordered dict with string keys. Its `Put` is `d[k] = v`.
  * `Split` is `str.split` on a one-character separator, and `Join` is its
    inverse.
  * `ParseInt` is `int()` on a string, and `IntToString` is `str()` on an
    integer, with `int(str(n)) == n`.
  * `Chars` is `list()` on a string.
* `Utils` (`utils.dfy`): `type_map` as the constant `TypeMap`, plus the two
  operations. The 32 entries of `TypeMap` are the literal at utils.dfy:28-61,
  one per line of utils.py:4-37. The lemmas `ArcLengthNotInTypeMap`,
  `CountFieldTypes`, `TextFieldTypes` and `ListAndFloatFieldTypes` state the
  entries that the promises below rely on.
  * `ParseQuery` and `ConvertWith`/`Convert` are methods with the source's
    loops.
  * Each is proved equal to a token-by-token (or key-by-key) specification
    function: `QueryOf` and `ConvertKeys`/`ConvertOf`.
* `UtilsProperties` (`utils_properties.dfy`): what those functions promise.
  * when each error is raised and which one;
  * which keys survive;
  * which value wins;
  * what each field type does;
  * the round trip from a dict to `key:value` tokens and back;
  * the pipeline `convert(parse_query(...))` that `find` runs, including its
    documented example.

## Model

| member | source | states |
|---|---|---|
| `Utils.ParseQuery` | utils.py:65-69 | The loop returns, or raises, exactly what `QueryOf` gives for the same tokens and delimiter. |
| `Utils.QueryOf` | utils.py:65-69 | A parse that succeeds yields a well-formed dict: each key listed once, exactly the stored keys. |
| `Utils.QueryOfFailurePersists` | utils.py:66-68 | Once a token raises, the parse of any longer token list raises the same error. |
| `Utils.Key` | utils.py:67-68 | `_arg.split(delimiter)[0]`: the text before the first delimiter (`TokenEntryParts`). |
| `Utils.Val` | utils.py:67-68 | `_arg.split(delimiter)[1]`: the text between the first and second delimiters (`TokenEntryParts`). |
| `Utils.TokenEntry` | utils.py:67-68 | One token's key and value, or `IndexError` when `[1]` does not exist. `TokenEntryRaises` and `TokenEntryParts` give its meaning. |
| `Utils.Coerce` | utils.py:51 | `type_map[k](data[k])` for each of the four types: `str` keeps the text, `int` and `float` parse it or raise `ValueError`, `list` splits it into characters. `ConvertSuccess`, `ConvertKeepsKnown` and `ConvertRaises` give its meaning. |
| `Utils.ConvertWith` | utils.py:48-53 | The loop over the dict's keys, with the types taken from `table`, returns or raises exactly what `ConvertKeys` gives. It builds a new dict and leaves `data` as it was. |
| `Utils.Convert` | utils.py:40-53 | `convert(data)` returns or raises exactly what `ConvertOf` gives, which is the loop run over `type_map`. |
| `Utils.ConvertOf` | utils.py:48-53 | What `convert(data)` returns or raises: the key-by-key fold over `type_map`. `ConvertSuccess` and `ConvertRaises` give its meaning. |
| `Utils.ConvertKeys` | utils.py:48-53 | A conversion that succeeds yields a well-formed dict. |
| `Utils.ConvertKeysFailurePersists` | utils.py:49-52 | Once a value raises, the conversion of any longer key list raises the same error. |
| `Builtins.Dict.Put` | utils.py:68 | Storing a key into a well-formed dict keeps it well formed: each key listed once, exactly the stored keys. |
| `Builtins.PutSpec` | utils.py:68 | `d[k] = v` stores `v` under `k` and leaves every other entry as it was. A new key goes at the end of the iteration order; an existing key keeps its place. |
| `Builtins.Split` | utils.py:67 | `s.split(sep)` for a one-character separator; it always has at least one piece. Its meaning is given by `JoinSplit`, `SplitJoin`, `SplitAtFirstSeparator` and `SplitCount`. |
| `Builtins.JoinSplit` | utils.py:67 | `sep.join(s.split(sep)) == s`, and no piece of the split holds the separator. |
| `Builtins.SplitJoin` | utils.py:67 | Joining separator-free pieces and splitting again gives the same pieces. |
| `Builtins.SplitAtFirstSeparator` | utils.py:67 | The text before the first separator is the first piece; the rest is split on its own. |
| `Builtins.SplitCount` | utils.py:67 | `s.split(sep)` has one more piece than `s` has separators. |
| `Builtins.ParseInt` | utils.py:51 | `int()` on a string: an optional sign and one or more ASCII digits, or a rejection. Its meaning is given by `ParseIntOfIntToString` and `ParseIntRejectsNonDigit`. |
| `Builtins.ParseIntOfIntToString` | utils.py:51 | `int(str(n)) == n` for every integer `n`. |
| `Builtins.ParseIntRejectsNonDigit` | utils.py:51 | A character that is neither a digit nor a leading sign makes `int()` fail. |
| `Builtins.Chars` | utils.py:51 | `list()` on a string. Its meaning is given by `ConcatChars`. |
| `Builtins.ConcatChars` | utils.py:51 | `list(s)` has `len(s)` elements, each one character, and `"".join(list(s)) == s`. |
| `UtilsProperties.TokenEntryRaises` | utils.py:67-68 | A token raises `IndexError` exactly when it holds no delimiter. |
| `UtilsProperties.TokenEntryParts` | utils.py:67-68 | For `k:v` and `k:v:rest`, the key is the text before the first delimiter. The value is `v`, and anything after a second delimiter is dropped. |
| `UtilsProperties.QueryOfRaises` | utils.py:66-68 | `parse_query` raises exactly when some token has no delimiter. The error is the one of the first such token. |
| `UtilsProperties.QueryOfTokenDelimited` | utils.py:67-68 | Every token of a parse that succeeds holds a delimiter. |
| `UtilsProperties.QueryOfDelimitedSucceeds` | utils.py:66-68 | Tokens that all hold a delimiter never raise. |
| `UtilsProperties.QueryOfKeys` | utils.py:65-69 | The parsed dict's keys are exactly the keys of the tokens. No tokens give `{}`. |
| `UtilsProperties.QueryOfLastWins` | utils.py:68 | When tokens repeat a key, the dict holds the value of the last of them. |
| `UtilsProperties.QueryOfRender` | utils.py:65-69 | Writing a dict whose keys and values hold no delimiter as `key:value` tokens and parsing them gives the same dict back, in the same order. |
| `UtilsProperties.ConvertKeysSuccess` | utils.py:48-53 | A successful run over distinct keys keeps the table's keys in their order, each with its value converted by its type. |
| `UtilsProperties.ConvertKeysRaises` | utils.py:49-52 | A run raises exactly when some known value is rejected. The error is the first rejection's `ValueError`. |
| `UtilsProperties.ConvertSuccess` | utils.py:48-53 | A successful `convert` keeps exactly the input keys that the table knows, in iteration order. `str` values are unchanged; `int` values are what `int()` returns, `float` values what `float()` returns, and `list` values the list of their characters. |
| `UtilsProperties.ConvertRaises` | utils.py:49-52 | `convert` raises exactly when `int()` or `float()` rejects the value of a known key, with the first such key's error. Unknown keys never raise. |
| `UtilsProperties.ConvertDropsUnknown` | utils.py:50 | A key the table does not know is not in the result. |
| `UtilsProperties.ConvertKeepsKnown` | utils.py:50-52 | A key the table knows is in the result, holding its value converted by its type. |
| `UtilsProperties.ConvertAbortsOnReject` | utils.py:51 | One rejected value makes the whole call raise, whatever the other keys hold. |
| `UtilsProperties.ArcLengthNotInTypeMap` | utils.py:4-37 | `Arc_length` is not a field of `type_map`. |
| `UtilsProperties.CountFieldTypes` | utils.py:28-32 | `Num_opps` and `Num_obs` are `int` fields. |
| `UtilsProperties.TextFieldTypes` | utils.py:8-30 | `Name`, `Arc_years`, `Number` and `Principal_desig` are `str` fields. |
| `UtilsProperties.ListAndFloatFieldTypes` | utils.py:4-37 | `Other_desigs` is the one `list` field and `Aphelion_dist` is a `float` field. |
| `UtilsProperties.ArcLengthIsDropped` | utils.py:50 | A query on `Arc_length` is silently dropped by `convert`. |
| `UtilsProperties.CountsMustBeIntegers` | utils.py:51 | A `Num_opps` or `Num_obs` value that `int()` rejects makes `convert` raise. |
| `UtilsProperties.TextFieldsUnchanged` | utils.py:51 | `Name`, `Principal_desig`, `Arc_years` and `Number` come out of `convert` unchanged. |
| `UtilsProperties.OtherDesigsAreCharacters` | utils.py:51 | `Other_desigs` becomes the list of its characters, which join back to the original text. |
| `UtilsProperties.FindQueryKeys` | cli.py:53-54 | The filter `find` builds holds exactly the argument keys that the type table knows. |
| `UtilsProperties.FindExample` | cli.py:44 | `-q Aphelion_dist:<float> Num_opps:<int>` parses to both entries in order. `convert` then makes the first a float and the second an integer. |

## Left out

- `cli.py`, `engine.py` and `config.py` are not part of this model. They cover argument handling, the MongoDB client, logging, file loading and configuration, which are I/O. The part of `find` between `parse_query` and `convert` is stated by `FindQueryKeys` and `FindExample`.
- `float()` is not modelled. It is the parameter `parseFloat`, which returns the IEEE 754 bit pattern or `None` for a rejected text. Floating-point parsing and rounding are outside the model.
- Builtins.ParseInt: accepts only an optional sign followed by ASCII digits. Python's `int()` also accepts surrounding whitespace, underscores between digits and non-ASCII decimal digits, so the model rejects some texts that Python converts.
- Builtins.ParseInt: has no digit-count limit. CPython's `int_max_str_digits` (default 4300, since 3.11 and the 3.7.14/3.8.14/3.9.14/3.10.7 security releases) makes `int()` and `str()` raise `ValueError` past it, so the model accepts some texts that Python rejects, and `ParseIntOfIntToString` holds there only for the model.
- Utils.ParseQuery: the delimiter is one character. Python's `str.split` also takes a multi-character separator, but `find` only uses the default `':'`.
- Utils.Convert: the input values are strings, which is what `parse_query` produces. Python's `convert` would also apply the type constructors to values of other types.
- Exception messages are not modelled. Python's `IndexError` says only "list index out of range" and `ValueError` names the rejected text. The model's errors carry the offending token, or the rejected text with its expected type, so that the lemmas can say which one is raised.
- Unknown fields: `convert` drops a field missing from `type_map` without a word (utils.py:50), and the model does the same (`ConvertDropsUnknown`, `ArcLengthIsDropped`).
- Object identity and aliasing: `convert` builds a new dict and never writes to its argument. The model passes dicts as values, so "the input is not modified" holds by construction and is not a separate lemma.
- Everything else the wider system does is outside this core: designation and epoch decoding, the MPC data import, and the result formatting of `find`.
