# caliban argument helpers in Dafny

This project models the pure helpers that caliban's command-line layer applies
to raw arguments before they reach the job runner, all from
`caliban/util/argparse.py`:

- `expand_args` flattens an ordered flag map (`Dict[str, Optional[str]]`)
  into a token list: an entry with a value gives `[k, v]`, a solo flag
  (value `None`) gives `[k]`, entries in the dict's iteration order.
- `parse_kv_pair` turns a `k=v` label into a `(key, value)` pair: it splits on
  `=`, strips whitespace from the first piece to get the key, and joins the
  remaining pieces back with `=` to get the value. A label with no `=` raises
  `argparse.ArgumentTypeError`.
- `is_key` tells an option flag (a present, non-empty string starting with
  `-`) from a positional value.

Files:

- `wrappers.dfy` (module `Wrappers`): `Option` for Python's `Optional`, and
  `Result` for "returns a value or raises".
- `pystr.dfy` (module `PyStr`): the Python string operations the helpers use,
  written out: `str.split` on one character (`Split`, defined through the
  first occurrence `Find`), `sep.join` (`Join`) and the no-argument
  `str.strip()` (`Strip`, through the counts of leading and trailing
  whitespace). Each comes with its partner facts: join undoes split and split
  undoes join, a split has one more piece than there are separators, strip
  removes exactly the surrounding whitespace and is idempotent.
- `argparse.dfy` (module `ArgParse`): the three helpers and what they promise.
  A dict is a sequence of `(name, value)` entries in iteration order.
  `Collapse` is a reference scanner defined only in the model: it reads a
  token list back into a flag map, taking a token as a flag's value exactly
  when `IsKey` says it is not a flag. It is the inverse partner of
  `ExpandArgs`: when every name is a flag and no value looks like one,
  `Collapse(ExpandArgs(m)) == m`, and a value that starts with `-` makes two
  different maps expand to the same tokens.

Whitespace for `strip` is the fixed set for which CPython's `str.isspace()`
holds: U+0009 to U+000D, U+001C to U+001F, U+0020, U+0085, U+00A0, U+1680,
U+2000 to U+200A, U+2028, U+2029, U+202F, U+205F and U+3000 (`PyStr.IsSpace`).
The model takes this set as given, as CPython compiled it from its Unicode
data.

## Model

| member | source | states |
|---|---|---|
| `ArgParse.EntryTokens` | caliban/util/argparse.py:37 | an entry gives one or two tokens, the name first; two exactly when a value is present, and then the value second |
| `ArgParse.Chain` | caliban/util/argparse.py:38 | chaining lists gives as many tokens as the lists hold together |
| `ArgParse.ChainAppend` | caliban/util/argparse.py:38 | chaining a concatenation of lists is chaining each part in turn |
| `ArgParse.ExpandArgs` | caliban/util/argparse.py:31-38 | the output has one token per entry plus one per entry whose value is not `None` (its order is stated by `ExpandArgsCons` and `ExpandArgsAppend`) |
| `ArgParse.EntryTokenLists` | caliban/util/argparse.py:37 | one token list per entry, in iteration order: `[k, v]` for an entry with a value, `[k]` for a solo flag |
| `ArgParse.EntryTokenListsLength` | caliban/util/argparse.py:37 | the per-entry token lists hold one token per entry plus one per entry with a value |
| `ArgParse.ExpandArgsBase` | caliban/util/argparse.py:31-38 | the empty map expands to no tokens, and a one-entry map to that entry's tokens |
| `ArgParse.ExpandArgsCons` | caliban/util/argparse.py:37-38 | the first entry's tokens come first, followed by the expansion of the remaining entries |
| `ArgParse.ExpandArgsAppend` | caliban/util/argparse.py:37-38 | expanding two maps one after the other is expanding each and concatenating, so output order follows input order entry by entry |
| `ArgParse.ExpandArgsExample` | caliban/util/argparse.py:31-38 | `{"a": "1", "b": None, "c": "3"}` expands to `["a", "1", "b", "c", "3"]`, and `{}` to `[]` |
| `ArgParse.CollapseExpandArgs` | caliban/util/argparse.py:37-38 | when every name satisfies `is_key` and no present value does, scanning the expanded tokens with `is_key` recovers the map exactly |
| `ArgParse.FlagLikeValueIsAmbiguous` | caliban/util/argparse.py:37-38 | for every name and value, the entry expands to the same tokens as two solo flags; when the value satisfies `is_key`, scanning those tokens with `is_key` does not give the entry back |
| `ArgParse.ParseKvPair` | caliban/util/argparse.py:63-80 | the parse fails exactly when the label holds no `=`, and the failure names the label |
| `ArgParse.ParseKvPairAtFirstSeparator` | caliban/util/argparse.py:72-80 | for the first `=` in the label, the key is the stripped text before it and the value is all the text after it, verbatim, other `=` included |
| `ArgParse.ParseKvPairKeyIsClean` | caliban/util/argparse.py:72-73 | on success the key holds no `=` and has no whitespace at either end |
| `ArgParse.ParseKvPairRoundTrip` | caliban/util/argparse.py:72-80 | on success the label is the unstripped key text, `=`, and the value; that key text holds no `=` and strips to the key |
| `ArgParse.ParseKvPairOfLabel` | caliban/util/argparse.py:72-80 | for any key text without `=` and any value, parsing `keyText + "=" + value` gives the stripped key text and the value unchanged |
| `ArgParse.ParseKvPairSimpleExample` | caliban/util/argparse.py:63-80 | `foo=hello` parses to `("foo", "hello")` |
| `ArgParse.ParseKvPairManySeparatorsExample` | caliban/util/argparse.py:72-79 | `foo=a=b=c` parses to `("foo", "a=b=c")`: only the first `=` separates |
| `ArgParse.ParseKvPairSpacedKeyExample` | caliban/util/argparse.py:72-73 | ` foo =x` parses to `("foo", "x")`: the key is stripped, the value is not |
| `ArgParse.ParseKvPairNoSeparatorExample` | caliban/util/argparse.py:75-77 | `"noequalsign"` is refused with an error naming it |
| `ArgParse.IsKey` | caliban/util/argparse.py:83-90 | true exactly when the argument is present and has `-` as a prefix; false for `None` and for the empty string |
| `ArgParse.IsKeyExamples` | caliban/util/argparse.py:83-90 | `-x` and `--flag` are flags; `x`, the empty string and `None` are not |
| `PyStr.IsSpace` | caliban/util/argparse.py:73 | the whitespace `strip()` removes: it holds for the ASCII blanks (tab, line feed, vertical tab, form feed, carriage return, space), and every member is an ASCII control character or space or lies between U+0085 and U+3000 |
| `PyStr.IsSpaceCases` | caliban/util/argparse.py:73 | the whitespace `strip` removes includes the ASCII blanks, no-break space, the line and paragraph separators and the ideographic space, and no printable ASCII character |
| `PyStr.Join` | caliban/util/argparse.py:79 | a join is as long as its pieces together plus one separator between each two neighbours, and starts with the first piece |
| `PyStr.Split` | caliban/util/argparse.py:72 | a split always has at least one piece, and exactly one when the separator does not occur |
| `PyStr.SplitAt` | caliban/util/argparse.py:72 | the first piece ends at the first separator and the rest is the split of what follows it |
| `PyStr.JoinSplit` | caliban/util/argparse.py:72-79 | joining the pieces of a split with the separator gives back the original string |
| `PyStr.SplitJoin` | caliban/util/argparse.py:72-79 | splitting a join of separator-free pieces gives back those pieces |
| `PyStr.SplitPiecesHaveNoSeparator` | caliban/util/argparse.py:72 | no piece of a split holds the separator |
| `PyStr.SplitCount` | caliban/util/argparse.py:72-75 | a split has one more piece than the string has separators, so the `len(items) <= 1` guard means "no separator" |
| `PyStr.Strip` | caliban/util/argparse.py:73 | the result is the stretch of the input right after its leading whitespace, only whitespace follows it, and it has no whitespace at either end |
| `PyStr.StripRecovers` | caliban/util/argparse.py:73 | whatever whitespace surrounds a string without whitespace at its ends, stripping gives back that string |
| `PyStr.StripIdempotent` | caliban/util/argparse.py:73 | stripping twice is stripping once |
| `PyStr.StripBareWordExample` | caliban/util/argparse.py:73 | `foo` strips to itself |
| `PyStr.StripSpacedWordExample` | caliban/util/argparse.py:73 | ` foo ` strips to `foo` |
| `PyStr.StripKeepsCharacters` | caliban/util/argparse.py:73 | every character of a stripped string occurs in the input |

## Left out

- `validated_package`, `validated_directory` and `validated_file`
  (caliban/util/argparse.py:41-60, 93-113): they only ask the filesystem
  (`os.path.isdir`, `os.path.isfile`, `os.path.expanduser`) or
  `caliban.util.generate_package`, and raise `ArgumentTypeError` on failure.
  `validated_directory` and `validated_file` return their `path` argument;
  `validated_package` returns the `Package` built by
  `u.generate_package(path)` (line 46), not its argument. `file_exists_in_cwd`
  (line 55) is neither defined nor imported in this module, so as written
  that call raises `NameError` once the `isdir` check passes. `caliban.util`
  is not part of this model, and the filesystem is outside it.
- The `blessings.Terminal` instance (line 28) is unused by these helpers.
- The wording of the `ArgumentTypeError` messages: a failed parse is the
  value `NotKeyValue(s)`, which keeps only the label the message names.
- `parse_kv_pair` computes the stripped key before checking the guard; the
  model does the same, and since stripping cannot fail the order has no
  visible effect.
- `PyStr.IsSpace` fixes the whitespace set listed above. CPython's set is a
  table compiled from the Unicode data of the version it was built with; the
  model does not follow changes to that data between versions.
- Lone surrogates (U+D800 to U+DFFF): a Python `str` can hold them, for
  instance from undecodable bytes in `sys.argv` under `surrogateescape`, but
  a Dafny `char` cannot, so labels and flag maps holding them cannot be
  expressed in the model. A surrogate is never whitespace, `=` or `-`, so the
  helpers would treat it like any other ordinary character.
