# Env: a verified model of the Swift environment-variable accessor

The Swift class `Env` wraps the process environment. It lets a caller
read, set and unset variables, check whether a variable is set, and
subscript it. On Apple platforms it can also enumerate the environment:
it runs `/usr/bin/env`, splits what that prints into lines, and keeps the
text before the first `=` of each line. Names that come out empty are
dropped. On top of that enumeration sit `values`, `hasValue`, `each` and
`clear`.

The model has two modules.

- `EnvKeys` (`keys.dfy`) is the key-list parser, written as pure functions:
  - `Split` models `componentsSeparatedByString`.
  - `KeyOf` models `.first!` of a line split at `=`.
  - `Heads` models the `map` step and `DropEmpty` the `filter` step.
  - `ParseKeys` models `Env.keys` applied to the captured output.
  - `Listing` is the text `env` prints for a list of entries. It exists so
    that the parser can be checked against the table it was printed from.
- `Environment` (`env.dfy`) is the class `Env`. The process environment is
  its field `table: map<string, string>`.
  - `getenv` becomes a map lookup. `setenv(key, value, 1)` becomes a map
    update, and `unsetenv` a removal.
  - `Get`, `IsSet`, `Values`, `HasValue` and `Each` are functions that read
    the object.
  - `Set`, `Unset`, the subscript setter `SetSubscript` and `Clear` are
    methods that change `table`.
  - The enumerating operations take the enumerated names as a parameter
    `keys`. In the source these names are `Env.keys`, i.e. `ParseKeys` of
    what `env` printed.
  - `values` force-unwraps each lookup (`get($0)!`). That becomes the
    precondition `AllSet(keys)`: every enumerated name is set.
  - `each` hands its callback one call per name. It is modelled as the
    sequence of `(key, value)` arguments those calls receive.

In three places the code does less than an environment accessor might be
expected to do, and the model follows the code:
- A line with no `=` is not skipped. Its whole text becomes a name
  (`LineWithoutEqualsIsKept`).
- `values` does not discard names whose lookup fails. It force-unwraps.
- The subscript setter ignores an assigned `nil`. It does not unset.

The parser cannot tell a newline inside a value from the end of a line.
A variable whose value holds `"\nB=c"` makes `B` show up as a name
(`NewlineInValueAddsName`). If `B` is not set, the force-unwrap in
`values` then fails (`NewlineInValueBreaksValues`). The round trip
`ParseKeysOfListing` therefore holds only for printable entries: a
non-empty name without `=` or newline, and a value without newline.

## Model

| member | source | states |
|---|---|---|
| `EnvKeys.Split` | Sources/env.swift:69 | splitting always yields a first component, so `.first!` at line 70 cannot fail |
| `EnvKeys.SplitCount` | Sources/env.swift:69 | a split has one more component than the separator occurs in the text |
| `EnvKeys.SplitPartsExcludeSep` | Sources/env.swift:69-70 | no component of a split contains the separator |
| `EnvKeys.JoinSplit` | Sources/env.swift:69 | joining the components back with the separator gives back the original text |
| `EnvKeys.SplitWithoutSep` | Sources/env.swift:70 | text without the separator splits into just itself |
| `EnvKeys.SplitAtSep` | Sources/env.swift:69 | splitting `a + sep + b` gives the components of `a` followed by those of `b`, in that order |
| `EnvKeys.KeyOf` | Sources/env.swift:70 | `.first!` of a line split at `=` is the line's prefix up to, but not including, the first `=`, or the whole line when it has no `=`; no other string fits that description |
| `EnvKeys.KeyOfEntry` | Sources/env.swift:70 | a `name=value` line yields `name` whatever the value holds, including further `=` signs |
| `EnvKeys.DropEmpty` | Sources/env.swift:70 | the filter keeps only non-empty elements, keeps every non-empty element, and takes none from outside the input |
| `EnvKeys.DropEmptyAppend` | Sources/env.swift:70 | the filter acts element by element, in order: filtering a concatenation concatenates the filtered parts |
| `EnvKeys.Heads` | Sources/env.swift:70 | the map step gives one name per line, at the same position |
| `EnvKeys.HeadsAppend` | Sources/env.swift:70 | the map step commutes with concatenating lines |
| `EnvKeys.ParseKeys` | Sources/env.swift:68-72 | every parsed name is non-empty and contains neither `=` nor a newline |
| `EnvKeys.ParseKeysOfLine` | Sources/env.swift:69-70 | a single line contributes its name, or nothing when the name is empty; a line without `=` contributes the whole line |
| `EnvKeys.ParseKeysAtNewline` | Sources/env.swift:69-70 | names follow line order: those before a newline come first, then those after it |
| `EnvKeys.ParseKeysTrailingNewline` | Sources/env.swift:69-70 | a trailing newline, and so the empty last line, adds no name |
| `EnvKeys.LineWithoutEqualsIsKept` | Sources/env.swift:70 | a non-empty line with no `=` is not skipped: its whole text is a name, ahead of the names that follow |
| `EnvKeys.ParseKeysOfListing` | Sources/env.swift:68-72 | parsing the listing of printable entries gives back exactly their names, in the order printed |
| `EnvKeys.TwoEntryExample` | Sources/env.swift:69-70 | `"A=1\nB=2\n"` parses to exactly `["A", "B"]` |
| `EnvKeys.NewlineInValueAddsName` | Sources/env.swift:69-70 | a value holding a newline makes text from inside the value show up as an extra name |
| `Environment.Zip` | Sources/env.swift:106 | `zip` pairs two sequences position by position, up to the shorter length |
| `Environment.Env.constructor` | Sources/env.swift:10 | the accessor starts over the inherited environment, unchanged |
| `Environment.Env.Get` | Sources/env.swift:31-33 | a value is present exactly when the variable is set, and it is the variable's value |
| `Environment.Env.IsSet` | Sources/env.swift:61-63 | `isSet(k)` holds exactly when `get(k)` returns a value |
| `Environment.Env.Set` | Sources/env.swift:41-43 | afterwards `get(k)` is the new value whatever was there before; every other variable is unchanged; the table is updated at `k` only |
| `Environment.Env.Unset` | Sources/env.swift:50-52 | afterwards `k` is not set and every other variable is unchanged; unsetting an unset variable changes nothing, so a second call has no further effect |
| `Environment.Env.SetSubscript` | Sources/env.swift:17-21 | assigning `nil` leaves the whole environment unchanged; assigning a value makes the same update as `set` |
| `Environment.Env.Values` | Sources/env.swift:75-77 | one value per enumerated name, at the same position, and it is the name's current value |
| `Environment.Env.HasValue` | Sources/env.swift:96-98 | holds exactly when some enumerated name currently has the value |
| `Environment.Env.Each` | Sources/env.swift:105-107 | the callback is called exactly once per enumerated name, in order, with the pair `(keys[i], values[i])` |
| `Environment.Env.Clear` | Sources/env.swift:82-87 | afterwards no enumerated name is set and every other variable is unchanged; when the names cover the table, the table is empty |
| `Environment.ParsedKeysOfTable` | Sources/env.swift:68-72 | when the output lists the table, the parsed names are exactly the table's variables, every one of them set |
| `Environment.ValuesOfTable` | Sources/env.swift:75-77 | on a listing of the table, `values` gives the listed values in the order printed |
| `Environment.EachOfTable` | Sources/env.swift:105-107 | on a listing of the table, the callback receives exactly the listed entries, in the order printed, one call per listed entry |
| `Environment.HasValueOfTable` | Sources/env.swift:96-98 | on a listing of the table, `hasValue(v)` holds exactly when some variable of the table has value `v` |
| `Environment.NewlineInValueBreaksValues` | Sources/env.swift:76 | with a variable whose value holds a newline, an enumerated name is not set, so the force-unwrap in `values` would fail |

## Left out

- `run` (Sources/env.swift:123-137) is left out. It spawns a process, reads the pipe to its end and decodes the bytes as UTF-8. That is subprocess I/O. Its result is an arbitrary input string to `ParseKeys`.
- The behaviour of libc's `getenv`, `setenv` and `unsetenv` is abstracted as map lookup, update and removal.
  - `setenv` and `unsetenv` reject an empty name or a name containing `=`. Swift ignores that error, and the model does not capture the rejection.
  - C strings end at NUL characters. That truncation is not modelled.
- Other threads or processes can change the environment between enumerating it and looking it up. This concurrency is not modelled.
- `each` calls `keys` twice: once directly and once through `values`. The model hands both the same snapshot `keys`.
- The callback given to `each` is code the model cannot see. Only the arguments it receives are modelled.
- The `.map { String($0) }.filter { $0 != nil }` in `clear` (Sources/env.swift:84-85) passes every name through unchanged. It is not modelled separately.
- The platform conditionals (`#if os(...)`) and the imports are left out.
- `Environment.Env.Get`: the source returns `String.fromCString(getenv(key))`, which is `nil` when the value is not valid UTF-8, while `isSet` only tests `getenv(key) != nil`. The model stores values as strings of characters, so it cannot represent such a value. In the source such a variable has `isSet` true and `get` nil, and the force-unwrap in `values` then fails on a name that really is set. The model's `IsSet(k) <==> Get(k).Some?` and the sufficiency of `AllSet` for `Values` hold only for values that decode.
- `Environment.Env`: in the source every operation except the subscript is `static`, and all act on the one process environment, so every `Env()` instance is a handle to the same table. In the model one `Env` object stands for that one process table, and its constructor takes the inherited table as a parameter. Sharing between several instances, and the static methods as such, are not modelled: two model objects do not see each other's writes.
- `Environment.Env.HasValue`: the model compares values as exact sequences of characters, while Swift's `String ==` behind `values.contains` treats canonically equivalent strings as equal (`"e\u{301}"` equals `"\u{E9}"`). So the model's `HasValue`, and `HasValueOfTable` with it, can be false where the source's `hasValue` is true. Unicode normalisation is not modelled.
