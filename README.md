# migrations-fnc in Dafny

A model of `migration.go` from migrations-fnc, a Go helper that names a migration after the file it is declared in. A file named `<id>_<word>_<word>….go` declares the migration `<id>` with the description `"<word> <word> …"`. The package then wraps the forward action and the optional backward action into the record that the migration engine consumes.

The project is four modules, one file each:

- `wrappers.dfy` (`Wrappers`): `Option` and `Result`.
- `gostrings.dfy` (`GoStrings`): the Go `strings` functions the file calls. These are `TrimSuffix`, plus `Split` and `Join` on one-character separators. The module also proves that `Split` and `Join` undo each other.
- `gopath.dfy` (`GoPath`): Go's `path.Ext` and `path.Base`. `Ext` is tied to a characterisation (`IsExtOf`) that determines it uniquely. `Base` returns `"."` for the empty path, drops trailing slashes, and keeps the last element.
- `migration.dfy` (`Migrations`): the core of the file.
  - `GetMigrationInfo` models getMigrationInfo.
  - `CreateMigration` models createMigration.
  - `NewMigration` models the legacy constructor.
  - `MigrationOpts` is the options object. Its `Apply` method is how an option updates it in place.
  - The methods `Migration2` and `Migration` fold the options over the default `skip = 1` in a loop, look up the declaration site, and build the record.

Conventions of the model:

- **Call site.** The call-stack lookup `runtime.Caller(skip)` is an injected function `caller: int -> Option<string>`. It gives the file of the frame `skip` levels up, or `None` when there is no such frame. The source then reports the base name of the empty file name, so the error is `InvalidFilename(".")`.
- **Panics.** A panic in `Migration2`, `Migration` or `createMigration` is the `Failure` arm of a `Result`. This includes the runtime panic of calling a nil `Option` at migration.go:64 and :78, which is `NilOptionCall`. `NewMigration` returns the same `Error` values as ordinary results. With no options, its contract is the same as `Migration2`'s: both look up frame 1.
- **Errors.** `Error` records the sentinel each error wraps, plus the detail its message carries. `Kind` gives the sentinel, the way `errors.Is` sees it.
- **Options.** An `Option` updates the options struct, whose only field is `skip`, so a non-nil option is a function `int -> int` from the old `skip` to the new one. A list of options is a `seq<Option<OptionFn>>`, where `None` stands for a nil `Option`. Because `migrationOpts` and its field are unexported, an option written outside the package cannot read or set `skip`: such an option leaves it unchanged (`Some(x => x)`), and a nil one panics.
- **Actions.** The forward and backward actions are a type parameter `A`. The model never calls them, and neither does the source. An absent backward action (Go's `nil`) is `None`.

Behaviour of the code worth knowing:

- The identifier may be empty: `"_foo.go"` gives `("", "foo")` (`ExampleEmptyIdentifier`). Nothing checks that it is non-empty.
- The description may be empty: a base ending in `_` is accepted without error, so `"1_.go"` gives `("1", "", nil)` (`ExampleEmptyDescription`), although the sentinel is called ErrMigrationDescriptionRequired.
- An absent backward action is `nil`, not a no-op action.
- In `NewMigration` the `description` argument is overwritten by the parsed description (the `:=` at migration.go:38 assigns to the parameter). In `Migration2` and `Migration` it is never read. In all three it has no effect on the record.
- The directory is ignored only when something is left of the name once its extension is removed. For a name like `.go`, Go's `path.Base` returns the last directory instead (`DirectoryIgnored` requires a non-empty stem).

## Model

| member | source | states |
|---|---|---|
| `GoPath.Ext` | migration.go:24 | The result ends the path and contains no slash. It is empty exactly when no dot follows the last slash. Otherwise it runs from the last such dot to the end and contains no other dot. |
| `GoPath.ExtUnique` | migration.go:24 | Only `Ext(p)` satisfies that characterisation, so the characterisation defines path.Ext. |
| `GoPath.Base` | migration.go:24 | The base is never empty. It is `"."` for the empty path and `"/"` for a path of slashes only. Otherwise it is either `"/"` or free of slashes. Together with `BaseDropsTrailingSlash` and `BaseOfElement` this fixes the base of every path. |
| `GoPath.BaseDropsTrailingSlash` | migration.go:24 | A trailing slash after something else does not change the base: `"a/b/"` has the base of `"a/b"`. |
| `GoPath.BaseOfElement` | migration.go:24 | The base of a non-empty, slash-free name is that name, whether it stands alone or follows a directory ending in `/`. |
| `GoStrings.TrimSuffix` | migration.go:24 | The result followed by the suffix is the input, when the input ends with the suffix. Otherwise the input is returned unchanged. |
| `GoStrings.Join` | migration.go:29 | A join of one or more elements starts with the first element. `JoinEndsWithLast` shows it ends with the last. `JoinSplit` and `SplitJoin` show it is the inverse of `Split`. |
| `GoStrings.JoinEndsWithLast` | migration.go:29 | A join of one or more elements ends with the last element. |
| `GoStrings.Split` | migration.go:24 | At least one piece is returned, and no piece contains the separator. |
| `GoStrings.JoinSplit` | migration.go:24-29 | Joining the pieces of a split with the separator gives back the original string. |
| `GoStrings.SplitJoin` | migration.go:24-29 | Splitting a join recovers the pieces, when none of them contains the separator. |
| `GoStrings.SplitHasSeveralParts` | migration.go:24-26 | A split has two or more pieces exactly when the separator occurs in the string. |
| `GoStrings.SplitHeadTail` | migration.go:24-30 | The first piece is the text before the first separator. The other pieces are the split of the text after it. |
| `GoStrings.ReplaceJoin` | migration.go:29 | Turning every separator of a join into another character gives the join with that character, when no piece contains the separator. |
| `Migrations.Innermost` | migration.go:38-41 | The result is not a wrapper, and the error is that result wrapped some number of times in "failed to get migration ID". So the result is the end of the wrapping chain. |
| `Migrations.Kind` | migration.go:14-17 | An error has the kind of the error at the end of its wrapping chain, as `errors.Is` finds it: `ErrInvalidFilename` exactly for `InvalidFilename`, `ErrMigrationDescriptionRequired` exactly for `DescriptionRequired`, and the runtime kind exactly for a nil-option panic. |
| `Migrations.MigrationBase` | migration.go:24 | The token that is split is never empty, and it is `"/"` or free of slashes. `ExtensionIgnored`, `NoExtensionKept` and `DirectoryIgnored` show it is the file's stem. |
| `Migrations.GetMigrationInfo` | migration.go:23-31 | The returned identifier never contains `_`. |
| `Migrations.NoUnderscoreIsError` | migration.go:24-27 | The error is present exactly when the base token has no `_`. In that case the result is (whole base, `""`, `DescriptionRequired(file)`). |
| `Migrations.UnderscoreMeansSuccess` | migration.go:24-30 | When the base has a `_`: there is no error, the identifier is the text before the first `_`, and the description is the remaining `_`-segments joined by single spaces. |
| `Migrations.ReconstructBase` | migration.go:24-30 | For a space-free base with a `_`: the identifier, then `_`, then the description with its spaces turned into `_`, rebuilds the base. Splitting the description on spaces gives the base's later segments. |
| `Migrations.ReconstructSplitBase` | migration.go:24-29 | The same round trip, stated on the split of a space-free base containing `_`: the first segment, then `_`, then the space-joined rest with spaces turned into `_`, is the base. |
| `Migrations.SameBaseSameIdentity` | migration.go:24 | Two files with the same base token get the same identifier, the same description and the same error kind. |
| `Migrations.ExtensionIgnored` | migration.go:24 | For a non-empty, slash-free stem followed by one extension, `Ext` finds that extension and the base token is the stem. |
| `Migrations.NoExtensionKept` | migration.go:24 | A non-empty name without a dot or a slash is its own base token. |
| `Migrations.ExtUnderDirectory` | migration.go:24 | Putting a directory in front of a slash-free name does not change its extension. |
| `Migrations.DirectoryIgnored` | migration.go:24 | A slash-free name with a non-empty stem has the same base token under any directory as alone. |
| `Migrations.DirectoryIgnoredIdentity` | migration.go:24-30 | The directory never changes the identifier, the description or the error kind. |
| `Migrations.JoinedBaseParses` | migration.go:24-30 | A base made of two or more `_`-free words joined by `_` parses to the first word, with the other words joined by spaces, and no error. |
| `Migrations.WordsFileParses` | migration.go:23-31 | The same holds for the file `<w0>_<w1>…<ext>`. |
| `Migrations.WordsFileUnderDirectoryParses` | migration.go:23-31 | The same holds for `<dir>/<w0>_<w1>…<ext>`. |
| `Migrations.NoUnderscoreFileRejected` | migration.go:23-27 | A slash-free and `_`-free stem plus an extension gives (stem, `""`, `DescriptionRequired(file)`). |
| `Migrations.ExampleTimestamp` | migration.go:22 | `"4829481231293_some_description.go"` gives (`"4829481231293"`, `"some description"`, no error). |
| `Migrations.ExampleUnderDirectory` | migration.go:24 | `"/a/b/42_foo.go"` gives (`"42"`, `"foo"`, no error). |
| `Migrations.ExampleOtherExtension` | migration.go:24 | `"42_foo.txt"` gives (`"42"`, `"foo"`, no error). |
| `Migrations.ExampleDirectoryAndExtension` | migration.go:24 | `"/a/b/42_foo.go"` and `"42_foo.txt"` parse identically, to (`"42"`, `"foo"`). |
| `Migrations.ExampleDoubleUnderscore` | migration.go:24-29 | `"a__b.go"` gives (`"a"`, `" b"`): the empty segment is kept. |
| `Migrations.ExampleEmptyDescription` | migration.go:26-30 | `"1_.go"` gives (`"1"`, `""`, no error): an empty description passes the `len(s) < 2` test. |
| `Migrations.ExampleShort` | migration.go:24-30 | `"1_x.go"` gives (`"1"`, `"x"`). |
| `Migrations.ExampleEmptyIdentifier` | migration.go:24-30 | `"_foo.go"` gives (`""`, `"foo"`): an empty identifier is accepted. |
| `Migrations.ExampleNoDescription` | migration.go:24-27 | `"onlyid.go"` gives (`"onlyid"`, `""`, `DescriptionRequired`). |
| `Migrations.CreateMigration` | migration.go:87-97 | It succeeds exactly when the base token contains `_`. On success the record holds the parsed identifier and description and the given actions, unchanged. On failure no record is produced, and the error is `FailedToGetId(DescriptionRequired(file))`, of kind ErrMigrationDescriptionRequired. |
| `Migrations.NewMigration` | migration.go:33-43 | With no frame 1 the result is `InvalidFilename(".")`. Otherwise it is exactly what `CreateMigration` gives for that frame's file. |
| `Migrations.NewMigrationIgnoresDescription` | migration.go:38 | The description argument never influences the result. |
| `Migrations.FoldOptions` | migration.go:62-65 | With no options the offset is the start. Otherwise it is a value the last option produces. `FoldAppend`, `FoldLeftToRight` and `LastWriterWins` fix the order in which the options apply. |
| `Migrations.FoldAppend` | migration.go:62-65 | Folding two lists of options one after the other is folding their concatenation. |
| `Migrations.FoldLeftToRight` | migration.go:63-65 | Options are applied left to right: the first acts on the starting offset. |
| `Migrations.NoOptionsKeepDefault` | migration.go:52-56 | With no options the frame offset is the default, 1. |
| `Migrations.LastWriterWins` | migration.go:63-65 | An option that sets the offset to `n` makes every earlier option irrelevant. The result is `n` with only the later options applied. |
| `Migrations.MigrationOpts.Default` | migration.go:52-56 | The default options have `skip = 1`. |
| `Migrations.MigrationOpts.Apply` | migration.go:50 | An option replaces `skip` by its function of the old `skip`. |
| `Migrations.Migration2` | migration.go:61-71 | A nil option anywhere in the list panics (`NilOptionCall`) before the call stack is read. Otherwise, after the loop applies every option in order to the defaults, the declaration site at the resulting offset is looked up. A missing site fails with `InvalidFilename(".")`. Otherwise the result is `CreateMigration` on that file with the given actions. The description argument does not appear in the contract. |
| `Migrations.Migration` | migration.go:75-85 | The same contract as `Migration2`, nil-option panic included, with the backward action absent. A record it returns has no backward action. |

## Left out

- Stack introspection: `runtime.Caller` is a runtime call. The model replaces it with the injected `caller` function, so `skip` is only the argument that function is asked about.
- The file, line and program counter of a frame are not modelled beyond the file name.
- `migrations.NewMigration` belongs to the external engine. It is modelled as building the `MigrationRecord` value.
- The dead `panic(err)` at migration.go:93-95 is not modelled: its `err` is the literal `nil`.
- Forward and backward actions and `context.Context` are an opaque type parameter. They are never called.
- Error message text (`fmt.Errorf`) is not modelled. Errors keep their sentinel, their wrapping and their path, but not the formatted string.
- Panic versus return: both are a `Failure` result. Program termination and `recover` are not modelled.
- Go strings are byte sequences; the model uses `seq<char>`. Every separator involved (`/`, `.`, `_`, space) is ASCII, so the results agree for UTF-8 text.
- `GoStrings.Split` handles only one-character separators. Go's `strings.Split` with an empty or multi-byte separator is not modelled, because migration.go only splits on `"_"`.
- An `Option` is modelled as a function from the old `skip` to the new one, or as `None` for a nil `Option`. Side effects an option might have outside the options struct are not modelled. Neither is the runtime message of the nil-call panic.
