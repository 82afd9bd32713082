# Quick Settings tile list and tile-key parser

A Dafny model of the logic in `QSDragAdapter.kt` of SystemUI Tuner. The file
contains two parts, and the model covers both:

- **The tile list.** The adapter holds the current Quick Settings tiles. They
  are persisted in the secure setting `sysui_qs_tiles` as one comma-separated
  string of tile keys. The adapter also holds `availableTiles`: the SystemUI
  default tiles that are not currently in use. `parseTileList` reads the
  setting, and falls back to the default order when the setting is missing or
  empty. `addTile` and `removeTile` change the list, write it back through
  `setOrder`, and refresh the available tiles.
- **`TileParser`.** It turns a tile key into a title and an icon. A key is an
  intent key when it contains `intent(` and a custom key when it contains
  `custom(`; the test ignores case. Any other key is a standard key. Intent
  and custom keys are named by their last `(...)` group. A custom key's group
  is split on `/` into a package and a component, which the package manager
  resolves. A standard key gets a capitalized title and an icon from a fixed
  table.

Modules, one per layer:

- `Wrappers` (`wrappers.dfy`): `Option` and `Result`.
- `Seqs` (`seqs.dfy`): `Filter`, `IsSubsequence`, and `RemoveFirst`, which
  behaves like `ArrayList.remove(Object)`.
- `Strings` (`strings.dfy`): Kotlin's single-delimiter `split`,
  `TextUtils.join`, `contains` and the case mappings.
- `TileParser` (`tile_parser.dfy`): the parser.
- `TileList` (`tile_list.dfy`): the adapter state and its operations.

The adapter state is the immutable record `Adapter(tiles, available, stored,
nextRef)`. `stored` is the value of the setting, with `None` standing for
null. Each operation returns an `Outcome`:

- `Done(state)` when the operation completes.
- `Crashed(state, error)` when a tile constructor threw. The state keeps
  whatever the operation had already changed: for example, the setting is
  written before the refresh that can throw.

`QSTile` is not a data class, so tiles compare by identity. The model gives
every tile a `ref` number to stand for that identity, and the adapter hands
out fresh numbers from `nextRef`. Two tiles built from the same key are
therefore different tiles, and `removeTile` deletes a tile only when it is
the very object in the list.

Some behaviour of the code that the model keeps:

- `name.split("/")[1]` in `parseCustom` is not inside a `try`. A custom key
  whose group has no `/` therefore throws out of the `QSTile` constructor,
  and out of whichever list operation built the tile. The model returns
  `Crashed` in that case. Package-manager lookups, by contrast, are caught and
  fall back.
- The inner `catch` of the custom title fallback, which would return the
  package name, is unreachable. Kotlin's `split` never returns an empty list,
  so `split[split.size - 1]` cannot fail. The model has no such branch, and
  `LastSegment` is total.
- The `.` of `\((.*?)\)` does not match line terminators. On Android,
  `java.util.regex` runs on the ICU engine, which counts LF, VT, FF, CR, NEL,
  U+2028 and U+2029 as line terminators (`LineTerminator`). OpenJDK's engine
  does not count VT and FF, so on a desktop JVM a group spanning one of those
  two characters would match.
- Removing the last tile writes `""`. The next `parseTileList` reads an empty
  setting as "use the defaults", so the default tiles come back
  (`RemovingLastTileRestoresDefaults`).

## Model

| member | source | states |
|---|---|---|
| Seqs.FilterCount | app/src/main/java/com/zacharee1/systemuituner/misc/QSDragAdapter.kt:77-80 | the filter of the available tiles keeps every copy of a value that passes the test and no copy of one that fails it |
| Seqs.RemoveFirst | app/src/main/java/com/zacharee1/systemuituner/misc/QSDragAdapter.kt:94 | an absent element leaves the list unchanged; otherwise exactly the first occurrence is deleted, and the rest keep their order (one element fewer, multiset minus one copy) |
| Strings.Split | app/src/main/java/com/zacharee1/systemuituner/misc/QSDragAdapter.kt:64 | `split(",")` yields one more piece than there are separators (so never zero pieces), and no piece contains the separator |
| Strings.Join | app/src/main/java/com/zacharee1/systemuituner/misc/QSDragAdapter.kt:104 | `TextUtils.join` adds nothing but one separator between each pair of neighbouring parts: the length is the total of the parts plus one less than their number (its inverse is `SplitJoin`, `JoinSplit`) |
| Strings.SplitJoin | app/src/main/java/com/zacharee1/systemuituner/misc/QSDragAdapter.kt:101-104 | splitting the comma-join of a non-empty list of comma-free keys gives the keys back |
| Strings.SplitJoinEmpty | app/src/main/java/com/zacharee1/systemuituner/misc/QSDragAdapter.kt:64 | the empty list joins to `""`, which splits to `[""]`, so the round trip needs a non-empty list |
| Strings.JoinSplit | app/src/main/java/com/zacharee1/systemuituner/misc/QSDragAdapter.kt:64 | joining the pieces of any split restores the original string |
| Strings.LowerKeepsSpaces | app/src/main/java/com/zacharee1/systemuituner/misc/QSDragAdapter.kt:263 | lower-casing a key keeps its number of spaces |
| Strings.Lower | app/src/main/java/com/zacharee1/systemuituner/misc/QSDragAdapter.kt:201-202 | `toLowerCase()` keeps the length and lower-cases each character in place |
| Strings.Contains | app/src/main/java/com/zacharee1/systemuituner/misc/QSDragAdapter.kt:201-202 | `contains` holds exactly when the pattern occurs at some position of the string |
| Strings.RemoveAll | app/src/main/java/com/zacharee1/systemuituner/misc/QSDragAdapter.kt:222 | `replace("(", "")` deletes every occurrence of the character and nothing else: what remains is a subsequence of the input with the same count of every other character |
| TileParser.Classify | app/src/main/java/com/zacharee1/systemuituner/misc/QSDragAdapter.kt:199-205 | the three kinds are decided in order on the lower-cased key: `intent(` wins over `custom(`, and standard means neither occurs |
| TileParser.ClassifyIgnoresCase | app/src/main/java/com/zacharee1/systemuituner/misc/QSDragAdapter.kt:201-202 | two keys that differ only in letter case have the same kind |
| TileParser.ClassifyCaseForms | app/src/main/java/com/zacharee1/systemuituner/misc/QSDragAdapter.kt:201-202 | a key, its lower-cased form and its upper-cased form have the same kind |
| TileParser.CloseFrom | app/src/main/java/com/zacharee1/systemuituner/misc/QSDragAdapter.kt:213 | the lazy `(.*?)\)` closes one past the first `)`, and fails when a line terminator (in ICU's sense, VT and FF included) or the end of input comes first |
| TileParser.MatchAt | app/src/main/java/com/zacharee1/systemuituner/misc/QSDragAdapter.kt:213 | the match begun at a position ends at `e` exactly when `IsMatch` holds: `(`, then characters that are neither `)` nor line terminators, then `)` |
| TileParser.FindFrom | app/src/main/java/com/zacharee1/systemuituner/misc/QSDragAdapter.kt:219 | `find()` returns the leftmost match at or after the start position, or reports that none begins there or later |
| TileParser.LastMatchFrom | app/src/main/java/com/zacharee1/systemuituner/misc/QSDragAdapter.kt:218-220 | the loop ends holding either the text it started with or the text of a match that begins at or after the starting position |
| TileParser.LastMatchFromIsLast | app/src/main/java/com/zacharee1/systemuituner/misc/QSDragAdapter.kt:216-220 | the find loop ends with `""` when nothing matches, and otherwise with the text of the last match of the left-to-right scan |
| TileParser.LastGroup | app/src/main/java/com/zacharee1/systemuituner/misc/QSDragAdapter.kt:213-220 | the result is `""` exactly when the key has no match; otherwise it is a match that the scan reaches and after which nothing matches |
| TileParser.LastMatchUnique | app/src/main/java/com/zacharee1/systemuituner/misc/QSDragAdapter.kt:218-220 | at most one match is reachable and followed by no other, so "the last match" is well defined |
| TileParser.GroupName | app/src/main/java/com/zacharee1/systemuituner/misc/QSDragAdapter.kt:213-222 | the extracted name contains no `(` and no `)`; it is `""` when the key has no match, and otherwise the interior of the last match with every `(` deleted |
| TileParser.SplitComponent | app/src/main/java/com/zacharee1/systemuituner/misc/QSDragAdapter.kt:237-238 | there is no component, and the source's `[1]` throws, exactly when the name has no `/`; otherwise the package and the component are the `/`-free texts before the first `/` and between it and the next `/` (or the end) |
| TileParser.LastSegment | app/src/main/java/com/zacharee1/systemuituner/misc/QSDragAdapter.kt:253-254 | the fallback title is the longest suffix of the component without `.`: it is the whole component, or a `.` precedes it |
| TileParser.ParseCustom | app/src/main/java/com/zacharee1/systemuituner/misc/QSDragAdapter.kt:225-260 | fails exactly when the name has no `/`; the service is looked up as (package, package + component); a resolved service supplies its own label and icon; otherwise the title is the last dotted segment and the icon is the Android icon |
| TileParser.ParseIntent | app/src/main/java/com/zacharee1/systemuituner/misc/QSDragAdapter.kt:207-223 | the Android icon, with a parenthesis-free title that is empty when the key has no group and is otherwise the interior of the last match with every `(` deleted |
| TileParser.CapitalizeWords | app/src/main/java/com/zacharee1/systemuituner/misc/QSDragAdapter.kt:294-297 | capitalizing the words keeps every character, so the length is the total length of the words, and words without spaces give a result without spaces |
| TileParser.CapitalizeScan | app/src/main/java/com/zacharee1/systemuituner/misc/QSDragAdapter.kt:291-300 | the character-wise reading of `capitalize` has no spaces, one character per non-space input character, starts with an upper-case-fixed character, and leaves a space-free word unchanged past its first character |
| TileParser.CapitalizeWordsIsScan | app/src/main/java/com/zacharee1/systemuituner/misc/QSDragAdapter.kt:294-297 | split, drop the empty words, capitalize each and concatenate: this equals the character-wise reading, for every string |
| TileParser.Capitalize | app/src/main/java/com/zacharee1/systemuituner/misc/QSDragAdapter.kt:291-300 | the title is the character-wise reading, has no spaces, and its length is the number of non-space input characters |
| TileParser.CapitalizeIdempotent | app/src/main/java/com/zacharee1/systemuituner/misc/QSDragAdapter.kt:291-300 | capitalizing twice gives the same as capitalizing once |
| TileParser.StandardIcon | app/src/main/java/com/zacharee1/systemuituner/misc/QSDragAdapter.kt:265-283 | the default icon is used exactly for names outside the 19 listed, and the table never gives a service icon |
| TileParser.StandardIconAliases | app/src/main/java/com/zacharee1/systemuituner/misc/QSDragAdapter.kt:265-283 | `bt`, `inversion` and `dnd` get the icons of `bluetooth`, `color_inversion` and `do_not_disturb` |
| TileParser.ParseStandard | app/src/main/java/com/zacharee1/systemuituner/misc/QSDragAdapter.kt:262-289 | the title is the capitalized lower-cased key (space-free, with length equal to the non-space count of the key); the icon comes from the table entry for the lower-cased key |
| TileParser.ParseKey | app/src/main/java/com/zacharee1/systemuituner/misc/QSDragAdapter.kt:199-205 | parsing fails exactly for a custom key whose name has no `/`, whatever the package manager knows; each kind goes to its own parser |
| TileList.Keys | app/src/main/java/com/zacharee1/systemuituner/misc/QSDragAdapter.kt:102 | the key list has one entry per tile, the key of the tile at the same position |
| TileList.NewTile | app/src/main/java/com/zacharee1/systemuituner/misc/QSDragAdapter.kt:184-189 | a tile is built exactly when its key parses, and it carries the key, the given identity, and the parsed title and icon |
| TileList.NewTiles | app/src/main/java/com/zacharee1/systemuituner/misc/QSDragAdapter.kt:66 | mapping keys to new tiles succeeds exactly when every key parses; the tiles carry the keys in order, with consecutive fresh identities, and each is the tile its key constructs |
| TileList.NewTilesEach | app/src/main/java/com/zacharee1/systemuituner/misc/QSDragAdapter.kt:66 | the tile at each position is exactly what `QSTile` builds from the key at that position with that position's identity |
| TileList.DefaultTileOrder | app/src/main/java/com/zacharee1/systemuituner/misc/QSDragAdapter.kt:38-51 | the SystemUI resource when it can be read, and `""` when the lookup throws |
| TileList.Refresh | app/src/main/java/com/zacharee1/systemuituner/misc/QSDragAdapter.kt:74-83 | completes exactly when the defaults parse; the available keys are then the default keys missing from the tiles, in default order, held by freshly made tiles whose titles and icons are the parses of their keys; tiles and setting are untouched; a crash leaves the available list cleared |
| TileList.AvailableDisjoint | app/src/main/java/com/zacharee1/systemuituner/misc/QSDragAdapter.kt:77-80 | after a refresh, no available tile shares a key with a current tile |
| TileList.TileSource | app/src/main/java/com/zacharee1/systemuituner/misc/QSDragAdapter.kt:58-62 | the list is read from the setting when it holds a non-empty string, and from the default order when the setting is null or empty |
| TileList.ParseTileList | app/src/main/java/com/zacharee1/systemuituner/misc/QSDragAdapter.kt:57-72 | a null or empty setting yields the default keys, any other setting yields its comma-split keys; every new tile shows the parse of its key; the setting is not written; a key that fails to parse crashes with the state untouched |
| TileList.NewAdapter | app/src/main/java/com/zacharee1/systemuituner/misc/QSDragAdapter.kt:53-55 | a constructed adapter has the keys of its source string, a consistent available list, parseable defaults, and tiles whose titles and icons are the parses of their keys |
| TileList.SetOrder | app/src/main/java/com/zacharee1/systemuituner/misc/QSDragAdapter.kt:101-107 | only the setting changes, and it becomes the comma-join of the keys of the given tiles |
| TileList.SetOrderRoundTrip | app/src/main/java/com/zacharee1/systemuituner/misc/QSDragAdapter.kt:101-107 | the persisted string splits back into the keys when there is at least one key and no key contains a comma; an empty list is persisted as `""` |
| TileList.AddTile | app/src/main/java/com/zacharee1/systemuituner/misc/QSDragAdapter.kt:85-91 | the tile becomes the new last element and the earlier elements keep their order; the setting is the comma-join of the new keys; the available list is consistent unless the defaults fail to parse |
| TileList.RemoveTile | app/src/main/java/com/zacharee1/systemuituner/misc/QSDragAdapter.kt:93-99 | only the first tile identical to the argument is deleted, and an absent tile changes nothing; the setting is the comma-join of the new keys; the available list is consistent unless the defaults fail to parse |
| TileList.NoCrashAfterConstruction | app/src/main/java/com/zacharee1/systemuituner/misc/QSDragAdapter.kt:85-99 | once the constructor has succeeded, adding or removing a tile never throws |
| TileList.ReloadKeepsKeys | app/src/main/java/com/zacharee1/systemuituner/misc/QSDragAdapter.kt:57-66 | re-reading the persisted list gives back the same keys, when no key contains a comma and the persisted string is not empty |
| TileList.RemovingLastTileRestoresDefaults | app/src/main/java/com/zacharee1/systemuituner/misc/QSDragAdapter.kt:93-104 | removing the only tile persists `""`, and re-reading then yields the default keys |

## Left out

- Android UI glue is not modelled, because it holds no list or parsing logic. This covers the `RecyclerView` adapter methods (`onCreateViewHolder`, `onBindViewHolder`, `getItemCount`), `QSViewHolder`, the confirmation `AlertDialog`, the close-button animations, the `Build.VERSION` check and `notifyDataSetChanged`.
- Settings I/O: `Settings.Secure.getString` and `writeSecure` become the `stored` field. A write always succeeds.
- The SystemUI resource lookup for `quick_settings_tiles_default` becomes the `Env.defaultResource` input. `None` stands for a lookup that threw, which the source turns into `""`.
- The package manager becomes a map from component to service label. `loadIcon` and `loadLabel` of a resolved service are taken to succeed; the icon becomes `ServiceIcon(component)`. The source calls `getServiceInfo` twice, and the model assumes both calls give the same answer.
- Drawables, resource IDs and the white colour filter become the abstract `Icon` values.
- `printStackTrace` in the catch blocks is a side effect only.
- Case mapping covers ASCII letters only. Kotlin's `toLowerCase()` and `toUpperCase()` follow Unicode and the default locale (for example the Turkish dotted I), and some of those mappings change a string's length.
- Dafny's `char` is a Unicode scalar value, while a Kotlin `Char` is a UTF-16 code unit. Keys with characters outside the Basic Multilingual Plane are therefore indexed differently.
- The `Matcher.hitEnd()` loop is modelled by its result, the last match of a left-to-right scan. The model relies on `hitEnd` being true after a failed `find` and false after a successful one; this holds for this pattern, whose matches end at their first `)`.
- `AppInfo.kt` is a data holder with a `Drawable` and no logic.
