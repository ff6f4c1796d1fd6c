# bmark_history — the command resolver of a surf browser helper

`scripts/bmark_history.ts` is run once per menu request of the surf browser. It does four things:
- it shows a dmenu list of stored history and bookmark labels;
- it resolves the line the user picked or typed;
- it writes at most one row of a SQLite `history` table;
- it tells the browser where to go by setting the `_SURF_GO` window property.

This project models the deterministic core of that script and proves properties of it:

- **JavaScript string builtins** (`js_string.dfy`, module `JsString`). These are `indexOf`, `lastIndexOf`, `substring` with its clamping and swapping of bounds, `startsWith`, `length` counted in UTF-16 code units, `trim` with the ECMAScript white-space set, and `replace` with a one-character pattern, which replaces only the first occurrence.
- **The table** (`store.dfy`, module `Store`). The `history` table is a map from `value` (the primary key) to `(bookmarked, bookmark_name)`. The three writes are `save` (`INSERT OR REPLACE`), `saveNew` (`INSERT`, with a key conflict swallowed) and `remove` (`DELETE`). Each is a pure function on maps and also a method of the `History` class, which holds the map in its `rows` field. A query result is a sequence of entries related to the table by `IsQueryResult`: ascending by `value` in code-point order (SQLite's BINARY collation on UTF-8), containing exactly the selected rows.
- **The suggestion maps** (`suggestions.dfy`, module `Suggestions`). `readHistory`, `readBookmarks` and `readBoth` are loops that fill a label→value map row by row. They are proved equal to a left fold, `Index`, and the lemmas are stated about that fold.
- **The command language** (`command.dfy`, module `Command`). This covers `prependProtocol`, `getOptAndArg` and `matchesOperator`, plus the fixed order in which `runEnhancedPrompt` tries the operators.
- **The dispatcher** (`dispatcher.dfy`, module `Dispatcher`). Three pieces:
  - the look-up step of `promptDmenu`;
  - the decision of `runEnhancedPrompt`, as a pure function `Decide`/`EnhancedPrompt` from the picked line, the suggestion map and the table to an `Outcome`, which is a navigation or none plus the new table;
  - the request `switch`, as `Handle`.

  `RunEnhancedPrompt` and `Invoke` then follow the script's statements on a `History` object and are proved to agree with those functions.

Inputs that come from outside the process are parameters:
- the current page address that `getProp("_SURF_URI")` reads;
- the raw text dmenu printed;
- the rows the SQL queries return.

Navigation is the `Effect` value of an outcome (`Navigate(url)` or `Stay`).

## Model

| member | source | states |
|---|---|---|
| JsString.IndexOf | scripts/bmark_history.ts:222 | `indexOf(" ")`: -1 exactly when the character is absent, otherwise a position holding it with no earlier occurrence |
| JsString.LastIndexOf | scripts/bmark_history.ts:233 | `lastIndexOf(" ")`: -1 exactly when the character is absent, otherwise a position holding it with no later occurrence |
| JsString.Utf16Length | scripts/bmark_history.ts:227 | `length` counts UTF-16 units: at least the number of characters, and 1 exactly for a single character below U+10000 |
| JsString.TrimStart | scripts/bmark_history.ts:197 | the result is a suffix of the input that does not start with white space, and every character cut off is white space |
| JsString.TrimEnd | scripts/bmark_history.ts:197 | the result is a prefix of the input that does not end with white space, and every character cut off is white space |
| JsString.Trim | scripts/bmark_history.ts:197 | `trim()`: a contiguous slice of the input with no white space at either end, everything outside it being white space |
| JsString.Substring | scripts/bmark_history.ts:224-225 | `substring(start, end)`: in-range bounds give that slice, reversed bounds are swapped, a negative end gives the prefix up to the clamped start (so `substring(0, -1)` is empty), and bounds covering the string give all of it |
| JsString.SubstringFrom | scripts/bmark_history.ts:236 | `substring(start)`: the whole string from a start of 0 or less, the suffix from an in-range start, nothing from a start at or past the end |
| JsString.StartsWith | scripts/bmark_history.ts:212 | `startsWith(p)` holds exactly when `p` is no longer than the string and equals its first `|p|` characters |
| JsString.TrimUntouched | scripts/bmark_history.ts:258 | a string with no white space at either end is left unchanged by `trim` |
| JsString.TrimIdempotent | scripts/bmark_history.ts:258 | trimming the already trimmed dmenu line again changes nothing |
| JsString.ReplaceFirst | scripts/bmark_history.ts:273 | `replace(".", "-")`: same length; only the first `.` becomes `-` and everything else stays; no `.` means no change |
| JsString.ReplaceFirstExample | scripts/bmark_history.ts:273 | `"1.2.3"` becomes `"1-2.3"`, not `"1-2-3"` |
| Store.SaveRow | scripts/bmark_history.ts:105-116 | after `save` the row of `value` is exactly the given one, whatever was there; every other key keeps its row |
| Store.SaveNewRow | scripts/bmark_history.ts:118-130 | `saveNew` leaves a table that already has `value` unchanged, otherwise inserts exactly the given row; no other key changes |
| Store.RemoveRow | scripts/bmark_history.ts:132-138 | after `remove`, `value` is gone, an absent key is a no-op, and every other key keeps its row |
| Store.SaveIdempotent | scripts/bmark_history.ts:105-116 | saving the same row twice is saving it once |
| Store.SaveOverwrites | scripts/bmark_history.ts:108-115 | of two saves of one value, the later wins outright |
| Store.SaveNewFirstWins | scripts/bmark_history.ts:121-129 | a second insert-if-absent of one value is a no-op |
| Store.SaveNewKeepsBookmark | scripts/bmark_history.ts:118-130 | insert-if-absent never clears the bookmark flag or label of an existing row |
| Store.QueryValuesDistinct | scripts/bmark_history.ts:41 | rows of an `ORDER BY value` result on the primary key have pairwise distinct values |
| Store.AscendingDistinct | scripts/bmark_history.ts:53 | rows in ascending `value` order have pairwise distinct values |
| Store.History.constructor | scripts/bmark_history.ts:34-35 | the table object starts with the given rows |
| Store.History.Save | scripts/bmark_history.ts:105-116 | `rows` becomes `SaveRow` of the old rows |
| Store.History.SaveNew | scripts/bmark_history.ts:118-130 | `rows` becomes `SaveNewRow` of the old rows |
| Store.History.Remove | scripts/bmark_history.ts:132-138 | `rows` becomes `RemoveRow` of the old rows |
| Suggestions.Index | scripts/bmark_history.ts:56-60 | the map a row-by-row `out.set` leaves has no more entries than there are rows |
| Suggestions.IndexKeys | scripts/bmark_history.ts:58-60 | a key is in the map exactly when some row produces it |
| Suggestions.IndexLastWins | scripts/bmark_history.ts:58-60 | a row no later row collides with keeps its value under its key |
| Suggestions.IndexEntryFrom | scripts/bmark_history.ts:58-60 | every entry's value is the value of the last row producing that key, so every map value is some row's value |
| Suggestions.GreatestValueWins | scripts/bmark_history.ts:53-60 | with rows in ascending order, the value kept for a key is the greatest of the colliding rows' values |
| Suggestions.CollisionLosesEarlier | scripts/bmark_history.ts:58-60 | of two rows that share a key, the earlier and smaller value is not the one the map keeps |
| Suggestions.IndexValuesStored | scripts/bmark_history.ts:82-103 | every value a suggestion map offers is a key of the table the rows came from |
| Suggestions.BothKey | scripts/bmark_history.ts:92-99 | the `readBoth` key: an unlabelled row's own value, a bare label for an unbookmarked row, and the icon, a space and the label for a bookmarked row |
| Suggestions.ReadBothPlacement | scripts/bmark_history.ts:91-99 | in `readBoth`, a labelled bookmarked row is keyed by icon, space and label; a labelled unbookmarked row by its bare label; an unlabelled row by its own value |
| Suggestions.ReadBothSelfMaps | scripts/bmark_history.ts:97-98 | an unlabelled row that nothing later collides with maps its value to itself |
| Suggestions.ReadBookmarksUndecorated | scripts/bmark_history.ts:65-80 | the keys of `readBookmarks` are exactly the rows' raw `bookmark_name`s: no icon is added |
| Suggestions.ReadHistoryNullCollapse | scripts/bmark_history.ts:58-60 | two unlabelled history rows share the null key, and the smaller value is lost |
| Suggestions.ReadHistory | scripts/bmark_history.ts:48-63 | the loop builds exactly the fold `Index` keyed by `bookmark_name` |
| Suggestions.ReadBookmarks | scripts/bmark_history.ts:65-80 | the loop builds exactly the fold `Index` keyed by `bookmark_name` |
| Suggestions.ReadBoth | scripts/bmark_history.ts:82-103 | the loop with its branches builds exactly the fold `Index` keyed by the decorated label or the value |
| Command.PrependProtocol | scripts/bmark_history.ts:211-217 | the result starts with `http`; it equals the input exactly when the input starts with `http`, and is `https://` followed by the input otherwise |
| Command.PrependProtocolIdempotent | scripts/bmark_history.ts:211-217 | completing an address twice is completing it once |
| Command.GetOptAndArg | scripts/bmark_history.ts:219-240 | a line without a space is all operator and no argument; otherwise the operator has no space and the two parts plus one space have the line's length |
| Command.IndexOfIsFirstSpace | scripts/bmark_history.ts:222 | `indexOf(" ")` finds the first space |
| Command.LastIndexOfIsLastSpace | scripts/bmark_history.ts:233 | `lastIndexOf(" ")` finds the last space |
| Command.FrontSplit | scripts/bmark_history.ts:221-229 | when the word before the first space has length 1 or starts with `!`, the result is that word and the rest of the line, which rejoin to the line |
| Command.BackSplit | scripts/bmark_history.ts:231-239 | otherwise the result is the word after the last space and everything before it, which rejoin in source order to the line |
| Command.Rejoin | scripts/bmark_history.ts:219-240 | for every line with a space, the two parts rejoined with one space in source order give back the line |
| Command.ShortOperatorFirst | scripts/bmark_history.ts:227-228 | `"n 1.2.3"` splits into `n` and `1.2.3` |
| Command.BangOperatorFirst | scripts/bmark_history.ts:227-228 | `"!nightly 1.2.3"` splits into `!nightly` and `1.2.3` |
| Command.OperatorLast | scripts/bmark_history.ts:231-238 | `"go to the store"` splits into `store` and `go to the` |
| Command.MatchesOperator | scripts/bmark_history.ts:242-252 | a token matches an operator iff it is `!` followed by a prefix of the name, or a single UTF-16 unit other than `!` equal to the name's first letter |
| Command.BangMatchesEverything | scripts/bmark_history.ts:243-244 | a lone `!` matches every operator name |
| Command.Select | scripts/bmark_history.ts:272-288 | a selected operator matches the token, and nothing is selected exactly when no operator matches |
| Command.SelectFirstMatch | scripts/bmark_history.ts:272-288 | the chosen operator is the first in the order nightly, search, delete, bookmarkless, local that matches; none is chosen iff none matches |
| Command.BangSelectsNightly | scripts/bmark_history.ts:243-244 | `!` alone runs `nightly` |
| Command.StoredShorthandsSelect | scripts/bmark_history.ts:272-288 | the stored shorthands `!n` and `!l` select `nightly` and `local` |
| Command.ShortcutExamples | scripts/bmark_history.ts:272-288 | `n`,`s`,`d`,`b`,`l`, `!night` and `!loc` select their operators; `s` does not match `nightly`; `ni` selects nothing |
| Dispatcher.Resolve | scripts/bmark_history.ts:199-203 | a line that is a key of the shown map stands for its value, any other line for itself; the result is the line or a map value |
| Dispatcher.NightlyUrl | scripts/bmark_history.ts:273 | the nightly address is the nightly host, then the version with only its first `.` turned into `-`, then the administration path; a dot-free version appears unchanged |
| Dispatcher.LocalUrl | scripts/bmark_history.ts:285 | the local address is the local host, then the version with only its first `.` turned into `-`, then the repository path; a dot-free version appears unchanged |
| Dispatcher.Apply | scripts/bmark_history.ts:272-288 | every operator but `delete` navigates, always to an `http` address, and leaves every existing row as it was |
| Dispatcher.Dispatch | scripts/bmark_history.ts:272-288 | unless `delete` is selected no existing row changes; the script stays put exactly when no operator or `delete` is selected |
| Dispatcher.Decide | scripts/bmark_history.ts:259-288 | every navigation goes to an `http` address, and only a line with a space can leave the browser where it is |
| Dispatcher.EnhancedValues | scripts/bmark_history.ts:255-257 | the shown map has exactly `readBoth`'s labels plus `Current: <url>`; that entry stands for the current address and every other label keeps `readBoth`'s value |
| Dispatcher.EnhancedPrompt | scripts/bmark_history.ts:254-289 | every navigation the enhanced prompt issues goes to an `http` address |
| Dispatcher.Handle | scripts/bmark_history.ts:291-318 | only bookmarking and the enhanced prompt can write the table, and the enhanced prompt navigates only to `http` addresses |
| Dispatcher.DirectValue | scripts/bmark_history.ts:259-263 | a line without a space navigates to its `https://`-completed form and performs exactly `saveNew` of that address, unbookmarked and unlabelled |
| Dispatcher.CommandLine | scripts/bmark_history.ts:266-288 | with a space, the argument is replaced by its map value if it is a key; then delete removes it without navigating, search and bookmarkless navigate without writing, nightly and local insert `!n arg`/`!l arg` unlabelled and navigate, and no match changes nothing |
| Dispatcher.AtMostOneRowChanges | scripts/bmark_history.ts:254-289 | every decision differs from the old table under at most one key, and only `delete` can take a key away |
| Dispatcher.BookmarksSurvive | scripts/bmark_history.ts:259-288 | no decision other than `delete` alters or removes a bookmarked row |
| Dispatcher.NightlyShorthandReplays | scripts/bmark_history.ts:272-275 | the stored `!n arg` row, picked later, reruns `nightly` on the same argument and adds no row, also when the argument is a stored address mapped to itself |
| Dispatcher.LocalShorthandReplays | scripts/bmark_history.ts:284-287 | the stored `!l arg` row, picked later, reruns `local` on the same argument and adds no row, also when the argument is a stored address mapped to itself |
| Dispatcher.NightlyShortcut | scripts/bmark_history.ts:272-275 | `n <arg>` navigates to the nightly system for `arg` and inserts `!n <arg>` |
| Dispatcher.NightlyExample | scripts/bmark_history.ts:273-274 | `n 1.2.3` opens `nightly-1-2.3` and stores `!n 1.2.3` |
| Dispatcher.AddressExample | scripts/bmark_history.ts:259-263 | `example.com` opens `https://example.com` and records that address |
| Dispatcher.SpelledOutDeleteIsNoOp | scripts/bmark_history.ts:231-238 | `delete example.com` does nothing: its operator token is `example.com` |
| Dispatcher.EnhancedPromptTyped | scripts/bmark_history.ts:258-270 | a typed line that is not a shown label is decided as typed |
| Dispatcher.EnhancedPromptPicked | scripts/bmark_history.ts:258-270 | a picked label is decided as its trimmed value |
| Dispatcher.DeleteShortcut | scripts/bmark_history.ts:268-280 | `d <label>` removes the row the label stands for |
| Dispatcher.DeleteByLabel | scripts/bmark_history.ts:268-280 | `d <label>` of a `readBoth` label removes exactly one stored row, the one the label stands for |
| Dispatcher.TrailingDelete | scripts/bmark_history.ts:231-238 | `<label> d`, with a label of one word longer than one character and not `!`-prefixed, removes the row the label stands for |
| Dispatcher.PickedAddress | scripts/bmark_history.ts:255-263 | picking a label whose value is an address navigates there and records it |
| Dispatcher.RawPromptNavigatesToLine | scripts/bmark_history.ts:300-303 | the raw prompt navigates to the trimmed line; picking the current address gives that address |
| Dispatcher.BookmarkSavesCurrentPage | scripts/bmark_history.ts:292-298 | bookmarking saves the current address flagged, named by the typed line, with the icon entry standing for `''`; no other row changes |
| Dispatcher.BrowseBookmarksReadOnly | scripts/bmark_history.ts:308-314 | browsing bookmarks always navigates and never writes |
| Dispatcher.UnknownRequestIgnored | scripts/bmark_history.ts:316-317 | any other request changes nothing |
| Dispatcher.PromptDmenu | scripts/bmark_history.ts:197-203 | the trimmed menu line is replaced by its map value when it is a key |
| Dispatcher.RunDecision | scripts/bmark_history.ts:259-288 | the statements after resolution produce exactly the effect and table of `Decide` |
| Dispatcher.RunOperator | scripts/bmark_history.ts:272-288 | the `if ... else if` chain produces exactly the effect and table of `Dispatch` |
| Dispatcher.RunEnhancedPrompt | scripts/bmark_history.ts:254-289 | the procedure produces exactly the effect and table of `EnhancedPrompt` |
| Dispatcher.Invoke | scripts/bmark_history.ts:291-318 | the `switch` produces exactly the effect and table of `Handle` |

## Behaviour worth knowing

- `arg.replace(".", "-")` replaces only the first dot: `n 1.2.3` opens `nightly-1-2.3` (`ReplaceFirstExample`, `NightlyExample`).
- `nightly` and `local` store the shorthand `!n arg` / `!l arg` as the row's `value`, unlabelled; the built address itself is not stored. Picking the shorthand later replays the command (`NightlyShorthandReplays`, `LocalShorthandReplays`).
- `delete example.com` deletes nothing: `delete` is neither one character long nor `!`-prefixed, so the back split makes `example.com` the operator token, which matches no operator (`SpelledOutDeleteIsNoOp`). A delete takes a `d` or `!`-prefix-of-`delete` token (`!d`, `!de`, …, `!delete`) in front, or a trailing `d` when the first word is longer than one character and not `!`-prefixed (`example.com d`, `TrailingDelete`).
- `readBookmarks` keys its map by the raw `bookmark_name`, without the bookmark icon; only `readBoth` adds it (`ReadBookmarksUndecorated`).
- `readHistory` keys by the raw `bookmark_name`, so all unlabelled history rows share the null key and only the greatest value survives (`ReadHistoryNullCollapse`). No request calls `readHistory`.

## Left out

- The SQLite engine, `setupDB`, the SQL text and `database.close` are not modelled. The table is a map, and query results are inputs constrained by `IsQueryResult`. Column widths (`VARCHAR(1024)`, `VARCHAR(256)`) are not modelled.
- `getProp` and `setProp` (the `xprop` shell calls and the parsing of their quoted output) are not modelled. The current address is a parameter, and the `_SURF_GO` write is the `Navigate` effect.
- The dmenu shell call is not modelled: its styling, window id, prompt text and the `Buffer` of labels. What dmenu printed is a parameter, and only trimming and look-up are modelled.
- `processError`, `isShellError`, thrown errors and `process.exit` are not modelled, because they are process plumbing.
- `Bun.argv` and `console.log`/`console.error` are not modelled. The request kind is a parameter of `Handle`/`Invoke`.
- In `readBoth`, the in-place rewrite of `row.bookmark_name` is modelled as a local variable. The rows are not used afterwards, so nothing observable is lost.
- The rows returned by the queries are passed in one order, ascending by `value`. Keys of the JavaScript `Map` are compared by value, so the model's `map` loses nothing except the order of the labels dmenu displays.
