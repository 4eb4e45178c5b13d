# History manager of the excuse generator

A Dafny model of `HistoryManager`, the one stateful component of the excuse
generator. It keeps a log of generated entries, each with a `timestamp`, an
`excuse` text, a `scenario` label and a list of `tags`. The log lives in memory
as `history`, which only grows for the lifetime of the process. After every
`add_excuse` and every successful `toggle_favorite`, the backing JSON file is
rewritten with `history[-MAX_HISTORY_ITEMS:]`. The tag `"favorite"` marks an
entry as a favourite.

The model has three modules:

- `PySlice` (`py_slice.dfy`) holds Python's `s[-k:]`. `FromNeg` implements it
  through Python's rule for normalising slice bounds. Its contract gives the
  three cases: a positive `k` gives the last `min(k, |s|)` elements, `k == 0`
  gives the whole list (because `-0 == 0`), and a negative `k` gives `s[|k|:]`.
  The same function is used for the persisted window and for `get_history`.
- `History` (`history.dfy`) holds the `Entry` datatype and the pure operations:
  - the favourites filter;
  - `list.remove` (first occurrence only);
  - the favourite flip of a tag list;
  - the scan for the first entry with a given timestamp (a loop);
  - `Toggled`, the whole-history effect of a toggle.
- `Manager` (`history_manager.dfy`) holds the class `HistoryManager`. Its field
  `history` is the in-memory list, its ghost field `file` is the backing file
  (`None` while no file exists) and `maxItems` is `MAX_HISTORY_ITEMS`.
  `Synced()` says the file holds the window of the current history.
  `WindowScenario` and `ToggleScenario` are client methods that run concrete
  scenarios through the contracts.

`get_history` does not return an empty list for `limit <= 0`. It returns
`history[-limit:]`, which is the whole history for `limit == 0` and
`history[|limit|:]` for a negative limit. The HTTP route passes any integer the
client sends (`web_server.py:140-142`).

Toggling the same timestamp twice does not always give the entry back. The
tags come from the request's `tone` and `urgency` (`web_server.py:34-35`,
`:77`), so an entry can hold `"favorite"` more than once. Each toggle then
removes one copy, so two toggles turn `["favorite", "favorite"]` into `[]`
(`ToggleTagsTwiceDoubleFavorite`). When the tag is absent, two toggles restore
the history exactly (`ToggledTwice`). When it is present once, they restore the
tags as a multiset, with the tag moved to the end (`ToggledTwiceFavorite`).

## Model

| member | source | states |
|---|---|---|
| `PySlice.FromNeg` | history_manager.py:32 | `s[-k:]` is a suffix of `s`. It has `min(k, |s|)` elements for `k > 0`. It is all of `s` for `k == 0` and `s[-k:]` (or empty) for `k < 0`. |
| `PySlice.NormalizeStart` | history_manager.py:19 | Python's normalised slice start always lies within the list, `0 <= start <= n`. |
| `PySlice.FromNegAppend` | history_manager.py:17-19 | With a positive cap, appending one entry slides the persisted window: the oldest entry is dropped exactly when the window was full, and the new entry comes last. |
| `PySlice.FromNegIdempotent` | history_manager.py:11-19 | With a cap of zero or more, the window of a window is the window itself. So a file this program wrote, loaded and saved again, is written unchanged. |
| `History.Favorites` | history_manager.py:34-35 | Every returned entry is a favourite, and the result is no longer than the history. |
| `History.FavoritesMembers` | history_manager.py:35 | An entry is returned iff it is in the history and carries `"favorite"`. |
| `History.FavoritesCount` | history_manager.py:35 | Each favourite appears as many times as in the history, and each non-favourite appears zero times. |
| `History.FavoritesSubsequence` | history_manager.py:35 | The favourites are a subsequence of the history, so storage order is kept. |
| `History.FavoritesAppend` | history_manager.py:35 | Filtering distributes over concatenation. |
| `History.IndexOf` | history_manager.py:41 | Returns the position of the first occurrence of a tag: that position holds the tag and no earlier one does. |
| `History.RemoveFirst` | history_manager.py:41 | `list.remove` shortens the list by one and removes exactly one copy of the tag from its multiset. |
| `History.RemoveFirstIsSplice` | history_manager.py:41 | `list.remove` cuts out exactly the first occurrence and keeps the rest in order. |
| `History.RemoveFirstAppended` | history_manager.py:41-45 | Removing a tag that was appended to a list not holding it gives that list back. |
| `History.ToggleTags` | history_manager.py:40-45 | If `"favorite"` is present, its first copy is removed, the rest keeps its order, and one copy leaves the multiset. Otherwise it is appended at the end. Afterwards the entry is a favourite iff it did not hold the tag exactly once before. |
| `History.ToggleTagsTwice` | history_manager.py:40-45 | Toggling twice, starting from tags without `"favorite"`, restores the original tags exactly. |
| `History.ToggleTagsTwiceFavorite` | history_manager.py:40-45 | Toggling twice, starting from tags holding `"favorite"` once, restores the tag multiset. The tag moves to the end. |
| `History.ToggleTagsTwiceDoubleFavorite` | history_manager.py:40-45 | With `"favorite"` held twice, two toggles remove both copies: `["favorite", "favorite"]` becomes `[]`. |
| `History.ToggleEntry` | history_manager.py:39-45 | A toggled entry keeps its timestamp, excuse and scenario. Its favourite status flips unless the tag appeared more than once. |
| `History.FirstMatch` | history_manager.py:38-39 | Gives the first position in storage order whose timestamp equals the argument, or none when no entry matches. |
| `History.FirstMatchUnique` | history_manager.py:38-39 | The first match is determined uniquely. |
| `History.FindFirstMatch` | history_manager.py:38-39 | The scan over the history returns exactly `FirstMatch`. |
| `History.Toggled` | history_manager.py:37-48 | The history after a toggle has the same length and the same timestamps, and its first match is the same as before. |
| `History.ToggledFrame` | history_manager.py:37-48 | A toggle keeps the length and every timestamp, excuse and scenario. Only the first matching entry changes, and only in its tags. With no match, nothing changes. |
| `History.ToggledTwice` | history_manager.py:37-48 | Toggling the same timestamp twice, when the first match lacks `"favorite"`, restores the whole history. |
| `History.ToggledTwiceFavorite` | history_manager.py:37-48 | Toggling the same timestamp twice, when the first match holds `"favorite"` once, changes only that entry. Its tags keep their multiset and the tag moves to the end. |
| `Manager.HistoryManager.constructor` | history_manager.py:7-15 | The history is the file's content, or empty when there is no file. The file itself is untouched. |
| `Manager.HistoryManager.SaveHistory` | history_manager.py:17-19 | The file becomes `history[-MAX_HISTORY_ITEMS:]`. The in-memory history is unchanged. |
| `Manager.HistoryManager.AddExcuse` | history_manager.py:21-29 | The history grows by exactly the new entry, with the given fields, and the earlier entries are unchanged. The file then holds the window. With a positive cap it holds `min(cap, |history|)` entries. The history itself is not shortened. |
| `Manager.HistoryManager.GetHistory` | history_manager.py:31-32 | Returns `history[-limit:]` without changing state: the last `min(limit, n)` entries for a positive limit, everything for 0, and `history[-limit:]` for a negative limit. |
| `Manager.HistoryManager.GetFavorites` | history_manager.py:34-35 | Returns, without changing state, exactly the favourite entries as a subsequence of the history. |
| `Manager.HistoryManager.ToggleFavorite` | history_manager.py:37-48 | Returns true iff some timestamp matches. The history becomes `Toggled(old history)`. On a match the file is rewritten with the window; otherwise the history and the file are unchanged. |

## Left out

- File and JSON I/O (`os.path.exists`, `open`, `json.load`, `json.dump`): the file is the ghost field `file`, and loading is the constructor's argument. A malformed file, a write failure and the file name are not modelled.
- Entries loaded from a file that lack a `timestamp` key, or whose `tags` is not a list: `Entry` always has all four fields. A missing `tags` key is the empty list, which `.get("tags", [])` and lines 43-44 treat the same way.
- `datetime.now().isoformat()`: the timestamp is a parameter of `AddExcuse`.
- `MAX_HISTORY_ITEMS` comes from `config.py`, which is not part of this model. It is the constructor parameter `maxItems`, and any integer is allowed.
- The mutable default `tags=[]` of `add_excuse`: tags are values, so an omitted tag list cannot be shared between entries. Every caller passes a fresh list.
- Aliasing of entry dictionaries: the lists returned by `get_history` and `get_favorites` share their dictionaries with the history, so a later toggle shows through them. Entries are values here.
- Concurrent use of one manager by several HTTP requests: out of scope.
- The generators, the proof and emergency producers, the CLI loop and the HTTP routes: they only call this component.
