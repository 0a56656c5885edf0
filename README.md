# Image history store

A Dafny model of the crop history kept by the paste-and-crop widget: the
`useImageHistory` hook (`src/hooks/useImageHistory.js`). The hook holds the
recent crops as an in-memory list of records `{id, src, timestamp}`, newest
first. It mirrors that list to the local-storage key `'image_history'`.

- **Load.** On mount the hook reads the key once. A parseable list becomes the history. An absent key or unparseable text leaves the history empty.
- **Add.** The new record goes in front and the list is cut to `MAX_HISTORY_ITEMS` (10). Then `trySave` writes it. On a quota refusal `trySave` drops the last (oldest) record and tries again. Any other failure ends the attempts, and so does a quota refusal of the empty list. The list `trySave` settles on becomes the history.
- **Remove.** Keeps the records whose id differs and writes that list.
- **Clear.** Empties the history and deletes the key.

Everything is in one module, `ImageHistory` (`image_history.dfy`):

- `Capped`, `Save`, `AfterAdd` and `Without` are pure functions. They describe the list computations and the outcome of the retry loop.
- `HistoryStore` is a class with two fields: `history` (the React state) and `stored` (the value under the key). Its methods update those fields in place. Each method is proved against the functions above.
- A write to the key is an oracle `seq<Item> -> WriteOutcome`, passed to each operation. Its outcomes are `Written`, `QuotaExceeded` and `OtherFailure`.
- Serialisation is the identity. The key holds `Absent`, `Serialized(items)` or `Unparseable`.
- The record's `id` (`Date.now()`), its `timestamp` and its `src` data URL are parameters.

Behaviour of the code worth noting:

- After an add, the in-memory history is the quota-trimmed list that `trySave` returns (lines 51-52). It is not the merely capped list.
- When quota refusals continue down to the empty list, the history becomes empty. The key keeps its previous value.
- `removeFromHistory` writes without a `try`/`catch` (line 68). A failing write throws out of the state updater, so the removal never takes effect. `Remove` models this as `ok == false` with nothing changed. This error is not caught anywhere in the hook.
- Record ids are not guaranteed to be unique (`Date.now()` can repeat, and loaded data is not checked). Lemmas that need unique or ordered ids take that as a precondition.

## Model

| member | source | states |
|---|---|---|
| `ImageHistory.Capped` | src/hooks/useImageHistory.js:31-35 | the new record comes first, followed by the leading records of the previous history; the length is min(previous length + 1, 10) |
| `ImageHistory.Save` | src/hooks/useImageHistory.js:38-49 | the kept list is a prefix of the input, so only tail records are dropped; every longer prefix was refused for quota, so one record is dropped per refusal; a list not refused for quota is kept whole; the kept list was written iff its write succeeded; a quota refusal ends the attempts only at the empty list |
| `ImageHistory.SaveExhausted` | src/hooks/useImageHistory.js:43-47 | if the quota refuses every prefix, the save ends with the empty list and nothing written |
| `ImageHistory.SaveUnique` | src/hooks/useImageHistory.js:38-49 | any prefix that meets Save's contract is the one Save keeps, so the contract fully determines the retry outcome |
| `ImageHistory.AfterAdd` | src/hooks/useImageHistory.js:31-52 | the history after an add has at most 10 records; it is a prefix of the new record followed by the previous history; when non-empty it starts with the new record, and the previous records follow in their old order; with no quota refusal it is the capped list |
| `ImageHistory.AddKeepsNewestFirst` | src/hooks/useImageHistory.js:32-35 | when the new id exceeds every earlier id, an add keeps ids strictly decreasing (newest first) |
| `ImageHistory.Without` | src/hooks/useImageHistory.js:67 | no record with the removed id is left; every other record keeps its multiplicity and its order (a subsequence of the input); an absent id leaves the list unchanged |
| `ImageHistory.WithoutRemovesOne` | src/hooks/useImageHistory.js:65-70 | with distinct ids, removing a present id shortens the history by exactly one |
| `ImageHistory.WithoutKeepsNewestFirst` | src/hooks/useImageHistory.js:65-70 | removing records keeps a newest-first history newest first |
| `ImageHistory.NewerInFront` | src/hooks/useImageHistory.js:32-35 | a record newer than every record of a newest-first list can be put in front of it without breaking the order; this is the step both `AddKeepsNewestFirst` (the prepend at line 32-34) and `WithoutKeepsNewestFirst` (a record the filter at line 67 keeps in front) rely on |
| `ImageHistory.HistoryStore.constructor` | src/hooks/useImageHistory.js:7 | the hook starts with an empty history; the key holds what an earlier session left |
| `ImageHistory.HistoryStore.Load` | src/hooks/useImageHistory.js:9-18 | a parseable stored list becomes the history; with an absent or unparseable value the history is unchanged; the key is not touched |
| `ImageHistory.HistoryStore.SetItem` | src/hooks/useImageHistory.js:40 | one write attempt: its outcome is the oracle's answer, and the key changes only when the write succeeds |
| `ImageHistory.HistoryStore.TrySave` | src/hooks/useImageHistory.js:38-49 | the loop that pops from the tail returns exactly Save's kept list; the key then holds that list if it was written, otherwise its old value |
| `ImageHistory.HistoryStore.Add` | src/hooks/useImageHistory.js:20-53 | the new history is AfterAdd of the old history; the key holds the new history when the save succeeded and is unchanged otherwise |
| `ImageHistory.HistoryStore.Clear` | src/hooks/useImageHistory.js:60-63 | the history is empty and the key is absent, whatever the state before |
| `ImageHistory.HistoryStore.Remove` | src/hooks/useImageHistory.js:65-71 | on a successful write, history and key both become Without(old history, id); on a failed write neither changes and `ok` is false |
| `ImageHistory.Mount` | src/hooks/useImageHistory.js:6-18 | after mounting, the history is the stored list if the key holds one, and empty otherwise |
| `ImageHistory.AddThenReload` | src/hooks/useImageHistory.js:9-18 | after an add whose first write succeeds, a reload sees exactly the in-memory history, which is the capped list |
| `ImageHistory.ClearThenReload` | src/hooks/useImageHistory.js:60-63 | clearing twice leaves the same state as clearing once, and a reload after clearing sees an empty history |
| `ImageHistory.ExampleSession` | src/hooks/useImageHistory.js:20-71 | two adds, removing the first record, then a clear, with every write accepted: the returned histories after each of the first three steps are [a], [b, a] and [b], and the final state is empty with the key absent |

## Left out

- Turning the blob URL into a data URL with `fetch` and `FileReader` (lines 21-29) is browser I/O. The model takes the resulting `src` string as a parameter. It also omits the failure path at lines 55-57, where a failed fetch is logged and nothing changes.
- `Date.now()` and `new Date().toISOString()` (line 33) are clock reads. They are parameters.
- `JSON.stringify` and `JSON.parse` are not modelled. Serialisation is the identity, and any text `JSON.parse` rejects is `Unparseable`. A stored value that parses to something other than a list is not modelled. The load guard `if (savedHistory)` also skips an empty string; that case behaves like `Unparseable`.
- The real storage quota is not modelled. A write oracle over the list being written stands in for it, and the oracle is fixed for the duration of one operation.
- Console logging is not modelled.
- React scheduling is not modelled: `useState`/`useEffect` timing, updaters run twice in strict mode, and overlapping asynchronous adds. The model runs operations one at a time. What happens to the component tree after the uncaught error in `removeFromHistory` is outside React's state model here; `Remove` only reports it.
- The crop coordinate scaling in `src/components/ImageCropper.jsx` uses floating point and is not part of this model. Neither is canvas rasterisation (`src/lib/cropUtils.js`), nor the UI components.
