# History projection of the MUD counter client

The client of this counter application shows, beside the on-chain counter,
a table of its history. The `History` view keeps a list of rows in its
state. Whenever the observed `Counter` value `n` changes, an effect walks
the keys `0 .. n` of the client's mirror of the `History` table. For every
key that has a synchronized entry it keeps one row (the key, the entry's
block number and its time). It then replaces the view's list with the new
one. If the counter is undefined or zero, the effect returns early and the
list stays as it was.

The model:

- `wrappers.dfy`: `Option`, for a value that may be undefined.
- `schema.dfy` (module `Schema`): the two tables of the world
  configuration. `Counter.value` and the `History` key are `uint32`;
  `blockNumber` and `time` are `uint256`. The mirrored `History` table is a
  `map` from key to entry, in which a key that is not synchronized is absent.
- `history.dfy` (module `HistoryComponent`):
  - the specification function `Collect(k, lookup)`, the rows for the keys
    below `k`, with `Projection(n, lookup) == Collect(n + 1, lookup)`;
  - the effect's loop as the method `BuildHistory`, proved equal to
    `Projection`;
  - the view as the class `History`, with the field `history` and the
    method `OnCounterChange`, which is the effect with its guard;
  - lemmas for the properties of the projection.
  Module `HistoryScenarios` runs one view through a sequence of counter
  changes.

The counter value is passed to `OnCounterChange`, and so is the table
lookup, since both come from the external synchronized store. A row's time
is kept as the exact integer number of milliseconds, `time * 1000`.

The guard at History.tsx:23 is commented as skipping an undefined counter,
but `!counter?.value` also skips the value 0. So the effect never computes
the list at `n == 0`, even when key 0 has an entry: a fresh view shows
nothing at 0, and a view that has already shown a list keeps it. The model
follows the code (`EffectRuns`, `HistoryScenarios.ZeroAndResetKeepHistory`).

## Model

| member | source | states |
|---|---|---|
| HistoryComponent.BuildHistory | packages/client/src/components/History/History.tsx:25-36 | The loop over `i = 0 .. n` inclusive, pushing a row only for keys that have an entry, returns exactly `Projection(n, lookup)`, the rows for the keys `0 .. n` in key order |
| HistoryComponent.History.OnCounterChange | packages/client/src/components/History/History.tsx:22-38 | If the counter is undefined or its value is 0, the displayed list is left unchanged (including after a reset to 0). Otherwise it is replaced by `Projection(n, lookup)`, which does not depend on the previous list, so nothing is merged |
| HistoryComponent.History.constructor | packages/client/src/components/History/History.tsx:14-16 | The view's list starts empty |
| HistoryComponent.CollectBounded | packages/client/src/components/History/History.tsx:26 | Every row's counter is below `k`; for the projection (`k = n + 1`) every row's counter lies in `[0, n]` |
| HistoryComponent.CollectAscending | packages/client/src/components/History/History.tsx:26-30 | Rows are strictly ascending by counter, so no key appears twice |
| HistoryComponent.CollectHasRowIff | packages/client/src/components/History/History.tsx:28-29 | A row for `i` appears exactly when `i < k` and the table has an entry for `i`: missing keys are skipped and never filled with defaults |
| HistoryComponent.CollectRowsMatchEntries | packages/client/src/components/History/History.tsx:31-33 | Each row's key has an entry; the row's block number is that entry's block number, and its time in milliseconds is the entry's time times 1000 |
| HistoryComponent.CollectLength | packages/client/src/components/History/History.tsx:26-36 | There are at most `k` rows (`n + 1` for the projection), and exactly `k` exactly when every key below `k` has an entry |
| HistoryComponent.CollectComplete | packages/client/src/components/History/History.tsx:26-36 | When no key below `k` is missing, row `j` is the row for key `j` with key `j`'s entry, so the counters are `0, 1, ..., k - 1` |
| HistoryComponent.CollectPrefix | packages/client/src/components/History/History.tsx:26-36 | For a fixed table, collecting over more keys only appends rows. So raising `n` gives a list that has the previous list as a prefix |
| HistoryComponent.CollectSkipsMissing | packages/client/src/components/History/History.tsx:29 | A run of keys without entries adds no rows |
| HistoryComponent.SubscribedKeysProjection | packages/client/src/mud/setupNetwork.ts:145-152 | When the table holds only keys 1 and 5, the ones the client subscribes to, the projection is the row for key 1 once `n >= 1`, then the row for key 5 once `n >= 5`, each present only if synchronized |
| HistoryScenarios.ZeroAndResetKeepHistory | packages/client/src/components/History/History.tsx:23 | A fresh view that sees the counter at 0 shows nothing. After it sees `n != 0` it shows `Projection(n, lookup)`, and it keeps showing that after the counter is reported as 0 and then as undefined |

## Left out

- Timestamp formatting: `new Date(...).toLocaleString()` depends on the locale and calls foreign code. `Number(value.time)` is a lossy conversion from a big integer to a float. A row keeps the exact integer `time * 1000` milliseconds instead of the formatted string.
- Entity key encoding and store reads (`encodeEntity`, `getComponentValue`): both are library calls into the synchronized store. They are modelled as a lookup in a `map` from key to entry passed to the effect.
- React behaviour: hook re-run scheduling, the effect's dependency list and the rendering of the table (History.tsx:40-62). The model calls `OnCounterChange` directly with the current counter and table.
- Network, wallet and synchronization setup (setupNetwork.ts, metaMask.ts): foreign library calls and asynchronous I/O. Only the key filter of the synchronization is reflected, as the hypothesis of `SubscribedKeysProjection`.
- The `Counter` view and its `increment` call (Counter.tsx): user-interface code plus an asynchronous transaction. Its `?? "??"` placeholder is a display fallback with no state.
- The page layout (App.tsx).
