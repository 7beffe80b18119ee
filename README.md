# Locker grid state store

A Dafny model of the locker state store inside the `LockerGrid` React
component of the locker management system. The store keeps an ordered
sequence of locker records `{id, status}`. The status is one of
available, reserved and open. The id of the record at position `i` is the
decimal string of `i`, and position `i` lies in column `i % columns`.

The component does four things:

- On mount it loads the `'lockers'` local-storage entry verbatim. If the
  entry is absent, it builds `rows * columns` available records and saves them.
- Clicking a locker selects it and opens a detail dialog.
- A dialog button (open, close, reserve) sets the status of the selected
  locker. It then saves the grid and closes the dialog.
- A column button sets the status of every locker in that column and saves
  the grid.

Layout of the model:

- `decimal.dfy`, module `Decimal`: the `${index}` rendering of an index
  (`NatToString`). It comes with the number a numeral denotes
  (`DecimalValue`) and the round trip between the two, which makes ids unique
  per position.
- `locker_grid.dfy`, module `LockerGrid`: the record types and the
  action-to-status mapping. It has the pure functions that compute each new
  sequence (`InitialLockers`, `UpdateLocker`, `UpdateColumn`) and the lemmas
  about them. The class `Store` has the fields `lockers`, `selected`,
  `dialogOpen` and `storage`, and one method per handler that commits the
  new sequence. Two client methods run the store end to end.

Modelling choices:

- `storage` is `Option<seq<Locker>>`. It stands for the single local-storage
  key, and the JSON round trip is taken as the identity. Any saved array,
  even an empty one, stringifies to a non-empty and so truthy string. A
  `Some` entry is therefore always loaded.
- `rows` and `columns` are finite integers. `parseInt` can also yield NaN
  and Infinity; those are not modelled.
- `GridSize` is the length `Array.from({length: rows * columns})` gives. A
  product of zero or less gives length 0. A product above 2^32 - 1 is an
  invalid array length and throws a RangeError, so `GridSize` is `None`. The
  effect then stops before it writes any state or storage, and `Initialize`
  reports the fault.
- The column test `index % columns === columnIndex` is `InColumn`. Its
  contract ties it to `JsRemainder`, the truncating JavaScript remainder.
  For `index >= 0` that remainder equals Dafny's Euclidean one. A zero
  divisor gives NaN, which matches nothing, so `columns == 0` matches no
  position.
- Each handler is one synchronous step. The state passed to a handler is the
  state the last step left behind.

Behaviour of the code worth knowing:

- A locker action sets the status of EVERY record whose id equals the
  selected id, not just one record. On a grid built here the ids are
  distinct (`InitialLockersWellFormed`), so exactly one record changes
  (`UpdateLockerAtIndex`). A loaded grid may hold repeated ids.
- The length of a loaded grid is never checked against `rows * columns`,
  and a second mount with other dimensions keeps the saved grid
  (`RemountKeepsGrid`).
- A locker action with no selected locker saves nothing. After an action
  the selection is kept, with the status it had when it was clicked.

## Model

| member | source | states |
|---|---|---|
| Decimal.Digit | src/components/LockerGrid.tsx:56 | the character of a digit `d < 10` is a decimal digit whose value is `d` |
| Decimal.NatToString | src/components/LockerGrid.tsx:56 | `${n}` is a non-empty string of decimal digits, and it starts with '0' exactly when n is 0 (no leading zero) |
| Decimal.DecimalRoundTrip | src/components/LockerGrid.tsx:56 | reading back the decimal rendering of n gives n |
| Decimal.NatToStringInjective | src/components/LockerGrid.tsx:56 | distinct indices get distinct id strings |
| LockerGrid.Target | src/components/LockerGrid.tsx:74 | the action mapping is a bijection: close gives available, open gives open, reserve gives reserved, and each status comes from exactly that action |
| LockerGrid.GridSize | src/components/LockerGrid.tsx:55 | the record count is the product when it is positive and 0 when it is not; a product above 2^32 - 1 has no length (RangeError) |
| LockerGrid.InitialLockers | src/components/LockerGrid.tsx:55-58 | a fresh grid of n records: position i has id `${i}` and status available |
| LockerGrid.UpdateLocker | src/components/LockerGrid.tsx:72-78 | length and every id are kept; each record whose id is the selected id gets the action's status; every other record is unchanged |
| LockerGrid.InColumn | src/components/LockerGrid.tsx:87 | a position is in the column exactly when the divisor is non-zero and JavaScript's truncating `index % columns` equals the column index |
| LockerGrid.UpdateColumn | src/components/LockerGrid.tsx:86-92 | length and every id are kept; position i gets the action's status when `i % columns == columnIndex`; every other record is unchanged |
| LockerGrid.InitialLockersWellFormed | src/components/LockerGrid.tsx:55-58 | a fresh grid has ids equal to positions, and its ids are pairwise distinct |
| LockerGrid.UpdatesPreserveIds | src/components/LockerGrid.tsx:72-92 | both transitions keep the invariant "the id at position i is `${i}`" |
| LockerGrid.UpdateLockerAtIndex | src/components/LockerGrid.tsx:72-78 | on a grid whose ids are positions, acting on id `${k}` is exactly the update of record k's status |
| LockerGrid.UpdateLockerUnknownId | src/components/LockerGrid.tsx:72-78 | an id that no record carries leaves the grid unchanged |
| LockerGrid.UpdateColumnOutOfRange | src/components/LockerGrid.tsx:86-92 | a column index outside [0, abs(columns)) leaves every record unchanged |
| LockerGrid.UpdateLockerLastWins | src/components/LockerGrid.tsx:72-78 | two locker actions on one id equal the second alone |
| LockerGrid.UpdateLockerIdempotent | src/components/LockerGrid.tsx:72-78 | repeating a locker action gives the same sequence as doing it once |
| LockerGrid.UpdateLockerCommutes | src/components/LockerGrid.tsx:72-78 | locker actions on two different ids commute |
| LockerGrid.UpdateColumnLastWins | src/components/LockerGrid.tsx:86-92 | two actions on one column equal the second alone |
| LockerGrid.UpdateColumnIdempotent | src/components/LockerGrid.tsx:86-92 | repeating a column action gives the same sequence as doing it once |
| LockerGrid.UpdateColumnCommutes | src/components/LockerGrid.tsx:86-92 | actions on two different columns commute |
| LockerGrid.ActionSequenceOnLocker | src/components/LockerGrid.tsx:72-78 | open, then close, then reserve on one locker give open, available, reserved whatever its prior status; the rest of the grid is untouched |
| LockerGrid.ReserveColumnOfTwoByFour | src/components/LockerGrid.tsx:86-92 | reserving column 1 of a fresh 2x4 grid reserves lockers 1 and 5 and leaves 0, 2, 3, 4, 6, 7 as they were |
| LockerGrid.Store.constructor | src/components/LockerGrid.tsx:44-47 | mounting starts with no lockers, no selection and a closed dialog, over the existing storage entry |
| LockerGrid.Store.Initialize | src/components/LockerGrid.tsx:49-62 | a saved grid is loaded unchanged and storage is not rewritten; with no entry, the fresh rows*columns grid is shown and saved; an invalid length faults with lockers and storage untouched; without a fault storage equals the shown grid |
| LockerGrid.Store.Click | src/components/LockerGrid.tsx:64-67 | the clicked locker becomes selected and the dialog opens; grid and storage unchanged |
| LockerGrid.Store.CloseDialog | src/components/LockerGrid.tsx:147 | dismissing the dialog closes it and changes nothing else |
| LockerGrid.Store.LockerAction | src/components/LockerGrid.tsx:69-83 | with no selection nothing changes (grid, storage, dialog); otherwise the grid becomes UpdateLocker of the selected id, storage equals it and the dialog closes |
| LockerGrid.Store.ColumnAction | src/components/LockerGrid.tsx:85-96 | the grid becomes UpdateColumn of the column, storage equals it, selection and dialog unchanged |
| LockerGrid.RemountKeepsGrid | src/components/LockerGrid.tsx:49-62 | mounting again over the storage a first mount left, with any dimensions, shows the same grid, which is the saved one or the fresh one; only a first build of invalid length faults |
| LockerGrid.ActOnFreshGrid | src/components/LockerGrid.tsx:49-83 | on a fresh grid, click locker k then an action: only locker k changes, to the action's status, storage holds the grid and the dialog is closed |

## Left out

- Rendering: the JSX, `StyledLocker`, the MUI grid, the dialog body and the buttons are UI. `getLockerColor` (src/components/LockerGrid.tsx:31-42) is a colour lookup only.
- The cell width `12 / columns` is floating-point layout.
- The display labels `parseInt(locker.id) + 1` are presentation and depend on the JavaScript `parseInt`.
- `JSON.stringify`, `JSON.parse` and `localStorage` faults are foreign calls. A quota error, an unreadable store or a corrupted entry is not modelled, and a saved entry that is not an array of locker records has no counterpart.
- GridSize: NaN, Infinity and fractional `rows`/`columns` are not modelled, because the dimensions are finite integers. An infinite product would also throw a RangeError, and a NaN product would give length 0.
- After the RangeError of an invalid length, React tears the component down. The model only reports the fault.
- React's effect dependencies and scheduling are not modelled: the effect re-runs when `rows` or `columns` change, and `setState` batches. Each call of `Initialize` stands for one run of the effect.
- src/components/ConfigurationForm.tsx is form UI. Its non-empty check and `parseInt` call are not part of this model.
- locker-management/src/App.tsx is a theme and screen switch. It is not part of this model.
