# Result reducer

A Dafny model of the "result" reducer of a small Redux counter application
(`src/store/reducers/result.js`). The reducer is a pure function
`(state, action) -> state`. Its state is a record with one field, `results`,
an ordered sequence of `{id, value}` entries:

- with no state it starts from `initialState`, `{results: []}`;
- `STORE_RESULT` appends `{id: new Date(), value: action.result}` at the end;
- `DELETE_RESULT` keeps every entry whose `id` differs from `action.resultElId`;
- every other action returns the state it was given.

`result.dfy` holds module `ResultReducer`:

- `Entry`, `State` and `Action` are datatypes. `Action` is closed: `StoreResult`, `DeleteResult`, and `Other(kind)` for every other action type.
- An absent state is `Option.None`. `Start` plays the default parameter.
- `Without` is the `filter` call. `Reduce` is the reducer.
- Ids and payloads are type parameters. Ids need only equality.
- The id of a new entry is the explicit parameter `freshId` of `Reduce`. The code makes it a new `Date` object and compares ids with `!==`, by reference, so a new id never equals an older one. The model compares ids by value and does not assume that. `StoreThenDelete` asks for a fresh id in its `requires`, which is the code's situation. `StoreThenDeleteCollision` shows what value comparison would add when the id is not fresh.
- States are values, so a transition cannot alter the state it was given. That covers the non-mutation the code gets from `concat`, `filter` and `updateObject`.

## Model

| member | source | states |
|---|---|---|
| `ResultReducer.InitialState` | src/store/reducers/result.js:4-7 | the empty starting state; it has no contract of its own, `AbsentStateIsEmpty` states what the reducer does from it |
| `ResultReducer.Start` | src/store/reducers/result.js:11 | the default parameter `state = initialState`; it has no contract of its own, `AbsentStateIsEmpty` states its effect |
| `ResultReducer.Reduce` | src/store/reducers/result.js:11-27 | the reducer invents no entry: every entry it returns was in the starting state or is the one a store adds, and only a store can grow the sequence, by one; the lemmas below state each branch in full |
| `ResultReducer.Without` | src/store/reducers/result.js:22 | the filtered sequence is no longer than the input, holds no entry with the deleted id, and holds only entries of the input |
| `ResultReducer.WithoutIsSubsequence` | src/store/reducers/result.js:22 | the surviving entries keep their original relative order (the result is a subsequence of the input) |
| `ResultReducer.WithoutCounts` | src/store/reducers/result.js:22 | every entry with the deleted id is removed, however many share it; every other entry keeps its multiplicity |
| `ResultReducer.WithoutLength` | src/store/reducers/result.js:22 | the length drops by exactly the number of entries carrying the deleted id |
| `ResultReducer.WithoutUnchanged` | src/store/reducers/result.js:22 | the filter returns its input if and only if no entry carries the id |
| `ResultReducer.WithoutIdempotent` | src/store/reducers/result.js:22 | filtering twice by one id equals filtering once |
| `ResultReducer.WithoutAppend` | src/store/reducers/result.js:22 | filtering a concatenation is the concatenation of the filtered parts |
| `ResultReducer.WithoutMaximal` | src/store/reducers/result.js:22 | every id-free subsequence of the input is at most as long as the filter's result, and one of equal length is that result, so the filter is determined uniquely |
| `ResultReducer.AbsentStateIsEmpty` | src/store/reducers/result.js:4-16 | with no state, a store yields exactly the one new entry and any other action yields no entries |
| `ResultReducer.StoreAppendsOne` | src/store/reducers/result.js:14-16 | a store grows the sequence by one, leaves the old entries as a prefix, and the last entry carries the fresh id and the payload |
| `ResultReducer.StoreTwice` | src/store/reducers/result.js:14-16 | two stores of one payload append two entries in order, which are distinct if and only if their ids differ |
| `ResultReducer.DeleteKeepsOthers` | src/store/reducers/result.js:18-23 | after a delete the results are an ordered subsequence of the old ones with no entry carrying the id, every other entry at its old multiplicity, and the length never grows |
| `ResultReducer.DeleteUnknownIsNoop` | src/store/reducers/result.js:18-23 | a delete returns the state unchanged if and only if no entry carries the id |
| `ResultReducer.DeleteIdempotent` | src/store/reducers/result.js:18-23 | deleting one id twice gives the same state as deleting it once |
| `ResultReducer.OtherIsIdentity` | src/store/reducers/result.js:11-27 | an action other than store or delete returns the given state |
| `ResultReducer.StoreThenDelete` | src/store/reducers/result.js:14-23 | if the fresh id is absent, storing and then deleting by that id restores the earlier state |
| `ResultReducer.StoreThenDeleteCollision` | src/store/reducers/result.js:14-23 | if the fresh id is already present, store then delete also removes the older entry, so the state ends strictly shorter |
| `ResultReducer.DeleteExamples` | src/store/reducers/result.js:22 | deleting id 1 from `[{1,"a"},{2,"b"}]` leaves `[{2,"b"}]`; deleting id 999 leaves both |

## Left out

- The clock. `new Date()` becomes the parameter `freshId`. Its resolution, and so the uniqueness of ids, is not modelled.
- Reference identity of ids. The code compares `Date` objects with `!==`, which tests identity. The model compares ids by value equality.
- `updateObject` from `../utility` is not part of this model. It is taken as a shallow record update that replaces only `results`.
- The `actionTypes` string constants. They become the closed `Action` datatype.
- The commented-out `splice` code inside the delete branch. It never runs.
- Redux dispatch, store wiring and rendering. The reducer file does not contain them.
- StoreTwice: two stores of one payload are expected to give two distinct entries. In the code they always do, since each id is a new `Date` object compared by reference. The model compares ids by value, so it proves distinctness only when the two ids differ.
- StoreThenDeleteCollision: its premise, a new id equal to an older entry's id, comes only from comparing ids by value. It cannot arise in the code, where a new `Date` object never equals an older one by reference.
