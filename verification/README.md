# URI table form — a Dafny model of its state machine

`URITableForm` is the React component of the publication editor that
edits a list of URI records (a URI string and a `canonical` flag). Behind
its rendering sits a small state machine: the list of rows, a counter
used to key new rows (`URI_ID_<n>`), a cache of pre-edit snapshots keyed
by row key, a table-wide `loading` flag and a `clickedCancel` flag that a
pending save checks when its 500 ms timer fires. This project models that
state machine as pure functions over immutable values and proves what
each handler changes and what it leaves alone.

Files:

- `wrappers.dfy` — `Option`, used for a list prop that may be null or undefined.
- `key_text.dfy` — the generated keys `URI_ID_<n>`: decimal rendering, its
  inverse, and injectivity of the key in the counter.
- `rows.dfy` — the `Row` record, `Array.prototype.filter`, the two lookups
  (`getRowByKey`, `getIndexByKey`, both first-match), the key filter of
  `remove`, the one-field update of `handleFieldChange` and the
  `Object.assign` restore of `cancel`.
- `uri_table.dfy` — the component state and one function per handler:
  constructor, `componentWillReceiveProps`, `toggleEditable`, `newURI`,
  `remove`, `handleFieldChange`, `handleKeyPress`, `saveRow` split into its
  synchronous start and its timer callback, and `cancel`. Each returns the
  next state and one effect: `onChange` called with a list, the validation
  message shown, or an exception escaping the handler.
- `uri_table_runs.dfy` — event sequences: edit/change/cancel round trip,
  distinct generated keys, the `clickedCancel` guard, a whole add-and-save
  session.
- `row_actions.dfy` — which action links a row shows.

Behaviour modelled as the code has it (where a plain reading of the
component's purpose would expect otherwise):

- The constructor starts the counter at 0 whatever the initial list holds;
  only a later prop change seeds it with the list's length. A first "Add
  URI" can therefore repeat an existing key (`ConstructedCounterRepeatsKey`).
  Keys are not kept unique in general: a resync re-seeds the counter and
  can collide with surviving keys.
- A list prop that is null or undefined is stored as such; every handler
  that reads the list then throws a TypeError.
- `handleFieldChange` does not check `editable`.
- A successful save toggles the row through `toggleEditable`, so saving a
  row that is not in edit mode snapshots it and puts it into edit mode.
  Saving never removes a snapshot from the cache, and `remove` does not
  either.
- `delete target.isNew` in the timer callback acts on the row object of the
  list from before the toggle. The component's stored list is the copy the
  toggle made, so a saved row keeps `isNew`. Which list `onChange` receives
  depends on whether React applies `setState` at once inside a timer
  (legacy behaviour: the toggled copy, `isNew` kept) or batches it (the
  older list, `editable` unchanged, `isNew` gone). `SaveFire` takes that
  timing as a parameter.
- When the timer finds `clickedCancel` raised it clears only that flag and
  returns: `loading` stays set.
- `cancel` raises `clickedCancel`, and lowers it again before returning.
  A cancel that throws leaves the flag raised: the list is missing, or a
  snapshot exists but its row is gone, so `Object.assign(undefined, …)`
  throws. The next save timer is then swallowed
  (`ThrowingCancelSwallowsSave`). A throwing cancel is the only way the
  timer's guard can be reached in a sequential run
  (`SaveGuardNeedsThrowingCancel`). The rendered links never produce it:
  Cancel is only shown on a present row in edit mode that is not new.
- While the table is loading, only rows in edit mode lose their action
  links; rows not in edit mode keep Edit and Delete.

## Model

| member | source | states |
|---|---|---|
| KeyText.Decimal | src/pages/Publication/URITableForm.js:65 | the counter renders as decimal digits only, one digit exactly below 10, no leading zero |
| KeyText.GeneratedKey | src/pages/Publication/URITableForm.js:65 | a new row's key is `URI_ID_` followed by digits that read back as this counter value |
| KeyText.DecimalRoundTrip | src/pages/Publication/URITableForm.js:65 | the digits written into a key read back as the counter value that produced them |
| KeyText.GeneratedKeyInjective | src/pages/Publication/URITableForm.js:65 | two generated keys are equal exactly when their counter values are equal |
| Rows.Filter | src/pages/Publication/URITableForm.js:78 | `filter` keeps only accepted elements, keeps every accepted one, and never grows the list |
| Rows.FilterCounts | src/pages/Publication/URITableForm.js:78 | `filter` keeps each accepted element exactly as often as the input has it and drops every other |
| Rows.FilterConcat | src/pages/Publication/URITableForm.js:78 | `filter` of a concatenation is the concatenation of the filters, so the kept elements stay in input order |
| Rows.FilterKeepsAll | src/pages/Publication/URITableForm.js:78 | a filter that accepts every element returns its input |
| Rows.GetIndexByKey | src/pages/Publication/URITableForm.js:41-44 | the index of the first row with the key, or -1 exactly when no row has it |
| Rows.KeyFilterStartsAtFirstMatch | src/pages/Publication/URITableForm.js:38 | the rows filtered by key are empty exactly when no row has the key, and otherwise start with the row at the first index holding it |
| Rows.GetRowByKey | src/pages/Publication/URITableForm.js:36-39 | a row is found exactly when some row has the key, and it is the row at the index `getIndexByKey` returns (the first match) |
| Rows.RemoveKey | src/pages/Publication/URITableForm.js:78 | the kept rows have no row with the key, and every row with another key survives as often as before |
| Rows.RemoveKeyConcat | src/pages/Publication/URITableForm.js:78 | removal distributes over concatenation: surviving rows keep their original order |
| Rows.RemoveKeySingle | src/pages/Publication/URITableForm.js:78 | one row is dropped exactly when its key is the removed key |
| Rows.RemoveAbsentKey | src/pages/Publication/URITableForm.js:78 | removing a key no row has returns the list unchanged |
| Rows.SetField | src/pages/Publication/URITableForm.js:94-95 | `uri` takes the input's text, `canonical` the checkbox's state; every other field is unchanged |
| Rows.Restore | src/pages/Publication/URITableForm.js:137-138 | a cancelled row takes the snapshot's key, URI and canonical flag, leaves edit mode, and keeps `isNew` if either had it |
| UriTable.Init | src/pages/Publication/URITableForm.js:14-25 | the list is the initial value as given, the counter is 0 regardless of the list's length, no snapshots, both flags lowered |
| UriTable.ReceiveProps | src/pages/Publication/URITableForm.js:27-34 | a `value` prop replaces the list and re-seeds the counter with its length (0 if absent); props without `value` change nothing; cache and flags untouched |
| UriTable.ToggleEditable | src/pages/Publication/URITableForm.js:46-59 | only the first row with the key changes, only in `editable`, which flips; its pre-toggle copy is cached only when entering edit mode; absent key is a no-op; a missing list throws |
| UriTable.NewUri | src/pages/Publication/URITableForm.js:61-73 | exactly one row is appended — key from the counter, empty URI, not canonical, editable, new — earlier rows unchanged, counter up by one |
| UriTable.Remove | src/pages/Publication/URITableForm.js:75-81 | the new list is the key filter of the old one (no row with the key, every other row kept, in the original order); `onChange` receives that same list; cache and counter unchanged |
| UriTable.HandleFieldChange | src/pages/Publication/URITableForm.js:89-98 | only the named field of the first row with the key changes, whether or not it is being edited; absent key is a no-op |
| UriTable.SaveStart | src/pages/Publication/URITableForm.js:100-104 | starting a save raises `loading` and changes nothing else |
| UriTable.HandleKeyPress | src/pages/Publication/URITableForm.js:83-87 | Enter starts a save; any other key does nothing |
| UriTable.SaveFire | src/pages/Publication/URITableForm.js:105-127 | a raised `clickedCancel` is consumed with `loading` left set; a missing row or empty URI reports and only clears `loading`; otherwise the row's `editable` flips, `isNew` is kept, the cache is unchanged for a row in edit mode and gains its snapshot for one that was not, `onChange` is called once, `loading` cleared |
| UriTable.Cancel | src/pages/Publication/URITableForm.js:130-143 | with a snapshot, the first row with the key gets the snapshot's fields, leaves edit mode and the snapshot is dropped; without one the rows are unchanged; `clickedCancel` is lowered on return, and stays raised only when the handler throws (list missing, or a snapshot whose row is gone) |
| UriTableRuns.ReceivePropsIdempotent | src/pages/Publication/URITableForm.js:27-34 | delivering the same props twice equals delivering them once |
| UriTableRuns.ReceivePropsForgetsList | src/pages/Publication/URITableForm.js:27-34 | after a `value` prop, the state no longer depends on the previous list or counter |
| UriTableRuns.ToggleTwiceRestoresRows | src/pages/Publication/URITableForm.js:46-59 | toggling the same key twice gives back the original list, whatever the state |
| UriTableRuns.ChangesTouchOneRow | src/pages/Publication/URITableForm.js:89-98 | any series of field changes keeps the row's position, key, `editable` and `isNew`, every other row, the cache and the flags |
| UriTableRuns.EnterEditSnapshots | src/pages/Publication/URITableForm.js:52-57 | entering edit mode caches the row exactly as it was and only sets its `editable` flag |
| UriTableRuns.CancelPutsBack | src/pages/Publication/URITableForm.js:136-141 | cancel with a matching snapshot puts the snapshot back at the row's position and drops it from the cache |
| UriTableRuns.EditChangeCancelRestores | src/pages/Publication/URITableForm.js:130-143 | edit, any field changes, then cancel: the list is exactly as before the edit and the snapshot is gone |
| UriTableRuns.StepIndex | src/pages/Publication/URITableForm.js:71 | apart from prop changes, only a successful add moves the counter, by one |
| UriTableRuns.AddedIndexesIncrease | src/pages/Publication/URITableForm.js:61-73 | without prop changes, adds use strictly increasing counter values, all below the final counter, which moved by the number of adds |
| UriTableRuns.AddedKeysDistinct | src/pages/Publication/URITableForm.js:65 | without prop changes in between, the keys handed out by adds are pairwise distinct |
| UriTableRuns.AddThenDeleteRestores | src/pages/Publication/URITableForm.js:61-81 | deleting a just-added row whose key was new gives back the earlier list, and `onChange` receives it |
| UriTableRuns.ConstructedCounterRepeatsKey | src/pages/Publication/URITableForm.js:14 | the counter starting at 0 lets the first add repeat the key `URI_ID_0` already in the initial list |
| UriTableRuns.CancelFlagStep | src/pages/Publication/URITableForm.js:131-142 | from a lowered flag, only a throwing cancel leaves `clickedCancel` raised |
| UriTableRuns.CancelFlagStaysClear | src/pages/Publication/URITableForm.js:131-142 | along any run without a throwing cancel, `clickedCancel` stays lowered |
| UriTableRuns.SaveGuardNeedsThrowingCancel | src/pages/Publication/URITableForm.js:106-109 | after such a run from the constructor the timer never takes its early return |
| UriTableRuns.ThrowingCancelSwallowsSave | src/pages/Publication/URITableForm.js:106-109 | edit, delete, then cancel throws with the flag raised; the next timer returns early and leaves `loading` set |
| UriTableRuns.AddValidateSaveSession | src/pages/Publication/URITableForm.js:100-128 | an added row saved empty is rejected with no change; once given a URI it is saved, leaves edit mode, keeps `isNew`, and `onChange` receives both rows |
| RowActions.Controls | src/pages/Publication/URITableForm.js:188-245 | rows in edit mode show nothing while loading, else Save with Delete (new) or Cancel (not new); other rows always show Edit and Delete |

## Left out

- Rendering: the table, inputs, checkbox, confirmation popup, divider,
  styling and the "Add URI" button are not modelled; the confirmation is
  taken as given before `remove`. Only the choice of action links is
  modelled (`RowActions.Controls`); the read-only cell texts are not.
- `message.error`, `e.target.focus()`, `e.persist()` and
  `e.preventDefault()` act on foreign UI objects: they are no-ops, and the
  validation message plus refocus is the single effect `Reported`.
- The 500 ms `setTimeout` is two explicit steps (`SaveStart`, `SaveFire`);
  time and interleavings of several pending timers are not modelled beyond
  the order in which a caller applies the steps.
- Whether `delete target.isNew` also mutates the host's own list object
  (when the stored list is still the prop array) is not modelled: rows are
  values.
- The `onChange` prop is assumed present. Without it, `remove` would throw
  after its `setState`, and the save timer would throw after toggling the
  row, leaving `loading` set; neither error path is modelled.
- KeyText.GeneratedKey: renders every counter as plain decimal digits;
  JavaScript writes numbers from 10^21 on in exponent form, a range the
  counter does not reach in practice.
- UriTable.NewUri: the counter is unbounded; JavaScript's is a double and
  stops moving at 2^53, after which `AddedKeysDistinct` would no longer
  hold. No session reaches that many additions.
- Cache lookups by a key that names an `Object.prototype` property (such
  as `toString`) are not modelled: the cache is a plain map.
- Rows carry only `key`, `uri`, `canonical`, `editable` and `isNew`; extra
  properties a host row may carry, a missing `key`, and non-string URIs
  are not modelled. `handleFieldChange` is modelled for the two field
  names the component passes (`uri`, `canonical`).
- React's re-render and prop-change detection beyond "a `value` prop
  replaces the list" are not modelled.
