/**
 * The state machine inside the URI table component: its list of rows, the
 * key counter, the snapshot cache of rows being edited, the table-wide
 * `loading` flag and the `clickedCancel` flag, and one function per event
 * handler. Each handler returns the next state and the one effect it has on
 * the outside world: a call of the host's `onChange`, the validation
 * message, or a JavaScript exception escaping the handler.
 */
module UriTable {

  import opened Wrappers
  import opened KeyText
  import opened Rows

  /**
   * `data` is `None` when the host passed no list (`value` null or
   * undefined); the component stores that as it is.
   */
  datatype State = State(
    data: Option<seq<Row>>,
    index: nat,
    cache: map<string, Row>,
    loading: bool,
    clickedCancel: bool)

  /** The props a re-render brings: with or without a `value` property. */
  datatype NextProps = WithoutValue | WithValue(value: Option<seq<Row>>)

  /**
   * Quiet: nothing leaves the component. Notified: `onChange` was called
   * once with `rows`. Reported: the "Please complete the URIs section"
   * message was shown and the input refocused. Threw: a TypeError escaped
   * the handler, after the state changes made before it.
   */
  datatype Effect = Quiet | Notified(rows: seq<Row>) | Reported | Threw

  datatype Step = Step(next: State, effect: Effect)

  /**
   * Whether `this.state` reflects a `setState` made earlier in the same
   * timer callback (legacy React, where updates outside event handlers
   * apply at once) or only after the callback returns (batched updates).
   */
  datatype SetStateTiming = Synchronous | Batched

  /** The row `newURI` appends while the counter is `n`. */
  function FreshRow(n: nat): Row {
    Row(GeneratedKey(n), "", false, true, true)
  }

  /** Exactly the first row with `key` differs between `a` and `b`, and `b` holds `row` there. */
  predicate ReplacesFirst(a: seq<Row>, b: seq<Row>, key: string, row: Row) {
    var i := GetIndexByKey(a, key);
    && 0 <= i
    && |b| == |a|
    && b[i] == row
    && (forall j :: 0 <= j < |a| && j != i ==> b[j] == a[j])
  }

  /** The constructor: `data` is the initial `value` as given, and the counter starts at 0. */
  function Init(value: Option<seq<Row>>): (s: State)
    ensures s.data == value
    ensures s.index == 0 && s.cache == map[]
    ensures !s.loading && !s.clickedCancel
  {
    State(value, 0, map[], false, false)
  }

  /**
   * `componentWillReceiveProps`: a `value` prop replaces the list wholesale
   * and re-seeds the counter with its length (0 when it is null or
   * undefined); props without `value` change nothing.
   */
  function ReceiveProps(s: State, props: NextProps): (r: State)
    ensures props.WithoutValue? ==> r == s
    ensures props.WithValue? ==> r.data == props.value
    ensures props.WithValue? ==> r.index == (if props.value.Some? then |props.value.value| else 0)
    ensures r.cache == s.cache && r.loading == s.loading && r.clickedCancel == s.clickedCancel
  {
    match props
    case WithoutValue => s
    case WithValue(v) => s.(data := v, index := if v.Some? then |v.value| else 0)
  }

  /**
   * `toggleEditable`: flips `editable` on the first row with `key` and,
   * when that row was not in edit mode, first stores a copy of it in the
   * cache under `key`. An absent key changes nothing.
   */
  function ToggleEditable(s: State, key: string): (r: Step)
    ensures s.data.None? ==> r == Step(s, Threw)
    ensures s.data.Some? ==> r.effect == Quiet
    ensures s.data.Some? && !HasKey(s.data.value, key) ==> r.next == s
    ensures s.data.Some? && HasKey(s.data.value, key) ==>
      var before := s.data.value[GetIndexByKey(s.data.value, key)];
      && r.next.data.Some?
      && ReplacesFirst(s.data.value, r.next.data.value, key, before.(editable := !before.editable))
      && r.next.cache == (if before.editable then s.cache else s.cache[key := before])
      && r.next.(data := s.data, cache := s.cache) == s
  {
    match s.data
    case None => Step(s, Threw)
    case Some(rows) =>
      var target := GetRowByKey(rows, key);
      var i := GetIndexByKey(rows, key);
      if target.None? then Step(s, Quiet)
      else
        var cache := if !target.value.editable then s.cache[key := target.value] else s.cache;
        var toggled := rows[i := target.value.(editable := !target.value.editable)];
        Step(s.(data := Some(toggled), cache := cache), Quiet)
  }

  /**
   * `newURI`: appends an editable, new, empty row keyed from the counter
   * and advances the counter by one.
   */
  function NewUri(s: State): (r: Step)
    ensures s.data.None? ==> r == Step(s, Threw)
    ensures s.data.Some? ==>
      var rows := s.data.value;
      && r.effect == Quiet
      && r.next.data.Some?
      && |r.next.data.value| == |rows| + 1
      && r.next.data.value[..|rows|] == rows
      && r.next.data.value[|rows|] == Row(GeneratedKey(s.index), "", false, true, true)
      && r.next.index == s.index + 1
      && r.next.(data := s.data, index := s.index) == s
  {
    match s.data
    case None => Step(s, Threw)
    case Some(rows) => Step(s.(data := Some(rows + [FreshRow(s.index)]), index := s.index + 1), Quiet)
  }

  /**
   * `remove`: keeps the rows whose key differs from `key` and hands that
   * same list to `onChange`. The cache is left as it is.
   */
  function Remove(s: State, key: string): (r: Step)
    ensures s.data.None? ==> r == Step(s, Threw)
    ensures s.data.Some? ==>
      && r.next.data == Some(RemoveKey(s.data.value, key))
      && r.effect == Notified(r.next.data.value)
      && !HasKey(r.next.data.value, key)
      && (forall x: Row :: x.key != key ==> multiset(r.next.data.value)[x] == multiset(s.data.value)[x])
      && r.next.(data := s.data) == s
  {
    match s.data
    case None => Step(s, Threw)
    case Some(rows) =>
      var kept := RemoveKey(rows, key);
      Step(s.(data := Some(kept)), Notified(kept))
  }

  /**
   * `handleFieldChange`: sets one field of the first row with `key`,
   * whether or not that row is in edit mode. An absent key changes nothing.
   */
  function HandleFieldChange(s: State, field: Field, e: ChangeEvent, key: string): (r: Step)
    ensures s.data.None? ==> r == Step(s, Threw)
    ensures s.data.Some? ==> r.effect == Quiet && r.next.(data := s.data) == s
    ensures s.data.Some? ==> r.next.data.Some? && |r.next.data.value| == |s.data.value|
    ensures s.data.Some? && !HasKey(s.data.value, key) ==> r.next == s
    ensures s.data.Some? && HasKey(s.data.value, key) ==>
      var before := s.data.value[GetIndexByKey(s.data.value, key)];
      var after := r.next.data.value[GetIndexByKey(s.data.value, key)];
      && ReplacesFirst(s.data.value, r.next.data.value, key, after)
      && after.key == before.key && after.editable == before.editable && after.isNew == before.isNew
      && (if field == UriField then after.uri == e.value && after.canonical == before.canonical
          else after.canonical == e.checked && after.uri == before.uri)
  {
    match s.data
    case None => Step(s, Threw)
    case Some(rows) =>
      var target := GetRowByKey(rows, key);
      var i := GetIndexByKey(rows, key);
      if target.None? then Step(s, Quiet)
      else Step(s.(data := Some(rows[i := SetField(target.value, field, e)])), Quiet)
  }

  /** The synchronous part of `saveRow`: the table enters `loading` and the timer is armed. */
  function SaveStart(s: State): (r: Step)
    ensures r.effect == Quiet
    ensures r.next.loading
    ensures r.next.(loading := s.loading) == s
  {
    Step(s.(loading := true), Quiet)
  }

  /** `handleKeyPress`: Enter in the URI input starts a save; any other key does nothing. */
  function HandleKeyPress(s: State, pressed: string): (r: Step)
    ensures pressed == "Enter" ==> r == SaveStart(s)
    ensures pressed != "Enter" ==> r == Step(s, Quiet)
  {
    if pressed == "Enter" then SaveStart(s) else Step(s, Quiet)
  }

  /**
   * The `saveRow` timer callback for `key`. A pending cancel swallows it,
   * clearing only `clickedCancel` (`loading` stays set). A missing row or an
   * empty URI reports the validation error and clears `loading`. Otherwise
   * the row's `editable` flag is toggled (through `toggleEditable`, so a row
   * that was not in edit mode is snapshotted and enters it), `onChange` is
   * called once and `loading` is cleared. `delete target.isNew` acts on the
   * row object of the list from before the toggle, which is no longer the
   * component's list: the stored rows keep `isNew`, and only the list
   * `onChange` receives under batched updates (that older list) lacks it.
   */
  function SaveFire(s: State, key: string, timing: SetStateTiming): (r: Step)
    ensures s.clickedCancel ==> r == Step(s.(clickedCancel := false), Quiet)
    ensures !s.clickedCancel && s.data.None? ==> r == Step(s, Threw)
    ensures !s.clickedCancel && s.data.Some? && (!HasKey(s.data.value, key) || s.data.value[GetIndexByKey(s.data.value, key)].uri == "") ==>
      r == Step(s.(loading := false), Reported)
    ensures !s.clickedCancel && s.data.Some? && HasKey(s.data.value, key) && s.data.value[GetIndexByKey(s.data.value, key)].uri != "" ==>
      var rows := s.data.value;
      var i := GetIndexByKey(rows, key);
      && r.next.data.Some?
      && ReplacesFirst(rows, r.next.data.value, key, rows[i].(editable := !rows[i].editable))
      && r.next.data.value[i].isNew == rows[i].isNew
      && !r.next.loading
      && r.next.cache == (if rows[i].editable then s.cache else s.cache[key := rows[i]])
      && r.next.(data := s.data, cache := s.cache, loading := s.loading) == s
      && r.effect.Notified?
      && r.effect.rows == (if timing == Synchronous then r.next.data.value else rows[i := rows[i].(isNew := false)])
  {
    if s.clickedCancel then Step(s.(clickedCancel := false), Quiet)
    else
      match s.data
      case None => Step(s, Threw)
      case Some(rows) =>
        var target := GetRowByKey(rows, key);
        if target.None? || target.value.uri == "" then Step(s.(loading := false), Reported)
        else
          var toggled := ToggleEditable(s, key).next;
          var i := GetIndexByKey(rows, key);
          var sent := if timing == Synchronous then toggled.data.value else rows[i := target.value.(isNew := false)];
          Step(toggled.(loading := false), Notified(sent))
  }

  /**
   * `cancel`: raises `clickedCancel`, restores the first row with `key`
   * from its snapshot (forcing `editable` off) and drops the snapshot, then
   * lowers `clickedCancel`. Without a snapshot the rows are unchanged. With
   * a snapshot but no such row, `Object.assign(undefined, ...)` throws and
   * `clickedCancel` is left raised.
   */
  function Cancel(s: State, key: string): (r: Step)
    ensures s.data.None? ==> r == Step(s.(clickedCancel := true), Threw)
    ensures s.data.Some? && key in s.cache && !HasKey(s.data.value, key) ==>
      r == Step(s.(clickedCancel := true), Threw)
    ensures s.data.Some? && key !in s.cache ==> r == Step(s.(clickedCancel := false), Quiet)
    ensures s.data.Some? && key in s.cache && HasKey(s.data.value, key) ==>
      var rows := s.data.value;
      var i := GetIndexByKey(rows, key);
      var snap := s.cache[key];
      && r.effect == Quiet
      && r.next.data.Some?
      && |r.next.data.value| == |rows|
      && ReplacesFirst(rows, r.next.data.value, key, r.next.data.value[i])
      && r.next.data.value[i].key == snap.key
      && r.next.data.value[i].uri == snap.uri
      && r.next.data.value[i].canonical == snap.canonical
      && !r.next.data.value[i].editable
      && r.next.data.value[i].isNew == (snap.isNew || rows[i].isNew)
      && r.next.cache == s.cache - {key}
      && !r.next.clickedCancel
      && r.next.(data := s.data, cache := s.cache, clickedCancel := s.clickedCancel) == s
  {
    var armed := s.(clickedCancel := true);
    match s.data
    case None => Step(armed, Threw)
    case Some(rows) =>
      var target := GetRowByKey(rows, key);
      var i := GetIndexByKey(rows, key);
      if key in s.cache then
        if target.None? then Step(armed, Threw)
        else
          var restored := Restore(target.value, s.cache[key]);
          Step(s.(data := Some(rows[i := restored]), cache := s.cache - {key}, clickedCancel := false), Quiet)
      else Step(s.(clickedCancel := false), Quiet)
  }

}
