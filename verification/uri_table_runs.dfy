/**
 * Properties of the URI table over sequences of events: what an edit
 * followed by cancel leaves behind, which keys "Add URI" hands out, and
 * when the `clickedCancel` guard of the save timer can fire.
 */
module UriTableRuns {

  import opened Wrappers
  import opened KeyText
  import opened Rows
  import opened UriTable

  /** One event the component handles: a prop change, a click, a keystroke or the save timer. */
  datatype Action =
    | Resync(props: NextProps)
    | Edit(key: string)
    | Add
    | Delete(key: string)
    | Change(field: Field, event: ChangeEvent, key: string)
    | SaveClick
    | KeyPress(pressed: string)
    | SaveTimer(key: string, timing: SetStateTiming)
    | CancelClick(key: string)

  function Apply(s: State, a: Action): Step {
    match a
    case Resync(p) => Step(ReceiveProps(s, p), Quiet)
    case Edit(k) => ToggleEditable(s, k)
    case Add => NewUri(s)
    case Delete(k) => Remove(s, k)
    case Change(f, e, k) => HandleFieldChange(s, f, e, k)
    case SaveClick => SaveStart(s)
    case KeyPress(p) => HandleKeyPress(s, p)
    case SaveTimer(k, t) => SaveFire(s, k, t)
    case CancelClick(k) => Cancel(s, k)
  }

  function Run(s: State, acts: seq<Action>): State
    decreases |acts|
  {
    if |acts| == 0 then s else Run(Apply(s, acts[0]).next, acts[1..])
  }

  // ---------------------------------------------------------------------
  // Prop changes

  /** Re-delivering the same props changes nothing more. */
  lemma ReceivePropsIdempotent(s: State, p: NextProps)
    ensures ReceiveProps(ReceiveProps(s, p), p) == ReceiveProps(s, p)
  {
  }

  /** A `value` prop erases every trace of the previous list and counter. */
  lemma ReceivePropsForgetsList(s: State, t: State, v: Option<seq<Row>>)
    requires s.cache == t.cache && s.loading == t.loading && s.clickedCancel == t.clickedCancel
    ensures ReceiveProps(s, WithValue(v)) == ReceiveProps(t, WithValue(v))
  {
  }

  // ---------------------------------------------------------------------
  // Edit, change fields, cancel

  /** Applies a series of field changes to the row with `key`. */
  function ApplyChanges(s: State, key: string, changes: seq<(Field, ChangeEvent)>): State
    decreases |changes|
  {
    if |changes| == 0 then s
    else ApplyChanges(HandleFieldChange(s, changes[0].0, changes[0].1, key).next, key, changes[1..])
  }

  /** Toggling the same row twice restores the list (the cache keeps the snapshot). */
  lemma ToggleTwiceRestoresRows(s: State, key: string)
    ensures ToggleEditable(ToggleEditable(s, key).next, key).next.data == s.data
  {
    if s.data.None? {
      return;
    }
    var rows := s.data.value;
    if HasKey(rows, key) {
      var i := GetIndexByKey(rows, key);
      var once := ToggleEditable(s, key).next.data.value;
      assert once[i].key == key;
      assert forall j :: 0 <= j < i ==> once[j] == rows[j];
      assert GetIndexByKey(once, key) == i;
      var twice := ToggleEditable(ToggleEditable(s, key).next, key).next.data.value;
      assert twice == rows;
    }
  }

  /** Field changes on the first row with `key`, in edit mode or not, keep its key, `isNew`, every other row and the cache. */
  lemma {:induction false} ChangesTouchOneRow(s: State, key: string, changes: seq<(Field, ChangeEvent)>)
    requires s.data.Some? && HasKey(s.data.value, key)
    ensures var t := ApplyChanges(s, key, changes);
      && t.data.Some?
      && |t.data.value| == |s.data.value|
      && GetIndexByKey(t.data.value, key) == GetIndexByKey(s.data.value, key)
      && t.data.value[GetIndexByKey(s.data.value, key)].key == key
      && t.data.value[GetIndexByKey(s.data.value, key)].isNew == s.data.value[GetIndexByKey(s.data.value, key)].isNew
      && t.data.value[GetIndexByKey(s.data.value, key)].editable == s.data.value[GetIndexByKey(s.data.value, key)].editable
      && (forall j :: 0 <= j < |s.data.value| && j != GetIndexByKey(s.data.value, key) ==> t.data.value[j] == s.data.value[j])
      && t.(data := s.data) == s
    decreases |changes|
  {
    if |changes| > 0 {
      var rows := s.data.value;
      var i := GetIndexByKey(rows, key);
      var u := HandleFieldChange(s, changes[0].0, changes[0].1, key).next;
      assert forall j :: 0 <= j < i ==> u.data.value[j] == rows[j];
      assert GetIndexByKey(u.data.value, key) == i;
      ChangesTouchOneRow(u, key, changes[1..]);
    }
  }

  /** Entering edit mode keeps the row's position, marks it editable and snapshots it as it was. */
  lemma EnterEditSnapshots(s: State, key: string)
    requires s.data.Some? && HasKey(s.data.value, key)
    requires !s.data.value[GetIndexByKey(s.data.value, key)].editable
    ensures var rows := s.data.value;
      var i := GetIndexByKey(rows, key);
      var t := ToggleEditable(s, key).next;
      && t.data.Some?
      && GetIndexByKey(t.data.value, key) == i
      && t.data.value == rows[i := rows[i].(editable := true)]
      && t.cache == s.cache[key := rows[i]]
  {
    var rows := s.data.value;
    var i := GetIndexByKey(rows, key);
    var t := ToggleEditable(s, key).next;
    assert forall j :: 0 <= j < i ==> t.data.value[j] == rows[j];
    assert t.data.value == rows[i := rows[i].(editable := true)];
  }

  /** Cancel on a row whose snapshot is `orig`, with the key and `isNew` it had then, puts `orig` back. */
  lemma CancelPutsBack(e: State, key: string, orig: Row)
    requires e.data.Some? && HasKey(e.data.value, key)
    requires key in e.cache && e.cache[key] == orig && !orig.editable
    requires e.data.value[GetIndexByKey(e.data.value, key)].isNew == orig.isNew
    ensures var i := GetIndexByKey(e.data.value, key);
      var c := Cancel(e, key);
      && c.effect == Quiet
      && c.next.data == Some(e.data.value[i := orig])
      && c.next.cache == e.cache - {key}
      && !c.next.clickedCancel
  {
    var i := GetIndexByKey(e.data.value, key);
    var after := Cancel(e, key).next.data.value;
    assert after[i] == orig;
    assert after == e.data.value[i := orig];
  }

  /**
   * Edit a row that is not in edit mode, change its fields any number of
   * times, then cancel: the list is exactly as before the edit, and the
   * snapshot is gone from the cache.
   */
  lemma EditChangeCancelRestores(s: State, key: string, changes: seq<(Field, ChangeEvent)>)
    requires s.data.Some? && HasKey(s.data.value, key)
    requires !s.data.value[GetIndexByKey(s.data.value, key)].editable
    ensures var edited := ApplyChanges(ToggleEditable(s, key).next, key, changes);
      && Cancel(edited, key).effect == Quiet
      && Cancel(edited, key).next.data == s.data
      && Cancel(edited, key).next.cache == s.cache - {key}
      && !Cancel(edited, key).next.clickedCancel
  {
    var rows := s.data.value;
    var i := GetIndexByKey(rows, key);
    var t := ToggleEditable(s, key).next;
    EnterEditSnapshots(s, key);
    ChangesTouchOneRow(t, key, changes);
    var edited := ApplyChanges(t, key, changes);
    CancelPutsBack(edited, key, rows[i]);
    var back := edited.data.value[i := rows[i]];
    assert forall j :: 0 <= j < |rows| ==> back[j] == rows[j];
    assert back == rows;
    assert s.cache[key := rows[i]] - {key} == s.cache - {key};
  }

  // ---------------------------------------------------------------------
  // Keys handed out by "Add URI"

  predicate NoResync(acts: seq<Action>) {
    forall i :: 0 <= i < |acts| ==> !acts[i].Resync?
  }

  /** The counter values of the rows `Add` appended along a run, in order. */
  function AddedIndexes(s: State, acts: seq<Action>): seq<nat>
    decreases |acts|
  {
    if |acts| == 0 then []
    else
      var st := Apply(s, acts[0]);
      (if acts[0].Add? && st.effect != Threw then [s.index] else []) + AddedIndexes(st.next, acts[1..])
  }

  /** Outside prop changes, only a successful `Add` moves the counter, and by one. */
  lemma StepIndex(s: State, a: Action)
    requires !a.Resync?
    ensures Apply(s, a).next.index == s.index + (if a.Add? && Apply(s, a).effect != Threw then 1 else 0)
  {
  }

  /**
   * Without prop changes, the counter values used by `Add` increase
   * strictly and stay below the final counter, which has moved by exactly
   * the number of rows added.
   */
  lemma {:induction false} AddedIndexesIncrease(s: State, acts: seq<Action>)
    requires NoResync(acts)
    ensures forall i, j :: 0 <= i < j < |AddedIndexes(s, acts)| ==> AddedIndexes(s, acts)[i] < AddedIndexes(s, acts)[j]
    ensures forall i :: 0 <= i < |AddedIndexes(s, acts)| ==> s.index <= AddedIndexes(s, acts)[i] < Run(s, acts).index
    ensures Run(s, acts).index == s.index + |AddedIndexes(s, acts)|
    decreases |acts|
  {
    if |acts| > 0 {
      var st := Apply(s, acts[0]);
      StepIndex(s, acts[0]);
      assert NoResync(acts[1..]) by {
        forall i | 0 <= i < |acts[1..]| ensures !acts[1..][i].Resync? {
          assert acts[1..][i] == acts[i + 1];
        }
      }
      AddedIndexesIncrease(st.next, acts[1..]);
      var head: seq<nat> := if acts[0].Add? && st.effect != Threw then [s.index] else [];
      var rest := AddedIndexes(st.next, acts[1..]);
      assert AddedIndexes(s, acts) == head + rest;
      assert Run(s, acts) == Run(st.next, acts[1..]);
    }
  }

  /** Without prop changes in between, the keys "Add URI" hands out are pairwise distinct. */
  lemma AddedKeysDistinct(s: State, acts: seq<Action>)
    requires NoResync(acts)
    ensures forall i, j :: 0 <= i < j < |AddedIndexes(s, acts)| ==>
      GeneratedKey(AddedIndexes(s, acts)[i]) != GeneratedKey(AddedIndexes(s, acts)[j])
  {
    var ix := AddedIndexes(s, acts);
    AddedIndexesIncrease(s, acts);
    forall i, j | 0 <= i < j < |ix| ensures GeneratedKey(ix[i]) != GeneratedKey(ix[j]) {
      GeneratedKeyInjective(ix[i], ix[j]);
    }
  }

  /**
   * Deleting the row just added, when its key was not already in the list,
   * gives back the list from before the add; `onChange` receives it.
   */
  lemma AddThenDeleteRestores(s: State)
    requires s.data.Some? && !HasKey(s.data.value, GeneratedKey(s.index))
    ensures var d := Remove(NewUri(s).next, GeneratedKey(s.index));
      d.next.data == s.data && d.effect == Notified(s.data.value)
  {
    var rows := s.data.value;
    var k := GeneratedKey(s.index);
    assert NewUri(s).next.data.value == rows + [FreshRow(s.index)];
    RemoveKeyConcat(rows, [FreshRow(s.index)], k);
    RemoveKeySingle(FreshRow(s.index), k);
    RemoveAbsentKey(rows, k);
    assert RemoveKey(rows + [FreshRow(s.index)], k) == rows;
  }

  /**
   * The counter starts at 0 whatever the initial list holds, so the first
   * added row can repeat a key already in the list.
   */
  lemma ConstructedCounterRepeatsKey()
    ensures var s := Init(Some([Row("URI_ID_0", "http://a.com", true, false, false)]));
      var rows := NewUri(s).next.data.value;
      |rows| == 2 && rows[0].key == rows[1].key
  {
    assert GeneratedKey(0) == "URI_ID_0";
  }

  // ---------------------------------------------------------------------
  // The cancel guard of the save timer

  /** No `cancel` along the run ends in an exception. */
  predicate CancelNeverThrows(s: State, acts: seq<Action>)
    decreases |acts|
  {
    |acts| == 0 ||
    (var st := Apply(s, acts[0]);
     !(acts[0].CancelClick? && st.effect == Threw) && CancelNeverThrows(st.next, acts[1..]))
  }

  /** Only a `cancel` that throws can leave `clickedCancel` raised. */
  lemma CancelFlagStep(s: State, a: Action)
    requires !s.clickedCancel
    ensures Apply(s, a).next.clickedCancel ==> a.CancelClick? && Apply(s, a).effect == Threw
  {
  }

  /** Along a run where no `cancel` throws, `clickedCancel` stays lowered. */
  lemma {:induction false} CancelFlagStaysClear(s: State, acts: seq<Action>)
    requires !s.clickedCancel && CancelNeverThrows(s, acts)
    ensures !Run(s, acts).clickedCancel
    decreases |acts|
  {
    if |acts| > 0 {
      CancelFlagStep(s, acts[0]);
      CancelFlagStaysClear(Apply(s, acts[0]).next, acts[1..]);
    }
  }

  /**
   * Hence, after such a run from the constructor, the save timer never
   * takes its early return: it always throws, reports or notifies.
   */
  lemma SaveGuardNeedsThrowingCancel(v: Option<seq<Row>>, acts: seq<Action>, key: string, timing: SetStateTiming)
    requires CancelNeverThrows(Init(v), acts)
    ensures !Run(Init(v), acts).clickedCancel
    ensures SaveFire(Run(Init(v), acts), key, timing).effect != Quiet
  {
    CancelFlagStaysClear(Init(v), acts);
  }

  /**
   * A cancel whose row was deleted after its snapshot was taken throws
   * with the flag raised; the next save timer then returns early and
   * leaves the table in `loading`.
   */
  lemma ThrowingCancelSwallowsSave()
    ensures var row := Row("k", "http://a.com", false, false, false);
      var s := Run(Init(Some([row])), [Edit("k"), Delete("k"), CancelClick("k"), SaveClick]);
      && s.clickedCancel
      && SaveFire(s, "k", Synchronous) == Step(s.(clickedCancel := false), Quiet)
      && SaveFire(s, "k", Synchronous).next.loading
  {
  }

  // ---------------------------------------------------------------------
  // A whole session

  /**
   * Resync with one row, add a row, save it empty (rejected, nothing
   * changes), type a URI, save again (accepted). The saved row leaves edit
   * mode and `onChange` receives both rows; the stored row keeps `isNew`.
   */
  lemma AddValidateSaveSession()
    ensures
      var a := Row("URI_ID_0", "http://a.com", true, false, false);
      var s1 := NewUri(ReceiveProps(Init(None), WithValue(Some([a])))).next;
      var rejected := SaveFire(SaveStart(s1).next, "URI_ID_1", Synchronous);
      var typed := HandleFieldChange(rejected.next, UriField, ChangeEvent("http://b.com", false), "URI_ID_1").next;
      var accepted := SaveFire(SaveStart(typed).next, "URI_ID_1", Synchronous);
      && s1.data == Some([a, Row("URI_ID_1", "", false, true, true)])
      && rejected.effect == Reported
      && rejected.next.data == s1.data
      && !rejected.next.loading
      && accepted.effect == Notified([a, Row("URI_ID_1", "http://b.com", false, false, true)])
      && accepted.next.data == Some(accepted.effect.rows)
      && !accepted.next.loading
  {
    assert GeneratedKey(1) == "URI_ID_1";
    var a := Row("URI_ID_0", "http://a.com", true, false, false);
    var added := Row("URI_ID_1", "", false, true, true);
    var s0 := ReceiveProps(Init(None), WithValue(Some([a])));
    assert s0.index == 1;
    assert FreshRow(s0.index) == added;
    var s1 := NewUri(s0).next;
    assert s1.data.value == [a] + [added];
    assert [a] + [added] == [a, added];
    assert s1.data.Some?;
    assert s1.data == Some([a, added]);
    assert GetIndexByKey([a, added], "URI_ID_1") == 1;
    var rejected := SaveFire(SaveStart(s1).next, "URI_ID_1", Synchronous);
    assert rejected.next == s1.(loading := false);
    var typed := HandleFieldChange(rejected.next, UriField, ChangeEvent("http://b.com", false), "URI_ID_1").next;
    var filled := added.(uri := "http://b.com");
    assert typed.data.value == [a, added][1 := filled];
    assert [a, added][1 := filled] == [a, filled];
    assert typed.data.Some?;
    assert typed.data == Some([a, filled]);
    assert GetIndexByKey([a, filled], "URI_ID_1") == 1;
    var accepted := SaveFire(SaveStart(typed).next, "URI_ID_1", Synchronous);
    assert accepted.next.data.value == [a, filled][1 := filled.(editable := false)];
    assert [a, filled][1 := filled.(editable := false)] == [a, filled.(editable := false)];
    assert accepted.next.data.Some?;
    assert accepted.next.data == Some([a, filled.(editable := false)]);
  }

}
