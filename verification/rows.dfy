/**
 * The rows of the URI table and the list helpers the component uses on
 * them: `getRowByKey`, `getIndexByKey`, the key filter of `remove`, the
 * one-field update of `handleFieldChange` and the snapshot restore of
 * `cancel`.
 */
module Rows {

  import opened Wrappers

  /**
   * One URI record. `editable` and `isNew` are view state that lives in
   * the same object; `isNew == false` stands for the property being absent,
   * which is the only other state the component ever leaves it in.
   */
  datatype Row = Row(key: string, uri: string, canonical: bool, editable: bool, isNew: bool)

  /** The field a change event targets: the URI text input or the canonical checkbox. */
  datatype Field = UriField | CanonicalField

  /** The parts of an input's change event the component reads: `target.value` and `target.checked`. */
  datatype ChangeEvent = ChangeEvent(value: string, checked: bool)

  /** `Array.prototype.filter`: the elements `keep` accepts, in order. */
  function Filter<T(==, !new)>(s: seq<T>, keep: T -> bool): (r: seq<T>)
    ensures |r| <= |s|
    ensures forall i :: 0 <= i < |r| ==> keep(r[i])
    ensures forall i :: 0 <= i < |s| && keep(s[i]) ==> s[i] in r
  {
    if |s| == 0 then []
    else
      assert s == [s[0]] + s[1..];
      (if keep(s[0]) then [s[0]] else []) + Filter(s[1..], keep)
  }

  /** A filter keeps every accepted element as often as the input holds it, and no other. */
  lemma {:induction false} FilterCounts<T(!new)>(s: seq<T>, keep: T -> bool)
    ensures forall x :: multiset(Filter(s, keep))[x] == if keep(x) then multiset(s)[x] else 0
    decreases |s|
  {
    if |s| > 0 {
      assert s == [s[0]] + s[1..];
      FilterCounts(s[1..], keep);
    }
  }

  /** Filtering a concatenation filters each part: the order of the kept elements is the input's. */
  lemma {:induction false} FilterConcat<T(!new)>(a: seq<T>, b: seq<T>, keep: T -> bool)
    ensures Filter(a + b, keep) == Filter(a, keep) + Filter(b, keep)
    decreases |a|
  {
    if |a| > 0 {
      var head := if keep(a[0]) then [a[0]] else [];
      calc {
        Filter(a + b, keep);
        head + Filter((a + b)[1..], keep);
        { assert (a + b)[1..] == a[1..] + b; }
        head + Filter(a[1..] + b, keep);
        { FilterConcat(a[1..], b, keep); }
        head + (Filter(a[1..], keep) + Filter(b, keep));
        (head + Filter(a[1..], keep)) + Filter(b, keep);
        Filter(a, keep) + Filter(b, keep);
      }
    } else {
      assert a + b == b;
    }
  }

  /** A filter that rejects nothing returns its input. */
  lemma {:induction false} FilterKeepsAll<T(!new)>(s: seq<T>, keep: T -> bool)
    requires forall i :: 0 <= i < |s| ==> keep(s[i])
    ensures Filter(s, keep) == s
    decreases |s|
  {
    if |s| > 0 {
      FilterKeepsAll(s[1..], keep);
    }
  }

  function KeyIs(key: string): Row -> bool {
    (r: Row) => r.key == key
  }

  function KeyIsNot(key: string): Row -> bool {
    (r: Row) => r.key != key
  }

  predicate HasKey(rows: seq<Row>, key: string) {
    exists i :: 0 <= i < |rows| && rows[i].key == key
  }

  /**
   * `getIndexByKey`: the position of the first row with `key`, or -1.
   * The source finds the first matching object with `filter(...)[0]` and
   * then looks that object up with `indexOf`; as every row is a distinct
   * object, that is the first position holding `key`.
   */
  function GetIndexByKey(rows: seq<Row>, key: string): (i: int)
    ensures -1 <= i < |rows|
    ensures i == -1 <==> !HasKey(rows, key)
    ensures 0 <= i ==> rows[i].key == key
    ensures 0 <= i ==> forall j :: 0 <= j < i ==> rows[j].key != key
  {
    if |rows| == 0 then -1
    else if rows[0].key == key then 0
    else
      var k := GetIndexByKey(rows[1..], key);
      assert forall j :: 1 <= j < |rows| ==> rows[j] == rows[1..][j - 1];
      if k == -1 then -1 else k + 1
  }

  /**
   * The rows filtered by key start with the row at the first index
   * holding the key, and are empty exactly when no row holds it.
   */
  lemma {:induction false} KeyFilterStartsAtFirstMatch(rows: seq<Row>, key: string)
    ensures var matches := Filter(rows, KeyIs(key));
      var i := GetIndexByKey(rows, key);
      && (|matches| == 0 <==> i < 0)
      && (0 <= i ==> matches[0] == rows[i])
    decreases |rows|
  {
    if |rows| > 0 {
      assert rows == [rows[0]] + rows[1..];
      FilterConcat([rows[0]], rows[1..], KeyIs(key));
      if rows[0].key != key {
        KeyFilterStartsAtFirstMatch(rows[1..], key);
      }
    }
  }

  /**
   * `getRowByKey`: the first element of the rows filtered by key, if any.
   * It finds a row exactly when some row holds the key, and then the row at
   * the index `getIndexByKey` returns.
   */
  function GetRowByKey(rows: seq<Row>, key: string): (r: Option<Row>)
    ensures r.Some? <==> HasKey(rows, key)
    ensures r.Some? ==> r.value == rows[GetIndexByKey(rows, key)]
  {
    var matches := Filter(rows, KeyIs(key));
    KeyFilterStartsAtFirstMatch(rows, key);
    if |matches| == 0 then None else Some(matches[0])
  }

  /** The list `remove` builds: the rows whose key differs from `key`. */
  function RemoveKey(rows: seq<Row>, key: string): (r: seq<Row>)
    ensures !HasKey(r, key)
    ensures forall x: Row :: x.key != key ==> multiset(r)[x] == multiset(rows)[x]
    ensures |r| <= |rows|
  {
    var r := Filter(rows, KeyIsNot(key));
    FilterCounts(rows, KeyIsNot(key));
    assert forall i :: 0 <= i < |r| ==> KeyIsNot(key)(r[i]);
    r
  }

  /** Removal keeps the order of the surviving rows: it distributes over concatenation. */
  lemma RemoveKeyConcat(a: seq<Row>, b: seq<Row>, key: string)
    ensures RemoveKey(a + b, key) == RemoveKey(a, key) + RemoveKey(b, key)
  {
    FilterConcat(a, b, KeyIsNot(key));
  }

  /** On one row, removal keeps it exactly when its key differs. */
  lemma RemoveKeySingle(x: Row, key: string)
    ensures RemoveKey([x], key) == if x.key == key then [] else [x]
  {
    assert [x][1..] == [];
  }

  /** Removing a key no row has changes nothing. */
  lemma RemoveAbsentKey(rows: seq<Row>, key: string)
    requires !HasKey(rows, key)
    ensures RemoveKey(rows, key) == rows
  {
    FilterKeepsAll(rows, KeyIsNot(key));
  }

  /** `target[fieldName] = ...`: the checkbox's `checked` for `canonical`, the input's `value` otherwise. */
  function SetField(row: Row, field: Field, e: ChangeEvent): (r: Row)
    ensures r.key == row.key && r.editable == row.editable && r.isNew == row.isNew
    ensures field == UriField ==> r.uri == e.value && r.canonical == row.canonical
    ensures field == CanonicalField ==> r.canonical == e.checked && r.uri == row.uri
  {
    match field
    case UriField => row.(uri := e.value)
    case CanonicalField => row.(canonical := e.checked)
  }

  /**
   * `Object.assign(target, snapshot)` followed by `target.editable = false`:
   * every property of the snapshot overwrites the target's; an `isNew` the
   * snapshot does not have stays as the target has it.
   */
  function Restore(target: Row, snapshot: Row): (r: Row)
    ensures r.key == snapshot.key && r.uri == snapshot.uri && r.canonical == snapshot.canonical
    ensures !r.editable
    ensures r.isNew <==> snapshot.isNew || target.isNew
  {
    snapshot.(editable := false, isNew := snapshot.isNew || target.isNew)
  }

}
