/**
 * The action links the table renders in a row's last column, as a function
 * of the row's `editable` and `isNew` flags and the table-wide `loading`
 * flag.
 */
module RowActions {

  datatype Control = SaveLink | CancelLink | DeleteLink | EditLink

  /**
   * Controls shown for one row, left to right. Only rows in edit mode lose
   * their controls while the table is loading; a row that has never been
   * saved offers Delete instead of Cancel.
   */
  function Controls(editable: bool, isNew: bool, loading: bool): (r: seq<Control>)
    ensures r == [] <==> editable && loading
    ensures SaveLink in r <==> editable && !loading
    ensures CancelLink in r <==> editable && !isNew && !loading
    ensures EditLink in r <==> !editable
    ensures DeleteLink in r <==> !editable || (isNew && !loading)
    ensures |r| == 0 || |r| == 2
    ensures editable && !loading ==> r[0] == SaveLink
    ensures !editable ==> r == [EditLink, DeleteLink]
  {
    if editable && loading then []
    else if editable then (if isNew then [SaveLink, DeleteLink] else [SaveLink, CancelLink])
    else [EditLink, DeleteLink]
  }

}
