/** The list rows of the interactive view (tui/parameter.go): one item per
    listed parameter, wrapping it, with the title, filter value, description
    and value the list widget reads. */
module TuiItems {
  import opened Results
  import opened Remote
  import Service
  import Titles

  datatype ParameterItem = ParameterItem(param: Service.Parameter)

  /** The row title: the key, behind the lock marker for a SecureString. */
  function Title(item: ParameterItem): (t: string)
    ensures item.param.ptype == Remote.SecureString ==> t == Titles.LockMarker + item.param.key
    ensures item.param.ptype != Remote.SecureString ==> t == item.param.key
  {
    Titles.MarkedTitle(item.param.key, item.param.ptype)
  }

  function Description(item: ParameterItem): string
  {
    item.param.description
  }

  function FilterValue(item: ParameterItem): string
  {
    item.param.key
  }

  function Value(item: ParameterItem): string
  {
    item.param.value
  }

  /** Filtering matches on the key; the row shows the parameter's own
      description and hands out its already-fetched value unchanged. */
  lemma ItemAccessors(p: Service.Parameter)
    ensures FilterValue(ParameterItem(p)) == p.key
    ensures Description(ParameterItem(p)) == p.description
    ensures Value(ParameterItem(p)) == p.value
    ensures Titles.TitleKey(Title(ParameterItem(p)), p.ptype) == Some(p.key)
  {
  }

  /** Turns the service's list result into rows. A list error ends the
      process with a fatal log; the model returns that error as the failure. */
  method ListParameters(listed: Returns<seq<Service.Parameter>, RemoteError>)
    returns (r: Result<seq<ParameterItem>, RemoteError>)
    ensures listed.err.Some? ==> r == Failure(listed.err.value)
    ensures listed.err.None? ==>
              && r.Success?
              && |r.value| == |listed.value|
              && forall i :: 0 <= i < |listed.value| ==> r.value[i].param == listed.value[i]
  {
    if listed.err.Some? {
      return Failure(listed.err.value);
    }
    var items: seq<ParameterItem> := [];
    var i := 0;
    while i < |listed.value|
      invariant 0 <= i <= |listed.value|
      invariant |items| == i
      invariant forall j :: 0 <= j < i ==> items[j].param == listed.value[j]
    {
      items := items + [ParameterItem(listed.value[i])];
      i := i + 1;
    }
    return Success(items);
  }
}
