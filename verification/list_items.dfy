/** The list view and single-key fetch of internal/parameter/parameter.go:
    rows are built straight from the describe-parameters metadata, without
    fetching values.
    The relative "last modified" text depends on the clock and on a duration
    formatter, so it enters the model as a given string. */
module ListItems {
  import opened Results
  import opened Remote
  import Titles
  import Service

  datatype Parameter = Parameter(description: string, name: string, title: string)

  function Title(p: Parameter): string
  {
    p.title
  }

  function Description(p: Parameter): string
  {
    p.description
  }

  function FilterValue(p: Parameter): string
  {
    p.name
  }

  /** Builds one row: the name from the metadata, the marked title, and the
      description followed by a space and the last-edited text, or the
      last-edited text alone when there is no description. */
  function New(meta: Metadata, lastEdited: string): (p: Parameter)
    ensures FilterValue(p) == meta.name
    ensures Title(p) == Titles.MarkedTitle(meta.name, meta.ptype)
    ensures |Description(p)| >= |lastEdited|
    ensures Description(p)[|Description(p)| - |lastEdited|..] == lastEdited
    ensures meta.description.Some? ==>
              |Description(p)| == |meta.description.value| + 1 + |lastEdited|
              && Description(p)[..|meta.description.value|] == meta.description.value
              && Description(p)[|meta.description.value|] == ' '
    ensures meta.description.None? ==> Description(p) == lastEdited
  {
    var description := if meta.description.Some? then meta.description.value + " " else "";
    Parameter(description + lastEdited, meta.name, Titles.MarkedTitle(meta.name, meta.ptype))
  }

  /** Recovers the metadata description from a row description, given the
      last-edited text it ends with. */
  function SplitDescription(d: string, lastEdited: string): Option<Option<string>>
  {
    if |d| < |lastEdited| || d[|d| - |lastEdited|..] != lastEdited then None
    else
      var head := d[..|d| - |lastEdited|];
      if |head| == 0 then Some(None)
      else if head[|head| - 1] == ' ' then Some(Some(head[..|head| - 1]))
      else None
  }

  /** Round trip: the row description determines the metadata description,
      including whether there was one at all. */
  lemma SplitDescriptionRoundTrip(meta: Metadata, lastEdited: string)
    ensures SplitDescription(Description(New(meta, lastEdited)), lastEdited) == Some(meta.description)
  {
  }

  /** `lastEdited` renders each entry's last-edited text. */
  ghost predicate Renders(items: seq<Parameter>, entries: seq<Metadata>, lastEdited: Metadata -> string)
  {
    && |items| == |entries|
    && forall i :: 0 <= i < |entries| ==> items[i] == New(entries[i], lastEdited(entries[i]))
  }

  lemma RendersAppend(items1: seq<Parameter>, entries1: seq<Metadata>,
                      items2: seq<Parameter>, entries2: seq<Metadata>, lastEdited: Metadata -> string)
    requires Renders(items1, entries1, lastEdited) && Renders(items2, entries2, lastEdited)
    ensures Renders(items1 + items2, entries1 + entries2, lastEdited)
  {
    var items, entries := items1 + items2, entries1 + entries2;
    forall i | 0 <= i < |entries| ensures items[i] == New(entries[i], lastEdited(entries[i])) {
      if i >= |entries1| {
        assert items[i] == items2[i - |items1|] && entries[i] == entries2[i - |entries1|];
      }
    }
  }

  /** The rows of one page, in entry order: the inner loop of the list. */
  method RenderPage(page: Page, lastEdited: Metadata -> string) returns (rows: seq<Parameter>)
    ensures Renders(rows, page, lastEdited)
  {
    rows := [];
    var j := 0;
    while j < |page|
      invariant 0 <= j <= |page|
      invariant Renders(rows, page[..j], lastEdited)
    {
      rows := rows + [New(page[j], lastEdited(page[j]))];
      j := j + 1;
    }
    assert page[..j] == page;
  }

  /** Walks the paginator and builds one row per metadata entry, in page
      order and within-page order. A page-fetch error ends the process with
      a fatal log; the model returns that error as the failure. */
  method List(pages: seq<PageResult>, lastEdited: Metadata -> string)
    returns (r: Result<seq<Parameter>, RemoteError>)
    ensures !AllFetched(pages) ==> r == Failure(pages[FirstFailure(pages)].error)
    ensures AllFetched(pages) ==> r.Success? && Renders(r.value, Entries(pages), lastEdited)
  {
    var parameters: seq<Parameter> := [];
    var i := 0;
    while i < |pages|
      invariant 0 <= i <= |pages|
      invariant AllFetched(pages[..i])
      invariant Renders(parameters, Entries(pages[..i]), lastEdited)
    {
      match pages[i] {
        case Failure(e) =>
          assert FirstFailure(pages) == i;
          return Failure(e);
        case Success(page) =>
          var rows := RenderPage(page, lastEdited);
          RendersAppend(parameters, Entries(pages[..i]), rows, page, lastEdited);
          parameters := parameters + rows;
          assert pages[..i + 1] == pages[..i] + [pages[i]];
          EntriesAppend(pages[..i], [pages[i]]);
          assert [pages[i]][1..] == [];
          assert Entries([pages[i]]) == page;
          i := i + 1;
      }
    }
    assert pages[..i] == pages;
    return Success(parameters);
  }

  /** The single-key fetch of this package, which the command line uses for
      a one-argument invocation: the decrypted value, or, on any remote
      error, a fatal log, which the model returns as the failure. There is
      no not-found translation here. */
  function Value(getParameter: GetParameterCall, name: string): (r: Result<string, RemoteError>)
    ensures r.Success? <==> getParameter(name).Success?
    ensures r.Success? ==> r.value == getParameter(name).value
    ensures r.Failure? ==> r.error == getParameter(name).error
  {
    getParameter(name)
  }

  /** `Value` and the service's `Get` ask the store the same question:
      `Value` succeeds exactly when `Get` reports no error, with the same
      value, and its failure is the remote error `Get` translates or passes on. */
  lemma ValueAgreesWithGet(getParameter: GetParameterCall, name: string)
    ensures Value(getParameter, name).Success? <==> Service.Get(getParameter, name).err.None?
    ensures Value(getParameter, name).Success? ==>
              Value(getParameter, name).value == Service.Get(getParameter, name).value
    ensures Value(getParameter, name).Failure? ==>
              Service.Get(getParameter, name).err.value.err == Value(getParameter, name).error
  {
  }
}
