/** The parameter-access service (parameter/parameter.go): single-key fetch
    with not-found translation, and the paginated list that joins each page's
    descriptions with a batched, decrypting value fetch. */
module Service {
  import opened Results
  import opened Remote
  import GoQuote

  /** A fully populated parameter as the list operation returns it. */
  datatype Parameter = Parameter(
    description: string,
    key: string,
    value: string,
    ptype: ParameterType,
    lastModified: Option<Timestamp>)

  /** The errors the service hands to its callers: the not-found marker, which
      carries the requested key and the remote error it translates, or a
      remote error passed through as it came. */
  datatype Error =
    | ParameterNotFound(name: string, err: RemoteError)
    | Passthrough(err: RemoteError)

  const NotFoundPrefix: string := "Parameter "
  const NotFoundSuffix: string := " not found."

  /** The text of the not-found marker: the key in Go's `%q` form. */
  function NotFoundMessage(name: string): (msg: string)
    ensures |msg| >= |NotFoundPrefix| + 2 + |NotFoundSuffix|
    ensures msg[..|NotFoundPrefix|] == NotFoundPrefix
    ensures msg[|msg| - |NotFoundSuffix|..] == NotFoundSuffix
  {
    NotFoundPrefix + GoQuote.Quote(name) + NotFoundSuffix
  }

  /** Go's `Error()` on the service's errors. */
  function ErrorMessage(e: Error): (msg: string)
    ensures e.Passthrough? ==> msg == e.err.message
    ensures e.ParameterNotFound? ==> msg == NotFoundMessage(e.name)
  {
    match e
    case ParameterNotFound(name, _) => NotFoundMessage(name)
    case Passthrough(err) => err.message
  }

  /** The quoted part of the not-found message reads back as the requested key,
      so the message names exactly that key. */
  lemma NotFoundMessageNamesKey(name: string)
    ensures var msg := NotFoundMessage(name);
            GoQuote.Unquote(msg[|NotFoundPrefix|..|msg| - |NotFoundSuffix|]) == Some(name)
  {
    var msg := NotFoundMessage(name);
    assert msg[|NotFoundPrefix|..|msg| - |NotFoundSuffix|] == GoQuote.Quote(name);
    GoQuote.UnquoteQuote(name);
  }

  /** A key that `%q` does not escape appears verbatim, between quotes, in the message. */
  lemma NotFoundMessageShowsPlainKey(name: string)
    requires GoQuote.Plain(name)
    ensures NotFoundMessage(name) == NotFoundPrefix + "\"" + name + "\"" + NotFoundSuffix
  {
    GoQuote.PlainEscapesToItself(name);
  }

  /** The message for the key "foo" is the one the integration test expects. */
  lemma NotFoundMessageForFoo()
    ensures NotFoundMessage("foo") == "Parameter \"foo\" not found."
  {
  }

  /** Fetches one parameter with decryption. Success yields the value and no
      error; the store's not-found fault becomes the not-found marker for the
      requested key; any other fault passes through unchanged. Every failure
      returns the empty value. */
  function Get(getParameter: GetParameterCall, key: string): (r: Returns<string, Error>)
    ensures r.err.None? <==> getParameter(key).Success?
    ensures getParameter(key).Success? ==> r.value == getParameter(key).value
    ensures r.err.Some? ==> r.value == ""
    ensures getParameter(key).Failure? && getParameter(key).error.NotFoundFault? ==>
              r.err == Some(ParameterNotFound(key, getParameter(key).error))
    ensures getParameter(key).Failure? && getParameter(key).error.OtherFault? ==>
              r.err == Some(Passthrough(getParameter(key).error))
  {
    match getParameter(key)
    case Success(v) => Returns(v, None)
    case Failure(err) =>
      if err.NotFoundFault? then Returns("", Some(ParameterNotFound(key, err)))
      else Returns("", Some(Passthrough(err)))
  }

  /** Reading a Go `map[string]string`: a missing key reads as "". */
  function Lookup(m: map<string, string>, k: string): string
  {
    if k in m then m[k] else ""
  }

  /** The description a page entry contributes: "" when it has none. */
  function DescriptionOf(m: Metadata): string
  {
    if m.description.Some? then m.description.value else ""
  }

  /** The description recorded for `name` after walking `page` in order:
      the last entry with that name wins, and "" when no entry has it. */
  function LastDescription(page: Page, name: string): string
    decreases |page|
  {
    if |page| == 0 then ""
    else if page[|page| - 1].name == name then DescriptionOf(page[|page| - 1])
    else LastDescription(page[..|page| - 1], name)
  }

  /** The names the batched get asks for: those of the page, in page order. */
  function PageNames(page: Page): (names: seq<string>)
    ensures |names| == |page|
    ensures forall i :: 0 <= i < |page| ==> names[i] == page[i].name
  {
    seq(|page|, i requires 0 <= i < |page| => page[i].name)
  }

  /** A fetched value joined with its page's description for the same name. */
  function Join(f: Fetched, page: Page): Parameter
  {
    Parameter(LastDescription(page, f.name), f.name, f.value, f.ptype, f.lastModified)
  }

  /** Reference semantics of one page: one joined parameter per entry of the
      batched response, in response order; a failed batch yields nothing. */
  function PageParameters(page: Page, getParameters: GetParametersCall): Returns<seq<Parameter>, RemoteError>
  {
    match getParameters(PageNames(page))
    case Failure(e) => Returns([], Some(e))
    case Success(res) => Returns(seq(|res|, i requires 0 <= i < |res| => Join(res[i], page)), None)
  }

  /** The page step of the list operation, as the code writes it: collect the
      names and a name-to-description map, issue one batched get for exactly
      those names (even when there are none), and build one parameter per
      returned value. */
  method ParametersFromPage(page: Page, getParameters: GetParametersCall)
    returns (r: Returns<seq<Parameter>, RemoteError>)
    ensures r == PageParameters(page, getParameters)
    ensures getParameters(PageNames(page)).Failure? ==>
              r == Returns([], Some(getParameters(PageNames(page)).error))
    ensures getParameters(PageNames(page)).Success? ==>
              var res := getParameters(PageNames(page)).value;
              && r.err == None
              && |r.value| == |res|
              && forall i :: 0 <= i < |res| ==>
                   && r.value[i].key == res[i].name
                   && r.value[i].value == res[i].value
                   && r.value[i].ptype == res[i].ptype
                   && r.value[i].lastModified == res[i].lastModified
                   && r.value[i].description == LastDescription(page, res[i].name)
  {
    var names: seq<string> := [];
    var descriptions: map<string, string> := map[];
    var i := 0;
    while i < |page|
      invariant 0 <= i <= |page|
      invariant names == PageNames(page[..i])
      invariant forall n :: Lookup(descriptions, n) == LastDescription(page[..i], n)
    {
      names := names + [page[i].name];
      var description := "";
      if page[i].description.Some? {
        description := page[i].description.value;
      }
      descriptions := descriptions[page[i].name := description];
      assert page[..i + 1][..i] == page[..i];
      i := i + 1;
    }
    assert page[..i] == page;
    match getParameters(names) {
      case Failure(e) =>
        return Returns([], Some(e));
      case Success(res) =>
        var ret: seq<Parameter> := [];
        var j := 0;
        while j < |res|
          invariant 0 <= j <= |res|
          invariant |ret| == j
          invariant forall k :: 0 <= k < j ==>
                      ret[k] == Parameter(Lookup(descriptions, res[k].name), res[k].name, res[k].value,
                                          res[k].ptype, res[k].lastModified)
        {
          ret := ret + [Parameter(Lookup(descriptions, res[j].name), res[j].name, res[j].value,
                                  res[j].ptype, res[j].lastModified)];
          j := j + 1;
        }
        assert forall k :: 0 <= k < |res| ==> ret[k] == Join(res[k], page);
        assert ret == PageParameters(page, getParameters).value;
        return Returns(ret, None);
    }
  }

  /** The parameters gathered from the successful pages, in page order. */
  function Harvest(pages: seq<PageResult>, getParameters: GetParametersCall): seq<Parameter>
    decreases |pages|
  {
    if |pages| == 0 then []
    else (if pages[0].Success? then PageParameters(pages[0].value, getParameters).value else [])
         + Harvest(pages[1..], getParameters)
  }

  /** Reference semantics of the list operation: the first failed page fetch
      aborts with that error and no parameters; otherwise every page's
      parameters, concatenated in page order, and no error. */
  function ListSpec(pages: seq<PageResult>, getParameters: GetParametersCall): Returns<seq<Parameter>, RemoteError>
  {
    if AllFetched(pages) then Returns(Harvest(pages, getParameters), None)
    else Returns([], Some(pages[FirstFailure(pages)].error))
  }

  lemma {:induction false} HarvestAppend(a: seq<PageResult>, b: seq<PageResult>, getParameters: GetParametersCall)
    ensures Harvest(a + b, getParameters) == Harvest(a, getParameters) + Harvest(b, getParameters)
    decreases |a|
  {
    if |a| == 0 {
      assert a + b == b;
    } else {
      assert (a + b)[1..] == a[1..] + b;
      HarvestAppend(a[1..], b, getParameters);
    }
  }

  /** The list operation as the code writes it: walk the paginator, return
      at once on a page-fetch error, and append each page's parameters while
      ignoring the error the page step reports. */
  method List(pages: seq<PageResult>, getParameters: GetParametersCall)
    returns (r: Returns<seq<Parameter>, RemoteError>)
    ensures r == ListSpec(pages, getParameters)
    ensures r.err.Some? <==> !AllFetched(pages)
    ensures r.err.Some? ==> r.value == []
  {
    var ret: seq<Parameter> := [];
    var i := 0;
    while i < |pages|
      invariant 0 <= i <= |pages|
      invariant AllFetched(pages[..i])
      invariant ret == Harvest(pages[..i], getParameters)
    {
      match pages[i] {
        case Failure(e) =>
          assert FirstFailure(pages) == i;
          return Returns([], Some(e));
        case Success(page) =>
          var params := ParametersFromPage(page, getParameters);
          ret := ret + params.value;
          assert pages[..i + 1] == pages[..i] + [pages[i]];
          HarvestAppend(pages[..i], [pages[i]], getParameters);
          i := i + 1;
      }
    }
    assert pages[..i] == pages;
    return Returns(ret, None);
  }

  /** A page-fetch error at `k`, after successful fetches only, is the error
      the list returns, with no parameters at all. */
  lemma ListFailsFast(pages: seq<PageResult>, getParameters: GetParametersCall, k: nat)
    requires k < |pages| && pages[k].Failure?
    requires AllFetched(pages[..k])
    ensures ListSpec(pages, getParameters) == Returns([], Some(pages[k].error))
  {
  }

  /** Listing `a + b` where every page of `a` is fetched: the parameters of `a`
      followed by those of `b`, unless a page of `b` fails, in which case the
      error of `b` wins and the parameters of `a` are discarded as well. */
  lemma ListSplits(a: seq<PageResult>, b: seq<PageResult>, getParameters: GetParametersCall)
    requires AllFetched(a)
    ensures AllFetched(b) ==>
              ListSpec(a + b, getParameters)
              == Returns(ListSpec(a, getParameters).value + ListSpec(b, getParameters).value, None)
    ensures !AllFetched(b) ==> ListSpec(a + b, getParameters) == ListSpec(b, getParameters)
  {
    HarvestAppend(a, b, getParameters);
    if AllFetched(b) {
      AllFetchedAppend(a, b);
    } else {
      ListOfFailingSuffix(a, b, getParameters);
    }
  }

  lemma AllFetchedAppend(a: seq<PageResult>, b: seq<PageResult>)
    requires AllFetched(a) && AllFetched(b)
    ensures AllFetched(a + b)
  {
    forall j | 0 <= j < |a + b| ensures (a + b)[j].Success? {
      if j >= |a| { assert (a + b)[j] == b[j - |a|]; }
    }
  }

  lemma ListOfFailingSuffix(a: seq<PageResult>, b: seq<PageResult>, getParameters: GetParametersCall)
    requires AllFetched(a) && !AllFetched(b)
    ensures ListSpec(a + b, getParameters) == ListSpec(b, getParameters)
  {
    var k := FirstFailure(b);
    var c := a + b;
    assert c[|a| + k] == b[k];
    var prefix := c[..|a| + k];
    assert AllFetched(prefix) by {
      forall j | 0 <= j < |prefix| ensures prefix[j].Success? {
        if j < |a| {
          assert prefix[j] == a[j];
        } else {
          assert prefix[j] == b[..k][j - |a|];
        }
      }
    }
    ListFailsFast(c, getParameters, |a| + k);
  }

  /** A page whose batched get fails contributes nothing, and the list still
      reports no error: the page step's error is dropped. */
  lemma FailedBatchDropsPage(pages: seq<PageResult>, getParameters: GetParametersCall, k: nat)
    requires AllFetched(pages)
    requires k < |pages|
    requires getParameters(PageNames(pages[k].value)).Failure?
    ensures ListSpec(pages, getParameters)
            == Returns(Harvest(pages[..k], getParameters) + Harvest(pages[k + 1..], getParameters), None)
  {
    var before, after := pages[..k], pages[k + 1..];
    var page := pages[k].value;
    var dropped: seq<PageResult> := [Success(page)];
    assert pages == (before + dropped) + after;
    HarvestAppend(before + dropped, after, getParameters);
    HarvestAppend(before, dropped, getParameters);
    HarvestOfFailedBatch(page, getParameters);
    calc {
      Harvest(pages, getParameters);
      Harvest(before + dropped, getParameters) + Harvest(after, getParameters);
      Harvest(before, getParameters) + Harvest(dropped, getParameters) + Harvest(after, getParameters);
      Harvest(before, getParameters) + Harvest(after, getParameters);
    }
  }

  lemma HarvestOfFailedBatch(page: Page, getParameters: GetParametersCall)
    requires getParameters(PageNames(page)).Failure?
    ensures Harvest([Success(page)], getParameters) == []
  {
    var single: seq<PageResult> := [Success(page)];
    assert single[1..] == [];
  }

  /** A page with no entries still issues a batched get, for the empty name
      list, and its parameters are whatever that call answers. */
  lemma EmptyPageStillAsks(getParameters: GetParametersCall)
    ensures PageParameters([], getParameters).err.Some? <==> getParameters([]).Failure?
    ensures getParameters([]).Success? ==>
              |PageParameters([], getParameters).value| == |getParameters([]).value|
  {
  }

  /** A parameter is joined from page `page`: it is the join of some entry of
      that page's successful batched response with the page's descriptions. */
  ghost predicate JoinedFrom(p: Parameter, page: Page, getParameters: GetParametersCall)
  {
    && getParameters(PageNames(page)).Success?
    && exists f :: f in getParameters(PageNames(page)).value && p == Join(f, page)
  }

  /** Every listed parameter comes from the batched response of one fetched
      page, with that page's description for its name. */
  lemma {:induction false} HarvestOrigin(pages: seq<PageResult>, getParameters: GetParametersCall, p: Parameter)
    requires p in Harvest(pages, getParameters)
    ensures exists k :: 0 <= k < |pages| && pages[k].Success? && JoinedFrom(p, pages[k].value, getParameters)
    decreases |pages|
  {
    var head := if pages[0].Success? then PageParameters(pages[0].value, getParameters).value else [];
    assert Harvest(pages, getParameters) == head + Harvest(pages[1..], getParameters);
    if p in head {
      var res := getParameters(PageNames(pages[0].value)).value;
      var i :| 0 <= i < |res| && head[i] == p;
      assert res[i] in res;
      assert JoinedFrom(p, pages[0].value, getParameters);
    } else {
      HarvestOrigin(pages[1..], getParameters, p);
      var k :| 0 <= k < |pages[1..]| && pages[1..][k].Success? && JoinedFrom(p, pages[1..][k].value, getParameters);
      assert pages[k + 1] == pages[1..][k];
    }
  }

  lemma ListedParameterOrigin(pages: seq<PageResult>, getParameters: GetParametersCall, p: Parameter)
    requires p in ListSpec(pages, getParameters).value
    ensures AllFetched(pages)
    ensures exists k :: 0 <= k < |pages| && pages[k].Success? && JoinedFrom(p, pages[k].value, getParameters)
  {
    HarvestOrigin(pages, getParameters, p);
  }
}
