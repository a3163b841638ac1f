/** The remote parameter store as seen by the service: the shapes of its
    responses and errors, and the calls it answers, as abstract oracles. */
module Remote {
  import opened Results

  /** An instant in time; its representation does not matter to the model. */
  type Timestamp = int

  /** The store's parameter type is a string enumeration ("String",
      "StringList", "SecureString"); the code compares it to a string literal. */
  type ParameterType = string

  const SecureString: ParameterType := "SecureString"

  /** An error reported by a remote call. `NotFoundFault` is an error whose
      chain holds the store's typed "parameter not found" error; every other
      failure (transport, authorisation, throttling, validation) is `OtherFault`. */
  datatype RemoteError =
    | NotFoundFault(message: string)
    | OtherFault(code: string, message: string)

  /** One entry of a describe-parameters page: name and metadata, never the value. */
  datatype Metadata = Metadata(
    name: string,
    description: Option<string>,
    ptype: ParameterType,
    lastModified: Option<Timestamp>)

  /** One entry of a batched get-parameters response. */
  datatype Fetched = Fetched(
    name: string,
    value: string,
    ptype: ParameterType,
    lastModified: Option<Timestamp>)

  type Page = seq<Metadata>

  /** What one step of the describe-parameters paginator yields. */
  type PageResult = Result<Page, RemoteError>

  /** The single-parameter get call (with decryption), keyed by name. */
  type GetParameterCall = string -> Result<string, RemoteError>

  /** The batched get call (with decryption): the names asked for, in order. */
  type GetParametersCall = seq<string> -> Result<seq<Fetched>, RemoteError>

  /** Every page fetch in `pages` succeeded. */
  predicate AllFetched(pages: seq<PageResult>)
  {
    forall k :: 0 <= k < |pages| ==> pages[k].Success?
  }

  /** The index of the first failed page fetch. */
  function FirstFailure(pages: seq<PageResult>): (k: nat)
    requires !AllFetched(pages)
    ensures k < |pages| && pages[k].Failure?
    ensures AllFetched(pages[..k])
    decreases |pages|
  {
    if pages[0].Failure? then 0
    else
      var k := 1 + FirstFailure(pages[1..]);
      assert forall j :: 1 <= j < k ==> pages[j] == pages[1..][j - 1];
      k
  }

  /** The entries of the successful pages, in page order and within-page order. */
  function Entries(pages: seq<PageResult>): seq<Metadata>
    decreases |pages|
  {
    if |pages| == 0 then []
    else (if pages[0].Success? then pages[0].value else []) + Entries(pages[1..])
  }

  lemma {:induction false} EntriesAppend(a: seq<PageResult>, b: seq<PageResult>)
    ensures Entries(a + b) == Entries(a) + Entries(b)
    decreases |a|
  {
    if |a| == 0 {
      assert a + b == b;
    } else {
      assert (a + b)[1..] == a[1..] + b;
      EntriesAppend(a[1..], b);
    }
  }
}
