/**
 * The three downloads the core asks of the LoTW report service
 * (lib/lotw-api.js, which is not part of this model). A download is a
 * request value; what it brings back is supplied by the caller as a
 * function from requests to results, so a fetch is either the ADI text of
 * the response or the error it raised.
 */
module Remote {
  import opened Text
  import opened Common
  import opened ConfigContext

  datatype Request =
    | Everything(username: string, password: string, qsoBeginDate: Option<Value>)  // fetchADIFData
    | QsoSince(username: string, password: string, since: Option<int>)             // fetchIncrementalQSO
    | QslSince(username: string, password: string, since: Option<int>)             // fetchIncrementalQSL

  /** What the service answers: the ADI text, or the error raised on the way. */
  type Fetch = Request -> Result<string>
}
