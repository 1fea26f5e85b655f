/**
 * The request side of webservice/http.go: the `Webservice` value with its
 * endpoint configuration, the URL each request goes to, and the download
 * path `GetFile` derives from the `Content-Disposition` header. The network
 * round trip and the file system are parameters.
 */
module Http {
  import opened Wrappers
  import opened Text
  import opened Regexp

  newtype byte = x: int | 0 <= x < 256

  /** `filename="([^"]*){1}"` */
  const ContentDispositionPattern := Delimited("filename=\"", "\"", '"')

  /**
   * The `filename` of a `Content-Disposition` header value: the text of the
   * quoted form, up to the next quote. `None` where the source indexes a
   * missing submatch. Quoted-pair escapes are not decoded (`filename="a\"b"`
   * gives `a\`), and `filename="` also matches at the end of a longer
   * parameter name such as `xfilename="`.
   */
  function FileName(header: string): (r: Option<string>)
    ensures r.None? <==> forall a: nat, b: nat :: !MatchAt(header, ContentDispositionPattern, a, b)
    ensures forall a: nat, b: nat :: FirstMatch(header, ContentDispositionPattern, a, b) ==> r == Some(header[a + 10..b])
    ensures r.Some? ==> exists a: nat, b: nat :: FirstMatch(header, ContentDispositionPattern, a, b) && r.value == header[a + 10..b]
    ensures r.Some? ==> '"' !in r.value
  {
    var r := Capture(header, ContentDispositionPattern);
    if r.Some? then CaptureAvoidsStop(header, ContentDispositionPattern); r else r
  }

  /**
   * When `filename="` first occurs at `i` and a quote follows it, the file
   * name is the text from there to the next quote.
   */
  lemma FileNameFromFirstOccurrence(header: string, i: nat, j: nat)
    requires HasAt(header, "filename=\"", i)
    requires forall k: nat :: k < i ==> !HasAt(header, "filename=\"", k)
    requires i + 10 <= j < |header| && header[j] == '"'
    requires forall k :: i + 10 <= k < j ==> header[k] != '"'
    ensures FileName(header) == Some(header[i + 10..j])
  {
    var d := ContentDispositionPattern;
    assert header[j..j + 1] == [d.close[0]];
    assert MatchAt(header, d, i, j);
    forall k: nat | i + 10 <= k < j ensures !HasAt(header, d.close, k) {
      MismatchBreaksOccurrence(header, d.close, k, 0);
    }
    CaptureAt(header, d, i, j);
  }

  /** Round trip: a quote-free name written in the quoted form is read back. */
  lemma FileNameRoundTrip(name: string)
    requires '"' !in name
    ensures FileName("attachment; filename=\"" + name + "\"") == Some(name)
  {
    var d := ContentDispositionPattern;
    assert "attachment; filename=\"" + name + "\"" == "attachment; " + d.open + name + d.close + "";
    AbsentCharRulesOut(name + "", d.close, 0);
    CaptureEnvelope("attachment; ", name, "", d, 9);
  }

  /** Greedy `[^"]*` and a lazy group agree here: a match closes at one place only. */
  lemma FileNameCloseIsUnique(header: string, a: nat, b: nat, b': nat)
    requires MatchAt(header, ContentDispositionPattern, a, b)
    requires MatchAt(header, ContentDispositionPattern, a, b')
    ensures b == b'
  {
    StopClosedMatchUnique(header, ContentDispositionPattern, a, b, b');
  }

  /** `fmt.Sprintf("%s/%s", directoryPath, fileName)` */
  function DestinationPath(directoryPath: string, fileName: string): (path: string)
    ensures |path| == |directoryPath| + 1 + |fileName|
    ensures path[..|directoryPath|] == directoryPath && path[|directoryPath|] == '/'
    ensures path[|directoryPath| + 1..] == fileName
  {
    directoryPath + "/" + fileName
  }

  /** `w.config.ApiEndpoint + endpoint`: no separator is inserted. */
  function RequestUrl(apiEndpoint: string, endpoint: string): (url: string)
    ensures |url| == |apiEndpoint| + |endpoint|
    ensures url[..|apiEndpoint|] == apiEndpoint && url[|apiEndpoint|..] == endpoint
  {
    apiEndpoint + endpoint
  }

  /** Two endpoints reach the same URL only if they are the same endpoint. */
  lemma RequestUrlInjective(apiEndpoint: string, e1: string, e2: string)
    requires RequestUrl(apiEndpoint, e1) == RequestUrl(apiEndpoint, e2)
    ensures e1 == e2
  {
  }

  /** What `NewWebService` reads from the configuration collaborator. */
  datatype Config = Config(apiEndpoint: string, certificate: string, key: string)

  datatype Verb = HttpGet | HttpPost

  /** The request handed to the HTTP client. */
  datatype Request = Request(verb: Verb, url: string, contentType: string, body: seq<byte>)

  /** A response: its body is `None` when reading the stream fails. */
  datatype Response = Response(status: int, header: map<string, string>, body: Option<seq<byte>>)

  /** One round trip through the HTTP client. */
  datatype Exchange = TransportFailed(reason: string) | Received(response: Response)

  datatype Error =
    | TransportError(reason: string)
    | BodyReadError
    | MissingFileName
    | FileCreateError
    | FileWriteError

  /** A finished download: the path `GetFile` returns and the bytes copied there. */
  datatype Download = Download(path: string, contents: seq<byte>)

  /** `Header.Get`: the empty string for a header that is absent. */
  function HeaderGet(header: map<string, string>, key: string): (value: string)
    ensures key in header ==> value == header[key]
    ensures key !in header ==> value == ""
  {
    if key in header then header[key] else ""
  }

  /**
   * The client of the management API. The TLS client the source keeps beside
   * the configuration is represented by the `transport` each request is
   * given.
   */
  class Webservice {
    const config: Config

    constructor (config: Config)
      ensures this.config == config
    {
      this.config := config;
    }

    /** POST a JSON body; only a transport failure is reported, never the status. */
    method Post(endpoint: string, json: seq<byte>, transport: Request -> Exchange) returns (err: Option<Error>)
      ensures var exchange := transport(Request(HttpPost, RequestUrl(config.apiEndpoint, endpoint), "application/json", json));
        && (err.None? <==> exchange.Received?)
        && (exchange.TransportFailed? ==> err == Some(TransportError(exchange.reason)))
    {
      var url := RequestUrl(config.apiEndpoint, endpoint);
      var exchange := transport(Request(HttpPost, url, "application/json", json));
      if exchange.TransportFailed? {
        return Some(TransportError(exchange.reason));
      }
      return None;
    }

    /** GET an endpoint and return its body, whatever the status code. */
    method Get(endpoint: string, transport: Request -> Exchange) returns (r: Result<seq<byte>, Error>)
      ensures var exchange := transport(Request(HttpGet, RequestUrl(config.apiEndpoint, endpoint), "", []));
        && (exchange.TransportFailed? ==> r == Failure(TransportError(exchange.reason)))
        && (exchange.Received? ==> (r.Success? <==> exchange.response.body.Some?))
        && (exchange.Received? && r.Failure? ==> r.error == BodyReadError)
        && (r.Success? ==> exchange.Received? && exchange.response.body == Some(r.value))
    {
      var url := RequestUrl(config.apiEndpoint, endpoint);
      var exchange := transport(Request(HttpGet, url, "", []));
      if exchange.TransportFailed? {
        return Failure(TransportError(exchange.reason));
      }
      var body := exchange.response.body;
      if body.None? {
        return Failure(BodyReadError);
      }
      return Success(body.value);
    }

    /**
     * GET an endpoint and store its body under `directoryPath`, in the file
     * the `Content-Disposition` header names. `canCreate` says whether
     * `os.Create` succeeds on a path and `canWrite` whether writing the body
     * to the created file succeeds; reading the body fails when the response
     * holds none. The status code is not consulted.
     */
    method GetFile(endpoint: string, directoryPath: string, transport: Request -> Exchange,
                   canCreate: string -> bool, canWrite: string -> bool)
      returns (r: Result<Download, Error>)
      ensures var exchange := transport(Request(HttpGet, RequestUrl(config.apiEndpoint, endpoint), "", []));
        && (exchange.TransportFailed? ==> r == Failure(TransportError(exchange.reason)))
        && (exchange.Received? ==>
              var name := FileName(HeaderGet(exchange.response.header, "Content-Disposition"));
              && (name.None? ==> r == Failure(MissingFileName))
              && (name.Some? ==>
                    var path := DestinationPath(directoryPath, name.value);
                    && (!canCreate(path) ==> r == Failure(FileCreateError))
                    && (canCreate(path) && (exchange.response.body.None? || !canWrite(path)) ==>
                          r == Failure(FileWriteError))
                    && (canCreate(path) && exchange.response.body.Some? && canWrite(path) ==>
                          r == Success(Download(path, exchange.response.body.value)))))
      ensures r.Success? ==> r.value.path[..|directoryPath|] == directoryPath && '"' !in r.value.path[|directoryPath| + 1..]
    {
      var url := RequestUrl(config.apiEndpoint, endpoint);
      var exchange := transport(Request(HttpGet, url, "", []));
      if exchange.TransportFailed? {
        return Failure(TransportError(exchange.reason));
      }
      var response := exchange.response;
      var fileName := FileName(HeaderGet(response.header, "Content-Disposition"));
      if fileName.None? {
        return Failure(MissingFileName);
      }
      var realFileName := DestinationPath(directoryPath, fileName.value);
      if !canCreate(realFileName) {
        return Failure(FileCreateError);
      }
      if response.body.None? || !canWrite(realFileName) {
        return Failure(FileWriteError);
      }
      return Success(Download(realFileName, response.body.value));
    }
  }
}
