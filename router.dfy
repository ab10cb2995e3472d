/**
 * The application's request routing (src/app/router.rs). The handlers the
 * router delegates to are represented by their results.
 */
module Routing {
  import opened Wrappers
  import opened Bytes

  /** "/download/". */
  const DownloadUrl: seq<byte> := [0x2F, 0x64, 0x6F, 0x77, 0x6E, 0x6C, 0x6F, 0x61, 0x64, 0x2F]
  /** "/hello/". */
  const HelloPrefix: seq<byte> := [0x2F, 0x68, 0x65, 0x6C, 0x6C, 0x6F, 0x2F]
  /** "/". */
  const RootUrl: seq<byte> := [0x2F]
  /** "text/plain". */
  const TextPlain: seq<byte> := [0x74, 0x65, 0x78, 0x74, 0x2F, 0x70, 0x6C, 0x61, 0x69, 0x6E]

  /** The handlers a request can go to. */
  datatype Route = BigFile | HelloWorld | Default | NotFound

  /**
   * The rule of `Router::read_headers`: exactly "/download/" is the big
   * file, then any URL starting with "/hello/" is hello world, then
   * exactly "/" is the default handler; everything else is not found.
   */
  function RouteOf(url: seq<byte>): (r: Route)
    ensures r == BigFile <==> url == DownloadUrl
    ensures r == HelloWorld <==> url != DownloadUrl && HelloPrefix <= url
    ensures r == Default <==> url == RootUrl
    ensures r == NotFound <==> url != DownloadUrl && !(HelloPrefix <= url) && url != RootUrl
  {
    if url == DownloadUrl then BigFile
    else if HelloPrefix <= url then HelloWorld
    else if url == RootUrl then Default
    else NotFound
  }

  /** What `read_headers` returns: a delegated handler's result, or its own not-found response. */
  datatype Reply<T> =
    | Delegated(result: T)
    | NotFoundResponse(contentType: seq<byte>, body: seq<byte>)

  /**
   * `Router::read_headers`: the handler of the route answers and its
   * result is returned as it is; an unknown URL gets a `text/plain`
   * response whose body is the reason phrase of the not-found status.
   */
  function ReadHeaders<T>(url: seq<byte>, bigFile: T, helloWorld: T, default: T, notFoundReason: seq<byte>): (r: Reply<T>)
    ensures r.Delegated? <==> RouteOf(url) != NotFound
    ensures RouteOf(url) == BigFile ==> r == Delegated(bigFile)
    ensures RouteOf(url) == HelloWorld ==> r == Delegated(helloWorld)
    ensures RouteOf(url) == Default ==> r == Delegated(default)
    ensures RouteOf(url) == NotFound ==> r == NotFoundResponse(TextPlain, notFoundReason)
  {
    match RouteOf(url)
    case BigFile => Delegated(bigFile)
    case HelloWorld => Delegated(helloWorld)
    case Default => Delegated(default)
    case NotFound => NotFoundResponse(TextPlain, notFoundReason)
  }

  /** The first matching rule wins: "/download/" and "/hello/..." are never the default page. */
  lemma RoutesExamples()
    ensures RouteOf(DownloadUrl) == BigFile
    ensures RouteOf(HelloPrefix + [0x78]) == HelloWorld
    ensures RouteOf(RootUrl) == Default
    ensures RouteOf(DownloadUrl + [0x78]) == NotFound
  {
    assert !(HelloPrefix <= DownloadUrl + [0x78]) by {
      assert (DownloadUrl + [0x78])[1] != HelloPrefix[1];
    }
  }
}
