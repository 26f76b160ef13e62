/**
  `GitHubClient` of src/github_client.py: the request headers and base address
  it stores, its pull-request address parser, and the two REST endpoints it
  requests. The HTTP exchange itself is not modelled; a request is described
  by the address and headers it would be sent with.
 */
module Client {
  import opened Text
  import opened Records
  import opened PrUrl
  import Fetcher

  const ApiBase: string := "https://api.github.com"
  const AcceptMediaType: string := "application/vnd.github.v3+json"
  const InvalidUrlMessage: string := "Invalid GitHub PR URL"

  /**
    `parse_pr_url`: the three groups of the leftmost match, or the `ValueError`
    this client raises when the address holds no match.
   */
  function ParsePrUrl(url: string): (r: Result<PullRequestRef>)
    ensures r.Ok? <==> ContainsPattern(url)
    ensures r.Ok? ==> ValidRef(r.value) && exists i :: LeftmostMatch(url, i, r.value)
    ensures r.Err? ==> r.message == InvalidUrlMessage
  {
    ResolveFindsPattern(url);
    match Resolve(url)
    case Some(ref) => Ok(ref)
    case None => Err(InvalidUrlMessage)
  }

  /** The client and the command-line fetcher accept the same addresses and extract the same triple; only the error message differs. */
  lemma ParsersAgree(url: string)
    ensures ParsePrUrl(url).Ok? <==> Fetcher.ParsePrUrl(url).Ok?
    ensures ParsePrUrl(url).Ok? ==> ParsePrUrl(url).value == Fetcher.ParsePrUrl(url).value
    ensures ParsePrUrl(url).Err? ==> ParsePrUrl(url).message != Fetcher.ParsePrUrl(url).message
  {
    if ParsePrUrl(url).Ok? {
      var r, r' := ParsePrUrl(url).value, Fetcher.ParsePrUrl(url).value;
      var i :| LeftmostMatch(url, i, r);
      var j :| LeftmostMatch(url, j, r');
      LeftmostMatchUnique(url, i, r, j, r');
    } else {
      assert |InvalidUrlMessage| != |Fetcher.InvalidUrlMessage|;
    }
  }

  /** The two pull-request collections the client requests. */
  datatype Resource = Files | Reviews

  function ResourceName(res: Resource): string {
    match res
    case Files => "files"
    case Reviews => "reviews"
  }

  /** The path `/repos/{owner}/{repo}/pulls/{number}/{resource}` appended to the base address. */
  function EndpointPath(owner: string, repo: string, number: string, res: Resource): string {
    "/repos/" + owner + "/" + repo + "/pulls/" + number + "/" + ResourceName(res)
  }

  /** The path segments of an endpoint, as `path.split('/')` sees them. */
  function EndpointSegments(owner: string, repo: string, number: string, res: Resource): seq<string> {
    ["", "repos", owner, repo, "pulls", number, ResourceName(res)]
  }

  /** The endpoint path is its segments joined with '/'. */
  lemma EndpointPathJoin(owner: string, repo: string, number: string, res: Resource)
    ensures EndpointPath(owner, repo, number, res) == Join(EndpointSegments(owner, repo, number, res), '/')
  {
    var name := ResourceName(res);
    SegmentsJoin(owner, repo, number, name);
    assert EndpointSegments(owner, repo, number, res) == ["", "repos", owner, repo, "pulls", number, name];
    PathLiterals();
  }

  /** The literal parts of the path template, split at their slashes. */
  lemma PathLiterals()
    ensures "/repos/" == "" + "/" + "repos" + "/"
    ensures "/pulls/" == "/" + "pulls" + "/"
  {
  }

  /** Joining the seven segments, one separator at a time. */
  lemma SegmentsJoin(owner: string, repo: string, number: string, name: string)
    ensures Join(["", "repos", owner, repo, "pulls", number, name], '/')
      == "" + "/" + ("repos" + "/" + (owner + "/" + (repo + "/" + ("pulls" + "/" + (number + "/" + name)))))
  {
    var t5 := [number] + [name];
    JoinCons(number, [name], '/');
    var t4 := ["pulls"] + t5;
    JoinCons("pulls", t5, '/');
    var t3 := [repo] + t4;
    JoinCons(repo, t4, '/');
    var t2 := [owner] + t3;
    JoinCons(owner, t3, '/');
    var t1 := ["repos"] + t2;
    JoinCons("repos", t2, '/');
    JoinCons("", t1, '/');
    assert [""] + t1 == ["", "repos", owner, repo, "pulls", number, name];
  }

  /**
    Splitting an endpoint path of a resolved reference at '/' gives back the
    owner, repository, number and resource: the path determines the request.
   */
  lemma EndpointPathSplits(r: PullRequestRef, res: Resource)
    requires ValidRef(r)
    ensures Split(EndpointPath(r.owner, r.repo, r.number, res), '/') == EndpointSegments(r.owner, r.repo, r.number, res)
  {
    var segs := EndpointSegments(r.owner, r.repo, r.number, res);
    EndpointPathJoin(r.owner, r.repo, r.number, res);
    assert '/' !in r.owner && '/' !in r.repo;
    assert forall k | 0 <= k < |segs| :: '/' !in segs[k];
    SplitJoin(segs, '/');
  }

  /** Distinct references or resources are requested at distinct paths. */
  lemma EndpointPathInjective(r: PullRequestRef, res: Resource, r': PullRequestRef, res': Resource)
    requires ValidRef(r) && ValidRef(r')
    requires EndpointPath(r.owner, r.repo, r.number, res) == EndpointPath(r'.owner, r'.repo, r'.number, res')
    ensures r == r' && res == res'
  {
    EndpointPathSplits(r, res);
    EndpointPathSplits(r', res');
    var segs := EndpointSegments(r.owner, r.repo, r.number, res);
    var segs' := EndpointSegments(r'.owner, r'.repo, r'.number, res');
    assert segs[2] == segs'[2] && segs[3] == segs'[3] && segs[5] == segs'[5] && segs[6] == segs'[6];
  }

  /** A request as the client would send it: address and headers. */
  datatype Request = Request(url: string, headers: map<string, string>)

  class GitHubClient {
    var headers: map<string, string>
    var baseUrl: string

    /** Token authentication and the v3 media type; the token is used as given. */
    constructor(token: string)
      ensures headers == map["Authorization" := "token " + token, "Accept" := AcceptMediaType]
      ensures baseUrl == ApiBase
      ensures headers["Authorization"][6..] == token
    {
      headers := map["Authorization" := "token " + token, "Accept" := AcceptMediaType];
      baseUrl := ApiBase;
    }

    /** `get_pr_files`: the request for the changed files of the pull request. */
    method GetPrFiles(owner: string, repo: string, number: string) returns (req: Request)
      ensures req.url == baseUrl + EndpointPath(owner, repo, number, Files)
      ensures EndsWith(req.url, "/files")
      ensures req.headers == headers
    {
      req := Request(baseUrl + EndpointPath(owner, repo, number, Files), headers);
      assert req.url == (baseUrl + "/repos/" + owner + "/" + repo + "/pulls/" + number) + "/files";
    }

    /** `get_pr_reviews`: the request for the reviews of the pull request. */
    method GetPrReviews(owner: string, repo: string, number: string) returns (req: Request)
      ensures req.url == baseUrl + EndpointPath(owner, repo, number, Reviews)
      ensures EndsWith(req.url, "/reviews")
      ensures req.headers == headers
    {
      req := Request(baseUrl + EndpointPath(owner, repo, number, Reviews), headers);
      assert req.url == (baseUrl + "/repos/" + owner + "/" + repo + "/pulls/" + number) + "/reviews";
    }
  }
}
