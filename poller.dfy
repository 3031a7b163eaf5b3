/**
 * PackageRepositoryPoller: building the tags URL of an image, probing a
 * registry or an image for the Docker Registry HTTP API v2 header, listing
 * tags, choosing the latest tag that passes the filter, and deciding whether
 * it is newer than the revision GoCD last saw.
 */
module Poller {
  import opened Wrappers
  import opened Faults
  import opened Strings
  import opened Expansion
  import opened Comparator
  import opened Http

  /** The repository property DOCKER_REGISTRY_URL. */
  datatype RepositoryConfig = RepositoryConfig(registryUrl: string)

  /** The package properties DOCKER_IMAGE and DOCKER_TAG_FILTER. */
  datatype PackageConfig = PackageConfig(image: string, tagFilter: string)

  /**
   * java.util.regex as far as the tag filter uses it: whether a pattern
   * compiles, and Matcher.find of a pattern somewhere in a string.
   */
  datatype Regex = Regex(compiles: string -> bool, finds: (string, string) -> bool)

  /** The collaborators: the transport, the Gson reading of a tag list, the regex engine. */
  datatype Env = Env(net: Net, tagsJson: string -> Option<seq<string>>, regex: Regex)

  datatype Status = Success | Failure

  /** CheckConnectionResultMessage. */
  datatype ConnectionResult = ConnectionResult(status: Status, messages: seq<string>)

  /** What validateRepositoryConfiguration reports. */
  datatype Validation = Validation(failure: bool, messages: seq<string>)

  /** PackageRevisionMessage: NoRevision is the message built without a revision. */
  datatype Revision = NoRevision | Revision(tag: string)

  // ---------------------------------------------------------------------------
  // getDockerPackageUrl
  // ---------------------------------------------------------------------------

  const TagsListPath := "/tags/list"

  /** The registry URL, the image and "/tags/list", joined verbatim. */
  function PackageUrl(repository: RepositoryConfig, pkg: PackageConfig): (url: string)
    ensures |url| == |repository.registryUrl| + |pkg.image| + |TagsListPath|
    ensures url[..|repository.registryUrl|] == repository.registryUrl
    ensures url[|repository.registryUrl|..|repository.registryUrl| + |pkg.image|] == pkg.image
    ensures url[|repository.registryUrl| + |pkg.image|..] == TagsListPath
  {
    repository.registryUrl + pkg.image + TagsListPath
  }

  /** Within one registry, different images have different tag URLs. */
  lemma PackageUrlInjective(repository: RepositoryConfig, a: PackageConfig, b: PackageConfig)
    requires PackageUrl(repository, a) == PackageUrl(repository, b)
    ensures a.image == b.image
  {
    var n := |repository.registryUrl|;
    assert |a.image| == |b.image|;
    assert a.image == PackageUrl(repository, a)[n..n + |a.image|];
  }

  /** No slash is added or removed: a trailing and a leading slash give "//". */
  lemma PackageUrlKeepsSlashes(repository: RepositoryConfig, pkg: PackageConfig)
    requires |repository.registryUrl| > 0 && repository.registryUrl[|repository.registryUrl| - 1] == '/'
    requires |pkg.image| > 0 && pkg.image[0] == '/'
    ensures var n := |repository.registryUrl|; PackageUrl(repository, pkg)[n - 1..n + 1] == "//"
  {
    var url := PackageUrl(repository, pkg);
    var n := |repository.registryUrl|;
    assert url[n - 1] == url[..n][n - 1];
    assert url[n] == url[n..n + |pkg.image|][0];
  }

  // ---------------------------------------------------------------------------
  // checkUrl
  // ---------------------------------------------------------------------------

  const DockerHeader := "docker-distribution-api-version"

  const RegistryV2 := "registry/2."

  /** The header names of a reply, as the "found only" list renders them. */
  function HeaderNames(headers: seq<Header>): (names: seq<string>)
    ensures |names| == |headers| && forall k :: 0 <= k < |headers| ==> names[k] == headers[k].name
  {
    seq(|headers|, k requires 0 <= k < |headers| => headers[k].name)
  }

  /**
   * The classification of a successful reply: the API-version header must be
   * present and its values, rendered as a Java list, must start with
   * "[registry/2.".
   */
  function Classify(headers: seq<Header>, what: string): (r: ConnectionResult)
    ensures |r.messages| == 1
    ensures r.status == Success <==>
      Lookup(headers, DockerHeader).Some? && |Lookup(headers, DockerHeader).value| > 0 &&
      RegistryV2 <= Lookup(headers, DockerHeader).value[0]
    ensures r.status == Success ==> r.messages == ["Docker " + what + " found."]
  {
    match Lookup(headers, DockerHeader)
    case Some(values) =>
      var rendered := ListText(values);
      ListTextStartsWith(values, RegistryV2);
      if "[" + RegistryV2 <= rendered then ConnectionResult(Success, ["Docker " + what + " found."])
      else ConnectionResult(Failure, ["Unknown value " + rendered + " for header " + DockerHeader])
    case None =>
      ConnectionResult(Failure, ["Missing header: " + DockerHeader + " found only: " + ListText(HeaderNames(headers))])
  }

  /** `item` occurs in `text` as a contiguous piece. */
  predicate Mentions(text: string, item: string) {
    exists i :: 0 <= i <= |text| && item <= text[i..]
  }

  /** Without the API-version header, the failure message names every header that came back. */
  lemma MissingHeaderListsNames(headers: seq<Header>, what: string, k: nat)
    requires Lookup(headers, DockerHeader).None? && k < |headers|
    ensures Classify(headers, what).status == Failure
    ensures Mentions(Classify(headers, what).messages[0], headers[k].name)
  {
    var names := HeaderNames(headers);
    JoinHasItem(names, ", ", k);
    var pre, post :| Join(names, ", ") == pre + names[k] + post;
    var head := "Missing header: " + DockerHeader + " found only: ";
    assert Classify(headers, what).messages[0] == head + ListText(names);
    MentionedInList(head, pre, names[k], post);
  }

  /** A header with another value gives a failure that quotes its values as a Java list. */
  lemma WrongValueCitesValues(headers: seq<Header>, what: string, values: seq<string>)
    requires Lookup(headers, DockerHeader) == Some(values)
    requires !(values != [] && RegistryV2 <= values[0])
    ensures Classify(headers, what).status == Failure
    ensures Classify(headers, what).messages == ["Unknown value " + ListText(values) + " for header " + DockerHeader]
    ensures Mentions(Classify(headers, what).messages[0], ListText(values))
  {
    var text := "Unknown value " + ListText(values) + " for header " + DockerHeader;
    assert text[|"Unknown value "|..] == ListText(values) + " for header " + DockerHeader;
  }

  lemma MentionedInList(head: string, pre: string, item: string, post: string)
    ensures Mentions(head + ("[" + (pre + item + post) + "]"), item)
  {
    var text := head + ("[" + (pre + item + post) + "]");
    var i := |head| + 1 + |pre|;
    assert text[i..] == item + (post + "]");
  }

  /** The text of an IOException, as checkUrl puts it between brackets. */
  function ErrorMessage(f: Fault): string
    requires f.IsIOException()
  {
    match f
    case TransportFault(detail) => detail
    case StatusFault(status) => Decimal(status)
  }

  /**
   * checkUrl: fetch, then classify; an IOException becomes a failure with one
   * message, anything else is rethrown.
   */
  function CheckUrl(net: Net, url: string, what: string): (run: Traced<Result<ConnectionResult, Fault>>)
    ensures run.sent == Fetch(net, url).sent
    ensures run.result.Ok? ==> |run.result.value.messages| == 1
    ensures run.result.Err? ==>
      Fetch(net, url).result == Err(run.result.error) && !run.result.error.IsIOException()
    ensures (run.result.Ok? && run.result.value.status == Success) <==>
      Fetch(net, url).result.Ok? && Classify(Fetch(net, url).result.value.headers, what).status == Success
    ensures Fetch(net, url).result.Ok? ==>
      run.result == Ok(Classify(Fetch(net, url).result.value.headers, what))
    ensures Fetch(net, url).result.Err? && Fetch(net, url).result.error.IsIOException() ==>
      run.result == Ok(ConnectionResult(Failure,
        ["Could not find docker " + what + ". [" + ErrorMessage(Fetch(net, url).result.error) + "]"]))
    ensures Fetch(net, url).result.Err? && !Fetch(net, url).result.error.IsIOException() ==>
      run.result == Err(Fetch(net, url).result.error)
  {
    var fetched := Fetch(net, url);
    var result :=
      match fetched.result
      case Ok(reply) => Ok(Classify(reply.headers, what))
      case Err(f) =>
        if f.IsIOException() then
          Ok(ConnectionResult(Failure, ["Could not find docker " + what + ". [" + ErrorMessage(f) + "]"]))
        else Err(f);
    Traced(result, fetched.sent)
  }

  /**
   * A registry whose 2xx reply leads with the API-version header, in any
   * case, valued "registry/2.<minor>", is found after one request.
   */
  lemma CheckUrlFindsRegistry(net: Net, url: string, reply: Reply, minor: string)
    requires net.send(Get(url, None)) == Replied(reply) && IsSuccess(reply.status)
    requires |reply.headers| > 0 && EqualsIgnoreCase(reply.headers[0].name, DockerHeader)
    requires reply.headers[0].values == [RegistryV2 + minor]
    ensures CheckUrl(net, url, "registry") == Traced(Ok(ConnectionResult(Success, ["Docker registry found."])), [Get(url, None)])
  {
    FetchFirstSuccess(net, url, reply);
    assert Lookup(reply.headers, DockerHeader) == Some([RegistryV2 + minor]);
    assert RegistryV2 <= RegistryV2 + minor;
    assert Classify(reply.headers, "registry").status == Success;
    assert "Docker " + "registry" + " found." == "Docker registry found.";
    assert CheckUrl(net, url, "registry").result == Ok(Classify(reply.headers, "registry"));
  }

  /** checkConnectionToRepository: a failed validation answers at once, without a request. */
  function CheckConnectionToRepository(net: Net, validation: Validation, repository: RepositoryConfig): (run: Traced<Result<ConnectionResult, Fault>>)
    ensures validation.failure ==> run == Traced(Ok(ConnectionResult(Failure, validation.messages)), [])
    ensures !validation.failure ==>
      run == CheckUrl(net, repository.registryUrl, "registry") && run.sent[0] == Get(repository.registryUrl, None)
  {
    if validation.failure then Traced(Ok(ConnectionResult(Failure, validation.messages)), [])
    else CheckUrl(net, repository.registryUrl, "registry")
  }

  /** checkConnectionToPackage: the probe goes to the image's tag list. */
  function CheckConnectionToPackage(net: Net, pkg: PackageConfig, repository: RepositoryConfig): (run: Traced<Result<ConnectionResult, Fault>>)
    ensures run == CheckUrl(net, PackageUrl(repository, pkg), "image")
    ensures run.sent[0] == Get(PackageUrl(repository, pkg), None)
  {
    CheckUrl(net, PackageUrl(repository, pkg), "image")
  }

  // ---------------------------------------------------------------------------
  // fetchTags
  // ---------------------------------------------------------------------------

  /** fetchTags: the tags of the reply body; an IOException gives no tags. */
  function FetchTags(net: Net, tagsJson: string -> Option<seq<string>>, url: string): (run: Traced<Result<seq<string>, Fault>>)
    ensures run.sent == Fetch(net, url).sent
    ensures Fetch(net, url).result.Err? && Fetch(net, url).result.error.IsIOException() ==> run.result == Ok([])
    ensures run.result.Err? ==> !run.result.error.IsIOException()
    ensures run.result.Ok? && run.result.value != [] ==>
      Fetch(net, url).result.Ok? && tagsJson(Fetch(net, url).result.value.body) == Some(run.result.value)
    ensures Fetch(net, url).result.Ok? && tagsJson(Fetch(net, url).result.value.body).Some? ==>
      run.result == Ok(tagsJson(Fetch(net, url).result.value.body).value)
    ensures Fetch(net, url).result.Ok? && tagsJson(Fetch(net, url).result.value.body).None? ==>
      run.result == Err(TagsJsonFault)
    ensures Fetch(net, url).result.Err? && !Fetch(net, url).result.error.IsIOException() ==>
      run.result == Err(Fetch(net, url).result.error)
  {
    var fetched := Fetch(net, url);
    var result :=
      match fetched.result
      case Ok(reply) =>
        (match tagsJson(reply.body)
         case Some(tags) => Ok(tags)
         case None => Err(TagsJsonFault))
      case Err(f) => if f.IsIOException() then Ok([]) else Err(f);
    Traced(result, fetched.sent)
  }

  /** An unreachable registry gives no tags, and a check reports it as not found. */
  lemma UnreachableRegistry(net: Net, tagsJson: string -> Option<seq<string>>, url: string, what: string, detail: string)
    requires net.send(Get(url, None)) == Unreachable(detail)
    ensures FetchTags(net, tagsJson, url) == Traced(Ok([]), [Get(url, None)])
    ensures CheckUrl(net, url, what).result ==
      Ok(ConnectionResult(Failure, ["Could not find docker " + what + ". [" + detail + "]"]))
  {
    FetchUnreachable(net, url, detail);
  }

  /**
   * A token body that cannot be read is not an IOException: it escapes both
   * fetchTags and checkUrl instead of giving no tags or a failed check.
   */
  lemma UnreadableTokenEscapes(net: Net, tagsJson: string -> Option<seq<string>>, url: string, what: string,
                               challenge: Reply, tokenUrl: string, tokenReply: Reply)
    requires net.send(Get(url, None)) == Replied(challenge) && challenge.status == 401
    requires Authenticate(challenge.headers).Some? && Realm(Authenticate(challenge.headers).value) == Some(tokenUrl)
    requires net.send(Get(tokenUrl, None)) == Replied(tokenReply) && IsSuccess(tokenReply.status)
    requires net.tokenJson(tokenReply.body).None?
    ensures FetchTags(net, tagsJson, url).result == Err(TokenJsonFault)
    ensures CheckUrl(net, url, what).result == Err(TokenJsonFault)
  {
    FetchTokenFails(net, url, challenge, tokenUrl);
  }

  // ---------------------------------------------------------------------------
  // getLatestRevision
  // ---------------------------------------------------------------------------

  /** An empty filter means ".*". */
  function EffectiveFilter(filter: string): (r: string)
    ensures r != "" && (filter != "" ==> r == filter)
  {
    if filter == "" then ".*" else filter
  }

  /** An empty tag filter behaves exactly as the filter ".*". */
  lemma EmptyFilterIsDotStar(env: Env, repository: RepositoryConfig, image: string)
    ensures LatestRevision(env, repository, PackageConfig(image, "")) ==
            LatestRevision(env, repository, PackageConfig(image, ".*"))
  {
    assert PackageUrl(repository, PackageConfig(image, "")) == PackageUrl(repository, PackageConfig(image, ".*"));
  }

  /**
   * With a pattern engine that compiles ".*" and finds it in every tag, an
   * empty filter selects among all fetched tags.
   */
  lemma EmptyFilterKeepsAllTags(regex: Regex, tags: seq<string>)
    requires regex.compiles(".*") && forall k :: 0 <= k < |tags| ==> regex.finds(".*", tags[k])
    ensures EffectiveFilter("") == ".*"
    ensures Matching(regex.finds, EffectiveFilter(""), tags) == tags
    ensures Select(regex, EffectiveFilter(""), tags) == Ok(NoRevision) <==> tags == []
    ensures tags != [] && AllExpandable(tags) ==>
      Fold("", tags).Ok? && Select(regex, EffectiveFilter(""), tags) == Ok(Revision(Fold("", tags).value))
  {
    MatchingKeepsAll(regex.finds, ".*", tags);
    if tags != [] {
      FoldSucceedsIff("", tags);
      assert Expand("") == Some([]);
    }
  }

  /** The tags in which the pattern is found, in their order (Pattern.asPredicate). */
  function Matching(finds: (string, string) -> bool, filter: string, tags: seq<string>): (m: seq<string>)
    ensures |m| <= |tags|
    ensures forall t :: t in m <==> t in tags && finds(filter, t)
  {
    if tags == [] then []
    else
      var rest := Matching(finds, filter, tags[1..]);
      assert forall t :: t in tags <==> t == tags[0] || t in tags[1..];
      if finds(filter, tags[0]) then [tags[0]] + rest else rest
  }

  /** Filtering a concatenation filters each part: the order of the tags is kept. */
  lemma {:induction false} MatchingAppend(finds: (string, string) -> bool, filter: string, a: seq<string>, b: seq<string>)
    ensures Matching(finds, filter, a + b) == Matching(finds, filter, a) + Matching(finds, filter, b)
  {
    if a == [] {
      assert a + b == b;
    } else {
      assert (a + b)[0] == a[0] && (a + b)[1..] == a[1..] + b;
      MatchingAppend(finds, filter, a[1..], b);
    }
  }

  /** A filter found in every tag keeps the list as it is. */
  lemma {:induction false} MatchingKeepsAll(finds: (string, string) -> bool, filter: string, tags: seq<string>)
    requires forall k :: 0 <= k < |tags| ==> finds(filter, tags[k])
    ensures Matching(finds, filter, tags) == tags
  {
    if tags != [] {
      assert forall k :: 0 <= k < |tags[1..]| ==> tags[1..][k] == tags[k + 1];
      MatchingKeepsAll(finds, filter, tags[1..]);
    }
  }

  /**
   * The try block of getLatestRevision: compile the filter, keep the tags it
   * is found in, and fold biggest over them from "".
   */
  function Select(regex: Regex, filter: string, tags: seq<string>): (r: Result<Revision, Fault>)
    ensures r == Err(InvalidFilter(filter)) <==> !regex.compiles(filter)
    ensures r == Ok(NoRevision) <==> regex.compiles(filter) && Matching(regex.finds, filter, tags) == []
    ensures r == Err(NumberFormat) <==>
      regex.compiles(filter) && Matching(regex.finds, filter, tags) != [] &&
      !AllExpandable(Matching(regex.finds, filter, tags))
    ensures regex.compiles(filter) && Matching(regex.finds, filter, tags) != [] &&
            AllExpandable(Matching(regex.finds, filter, tags)) ==>
              r.Ok? && r.value.Revision?
    ensures r.Err? ==> r.error == InvalidFilter(filter) || r.error == NumberFormat
    ensures r.Ok? && r.value.Revision? ==>
      var m := Matching(regex.finds, filter, tags);
      r.value.tag in m && regex.finds(filter, r.value.tag) && Expandable(r.value.tag) &&
      forall k :: 0 <= k < |m| ==> Expandable(m[k]) && !LexGreater(Key(m[k]), Key(r.value.tag))
  {
    if !regex.compiles(filter) then Err(InvalidFilter(filter))
    else
      var matching := Matching(regex.finds, filter, tags);
      if matching == [] then Ok(NoRevision)
      else
        FoldSucceedsIff("", matching);
        assert Expand("") == Some([]);
        if AllExpandable(matching) then
          LatestIsLastMaximum(matching);
          Ok(Revision(Fold("", matching).value))
        else
          Err(NumberFormat)
  }

  /** Among the matching tags of maximal key, the last one in list order is chosen. */
  lemma SelectLastWins(regex: Regex, filter: string, tags: seq<string>, t: string)
    requires Select(regex, filter, tags) == Ok(Revision(t))
    ensures Expandable(t)
    ensures exists k ::
              0 <= k < |Matching(regex.finds, filter, tags)| && Matching(regex.finds, filter, tags)[k] == t &&
              forall j :: k < j < |Matching(regex.finds, filter, tags)| ==>
                Expandable(Matching(regex.finds, filter, tags)[j]) &&
                LexGreater(Key(t), Key(Matching(regex.finds, filter, tags)[j]))
  {
    var m := Matching(regex.finds, filter, tags);
    FoldSucceedsIff("", m);
    assert Expand("") == Some([]);
    LatestIsLastMaximum(m);
    var k :| 0 <= k < |m| && Fold("", m).value == m[k] &&
      (forall j :: 0 <= j < |m| ==> !LexGreater(Key(m[j]), Key(m[k]))) &&
      (forall j :: k < j < |m| ==> LexGreater(Key(m[k]), Key(m[j])));
    assert m[k] == t;
  }

  /** getLatestRevision: fetch the tags first, then select among them. */
  function LatestRevision(env: Env, repository: RepositoryConfig, pkg: PackageConfig): (run: Traced<Result<Revision, Fault>>)
    ensures run.sent == Fetch(env.net, PackageUrl(repository, pkg)).sent
    ensures run.result.Ok? ==>
      FetchTags(env.net, env.tagsJson, PackageUrl(repository, pkg)).result.Ok?
    ensures var fetched := FetchTags(env.net, env.tagsJson, PackageUrl(repository, pkg)).result;
      fetched.Err? ==> run.result == Err(fetched.error)
    ensures var fetched := FetchTags(env.net, env.tagsJson, PackageUrl(repository, pkg)).result;
      var filter := EffectiveFilter(pkg.tagFilter);
      run.result == Ok(NoRevision) <==>
        fetched.Ok? && env.regex.compiles(filter) && Matching(env.regex.finds, filter, fetched.value) == []
    ensures var fetched := FetchTags(env.net, env.tagsJson, PackageUrl(repository, pkg)).result;
      var filter := EffectiveFilter(pkg.tagFilter);
      fetched.Ok? && !env.regex.compiles(filter) ==> run.result == Err(InvalidFilter(filter))
    ensures var fetched := FetchTags(env.net, env.tagsJson, PackageUrl(repository, pkg)).result;
      var filter := EffectiveFilter(pkg.tagFilter);
      fetched.Ok? && env.regex.compiles(filter) && Matching(env.regex.finds, filter, fetched.value) != [] ==>
        (run.result.Ok? && run.result.value.Revision? <==> AllExpandable(Matching(env.regex.finds, filter, fetched.value))) &&
        (run.result == Err(NumberFormat) <==> !AllExpandable(Matching(env.regex.finds, filter, fetched.value)))
    ensures run.result.Ok? && run.result.value.Revision? ==>
      var tags := FetchTags(env.net, env.tagsJson, PackageUrl(repository, pkg)).result.value;
      var filter := EffectiveFilter(pkg.tagFilter);
      run.result.value.tag in tags && env.regex.finds(filter, run.result.value.tag) &&
      Expandable(run.result.value.tag) &&
      forall t :: t in Matching(env.regex.finds, filter, tags) ==>
        Expandable(t) && !LexGreater(Key(t), Key(run.result.value.tag))
  {
    var fetched := FetchTags(env.net, env.tagsJson, PackageUrl(repository, pkg));
    var result :=
      match fetched.result
      case Err(f) => Err(f)
      case Ok(tags) => Select(env.regex, EffectiveFilter(pkg.tagFilter), tags);
    Traced(result, fetched.sent)
  }

  /** getLatestRevision as the source writes it, with its loop over the matching tags. */
  method GetLatestRevision(env: Env, repository: RepositoryConfig, pkg: PackageConfig)
    returns (result: Result<Revision, Fault>, sent: seq<Request>)
    ensures Traced(result, sent) == LatestRevision(env, repository, pkg)
  {
    var fetched := FetchTags(env.net, env.tagsJson, PackageUrl(repository, pkg));
    sent := fetched.sent;
    if fetched.result.Err? {
      return Err(fetched.result.error), sent;
    }
    var filter := pkg.tagFilter;
    if filter == "" {
      filter := ".*";
    }
    if !env.regex.compiles(filter) {
      return Err(InvalidFilter(filter)), sent;
    }
    var matching := Matching(env.regex.finds, filter, fetched.result.value);
    if matching == [] {
      return Ok(NoRevision), sent;
    }
    var latest := LatestTag(matching);
    if latest.Err? {
      FoldSucceedsIff("", matching);
      assert Expand("") == Some([]);
      return Err(latest.error), sent;
    }
    FoldSucceedsIff("", matching);
    assert Expand("") == Some([]);
    result := Ok(Revision(latest.value));
  }

  // ---------------------------------------------------------------------------
  // getLatestRevisionSince
  // ---------------------------------------------------------------------------

  /**
   * The decision of getLatestRevisionSince as written: biggest(previous,
   * latest) must equal the latest tag. When no tag matched, the latest
   * revision is null and expandNums(null) raises a NullPointerException,
   * after expandNums(previous) has had its chance to fail.
   */
  function NewerAsWritten(previous: string, latest: Result<Revision, Fault>): (r: Result<Revision, Fault>)
    ensures latest.Err? ==> r == latest
    ensures latest == Ok(NoRevision) ==>
      r == (if Expandable(previous) then Err(NullRevision) else Err(NumberFormat))
    ensures latest.Ok? && latest.value.Revision? && r.Ok? ==> r == latest || r == Ok(NoRevision)
  {
    match latest
    case Err(f) => Err(f)
    case Ok(NoRevision) => if !Expandable(previous) then Err(NumberFormat) else Err(NullRevision)
    case Ok(Revision(tag)) =>
      match Biggest(previous, tag)
      case Err(f) => Err(f)
      case Ok(winner) => if winner == tag then Ok(Revision(tag)) else Ok(NoRevision)
  }

  /** Polling an image whose filter matches nothing fails instead of reporting no revision. */
  lemma NewerAsWrittenFailsWithoutMatch(previous: string)
    ensures NewerAsWritten(previous, Ok(NoRevision)).Err?
    ensures NewerAsWritten(previous, Ok(NoRevision)) != Ok(NoRevision)
  {
  }

  /**
   * The decision as intended: no matching tag means no new revision; otherwise
   * the latest tag is reported exactly when previous is not above it.
   */
  function Newer(previous: string, latest: Result<Revision, Fault>): (r: Result<Revision, Fault>)
    ensures latest == Ok(NoRevision) ==> r == Ok(NoRevision)
    ensures latest.Err? ==> r == latest
    ensures latest.Ok? && latest.value.Revision? ==>
      var t := latest.value.tag;
      (r.Err? <==> !Expandable(previous) || !Expandable(t)) &&
      (r == Ok(latest.value) <==> Expandable(previous) && Expandable(t) && !LexGreater(Key(previous), Key(t))) &&
      (r == Ok(NoRevision) <==> Expandable(previous) && Expandable(t) && LexGreater(Key(previous), Key(t)))
    ensures latest.Ok? && r.Err? ==> r.error == NumberFormat
  {
    match latest
    case Err(f) => Err(f)
    case Ok(NoRevision) => Ok(NoRevision)
    case Ok(Revision(tag)) =>
      match Biggest(previous, tag)
      case Err(f) => Err(f)
      case Ok(winner) =>
        assert previous != tag ==> (winner == previous <==> LexGreater(Key(previous), Key(tag))) by {
          if previous != tag {
            BiggestPicksFirstIff(previous, tag);
          }
        }
        assert previous == tag ==> !LexGreater(Key(previous), Key(tag)) by {
          LexIrreflexive(Key(tag));
        }
        if winner == tag then Ok(Revision(tag)) else Ok(NoRevision)
  }

  /** Where a tag matched, the intended decision is the one the source makes. */
  lemma NewerAgreesWhenMatched(previous: string, latest: Result<Revision, Fault>)
    requires latest != Ok(NoRevision)
    ensures Newer(previous, latest) == NewerAsWritten(previous, latest)
  {
  }

  /** An unchanged tag is reported again as the latest revision. */
  lemma NewerOfSameTag(t: string)
    requires Expandable(t)
    ensures Newer(t, Ok(Revision(t))) == Ok(Revision(t))
  {
    LexIrreflexive(Key(t));
  }

  /** getLatestRevisionSince, with the decision as intended. */
  function LatestRevisionSince(env: Env, repository: RepositoryConfig, pkg: PackageConfig, previous: string): (run: Traced<Result<Revision, Fault>>)
    ensures run.sent == Fetch(env.net, PackageUrl(repository, pkg)).sent
    ensures forall t :: run.result == Ok(Revision(t)) <==>
      LatestRevision(env, repository, pkg).result == Ok(Revision(t)) &&
      Expandable(previous) && !LexGreater(Key(previous), Key(t))
    ensures LatestRevision(env, repository, pkg).result == Ok(NoRevision) ==> run.result == Ok(NoRevision)
    ensures LatestRevision(env, repository, pkg).result.Err? ==>
      run.result == LatestRevision(env, repository, pkg).result
    ensures forall t :: LatestRevision(env, repository, pkg).result == Ok(Revision(t)) ==>
      (run.result == Ok(NoRevision) <==> Expandable(previous) && LexGreater(Key(previous), Key(t))) &&
      (run.result.Err? <==> !Expandable(previous)) &&
      (run.result.Err? ==> run.result.error == NumberFormat)
  {
    var latest := LatestRevision(env, repository, pkg);
    Traced(Newer(previous, latest.result), latest.sent)
  }
}
