# gocd-docker-poller: tag selection and registry probing, in Dafny

This project models the core of the GoCD package-material plugin that polls a
Docker registry. That core is `PackageRepositoryPoller`. It does the following:

- builds the tag-list URL of an image (`getDockerPackageUrl`);
- fetches it and answers a bearer-token challenge on the way (`getUrl`,
  following sections 2.1 and 3 of RFC 6750);
- probes a registry or an image for the `docker-distribution-api-version`
  header (`checkUrl`, `checkConnectionToRepository`,
  `checkConnectionToPackage`);
- lists tags (`fetchTags`);
- picks the latest tag that the configured filter finds (`getLatestRevision`);
- decides whether that tag is newer than the one GoCD saw last
  (`getLatestRevisionSince`).

Tags are ordered by `biggest`. It compares tags after `expandNums` has
rewritten every run of digits as its value, zero-padded to width six, so that
`v9` sorts before `v10`.

The modules are:

- `Wrappers`: `Option` and `Result`.
- `Faults`: the exceptions the poller can raise. A flag separates the checked
  `IOException`s, which the poller catches, from the unchecked ones, which it
  lets through.
- `Strings`: ASCII digits, Java's `String.compareTo` (as `LexGreater`), the
  rendering of a Java list (`[a, b]`) and ASCII case folding.
- `Expansion`: `expandNums`. `Expand` is the specification and `ExpandNums`
  is the loop of the source proved against it. `Expand` fails (`None`) where
  `Integer.parseInt` would throw.
- `Comparator`: `biggest`, and the fold of `getLatestRevision`. `LatestTag` is
  the loop proved against `Fold`.
- `Http`: `getUrl` as a state machine over at most three requests. `Fetch` is
  the specification, and `GetUrl` and `Authorise` are the straight-line method
  that reassigns its request.
- `Poller`: URL building, classification, tag listing, selection and change
  detection.

The HTTP transport, the JSON reading of the token and tag-list bodies, and the
regex engine are parameters: `Net`, `Env.tagsJson` and `Regex`. Every
operation that sends requests returns the requests it sent, in order, so that
properties such as "no request is sent when validation fails" or "the third
request is the authorised retry" can be stated.

The poller's class has only final fields and changes no state, so the model
has no class. The source's loops are methods: `ExpandNums`, `LatestTag`, and
the straight-line `GetUrl` that reassigns `request`.

## Model

| member | source | states |
|---|---|---|
| Expansion.Expand | src/main/java/se/thinkware/gocd/dockerpoller/PackageRepositoryPoller.java:179-190 | expandNums as a function, with `None` for the parse failure; a successful expansion is empty iff the input is, and starts with a digit iff the input does (runs become padded runs, other characters are copied); its full description is in the lemmas below |
| Expansion.ExpandNums | src/main/java/se/thinkware/gocd/dockerpoller/PackageRepositoryPoller.java:179-190 | the find/appendReplacement/appendTail loop computes exactly `Expand(s)`, the run-by-run rewrite, including the parse failure |
| Expansion.FindDigits | src/main/java/se/thinkware/gocd/dockerpoller/PackageRepositoryPoller.java:180-183 | one `m.find()` for `[0-9]+`: the text skipped is digit-free, and the match found is a maximal run of digits |
| Expansion.ExpandKeepsNonDigits | src/main/java/se/thinkware/gocd/dockerpoller/PackageRepositoryPoller.java:179-190 | the expansion keeps every non-digit character in order |
| Expansion.ExpandRuns | src/main/java/se/thinkware/gocd/dockerpoller/PackageRepositoryPoller.java:184-187 | the digit runs of the expansion are the original runs, each replaced by its value zero-padded to width 6 |
| Expansion.Pad | src/main/java/se/thinkware/gocd/dockerpoller/PackageRepositoryPoller.java:184 | `%06d`: all digits and denotes `n`; exactly 6 wide below 10^6; no padding for wider values |
| Expansion.PadOfWide | src/main/java/se/thinkware/gocd/dockerpoller/PackageRepositoryPoller.java:184 | a run of 6 or more digits without a leading zero is rendered unchanged |
| Expansion.ExpandNumber | src/main/java/se/thinkware/gocd/dockerpoller/PackageRepositoryPoller.java:184 | a digit-free prefix followed by a number up to Integer.MAX_VALUE expands to the prefix and the number padded to six digits |
| Expansion.ExpandLeadingZeros | src/main/java/se/thinkware/gocd/dockerpoller/PackageRepositoryPoller.java:183-184 | leading zeros are dropped: a prefix, any number of zeros and a number up to Integer.MAX_VALUE expand to the prefix and the padded number |
| Expansion.ExpandTwoNumbers | src/main/java/se/thinkware/gocd/dockerpoller/PackageRepositoryPoller.java:179-190 | two numbers separated by non-digit text (a dotted version) are each padded, and the text around them is kept |
| Expansion.ExpandWideNumber | src/main/java/se/thinkware/gocd/dockerpoller/PackageRepositoryPoller.java:184 | a run of 6 to 9 digits without a leading zero is left as it is |
| Expansion.ExpandDigitFree | src/main/java/se/thinkware/gocd/dockerpoller/PackageRepositoryPoller.java:179-190 | a digit-free string is returned unchanged |
| Expansion.ExpandSucceedsIff | src/main/java/se/thinkware/gocd/dockerpoller/PackageRepositoryPoller.java:184 | the expansion fails (NumberFormatException) exactly when some run's value exceeds Integer.MAX_VALUE |
| Expansion.ExpandIdempotent | src/main/java/se/thinkware/gocd/dockerpoller/PackageRepositoryPoller.java:179-190 | expanding an expansion changes nothing |
| Expansion.PadOrder | src/main/java/se/thinkware/gocd/dockerpoller/PackageRepositoryPoller.java:184 | below 10^6 the padded forms compare as their numbers do |
| Expansion.DigitsOrder | src/main/java/se/thinkware/gocd/dockerpoller/PackageRepositoryPoller.java:195 | digit strings of equal length compare under compareTo as their values do |
| Expansion.DecimalOfValue | src/main/java/se/thinkware/gocd/dockerpoller/PackageRepositoryPoller.java:184 | the decimal rendering of a digit string's value is that string when it has no leading zero |
| Expansion.RunLength | src/main/java/se/thinkware/gocd/dockerpoller/PackageRepositoryPoller.java:180 | `[0-9]+` is greedy: the run it takes is all digits and is followed by a non-digit or the end |
| Comparator.Biggest | src/main/java/se/thinkware/gocd/dockerpoller/PackageRepositoryPoller.java:192-200 | returns one of its arguments; fails exactly when either expansion fails; the result's key is not below either key; equal keys give the second |
| Comparator.BiggestPicksFirstIff | src/main/java/se/thinkware/gocd/dockerpoller/PackageRepositoryPoller.java:195-199 | for different tags, the first is returned iff its expansion is strictly greater |
| Comparator.BiggestOfSame | src/main/java/se/thinkware/gocd/dockerpoller/PackageRepositoryPoller.java:192-200 | `biggest(a, a) == a` |
| Comparator.BiggestV9V10 | src/main/java/se/thinkware/gocd/dockerpoller/PackageRepositoryPoller.java:192-200 | `biggest("v9", "v10") == "v10"` |
| Comparator.BiggestNumeric | src/main/java/se/thinkware/gocd/dockerpoller/PackageRepositoryPoller.java:192-200 | for tags that are one prefix and a number below 10^6, the numerically larger one wins |
| Comparator.BiggestTwoNumbers | src/main/java/se/thinkware/gocd/dockerpoller/PackageRepositoryPoller.java:192-200 | for tags of the same shape with two numbers below 10^6 (such as `1.10` and `2.0`), the winner is the one whose first number is larger, or whose second number is larger when the first ones are equal; the second argument on a tie |
| Comparator.TwoPaddedOrder | src/main/java/se/thinkware/gocd/dockerpoller/PackageRepositoryPoller.java:184-195 | two padded numbers in the same surrounding text compare under compareTo by the first number, then by the second |
| Strings.FrameOrder | src/main/java/se/thinkware/gocd/dockerpoller/PackageRepositoryPoller.java:195 | compareTo on `p + x + q + y` with equal-length `x` parts decides on `x`, and on `y` only when the `x` parts are equal |
| Comparator.LatestOfDottedVersions | src/main/java/se/thinkware/gocd/dockerpoller/PackageRepositoryPoller.java:224-227 | the fold over `1.0`, `2.0`, `1.10` returns `2.0` |
| Comparator.BiggestBeyondWidth | src/main/java/se/thinkware/gocd/dockerpoller/PackageRepositoryPoller.java:184-199 | beyond width 6 the order is textual: a longer number with a smaller first digit loses to a 6-digit one although it is larger |
| Comparator.WiderIsLarger | src/main/java/se/thinkware/gocd/dockerpoller/PackageRepositoryPoller.java:184 | a wider digit string without a leading zero has the larger value |
| Comparator.Fold | src/main/java/se/thinkware/gocd/dockerpoller/PackageRepositoryPoller.java:224-227 | the fold of biggest can only fail with NumberFormatException |
| Comparator.FoldSucceedsIff | src/main/java/se/thinkware/gocd/dockerpoller/PackageRepositoryPoller.java:224-227 | the fold succeeds iff the start and every tag expand |
| Comparator.FoldIsLastMaximum | src/main/java/se/thinkware/gocd/dockerpoller/PackageRepositoryPoller.java:224-227 | the fold ends on a value not below the start or any tag: the start itself when it beats all tags, else a tag strictly above every later tag |
| Comparator.LatestIsLastMaximum | src/main/java/se/thinkware/gocd/dockerpoller/PackageRepositoryPoller.java:224-227 | from "", the result is one of the tags (the initial "" is always replaced), maximal among them, and the last of the maximal ones |
| Comparator.LatestTag | src/main/java/se/thinkware/gocd/dockerpoller/PackageRepositoryPoller.java:224-227 | the `for` loop updating `latest` computes `Fold("", tags)` |
| Http.LookupFirstMatch | src/main/java/se/thinkware/gocd/dockerpoller/PackageRepositoryPoller.java:64 | a header lookup ignoring case finds a value iff some header name matches, and then it finds the first one |
| Http.QuoteFreeRun | src/main/java/se/thinkware/gocd/dockerpoller/PackageRepositoryPoller.java:68 | `[^"]+` is greedy: the run is quote-free and ends at a quote or at the end |
| Http.AuthenticateFirstMatch | src/main/java/se/thinkware/gocd/dockerpoller/PackageRepositoryPoller.java:64 | when the k-th header is the first whose name is WWW-Authenticate ignoring case, the challenge is its first value, and there is none when that header has no value |
| Http.AuthenticateAbsent | src/main/java/se/thinkware/gocd/dockerpoller/PackageRepositoryPoller.java:64-66 | without a header named WWW-Authenticate in any case there is no challenge |
| Http.RealmAt | src/main/java/se/thinkware/gocd/dockerpoller/PackageRepositoryPoller.java:67-72 | `realm="([^"]+)"` matches at a position iff `realm="` matches there ignoring ASCII case and a non-empty quote-free run closed by a quote follows; the group is that run |
| Http.RealmFrom | src/main/java/se/thinkware/gocd/dockerpoller/PackageRepositoryPoller.java:71-72 | `find()` gives the group of the leftmost position that matches, and fails iff no position does |
| Http.RealmOfBearerChallenge | src/main/java/se/thinkware/gocd/dockerpoller/PackageRepositoryPoller.java:67-72 | from `Bearer realm="<u>"...` the realm read back is exactly `u` |
| Http.Fetch | src/main/java/se/thinkware/gocd/dockerpoller/PackageRepositoryPoller.java:53-97 | at most three requests, the first a plain GET of the URL; a success is a 2xx reply to the last request; only the last request carries credentials; a third request is the authorised retry of the same URL |
| Http.Challenge | src/main/java/se/thinkware/gocd/dockerpoller/PackageRepositoryPoller.java:67-92 | after a challenge: no request iff the challenge names no realm (and then the fault is the failed match); otherwise the first request is a credential-free GET of the realm, and any second request is the authorised retry of the URL |
| Http.Answer | src/main/java/se/thinkware/gocd/dockerpoller/PackageRepositoryPoller.java:75-92 | the token GET goes to the realm without credentials; success requires the 2xx reply to the retry, which carries credentials |
| Http.FetchFirstSuccess | src/main/java/se/thinkware/gocd/dockerpoller/PackageRepositoryPoller.java:54-61 | a 2xx first response is returned after one request |
| Http.FetchNoRealm | src/main/java/se/thinkware/gocd/dockerpoller/PackageRepositoryPoller.java:63-72 | a 401 whose challenge names no realm fails with the failed match after the one request |
| Http.FetchRejectsStatus | src/main/java/se/thinkware/gocd/dockerpoller/PackageRepositoryPoller.java:63-96 | any non-2xx other than a 401 with WWW-Authenticate throws HttpResponseException after one request |
| Http.FetchUnreachable | src/main/java/se/thinkware/gocd/dockerpoller/PackageRepositoryPoller.java:53-56 | an unreachable registry fails with an IOException after the one request |
| Http.FetchTokenFails | src/main/java/se/thinkware/gocd/dockerpoller/PackageRepositoryPoller.java:75-84 | after a challenge with a realm, an unreachable realm or a non-2xx token reply is an IOException, and an unreadable token body is a fault that is not an IOException; each ends the exchange after two requests |
| Http.FetchTokenMissing | src/main/java/se/thinkware/gocd/dockerpoller/PackageRepositoryPoller.java:86-88 | a token body without a `token` entry makes the retry carry `Bearer null` |
| Http.FetchBearerChallenge | src/main/java/se/thinkware/gocd/dockerpoller/PackageRepositoryPoller.java:63-92 | a 401 with a realm leads to the token GET and one retry with `Bearer <token>` whose reply decides the outcome; exactly three requests |
| Http.FetchRealmChallenge | src/main/java/se/thinkware/gocd/dockerpoller/PackageRepositoryPoller.java:63-92 | a challenge `Bearer realm="u"` answered with token `t` makes the third request `GET url` with `Bearer t` |
| Http.GetUrl | src/main/java/se/thinkware/gocd/dockerpoller/PackageRepositoryPoller.java:53-97 | the step-by-step method sends the same requests and returns the same outcome as `Fetch` |
| Http.Authorise | src/main/java/se/thinkware/gocd/dockerpoller/PackageRepositoryPoller.java:75-92 | the token-and-retry steps of the method agree with `Answer` |
| Poller.PackageUrl | src/main/java/se/thinkware/gocd/dockerpoller/PackageRepositoryPoller.java:170-177 | the URL is the registry URL, then the image, then `/tags/list`, each verbatim |
| Poller.PackageUrlInjective | src/main/java/se/thinkware/gocd/dockerpoller/PackageRepositoryPoller.java:170-177 | within one registry, different images get different URLs |
| Poller.PackageUrlKeepsSlashes | src/main/java/se/thinkware/gocd/dockerpoller/PackageRepositoryPoller.java:174-176 | no slash normalisation: a trailing and a leading slash give `//` |
| Poller.Classify | src/main/java/se/thinkware/gocd/dockerpoller/PackageRepositoryPoller.java:104-122 | exactly one message; SUCCESS iff the header is present and its first value starts with `registry/2.` (the rendered list starts with `[registry/2.`); then the message is "Docker <what> found." |
| Poller.MissingHeaderListsNames | src/main/java/se/thinkware/gocd/dockerpoller/PackageRepositoryPoller.java:118-121 | without the header the result is FAILURE and its message names every header that was seen |
| Poller.WrongValueCitesValues | src/main/java/se/thinkware/gocd/dockerpoller/PackageRepositoryPoller.java:112-115 | a present API-version header with another value gives a failure whose one message is `Unknown value <values as a Java list> for header docker-distribution-api-version` |
| Poller.CheckUrl | src/main/java/se/thinkware/gocd/dockerpoller/PackageRepositoryPoller.java:99-134 | sends what getUrl sends; one message whenever it returns; a fetched reply gives its classification; an IOException gives FAILURE with `Could not find docker <what>. [<message>]`; any other exception is rethrown unchanged; SUCCESS iff the fetch succeeds and the reply classifies as SUCCESS |
| Poller.CheckUrlFindsRegistry | src/main/java/se/thinkware/gocd/dockerpoller/PackageRepositoryPoller.java:99-122 | a 2xx reply whose API-version header, in any case, says `registry/2.x` gives "Docker registry found." after one request |
| Poller.CheckConnectionToRepository | src/main/java/se/thinkware/gocd/dockerpoller/PackageRepositoryPoller.java:149-159 | a failed validation returns FAILURE with the validation messages and sends nothing; otherwise the registry URL is probed |
| Poller.CheckConnectionToPackage | src/main/java/se/thinkware/gocd/dockerpoller/PackageRepositoryPoller.java:161-168 | the probe goes to the image's tag-list URL, as "image" |
| Poller.FetchTags | src/main/java/se/thinkware/gocd/dockerpoller/PackageRepositoryPoller.java:136-147 | a successful reply gives the tags the JSON reading finds, and a body without them fails; an IOException gives no tags; any other exception is passed on unchanged; a non-empty list is what the JSON reading found in a successful reply |
| Poller.UnreachableRegistry | src/main/java/se/thinkware/gocd/dockerpoller/PackageRepositoryPoller.java:123-128 | an unreachable registry gives no tags, and the connection check fails with `Could not find docker <what>. [<detail>]` |
| Poller.UnreadableTokenEscapes | src/main/java/se/thinkware/gocd/dockerpoller/PackageRepositoryPoller.java:129-133 | an unreadable token body escapes both fetchTags and checkUrl as an exception instead of giving no tags or a failed check |
| Poller.EmptyFilterIsDotStar | src/main/java/se/thinkware/gocd/dockerpoller/PackageRepositoryPoller.java:209-212 | getLatestRevision with an empty tag filter gives exactly what it gives with the filter `.*` |
| Poller.EmptyFilterKeepsAllTags | src/main/java/se/thinkware/gocd/dockerpoller/PackageRepositoryPoller.java:209-227 | when `.*` compiles and is found in every tag, an empty filter keeps every fetched tag: no revision iff there are no tags, and with all tags expandable the revision is the fold over all of them |
| Poller.Matching | src/main/java/se/thinkware/gocd/dockerpoller/PackageRepositoryPoller.java:217 | a tag is kept iff it is a tag and the pattern is found in it |
| Poller.MatchingAppend | src/main/java/se/thinkware/gocd/dockerpoller/PackageRepositoryPoller.java:217 | filtering commutes with concatenation, so the tags keep their order |
| Poller.MatchingKeepsAll | src/main/java/se/thinkware/gocd/dockerpoller/PackageRepositoryPoller.java:209-217 | a filter found in every tag (such as `.*`) keeps the list unchanged |
| Poller.Select | src/main/java/se/thinkware/gocd/dockerpoller/PackageRepositoryPoller.java:215-236 | an invalid filter fails iff it does not compile; no revision iff nothing matches; NumberFormatException iff some match cannot be expanded; when the filter compiles and the matches all expand, a revision, which is a matching tag whose key no match exceeds; no other fault |
| Poller.SelectLastWins | src/main/java/se/thinkware/gocd/dockerpoller/PackageRepositoryPoller.java:224-227 | the chosen tag is strictly above every match after it: the last of the maximal ones wins |
| Poller.LatestRevision | src/main/java/se/thinkware/gocd/dockerpoller/PackageRepositoryPoller.java:202-237 | tags are fetched before the filter is compiled, and a failed fetch is passed on; with the tags fetched and the effective filter (`.*` for an empty one): an invalid filter fails, no revision iff nothing matches, a revision iff the matches all expand and NumberFormatException otherwise; a revision is a fetched tag that the filter finds, and no match has a larger key |
| Poller.GetLatestRevision | src/main/java/se/thinkware/gocd/dockerpoller/PackageRepositoryPoller.java:202-237 | the method with its loop returns what `LatestRevision` specifies |
| Poller.NewerAsWritten | src/main/java/se/thinkware/gocd/dockerpoller/PackageRepositoryPoller.java:245-252 | the decision as written: a failure of the latest revision is passed on; with no matching tag it throws (NumberFormatException if previous cannot be expanded, else the null dereference); otherwise it returns the latest revision or an empty one |
| Poller.NewerAsWrittenFailsWithoutMatch | src/main/java/se/thinkware/gocd/dockerpoller/PackageRepositoryPoller.java:245-246 | as written, when no tag matches, the check throws instead of reporting no revision |
| Poller.Newer | src/main/java/se/thinkware/gocd/dockerpoller/PackageRepositoryPoller.java:246-252 | the latest tag is reported iff previous is not above it (equal keys included); no revision iff previous is above it; failure iff one of them cannot be expanded |
| Poller.NewerAgreesWhenMatched | src/main/java/se/thinkware/gocd/dockerpoller/PackageRepositoryPoller.java:246-252 | whenever a tag matched, the corrected decision is the one the source makes |
| Poller.NewerOfSameTag | src/main/java/se/thinkware/gocd/dockerpoller/PackageRepositoryPoller.java:246-248 | an unchanged tag is reported again as the latest revision |
| Poller.LatestRevisionSince | src/main/java/se/thinkware/gocd/dockerpoller/PackageRepositoryPoller.java:239-253 | uses the corrected decision `Newer`, not the code as written: sends what getLatestRevision sends; when no tag matched (which includes an unreachable or empty tag list) it returns an empty revision where the code throws `NullPointerException`; a failure of getLatestRevision (invalid filter, NumberFormatException, a non-IO fetch failure) is passed on; for a latest tag t it returns t iff previous expands and is not above t, an empty revision iff previous is above t, and NumberFormatException iff previous cannot be expanded |

## Left out

- The HTTP transport is the parameter `Net.send`. It is a deterministic function from a request (URL and optional `Authorization` value) to a reply or an `IOException`. Redirects, reading the body and connection handling happen inside it.
- `GenericUrl` parsing and normalisation are not modelled. URLs are strings and are sent as built, so a malformed realm URL's `IllegalArgumentException` is not modelled.
- Gson is not modelled. The token body is read by `Net.tokenJson`, which gives a map or nothing. Nothing stands for a syntax error, or for a `null` result and the `NullPointerException` that follows; both become `TokenJsonFault`. The tag-list body is read by `Env.tagsJson`; a missing or null `tags` array becomes `TagsJsonFault`.
- Java regular expressions for the tag filter are the parameter `Regex` (whether a pattern compiles, and whether it is found in a string). The message of the re-thrown `PatternSyntaxException` is reduced to the filter.
- `null` elements in the tag list and missing configuration properties are not modelled; every tag and property is a string.
- Logging, `new Date()`, the `"docker"` label and the other fields of the revision message are not modelled; a revision is its tag.
- `validateRepositoryConfiguration` is not modelled; its result is the parameter `Validation`.
- Poller.ErrorMessage: an `HttpResponseException` is rendered as its status code only; the library's message also carries the reason phrase and content.
- Http.Lookup: returns the values of the first header whose name matches. The library merges repeated headers into one list, so with a repeated API-version header the "Unknown value [..]" message would list more values than the model's.
- Poller.HeaderNames: lists header names as received, one per header. The library's key set lower-cases unknown names, merges repeated headers and lists its known fields first.
- Strings.LexGreater: compares Unicode code points, while Java compares UTF-16 code units; the two orders disagree only when a character outside the Basic Multilingual Plane is compared with one from U+E000 to U+FFFF, since a surrogate unit sorts below those but the code point sorts above.
- Expansion.Pad: assumes the default locale writes ASCII digits for `%06d`.
- `PackageRepositoryMaterial.java` (request dispatch and JSON envelopes) and the integration tests are not part of this model.

Where the code and its description differ, the model follows the code:

- Only the first request of `getUrl` has `setThrowExceptionOnExecuteError(false)`. The token request and the authorised retry keep the library's default, so a non-2xx reply to either throws `HttpResponseException`, an `IOException`. The retry's reply is therefore returned only when it is 2xx.
- A token body without a `token` key sends `Bearer null`.
- When the latest tag is the previous one (equal expansions included), `biggest` returns the latest tag, so the revision is reported again rather than an empty one (`Poller.NewerOfSameTag`).
- A challenge without a realm throws `IllegalStateException` from `Matcher.group`. This is unchecked: `checkUrl` rethrows it, and `fetchTags` lets it through.
- A token body that Gson cannot read, or that reads as `null` (then `tokenMap.get` throws `NullPointerException`), is also unchecked: it escapes `fetchTags` and `getLatestRevision` rather than giving an empty tag list (`Poller.UnreadableTokenEscapes`).

## Findings

| source | as written | input that shows it | evidently intended | confidence | as-written member | corrected member |
|---|---|---|---|---|---|---|
| src/main/java/se/thinkware/gocd/dockerpoller/PackageRepositoryPoller.java:245-246 | when the filter matches no tag, `getLatestRevision` returns a message without a revision, and `biggest(previous, null)` calls `expandNums(null)`, which throws `NullPointerException` | any previous revision, say `v1`, with a tag filter that matches none of the fetched tags (or an empty tag list) | report no new revision, as the `else` branch ("Found no matching revision.") does | medium, not executed | Poller.NewerAsWrittenFailsWithoutMatch | Poller.Newer |
