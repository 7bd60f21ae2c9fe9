# cognibot crawler core, modelled in Dafny

This project models the sequential core of the `cognibot` web crawler (Go):

- the robots.txt parser of `robot.go` (`trimSpaces`, `isAllowAll`,
  `isDisallowAll`, `MakeBot`);
- the exclusion decision `robExcl` of `fetch.go`;
- the frontier of `fetch.go`:
  - the lookups `check`, `resolv`, `checkURL`, `count`, `filter` and `docName`;
  - seeding (`addSeed`, `Seed`, `SeedSlice`);
  - the claim, admission and visited steps of `crawl`;
  - the completion test of `watch`.

Files and modules:

| file | module | contents |
|---|---|---|
| `wrappers.dfy` | `Wrappers` | `Option` |
| `strings.dfy` | `Strings` | the parts of Go's `strings` and `regexp` the crawler uses, over `seq<char>` |
| `commands.dfy` | `Commands` | `Url`, `Cmd`, and URL parsing and resolution as function parameters |
| `robots.dfy` | `Robots` | the `Robot` value, `TrimSpaces`, `MakeBot`, and a function `Bot` that specifies it |
| `lookups.dfy` | `Lookups` | `check`, `resolv`, `checkURL`, `count`, `docName`, `filter` |
| `exclusion.dfy` | `Exclusion` | the method `RobExclCheck`, the spec function `RobExcl` it is proved equal to, and the precedence lemmas |
| `frontier.dfy` | `Frontier` | the class `Fetch` with its fields updated in place, the spec functions of admission, and the quota and termination lemmas |
| `runs.dfy` | `Runs` | whole runs: a fresh `Fetch`, seeded, then crawled |

Modelling choices:

- **URLs.** A `*url.URL` is the pair of what the crawler reads from it: its `String()` and its `Host`.
  - `url.Parse` is a function parameter `parse: string -> Url`.
  - `parseCmd(s, base)` is a function parameter `resolve: (string, Url) -> Option<Url>`; `None` is a parse error.
- **Robots and responses.** A `Robot` is never changed after `MakeBot`, so it is a datatype. A robots.txt response is its status code, its body already split into lines, and its request URL.
- **The frontier.** The `Fetch` object is a class. Its fields are `MaxPages`, `HostInfo`, `Queue`, `index`, `HostCount` and `Visited`.
  - Each operation is one atomic step of a single worker.
  - `Valid()` is the invariant: `index <= |Queue|`, `HostCount[i]` is the host of `Queue[i]`, and every robot's groups are well formed, as `MakeBot` builds them.
  - `Settled()` says that `Visited` is exactly the claimed prefix of `Queue`. It holds between crawl steps.
- **The network, disk and link extraction** are function parameters:
  - `robots` gives the robots.txt reply of a seed;
  - `fetchPage`, `save` and `links` stand for the page request, the file write under `docName`, and `collectlinks.All`;
  - `available` stands for the per-link availability request.

Where the code departs from its own comments (robot.go:70, fetch.go:229-236)
or from the usual reading of robots.txt, the model follows the code:

- **robots.txt status** (robot.go:71). The guard `StatusCode >= 400 && StatusCode > 500` holds exactly when the status is above 500.
  - Among statuses other than 200, only one above 500 gives `FullAllow`.
  - Any other status except 200, a 404 included, gives a robot with no groups and no shortcut.
- **Blank and white-space lines** (robot.go:87-89). Only lines that are empty after lower-casing are skipped. After a user-agent line, a line of white space is stored as the directive `""`; before the first user-agent line it is dropped like any other line (robot.go:97).
- **No matching directive in the fallback scan** (fetch.go:270-296). When neither root shortcut applies and no rule decides, the fallback leaves `rootExcl` true; unless a later robot decides or resets it, the candidate is permitted. When no robot has a `"user-agent:*"` group, `rootExcl` keeps its zero value and the candidate is refused.
- **The fallback's allow case** (fetch.go:283). It strips `"disallow:/"`, so an `"allow:/…"` directive is resolved whole.
- **Page failures** (fetch.go:352). A page counts as failed on a transport error or any status above 300.
- **The supervisor** (fetch.go:473-487). `watch` tests only completion: at least one page visited, a non-empty queue, and no more queued than visited.

## Model

| member | source | states |
|---|---|---|
| Strings.RemoveSpace | robot.go:28-37 | removing white space never makes a string longer |
| Strings.RemoveSpaceIsSpaceFree | robot.go:28-37 | no `\t \n \f \r` or space is left |
| Strings.RemoveSpaceOfSpaceFree | robot.go:28-37 | a string without white space is returned unchanged, so every other character is kept in order |
| Strings.RemoveSpaceAppend | robot.go:28-37 | removing white space distributes over concatenation |
| Strings.RemoveSpaceIdempotent | robot.go:28-37 | trimming twice is trimming once |
| Strings.RemoveSpaceKeepsPrefix | robot.go:92-93 | a white-space-free prefix such as "user-agent:" survives trimming |
| Strings.ToLower | robot.go:87 | lower-casing keeps the length and maps each character |
| Strings.ToLowerIdempotent | fetch.go:310 | lower-casing twice is lower-casing once |
| Strings.HasPrefix | robot.go:92 | definition: `strings.HasPrefix`, the string starts with the prefix |
| Strings.HasSuffix | fetch.go:313 | definition: `strings.HasSuffix`, the string ends with the suffix |
| Strings.TrimPrefix | fetch.go:246 | with the prefix present the input is prefix plus result, otherwise the input itself |
| Strings.TrimSuffix | robot.go:72 | with the suffix present the input is result plus suffix, otherwise the input itself |
| Strings.Contains | fetch.go:311-327 | definition: `strings.Contains`, the substring starts at some position of the string |
| Strings.Split | fetch.go:224 | splitting never yields an empty list |
| Strings.Join | fetch.go:225 | definition: `strings.Join`, the parts with the glue between each two neighbours |
| Strings.JoinSplit | fetch.go:224-225 | splitting at a character and joining with a glue replaces each occurrence by the glue |
| Strings.ReplaceFacts | fetch.go:222-226 | after replacement by a glue without the character, none is left and the length grows by glue length minus one per occurrence |
| Robots.ClearSpaces | robot.go:29-30 | definition: the regexp replacement of `trimSpaces`, each white-space character replaced by a blank and every other kept; the length is kept |
| Robots.ClearThenDropBlanks | robot.go:29-31 | blanking white space then dropping blanks is removing white space |
| Robots.TrimSpaces | robot.go:28-37 | the regexp-split-concatenate loop of `trimSpaces` removes exactly the white space |
| Commands.NewCmd | cmd.go:36-45 | definition: the parsed URL with method "GET" |
| Robots.IsAllowAll | robot.go:40-51 | definition: exactly one group, with exactly one directive, which trims to "allow:/" |
| Robots.IsDisallowAll | robot.go:54-65 | definition: exactly one group, with exactly one directive, which trims to "disallow:/" |
| Robots.AllowAllExcludesDisallowAll | robot.go:40-65 | no group map is both allow-all and disallow-all |
| Robots.AllowAllIsSingleton | robot.go:40-51 | `isAllowAll` holds iff the map has one key whose one directive trims to "allow:/" |
| Robots.ShortcutsOfParsedGroups | robot.go:40-65 | on well-formed groups, `isAllowAll` holds iff the map has one key whose list is exactly `["allow:/"]`, and `isDisallowAll` iff it is exactly `["disallow:/"]` |
| Robots.ScanLine | robot.go:87-99 | definition: a line empty after lower-casing is skipped; a "user-agent:" line sets the trimmed key and `status`; any other line, once `status` is set and the key is not empty, is appended, lower-cased and trimmed, to the key's list |
| Robots.ScanFrom | robot.go:86-100 | definition: the lines scanned one at a time, in order, from a given state |
| Robots.ParseGroups | robot.go:83-100 | definition: the group map left by scanning all lines from no groups, no key and `status` false |
| Robots.ScanLineKeepsInvariant | robot.go:87-99 | one scanned line keeps groups well formed and `status` true exactly when a key is set |
| Robots.ScanFromKeepsInvariant | robot.go:86-100 | the whole scan keeps that invariant |
| Robots.ParsedGroupsWellFormed | robot.go:92-98 | every parsed key starts with "user-agent:", every list is non-empty, all lower case without white space |
| Robots.ScanFromAppend | robot.go:86-100 | scanning `a + b` is scanning `a`, then `b` |
| Robots.NoAgentLineKeepsStart | robot.go:97 | lines without a user-agent line leave the scan in its start state |
| Robots.LeadingLinesDropped | robot.go:84-99 | lines before the first user-agent line are dropped |
| Robots.DirectiveAppends | robot.go:97-98 | a directive line appends its trimmed text to the current key's list (so repeated agents extend one list) |
| Robots.AgentLineSelectsKey | robot.go:92-95 | a user-agent line changes no group and makes its trimmed text the current key |
| Robots.Bot | robot.go:68-117 | root URL is the request URL without "robots.txt"; flags never both set; `FullAllow` iff status > 500 or (200 and allow-all); `FullDisallow` iff 200 and disallow-all; groups only for 200; delay |
| Robots.MakeBot | robot.go:68-117 | the status branches and the line loop compute exactly `Bot` |
| Robots.TwoLineGroup | robot.go:86-99 | an agent line then a directive line give a single one-entry group |
| Robots.DisallowAllExample | robot.go:104-108 | "User-agent: *" then a line trimming to "disallow:/" gives `FullDisallow` |
| Robots.AllowAllExample | robot.go:104-105 | "User-agent: *" then a line trimming to "allow:/" gives `FullAllow` |
| Robots.LiteralDisallowAll | robot.go:68-108 | status 200 with the body "User-agent: *", "Disallow:/" gives `FullDisallow` |
| Robots.LiteralAllowAll | robot.go:68-108 | status 200 with the body "User-agent: *", "Allow:/" gives `FullAllow` |
| Robots.ExampleLines | robot.go:87-92 | "User-agent: *" is an agent line and "Disallow:/" / "Allow:/" lower-case to the root directives |
| Robots.NotFoundIsNotFullAllow | robot.go:115-116 | a 404 gives no shortcut, no groups and zero delay |
| Lookups.Check | fetch.go:161-169 | true iff the string is in the slice |
| Lookups.Distinct | fetch.go:172-180 | definition: each element kept at its first occurrence, later repeats dropped |
| Lookups.DistinctMeaning | fetch.go:172-180 | the distinct list has exactly the input's elements, no duplicates, in first-occurrence order |
| Lookups.Resolv | fetch.go:172-180 | the loop builds the distinct list: same elements, no duplicates, first-occurrence order |
| Lookups.CheckURL | fetch.go:212-219 | true iff some queued command has the same URL string |
| Lookups.Count | fetch.go:299-307 | the number of occurrences, at most the length |
| Lookups.DocName | fetch.go:223-227 | no "/" is left, the length grows by 2 per "/", each "/" becomes "_-_" |
| Lookups.DocNameCollides | fetch.go:222-226 | "a/b" and "a_-_b" get the same file name |
| Lookups.Filter | fetch.go:309-331 | definition: after lower-casing, a URL is filtered iff it contains ".mp3", "ico", "jpeg", "jpg", "png", "mp4" or "xlsx", or ends in ".pdf" or "doc" |
| Lookups.FilterIgnoresCase | fetch.go:309-331 | `filter` answers the same for URLs equal up to case |
| Lookups.FilterOfLowered | fetch.go:310 | lower-casing the URL first does not change `filter` |
| Lookups.FilterUpperCasePdf | fetch.go:313 | a URL ending in ".PDF" is filtered |
| Lookups.FilterMatchesHostName | fetch.go:317 | "ico" matches anywhere, so "http://mexico.com/" is filtered |
| Exclusion.ScanEntries | fetch.go:245-267 | definition: the entries in order, each stripped of a prefix and resolved against the root: a parse error or a match ends the scan, otherwise the next entry |
| Exclusion.Fallback | fetch.go:270-293 | definition: the fallback loop, each "disallow:/" rule refusing on a parse error or a match, each "allow:/" rule refusing on a parse error and admitting on a match, with the default true when no rule decides |
| Exclusion.RobotStep | fetch.go:240-293 | definition: one robot's "user-agent:*" group: the "disallow:/" shortcut, the "allow:/" shortcut, or the fallback when no shortcut has applied so far |
| Exclusion.Run | fetch.go:240-295 | definition: the robots in order, each step fed the flags left by the one before, stopping at the first decision |
| Exclusion.RobExcl | fetch.go:237-297 | definition: the robots in order from `rootExcl = state = false`; the first decision wins, otherwise the final `rootExcl` |
| Exclusion.WellFormedHasStarEntry | fetch.go:241-242 | a robot built by `MakeBot` has a non-empty "user-agent:*" group if any, as `slice[0]` needs |
| Exclusion.ScanEntriesMeaning | fetch.go:245-267 | a shortcut scan matches, fails or finds nothing exactly by the first directive that names the candidate or does not resolve |
| Exclusion.RobExclCheck | fetch.go:237-297 | the loop with its flags and early returns computes exactly `RobExcl` |
| Exclusion.RunAppend | fetch.go:240-295 | robots are consulted in order: a run over `a + b` is a run over `a` then `b` |
| Exclusion.FirstDecisionWins | fetch.go:240-295 | once a robot decides, later robots are never consulted |
| Exclusion.RunWithoutStarGroups | fetch.go:240-241 | robots without a "user-agent:*" group leave the flags unchanged |
| Exclusion.RefusedWithoutStarGroups | fetch.go:238-296 | with no "user-agent:*" group anywhere every candidate is refused |
| Exclusion.SingleRobot | fetch.go:240-296 | the decision over one robot is that robot's step |
| Exclusion.DisallowRootAdmitsOnlyAllowed | fetch.go:242-254 | under "disallow:/" first: admitted iff some later entry, with any "allow:/" prefix removed, resolves to the candidate and every entry before it resolves to another URL |
| Exclusion.AllowRootRefusesOnlyDisallowed | fetch.go:255-268 | under "allow:/" first: admitted iff every entry resolves and none names the candidate |
| Exclusion.RobotStepDefaults | fetch.go:242-293 | an undecided robot leaves the default false after "disallow:/", true after "allow:/" and after the fallback; after an earlier shortcut, a group starting with neither root rule is skipped with the flags unchanged |
| Exclusion.FallbackEndsAdmitting | fetch.go:271-272 | a fallback scan that decides nothing leaves the default true |
| Exclusion.FallbackDefaultAdmits | fetch.go:270-293 | when no rule fails to resolve or names the candidate the fallback scan admits |
| Exclusion.FallbackDisallowRefuses | fetch.go:273-281 | the first "disallow:/" rule naming the candidate refuses it |
| Exclusion.FallbackAllowResolvesWhole | fetch.go:282-290 | the allow case resolves "allow:/pub" whole, so a following "disallow:/pub" refuses "pub" |
| Exclusion.FallbackHead | fetch.go:272-290 | the first rule of the fallback refuses (it fails to resolve, or is a "disallow:/" rule naming the candidate), admits (an "allow:/" rule naming it) or passes to the rest; refusing and admitting exclude each other |
| Exclusion.FallbackMeaning | fetch.go:270-293 | the fallback refuses iff the first deciding rule refuses, admits iff the first deciding rule admits, and decides nothing, leaving the default true, iff every rule resolves without naming the candidate |
| Exclusion.DisallowRootExample | fetch.go:242-253 | `["disallow:/", "allow:/pub"]` admits the URL of "pub" |
| Exclusion.AllowRootExample | fetch.go:255-266 | `["allow:/", "disallow:/pub"]` refuses the URL of "pub" |
| Frontier.Admission | fetch.go:412-458 | a resolved command is added iff not queued, permitted by the robots, not filtered, on a seeded host and under quota |
| Frontier.Consider | fetch.go:389-458 | a link is added iff it resolves, is available and passes admission; an unresolvable link is invalid |
| Frontier.Offer | fetch.go:389-458 | definition: a link that `Consider` adds appends its command to the queue and its host to the host list; any other leaves both |
| Frontier.OfferAll | fetch.go:389-459 | definition: the links of a page offered one after another, in order |
| Frontier.OfferExtends | fetch.go:412-458 | one offered link keeps the queue aligned with its hosts and only appends an unqueued, permitted, unfiltered command of a seeded host within quota |
| Frontier.OfferAllExtends | fetch.go:389-459 | the same for all links of a page |
| Frontier.QuotaBound | fetch.go:448-453 | a host list over `H` with each host at most `m` times has at most `|H| * m` entries |
| Frontier.CrawlBound | fetch.go:396-453 | a crawl adds at most `MaxPages` commands per seeded host |
| Frontier.FrontierBound | fetch.go:396-453 | an aligned extension of the queue stays within that bound |
| Frontier.KeepSeed | fetch.go:130-138 | definition: the robots.txt reply arrived and its robot is not full-disallow |
| Frontier.Kept | fetch.go:129-141 | definition: the kept seeds, in order |
| Frontier.KeptCmds | fetch.go:136-139 | definition: a `NewCmd` of each kept seed, in order |
| Frontier.KeptBots | fetch.go:135-139 | definition: the robot of each kept seed, in order |
| Frontier.KeptMeaning | fetch.go:136-138 | a seed is kept iff its robots.txt was fetched and is not full-disallow |
| Frontier.KeptLists | fetch.go:135-139 | the i-th seeded command and robot both come from the i-th kept seed; no kept robot is full-disallow |
| Frontier.AllFetchedMeaning | fetch.go:130-135 | the precondition of `Seed` holds iff every seed's robots.txt request got a response |
| Frontier.NoSeedKept | fetch.go:136 | when no seed is kept nothing is queued |
| Frontier.PageLinks | fetch.go:351-388 | definition: no links on a transport error, a status above 300, an unreadable body or a failed save under `docName`; otherwise the links of the body |
| Frontier.WatchDone | fetch.go:477-478 | definition: at least one page visited, a non-empty queue, and at least as many visited as queued |
| Frontier.WatchDoneIffDrained | fetch.go:477-478 | with visited equal to the claimed prefix, `watch` fires iff the queue is non-empty and fully claimed |
| Frontier.Fetch.constructor | fetch.go:92-97 | an empty frontier with 100 pages per host |
| Frontier.Fetch.AddSeed | fetch.go:120-125 | the command joins the queue and its host the host list together |
| Frontier.Fetch.SeedOne | fetch.go:135-140 | the robot is recorded and the seed queued iff the robot is not full-disallow |
| Frontier.Fetch.Seed | fetch.go:129-142 | the queue and robots grow by exactly the kept seeds, in order |
| Frontier.Fetch.SeedFetched | fetch.go:194-208 | as `Seed`, skipping seeds whose robots.txt fetch failed |
| Frontier.Fetch.SeedSlice | fetch.go:191-209 | seeds the distinct links in first-occurrence order |
| Frontier.Fetch.Claim | fetch.go:338-349 | empty queue is fatal, a fully claimed queue stops, otherwise `Queue[index]` is taken and `index` grows by one |
| Frontier.Fetch.RecordVisited | fetch.go:461-464 | the command is appended to `Visited` |
| Frontier.Fetch.Admit | fetch.go:412-458 | the outcome is `Admission`; only an added command and its host are appended |
| Frontier.Fetch.ConsiderLink | fetch.go:390-458 | the outcome is `Consider` and the queue becomes `Offer` of the old one |
| Frontier.Fetch.ConsiderLinks | fetch.go:389-459 | the page's links are offered in order |
| Frontier.Fetch.CrawlStep | fetch.go:336-468 | one turn claims one command, offers the links of its page (none on any failure), visits it exactly once and keeps `Settled` |
| Frontier.Fetch.Crawl | fetch.go:335-470 | fatal iff the queue is empty; otherwise ends with every command claimed and visited, `watch` satisfied, within the quota bound; when no queued page yields a link the queue is unchanged |
| Runs.DisallowedSeedsAreFatal | fetch.go:129-142 | seeding only full-disallow hosts leaves the queue empty and the crawl fatal |
| Runs.SeedOneSite | fetch.go:92-142 | a fresh `Fetch` seeded with one accepted site queues exactly that seed, with one root host and 100 pages per host |
| Runs.CrawlOneSite | fetch.go:473-481 | crawling one accepted site ends with `watch` satisfied and at most 101 commands queued |
| Runs.CrawlLinklessSite | fetch.go:335-481 | crawling one accepted site whose seed page yields no links visits exactly the seed command |

## Left out

- Concurrency: the goroutines of `Start`, the channel and sleep loop of `watch`, and the `mu`/`tex` locks. Claim, admission and visited steps are atomic steps of one worker.
- HTTP transport: `New`'s client and TLS setup, and `DoRequest`. Request outcomes are function parameters.
- Disk, JSON and HTML: `ClearDocs`, `ReadAll`/`WriteFile`, `jsnLinks` and `collectlinks.All` are function parameters or the list given to `SeedSlice`. `bufio.Scanner` line splitting is left out; the body is given as lines.
- Logging and delays: `cognilog`, `time.Sleep`, `crawCount`, `Timeout` and `UserAgent`.
- The process exit of `FatalINFO`: it is the `Fatal` step and the `fatal` result.
- `Strings.ToLower`: maps ASCII letters only, while Go's `strings.ToLower` also maps other Unicode letters.
- cmd.go: `url.Parse` inside `NewCmd`, `parseCmd` and `BotCmd` appears only as the `parse` and `resolve` parameters. The nil URL that `NewCmd` returns on a parse error is not represented.
- Frontier.Fetch.Seed: requires every robots.txt fetch to succeed, because on an error Go passes a nil response to `MakeBot`.
- Robots.Response.RequestURL: taken as given. How it is derived from the seed through `BotCmd` is not modelled.
- `CrawDelay` is a count of nanoseconds; durations are not otherwise modelled.
