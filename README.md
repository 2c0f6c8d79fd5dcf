# Proxy validator — a Dafny model

The program gathers proxy candidates from a fixed list of text sources. It
validates a random sample of them by sending a request through each one,
saves the ones that answered to a timestamped file, and posts a report to a
Discord webhook.

This project models that pipeline in Dafny. HTTP, the random shuffle, the
clock and the filesystem become inputs.

- `ordered_sets.dfy` (`OrderedSets`): JavaScript `Set`s as duplicate-free
  sequences in insertion order. `set.add` is `Add` and `forEach(add)` is
  `AddAll`.
- `js_text.dfy` (`JsText`): the string builtins the program relies on, for a
  one-character separator. These are `split`, `join`, `replace(/c/g, d)` and
  `parseInt`.
- `extraction.dfy` (`Extraction`): the global regular expression
  `/(\d{1,3}\.\d{1,3}\.\d{1,3}\.\d{1,3}):(\d+)/g` and its `exec` scan.
  - `MatchAt` is the backtracking match anchored at one index.
  - `FirstMatch` is `exec` from `lastIndex`.
  - `Matches` lists every match in turn.
  - `Extracted` is the set of candidates one response yields.
- `validator.dfy` (`Validator`): the `ProxyValidator` class.
  - Its fields `allProxies` and `validProxies` are updated in place by
    `FetchAllProxies` and `ValidateProxies`; `discordWebhook` is set once, by
    the constructor.
  - `FetchFromSource` runs the `exec` loop.
  - `SaveProxies` and `SendToDiscord` say what is written and what is posted.
  - Both sets keep an invariant between calls: no duplicates, only
    candidates, and `validProxies ⊆ allProxies`.
- `pipeline.dfy` (`Pipeline`): the script's top level. It fetches, validates
  with the default sample size of 5000, saves, and sends only when saving
  returned a path.

The model keeps the program's behaviour where it is lenient or surprising:
- octets are any one to three digits, and the port is any run of digits;
  neither is range-checked;
- a failed request yields the empty set;
- `validProxies` is never cleared, so it accumulates across calls;
- the sample is the first `sampleSize` entries after a `sort` with a random
  comparator, taken here as an arbitrary permutation; `slice(0, n)` keeps
  JavaScript's meaning of a negative `n`;
- a failed save returns `null`, after which no report is attempted, and the
  run ends normally.

## Model

| member | source | states |
|---|---|---|
| OrderedSets.Add | index.js:75 | `set.add(x)` on the insertion-ordered set: appends `x` unless present; `AddSpec` states its elements, duplicate-freedom and prefix |
| OrderedSets.AddAll | index.js:110 | `xs.forEach(x => set.add(x))`, left to right; `AddAllElems`, `AddAllNoDup`, `AddAllPrefix` state what it adds |
| OrderedSets.AddSpec | index.js:72-75 | `set.add(x)` adds exactly `x`, keeps the set duplicate-free and keeps the earlier elements in place |
| OrderedSets.AddAllElems | index.js:109-111 | adding a list to a set adds exactly the list's elements |
| OrderedSets.AddAllNoDup | index.js:109-111 | adding a list keeps a set duplicate-free |
| OrderedSets.AddAllPrefix | index.js:109-111 | adding a list only appends: the old elements keep their order |
| OrderedSets.AddAllPresent | index.js:72-75 | adding elements that are already present leaves the set unchanged |
| OrderedSets.AddAllFresh | index.js:126-128 | adding distinct new elements appends them in order |
| OrderedSets.AddAllSnoc | index.js:126-128 | one more `add` at the end of a `forEach` adds its element last |
| OrderedSets.NoDupPermutation | index.js:117-119 | a permutation of a duplicate-free list (the sorted `Array.from` of a set) is duplicate-free |
| OrderedSets.NoDupSubsetLength | index.js:164-169 | a duplicate-free list whose elements all lie in another list is no longer than it |
| JsText.DigitRunSpec | index.js:71 | the digit run at an index is all digits and is maximal, as `\d+` consumes it |
| JsText.DigitRunExact | index.js:71 | a maximal run of `n` digits is measured as `n` |
| JsText.ParseInt | index.js:96 | `parseInt` is `NaN` exactly when the text does not start with a digit; on a digit string it is its decimal value |
| JsText.Split | index.js:92 | `split` always returns at least one piece |
| JsText.SplitWithoutSep | index.js:92 | a string without the separator splits to itself alone |
| JsText.SplitAtFirst | index.js:92 | splitting at the first separator puts the piece before it first |
| JsText.Join | index.js:138 | `xs.join(sep)`; `SplitJoin` shows `split` on the same separator undoes it |
| JsText.SplitJoin | index.js:138 | `join` then `split` on a separator that occurs in no element gives a non-empty list back |
| JsText.ReplaceAll | index.js:134 | `replace(/:/g, '-')`: each occurrence of the character replaced; `ReplaceAllRemoves` and `Validator.FileNameHasNoColon` prove none is left |
| JsText.ReplaceAllRemoves | index.js:134 | after the replacement no occurrence is left |
| Extraction.SeparatorsShape | index.js:71 | the pattern's literals are three dots then a colon, none of them a digit |
| Extraction.GroupEnd | index.js:71 | `\d{1,3}` then the literal ends before the separator, within three characters of the start |
| Extraction.GroupEndExact | index.js:71 | backtracking succeeds with `k` digits exactly when those `k` characters form an octet followed by the separator |
| Extraction.MatchFrom | index.js:71 | a successful match reads one group per separator and ends after its start, inside the text |
| Extraction.MatchAt | index.js:71 | a match anchored at `i` starts at `i` and ends within the text |
| Extraction.MatchAtOfFrom | index.js:71 | the anchored match reports the groups the pattern read |
| Extraction.FirstMatch | index.js:74 | `exec` from `lastIndex` returns the leftmost match at or after it; nothing matches before it |
| Extraction.Matches | index.js:74-75 | every string the `exec` loop adds is a candidate |
| Extraction.Extracted | index.js:72-76 | the set from one response is duplicate-free and holds only candidates |
| Extraction.MatchFromOctets | index.js:71 | every group read before a separator is one to three digits |
| Extraction.MatchFromPort | index.js:71 | the port is a non-empty run of digits, followed by no digit |
| Extraction.MatchFromText | index.js:71 | the text matched is each octet and its separator, then the port |
| Extraction.DelimitedStep | index.js:71 | the matched text starts with the first octet and its separator |
| Extraction.MatchFromComplete | index.js:71 | octets each followed by their separator, then a maximal digit run, are read back exactly |
| Extraction.MatchFromStep | index.js:71 | the pattern reads its first group, then the rest from after the separator |
| Extraction.PortComplete | index.js:71 | a maximal digit run is read whole as the port |
| Extraction.SliceParts | index.js:71 | a slice that spells octet, separator, rest spells each at its place |
| Extraction.DelimitedHost | index.js:75 | the text before the port is group 1 followed by `:` |
| Extraction.Candidate.Text | index.js:75 | the string added to the set, `${match[1]}:${match[2]}`; `ProxyConfigOfCandidate` shows `split(':')` takes it apart again |
| Extraction.MatchAtSound | index.js:71-75 | every match has the pattern's shape, its text is `${match[1]}:${match[2]}`, and it is followed by no digit |
| Extraction.MatchAtComplete | index.js:71-75 | every occurrence of a candidate's text not followed by a digit is matched there with the same groups |
| Extraction.MatchAtFromParts | index.js:71-75 | four octets and a port laid out with the pattern's literals are matched with those groups |
| Extraction.ExtractedText | index.js:72-76 | a candidate's text alone yields exactly that one entry |
| Extraction.MatchNeedsColon | index.js:71 | no match without a `:` |
| Extraction.ExtractedWithoutColon | index.js:72-76 | text without a colon yields the empty set |
| Extraction.ExtractedElems | index.js:72-76 | the set holds exactly the strings of the matches |
| Extraction.ExtractedEmpty | index.js:72-76 | the set is empty exactly when the pattern matches nowhere in the text |
| Extraction.ExtractedTwice | index.js:72-76 | a candidate listed twice, separated by a non-digit, is collected once |
| Extraction.ExtractedTwiceAt | index.js:72-76 | the same, for a text described by what it holds where |
| Extraction.TwoMatches | index.js:74-75 | matches at `0` and after `n`, and none at `n`, make the `exec` loop see two matches |
| Extraction.FirstMatchHere | index.js:74 | `exec` returns the match anchored at `lastIndex` when there is one |
| Extraction.FirstMatchSkip | index.js:74 | `exec` moves past an index where nothing matches |
| Extraction.NoMatchAtNonDigit | index.js:71 | no match starts at a non-digit |
| Extraction.MatchesNext | index.js:74-75 | after a match, the scan resumes at `lastIndex`, the end of the match |
| Extraction.DuplicateAddedOnce | index.js:75 | adding the same string twice to an empty set gives it once |
| Extraction.ExtractedInsideDigitRun | index.js:71-76 | `1234.5.6.7:80` yields `234.5.6.7:80`: a match may start inside a longer digit run |
| Extraction.InnerCandidate | index.js:75 | the groups `234`,`5`,`6`,`7` and `80` form the candidate `234.5.6.7:80` |
| Extraction.FourDigitsNoMatch | index.js:71 | four digits before the first dot admit no match at their start |
| Validator.Collected | index.js:68-87 | what `fetchFromSource` resolves to: the candidates of the body, or the empty set when the request threw; `FetchFromSource` is proved to compute it |
| Validator.AllCollected | index.js:107-108 | the results of all sources, in source order; `AllCollectedCandidates` and `CollectedSets` state what they hold |
| Validator.Merge | index.js:109-111 | every source's set added to the pool in turn; `MergeElems` and `MergeGrows` state the result |
| Validator.ProxyConfigOf | index.js:92-97 | the `{ host, port }` option built from `proxy.split(':')` and `parseInt`; `ProxyConfigOfCandidate` states it for every candidate |
| Validator.Survivors | index.js:126-128 | the sampled entries whose probe passed, in sample order; `SurvivorsSpec` states membership and duplicate-freedom |
| Validator.Sample | index.js:117-120 | `shuffled.slice(0, sampleSize)`; `SampleWithinPool` states its length and that it is drawn from the pool |
| Validator.FileName | index.js:134-135 | `valid_proxies_` then the timestamp with every `:` replaced by `-`, then `.txt`; `FileNameHasNoColon` states it holds no `:` |
| Validator.FilePath | index.js:136 | `path.join('proxies', filename)` as `proxies/` then the name |
| Validator.FileBody | index.js:138 | the valid proxies joined with newlines; `FileBodyRoundTrip` shows splitting gives them back |
| Validator.ValidateProxy | index.js:89-103 | a proxy is valid exactly when the probe through its host and port answered status 200; a thrown error is invalid |
| Validator.SliceEnd | index.js:120 | the end index `slice(0, end)` clamps to, counting a negative end from the back; never past the list's length; `SampleWithinPool` proves the sample's length from it |
| Validator.ProxyValidator.constructor | index.js:31-37 | a new validator has empty sets and the given webhook |
| Validator.ProxyValidator.FetchFromSource | index.js:68-87 | the `exec` loop builds exactly the set `Extracted` of the body, duplicate-free and of candidates; a failed request gives the empty set |
| Validator.ProxyValidator.FetchAllProxies | index.js:105-113 | `allProxies` becomes its old contents with every source's set added, in source order, and the invariant holds |
| Validator.ProxyValidator.AddEach | index.js:110 | `proxySet.forEach(add)` adds the set's elements in order |
| Validator.ProxyValidator.ValidateProxies | index.js:115-130 | `validProxies` becomes its old contents with the passing entries of the sample added, and the invariant holds |
| Validator.ProxyValidator.ProbeAll | index.js:121-125 | each sampled entry gets its own verdict, in sample order |
| Validator.ProxyValidator.SaveProxies | index.js:132-145 | a path is returned exactly when writing succeeds; the path is under `proxies/`; the body splits back into the valid proxies, and is empty when there are none |
| Validator.ProxyValidator.SendToDiscord | index.js:147-208 | the report is addressed to the webhook with the saved file attached; its counts are the sizes of `allProxies` and `validProxies`, and the second is at most the first |
| Validator.MergeElems | index.js:109-111 | after merging, the pool holds its old elements and the union of the sets |
| Validator.MergeGrows | index.js:109-111 | merging keeps the pool duplicate-free and only appends to it |
| Validator.FetchKeepsInvariant | index.js:105-113 | collection keeps the pool invariant |
| Validator.ValidationKeepsInvariant | index.js:115-130 | validation keeps the pool invariant: only sampled, hence collected, candidates become valid |
| Validator.AllCollectedCandidates | index.js:107-108 | one set per source, each holding only candidates |
| Validator.MergeCandidates | index.js:109-111 | merging sets of candidates gives a pool of candidates |
| Validator.SurvivorsStep | index.js:126-128 | one more probed entry joins the valid ones exactly when it passed |
| Validator.SurvivorsSpec | index.js:121-128 | the valid ones are exactly the sampled entries whose probe passed, duplicate-free when the sample is |
| Validator.SampleWithinPool | index.js:117-120 | the sample is duplicate-free, drawn from the pool, of length `min(sampleSize, pool size)`, and the whole pool when `sampleSize` covers it |
| Validator.CandidateChars | index.js:75 | a candidate holds only digits, dots and colons |
| Validator.JoinChars | index.js:75 | octets joined with dots hold only digits and dots |
| Validator.FileBodyRoundTrip | index.js:138 | splitting the file body on newlines gives the valid proxies back; no valid proxies give an empty body |
| Validator.ProxyConfigOfCandidate | index.js:92-97 | `split(':')` of a candidate gives group 1 and group 2 back, so the probe uses that host and the port's decimal value |
| Validator.ShortPortExact | index.js:96 | a port of at most fifteen digits is below `2^53`, so the number `parseInt` gives is its exact value |
| Validator.ValidateCandidate | index.js:89-102 | a candidate is valid exactly when the probe through its own host and port answered 200 |
| Validator.FetchOrderIrrelevant | index.js:107-111 | the pool's contents do not depend on the order of the sources |
| Validator.CollectedSets | index.js:107-108 | the sets collected are those of the responses, whatever their order |
| Validator.UnionOfSameSets | index.js:109-111 | the union of sets depends only on which sets are listed |
| Validator.AllFailedCollectNothing | index.js:79-86 | when every request fails, collection leaves the pool as it was |
| Validator.ValidatedFromEmpty | index.js:115-128 | from an empty `validProxies`, validation leaves exactly the passing sampled entries: `validProxies ⊆ sample ⊆ allProxies` |
| Validator.FileNameHasNoColon | index.js:134-136 | the file name holds no `:`, whatever the timestamp |
| Pipeline.Run | index.js:211-220 | one run saves the passing sample of the merged pool when the filesystem works, and sends a report exactly when a path was returned |

## Left out

- HTTP (axios), its 10-second timeout and the routing through the proxy. Each source's response is an input, either a body or a failure, and the probe is a function from the proxy settings to a status or an error.
- Validator.ValidateProxy: the probe is one function of the `{ host, port }` settings. So two candidates with the same settings, such as `1.2.3.4:80` and `1.2.3.4:080`, get the same verdict. The program sends two separate requests, whose answers can differ.
- `Promise.all` concurrency. Results are combined only after every task settled, so the model merges them sequentially in list order.
- `Math.random` in the choice of check URL. Which of the three checkers answers can change the status a probe gets; the model folds that choice into the probe's answer. The `sort` with a random comparator is an arbitrary permutation supplied by the caller.
- The filesystem calls of `saveProxies` (`mkdir`, `writeFile`). Their success is a boolean input, and the written file is returned as a value.
- Validator.ProxyValidator.SendToDiscord: reading the file back and posting it can fail, and `sendToDiscord` swallows such a failure. The report the model returns, and `Outcome.sent`, is the report that was attempted, not one known to have arrived.
- The Discord payload: the `FormData`, the embed's texts, colours, images and dates. The report keeps the webhook, the attached file and the two counts.
- Logging (`_log`, `_getEmoji`, chalk), `Date` (the ISO timestamp is an input string) and `process.env` (the webhook is a parameter).
- `BACKUP_PROXY_SOURCES`, which no code path uses. The check URLs are unused in the model because the probe is an input.
- JsText.ParseInt: leading whitespace, a sign and a radix prefix are not modelled. The model only ever applies it to ports, which are digit strings.
- JsText.ParseInt: returns the exact value of the digits. JavaScript returns a double, which is rounded above `2^53` and is `Infinity` from about 309 digits on. `ShortPortExact` shows the two agree for ports of at most fifteen digits.
- Validator.ProxyConfigOfCandidate: the port it promises is the exact decimal value. For ports longer than fifteen digits, the program passes a rounded number instead.
- JsText.Split: modelled for a one-character separator only, the only form the program uses.
- Validator.FilePath: `path.join` is modelled as `proxies/` then the name, as on POSIX. For a real ISO timestamp the name holds no `/`, so nothing is normalised. The model takes any string as the timestamp, and does not model the `\` separator of Windows.
- Validator.ProxyValidator.ValidateProxies: a fractional `sampleSize` is not modelled. The sample size is an integer.
- Validator.ProxyValidator.FetchFromSource: the response body is text, standing for `String(response.data)`. axios parses a JSON answer into an object, and `exec` then sees `"[object Object]"` and collects nothing. So a source that is a JSON API, which the source list allows, yields the empty set in the program. The model yields the candidates of the raw text instead.
