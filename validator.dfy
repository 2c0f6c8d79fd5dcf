/** The `ProxyValidator` class: collection of candidates from the sources into
    `allProxies`, probing a shuffled sample into `validProxies`, and the file
    the valid proxies are saved to. HTTP responses, the probe's outcome, the
    shuffle, the clock and the filesystem's success are inputs. */
module Validator {
  import opened OrderedSets
  import opened JsText
  import opened Extraction

  /** `PROXY_SOURCES`: the URLs fetched, in order, by `fetchAllProxies`. */
  const ProxySources: seq<string> := [
    "example.com/proxies.txt",
    "example.com/proxies.txt",
    "example.com/proxies.txt",
    "example.com/proxies.txt"
  ]

  /** The default of `validateProxies(sampleSize = 5000)`. */
  const DefaultSampleSize: int := 5000

  /** The directory the report file is written to. */
  const ProxiesDir: string := "proxies"

  /** What `axiosInstance.get(source)` gave: the body as text, or a thrown
      error (network failure, timeout, a non-2xx status). `body` stands for
      `String(response.data)`: a JSON body, which axios parses into an object,
      is seen by `exec` as `"[object Object]"`. */
  datatype FetchResult = Fetched(body: string) | FetchFailed

  /** What the probe request through a proxy gave: a response status, or a thrown error. */
  datatype ProbeOutcome = Responded(status: int) | ProbeError

  /** The `proxy: { host, port }` option of the probe request; `None` is `NaN`. */
  datatype ProxyConfig = ProxyConfig(host: string, port: Option<nat>)

  /** The file `saveProxies` writes: its path and its contents. */
  datatype SavedFile = SavedFile(path: string, body: string)

  /** What `sendToDiscord` posts: the webhook, the file attached, and the two
      counts of the report. */
  datatype Report = Report(webhook: string, attachment: SavedFile, totalCollected: nat, validCount: nat)

  /** The set `fetchFromSource` resolves to: the candidates in the body, or
      the empty set when the request threw. */
  function Collected(response: FetchResult): seq<string> {
    match response
    case Fetched(text) => Extracted(text)
    case FetchFailed => []
  }

  /** The results of `Promise.all(PROXY_SOURCES.map(fetchFromSource))`, in source order. */
  function AllCollected(responses: seq<FetchResult>): seq<seq<string>>
    decreases |responses|
  {
    if responses == [] then []
    else AllCollected(responses[..|responses| - 1]) + [Collected(responses[|responses| - 1])]
  }

  /** Every element of some set of `sets`. */
  ghost function Union(sets: seq<seq<string>>): set<string> {
    set k, p | 0 <= k < |sets| && p in sets[k] :: p
  }

  /** `results.forEach(set => set.forEach(p => pool.add(p)))`: the sets added in order. */
  function Merge(pool: seq<string>, sets: seq<seq<string>>): seq<string>
    decreases |sets|
  {
    if sets == [] then pool else AddAll(Merge(pool, sets[..|sets| - 1]), sets[|sets| - 1])
  }

  /** `axiosInstance.get(checkUrl, { proxy })` is sent with the host before the
      first `:` and `parseInt` of what follows it up to the next `:`. */
  function ProxyConfigOf(proxy: string): (c: ProxyConfig)
  {
    var parts := Split(proxy, ':');
    ProxyConfig(parts[0], if |parts| >= 2 then ParseInt(parts[1]) else None)
  }

  /** `validateProxy(proxy)`: the probe counts only when it answered with status 200. */
  function ValidateProxy(proxy: string, probe: ProxyConfig -> ProbeOutcome): (ok: bool)
    ensures ok <==> probe(ProxyConfigOf(proxy)) == Responded(200)
  {
    match probe(ProxyConfigOf(proxy))
    case Responded(status) => status == 200
    case ProbeError => false
  }

  /** The entries of `sample` whose probe succeeded, in sample order. */
  function Survivors(sample: seq<string>, probe: ProxyConfig -> ProbeOutcome): seq<string>
    decreases |sample|
  {
    if sample == [] then []
    else
      var last := sample[|sample| - 1];
      Survivors(sample[..|sample| - 1], probe) + if ValidateProxy(last, probe) then [last] else []
  }

  /** The length `slice(0, end)` keeps of a list of `len` elements: a negative
      end counts from the back. */
  function SliceEnd(len: nat, end: int): (n: nat)
    ensures n <= len
  {
    if end < 0 then (if len + end < 0 then 0 else len + end)
    else if end < len then end
    else len
  }

  /** `shuffled.slice(0, sampleSize)`. */
  function Sample(shuffled: seq<string>, sampleSize: int): seq<string> {
    shuffled[..SliceEnd(|shuffled|, sampleSize)]
  }

  /** The name of the saved file, `valid_proxies_${timestamp}.txt`, with every `:`
      of the ISO timestamp replaced by `-`. */
  function FileName(isoTimestamp: string): string {
    "valid_proxies_" + ReplaceAll(isoTimestamp, ':', '-') + ".txt"
  }

  /** `path.join('proxies', filename)`. */
  function FilePath(isoTimestamp: string): string {
    ProxiesDir + "/" + FileName(isoTimestamp)
  }

  /** `Array.from(validProxies).join('\n')`. */
  function FileBody(validProxies: seq<string>): string {
    Join(validProxies, '\n')
  }

  /** What holds of `allProxies` and `validProxies` between calls. */
  ghost predicate PoolInvariant(allProxies: seq<string>, validProxies: seq<string>) {
    NoDup(allProxies) && NoDup(validProxies) &&
    (forall p :: p in allProxies ==> IsCandidateText(p)) &&
    Elems(validProxies) <= Elems(allProxies)
  }

  class ProxyValidator {
    var allProxies: seq<string>
    var validProxies: seq<string>
    var discordWebhook: string

    /** Both sets are sets of candidates, and only collected candidates are ever valid. */
    ghost predicate Valid()
      reads this
    {
      PoolInvariant(allProxies, validProxies)
    }

    constructor(discordWebhook: string)
      ensures Valid()
      ensures allProxies == [] && validProxies == [] && this.discordWebhook == discordWebhook
    {
      allProxies := [];
      validProxies := [];
      this.discordWebhook := discordWebhook;
    }

    /** `fetchFromSource(source)`, given what the request for `source` gave: the
        `exec` loop adds every match, and a thrown request gives the empty set. */
    method FetchFromSource(response: FetchResult) returns (proxies: seq<string>)
      ensures proxies == Collected(response)
      ensures NoDup(proxies)
      ensures forall p :: p in proxies ==> IsCandidateText(p)
    {
      match response
      case FetchFailed =>
        proxies := [];
      case Fetched(text) =>
        proxies := [];
        var lastIndex := 0;
        var found := FirstMatch(text, lastIndex);
        while found.Some?
          invariant lastIndex <= |text|
          invariant found == FirstMatch(text, lastIndex)
          invariant AddAll(proxies, Matches(text, lastIndex)) == Extracted(text)
          decreases |text| - lastIndex
        {
          var m := found.value;
          proxies := Add(proxies, m.groups.Text());
          lastIndex := m.end;
          found := FirstMatch(text, lastIndex);
        }
    }

    /** `fetchAllProxies()`, given the response for each of `PROXY_SOURCES`:
        every source's set is added to `allProxies`, in source order. */
    method FetchAllProxies(responses: seq<FetchResult>)
      requires Valid()
      requires |responses| == |ProxySources|
      modifies this`allProxies
      ensures Valid()
      ensures allProxies == Merge(old(allProxies), AllCollected(responses))
    {
      var results: seq<seq<string>> := [];
      var k := 0;
      while k < |responses|
        invariant k <= |responses|
        invariant results == AllCollected(responses[..k])
        invariant allProxies == old(allProxies)
      {
        var proxySet := FetchFromSource(responses[k]);
        assert responses[..k + 1][..k] == responses[..k];
        results := results + [proxySet];
        k := k + 1;
      }
      assert responses[..k] == responses;
      k := 0;
      assert results[..k] == [];
      while k < |results|
        invariant k <= |results|
        invariant allProxies == Merge(old(allProxies), results[..k])
      {
        AddEach(results[k]);
        assert results[..k + 1][..k] == results[..k];
        k := k + 1;
      }
      assert results[..k] == results;
      FetchKeepsInvariant(old(allProxies), validProxies, responses);
    }

    /** `proxySet.forEach(proxy => this.allProxies.add(proxy))`. */
    method AddEach(proxySet: seq<string>)
      modifies this`allProxies
      ensures allProxies == AddAll(old(allProxies), proxySet)
    {
      var j := 0;
      while j < |proxySet|
        invariant j <= |proxySet|
        invariant allProxies == AddAll(old(allProxies), proxySet[..j])
      {
        AddAllSnoc(old(allProxies), proxySet[..j], proxySet[j]);
        assert proxySet[..j + 1] == proxySet[..j] + [proxySet[j]];
        allProxies := Add(allProxies, proxySet[j]);
        j := j + 1;
      }
      assert proxySet[..j] == proxySet;
    }

    /** `validateProxies(sampleSize)`, given the order `sort` with a random
        comparator left the pool in: every sampled candidate is probed, and the
        ones that passed are added to `validProxies`, which is never cleared. */
    method ValidateProxies(sampleSize: int, shuffled: seq<string>, probe: ProxyConfig -> ProbeOutcome)
      requires Valid()
      requires multiset(shuffled) == multiset(allProxies)
      modifies this`validProxies
      ensures Valid()
      ensures validProxies == AddAll(old(validProxies), Survivors(Sample(shuffled, sampleSize), probe))
    {
      var sample := Sample(shuffled, sampleSize);
      var results := ProbeAll(sample, probe);
      var k := 0;
      while k < |sample|
        invariant k <= |sample|
        invariant validProxies == AddAll(old(validProxies), Survivors(sample[..k], probe))
      {
        var survivors := Survivors(sample[..k], probe);
        SurvivorsStep(sample, k, probe);
        if results[k] {
          AddAllSnoc(old(validProxies), survivors, sample[k]);
          validProxies := Add(validProxies, sample[k]);
        } else {
          assert survivors + [] == survivors;
        }
        k := k + 1;
      }
      assert sample[..k] == sample;
      ValidationKeepsInvariant(allProxies, old(validProxies), shuffled, sampleSize, probe);
    }

    /** `await Promise.all(sample.map(async proxy => ({ proxy, isValid })))`:
        each entry's verdict, in sample order. */
    method ProbeAll(sample: seq<string>, probe: ProxyConfig -> ProbeOutcome) returns (results: seq<bool>)
      ensures |results| == |sample|
      ensures forall i :: 0 <= i < |sample| ==> results[i] == ValidateProxy(sample[i], probe)
    {
      results := [];
      var k := 0;
      while k < |sample|
        invariant k <= |sample| && |results| == k
        invariant forall i :: 0 <= i < k ==> results[i] == ValidateProxy(sample[i], probe)
      {
        var isValid := ValidateProxy(sample[k], probe);
        results := results + [isValid];
        k := k + 1;
      }
    }

    /** `saveProxies()`, given the ISO timestamp and whether the filesystem calls
        succeeded: the path written, with the valid proxies one per line, or
        `null` when writing threw. */
    function SaveProxies(isoTimestamp: string, fsOk: bool): (saved: Option<SavedFile>)
      reads this
      requires Valid()
      ensures saved.Some? <==> fsOk
      ensures saved.Some? ==> saved.value.path == FilePath(isoTimestamp)
      ensures saved.Some? && validProxies == [] ==> saved.value.body == []
      ensures saved.Some? && validProxies != [] ==> Split(saved.value.body, '\n') == validProxies
    {
      if fsOk then
        assert forall p :: p in validProxies ==> IsCandidateText(p) by {
          forall p | p in validProxies ensures IsCandidateText(p) {
            assert p in Elems(validProxies);
          }
        }
        FileBodyRoundTrip(validProxies);
        Some(SavedFile(FilePath(isoTimestamp), FileBody(validProxies)))
      else None
    }

    /** `sendToDiscord(filepath)`: the saved file is attached to a report of the
        pool's size and the number of valid proxies, posted to the webhook. */
    function SendToDiscord(file: SavedFile): (report: Report)
      reads this
      requires Valid()
      ensures report.webhook == discordWebhook && report.attachment == file
      ensures report.totalCollected == |allProxies| && report.validCount == |validProxies|
      ensures report.validCount <= report.totalCollected
    {
      NoDupSubsetLength(validProxies, allProxies);
      Report(discordWebhook, file, |allProxies|, |validProxies|)
    }
  }

  /** The pool after merging holds its old elements and every element of every set. */
  lemma {:induction false} MergeElems(pool: seq<string>, sets: seq<seq<string>>)
    ensures Elems(Merge(pool, sets)) == Elems(pool) + Union(sets)
    decreases |sets|
  {
    if sets != [] {
      var front := sets[..|sets| - 1];
      assert Union(sets) == Union(front) + Elems(sets[|sets| - 1]) by {
        assert forall k :: 0 <= k < |front| ==> front[k] == sets[k];
      }
      MergeElems(pool, front);
      AddAllElems(Merge(pool, front), sets[|sets| - 1]);
    }
  }

  /** Merging keeps the pool duplicate-free, and only appends to it. */
  lemma {:induction false} MergeGrows(pool: seq<string>, sets: seq<seq<string>>)
    ensures NoDup(pool) ==> NoDup(Merge(pool, sets))
    ensures |pool| <= |Merge(pool, sets)| && Merge(pool, sets)[..|pool|] == pool
    decreases |sets|
  {
    if sets != [] {
      var front := sets[..|sets| - 1];
      var m := Merge(pool, front);
      MergeGrows(pool, front);
      if NoDup(pool) {
        AddAllNoDup(m, sets[|sets| - 1]);
      }
      AddAllPrefix(m, sets[|sets| - 1]);
      assert Merge(pool, sets)[..|pool|] == Merge(pool, sets)[..|m|][..|pool|];
    }
  }

  /** Collecting from the sources keeps the invariant: the pool only grows, by candidates. */
  lemma FetchKeepsInvariant(allProxies: seq<string>, validProxies: seq<string>, responses: seq<FetchResult>)
    requires PoolInvariant(allProxies, validProxies)
    ensures PoolInvariant(Merge(allProxies, AllCollected(responses)), validProxies)
  {
    var sets := AllCollected(responses);
    AllCollectedCandidates(responses);
    MergeGrows(allProxies, sets);
    MergeCandidates(allProxies, sets);
    MergeElems(allProxies, sets);
  }

  /** Validation keeps the invariant: only sampled, hence collected, candidates are added. */
  lemma ValidationKeepsInvariant(allProxies: seq<string>, validProxies: seq<string>, shuffled: seq<string>,
                                 sampleSize: int, probe: ProxyConfig -> ProbeOutcome)
    requires PoolInvariant(allProxies, validProxies)
    requires multiset(shuffled) == multiset(allProxies)
    ensures PoolInvariant(allProxies, AddAll(validProxies, Survivors(Sample(shuffled, sampleSize), probe)))
  {
    var sample := Sample(shuffled, sampleSize);
    SampleWithinPool(allProxies, shuffled, sampleSize);
    var survivors := Survivors(sample, probe);
    SurvivorsSpec(sample, probe);
    AddAllNoDup(validProxies, survivors);
    AddAllElems(validProxies, survivors);
    assert Elems(survivors) <= Elems(sample);
  }

  /** Every source's set holds only candidates. */
  lemma {:induction false} AllCollectedCandidates(responses: seq<FetchResult>)
    ensures |AllCollected(responses)| == |responses|
    ensures forall k, p :: 0 <= k < |responses| && p in AllCollected(responses)[k] ==> IsCandidateText(p)
    decreases |responses|
  {
    if responses != [] {
      var front := responses[..|responses| - 1];
      AllCollectedCandidates(front);
      forall k, p | 0 <= k < |responses| && p in AllCollected(responses)[k] ensures IsCandidateText(p) {
        if k == |responses| - 1 {
          match responses[k]
          case Fetched(text) =>
          case FetchFailed =>
        } else {
          assert AllCollected(responses)[k] == AllCollected(front)[k];
        }
      }
    }
  }

  /** Merged sets of candidates are candidates. */
  lemma MergeCandidates(pool: seq<string>, sets: seq<seq<string>>)
    requires forall p :: p in pool ==> IsCandidateText(p)
    requires forall k, p :: 0 <= k < |sets| && p in sets[k] ==> IsCandidateText(p)
    ensures forall p :: p in Merge(pool, sets) ==> IsCandidateText(p)
  {
    MergeElems(pool, sets);
    forall p | p in Merge(pool, sets) ensures IsCandidateText(p) {
      assert p in Elems(Merge(pool, sets));
    }
  }

  /** Probing one more entry of the sample adds it to the survivors when it passed. */
  lemma SurvivorsStep(sample: seq<string>, k: nat, probe: ProxyConfig -> ProbeOutcome)
    requires k < |sample|
    ensures Survivors(sample[..k + 1], probe) ==
            Survivors(sample[..k], probe) + if ValidateProxy(sample[k], probe) then [sample[k]] else []
  {
    assert sample[..k + 1][..k] == sample[..k];
  }

  /** The survivors are exactly the sampled candidates whose probe passed, and
      are duplicate-free when the sample is. */
  lemma {:induction false} SurvivorsSpec(sample: seq<string>, probe: ProxyConfig -> ProbeOutcome)
    ensures forall p :: p in Survivors(sample, probe) <==> p in sample && ValidateProxy(p, probe)
    ensures NoDup(sample) ==> NoDup(Survivors(sample, probe))
    decreases |sample|
  {
    if sample != [] {
      var front := sample[..|sample| - 1];
      var last := sample[|sample| - 1];
      assert sample == front + [last];
      SurvivorsSpec(front, probe);
      if NoDup(sample) {
        assert last !in front;
        assert NoDup(front);
      }
    }
  }

  /** The sample is duplicate-free, drawn from the pool, and as long as
      `slice` makes it: every candidate is probed when `sampleSize` is at
      least the pool's size. */
  lemma SampleWithinPool(pool: seq<string>, shuffled: seq<string>, sampleSize: int)
    requires NoDup(pool) && multiset(shuffled) == multiset(pool)
    ensures NoDup(Sample(shuffled, sampleSize))
    ensures Elems(Sample(shuffled, sampleSize)) <= Elems(pool)
    ensures 0 <= sampleSize ==> |Sample(shuffled, sampleSize)| == if sampleSize < |pool| then sampleSize else |pool|
    ensures |pool| <= sampleSize ==> Elems(Sample(shuffled, sampleSize)) == Elems(pool)
  {
    assert |shuffled| == |multiset(shuffled)| == |pool|;
    NoDupPermutation(pool, shuffled);
    var n := SliceEnd(|shuffled|, sampleSize);
    NoDupPrefix(shuffled, n);
    forall p | p in Sample(shuffled, sampleSize) ensures p in pool {
      assert p in multiset(shuffled);
    }
    if |pool| <= sampleSize {
      assert Sample(shuffled, sampleSize) == shuffled;
      forall p | p in pool ensures p in shuffled {
        assert p in multiset(pool);
      }
    }
  }

  /** Every character of a candidate is a digit, a dot or the colon. */
  lemma CandidateChars(p: string)
    requires IsCandidateText(p)
    ensures forall k :: 0 <= k < |p| ==> IsDigit(p[k]) || p[k] == '.' || p[k] == ':'
  {
    var g: Candidate :| g.Valid() && g.Text() == p;
    JoinChars(g.octets);
  }

  /** Octets joined with dots hold only digits and dots. */
  lemma {:induction false} JoinChars(octs: seq<string>)
    requires forall k :: 0 <= k < |octs| ==> AllDigits(octs[k])
    ensures forall k :: 0 <= k < |Join(octs, '.')| ==> IsDigit(Join(octs, '.')[k]) || Join(octs, '.')[k] == '.'
    decreases |octs|
  {
    if |octs| > 1 {
      JoinChars(octs[1..]);
      var rest := Join(octs[1..], '.');
      var j := octs[0] + ['.'] + rest;
      assert forall k :: |octs[0]| < k < |j| ==> j[k] == rest[k - |octs[0]| - 1];
    }
  }

  /** The saved file lists the valid proxies one per line: splitting its body on
      newlines gives them back, and no valid proxies give an empty file. */
  lemma FileBodyRoundTrip(validProxies: seq<string>)
    requires forall p :: p in validProxies ==> IsCandidateText(p)
    ensures validProxies == [] ==> FileBody(validProxies) == []
    ensures validProxies != [] ==> Split(FileBody(validProxies), '\n') == validProxies
  {
    if validProxies != [] {
      forall i | 0 <= i < |validProxies| ensures '\n' !in validProxies[i] {
        CandidateChars(validProxies[i]);
      }
      SplitJoin(validProxies, '\n');
    }
  }

  /** `const [host, port] = proxy.split(':')` on a collected candidate gives back
      group 1 and group 2 of its match, so the probe goes through exactly the
      address and the decimal port the source listed. */
  lemma ProxyConfigOfCandidate(g: Candidate)
    requires g.Valid()
    ensures Split(g.Text(), ':') == [g.Host(), g.port]
    ensures ProxyConfigOf(g.Text()) == ProxyConfig(g.Host(), Some(DecimalValue(g.port)))
  {
    JoinChars(g.octets);
    assert ':' !in g.Host();
    assert ':' !in g.port;
    SplitAtFirst(g.Host(), ':', g.port);
    SplitWithoutSep(g.port, ':');
  }

  /** The largest integer a JavaScript number holds exactly, `2^53 - 1`. */
  const MaxSafeInteger: nat := 9007199254740991

  /** A port of at most fifteen digits is below `2^53`, so `parseInt` gives its
      value exactly and the probe gets the port the source listed. */
  lemma ShortPortExact(g: Candidate)
    requires g.Valid() && |g.port| <= 15
    ensures ProxyConfigOf(g.Text()).port == Some(DecimalValue(g.port))
    ensures DecimalValue(g.port) <= MaxSafeInteger
  {
    ProxyConfigOfCandidate(g);
    DecimalValueBelow(g.port);
    Pow10Grows(|g.port|, 15);
    assert Pow10(15) == 1000000000000000;
  }

  /** A candidate is valid exactly when the probe through its own host and
      port answered 200; a thrown error or any other status rejects it. */
  lemma ValidateCandidate(g: Candidate, probe: ProxyConfig -> ProbeOutcome)
    requires g.Valid()
    ensures ValidateProxy(g.Text(), probe) <==> probe(ProxyConfig(g.Host(), Some(DecimalValue(g.port)))) == Responded(200)
  {
    ProxyConfigOfCandidate(g);
  }

  /** The pool after collection does not depend on the order the sources are listed in. */
  lemma FetchOrderIrrelevant(pool: seq<string>, responses: seq<FetchResult>, reordered: seq<FetchResult>)
    requires multiset(responses) == multiset(reordered)
    ensures Elems(Merge(pool, AllCollected(responses))) == Elems(Merge(pool, AllCollected(reordered)))
  {
    MergeElems(pool, AllCollected(responses));
    MergeElems(pool, AllCollected(reordered));
    CollectedSets(responses);
    CollectedSets(reordered);
    assert Elems(responses) == Elems(reordered) by {
      forall r ensures r in responses <==> r in reordered {
        assert r in responses <==> r in multiset(responses);
        assert r in reordered <==> r in multiset(reordered);
      }
    }
    UnionOfSameSets(AllCollected(responses), AllCollected(reordered));
  }

  /** The sets the responses in `rs` yield. */
  ghost function CollectedOf(rs: set<FetchResult>): set<seq<string>> {
    set r | r in rs :: Collected(r)
  }

  /** The sets collected are those of the responses, whatever their order. */
  lemma {:induction false} CollectedSets(responses: seq<FetchResult>)
    ensures Elems(AllCollected(responses)) == CollectedOf(Elems(responses))
    decreases |responses|
  {
    if responses != [] {
      var front := responses[..|responses| - 1];
      var last := responses[|responses| - 1];
      CollectedSets(front);
      assert AllCollected(responses) == AllCollected(front) + [Collected(last)];
      ElemsSnoc(AllCollected(front), Collected(last));
      assert responses == front + [last];
      ElemsSnoc(front, last);
      CollectedOfAdd(Elems(front), last);
    }
  }

  /** One more response adds the set it yields. */
  lemma CollectedOfAdd(rs: set<FetchResult>, r: FetchResult)
    ensures CollectedOf(rs + {r}) == CollectedOf(rs) + {Collected(r)}
  {
    forall x | x in CollectedOf(rs + {r}) ensures x in CollectedOf(rs) + {Collected(r)} {
      var q :| q in rs + {r} && x == Collected(q);
      if q != r {
        assert q in rs;
      }
    }
  }

  /** The union of a list of sets depends only on which sets it lists. */
  lemma UnionOfSameSets(a: seq<seq<string>>, b: seq<seq<string>>)
    requires Elems(a) == Elems(b)
    ensures Union(a) == Union(b)
  {
    forall p | p in Union(a) ensures p in Union(b) {
      var k :| 0 <= k < |a| && p in a[k];
      assert a[k] in Elems(b);
    }
    forall p | p in Union(b) ensures p in Union(a) {
      var k :| 0 <= k < |b| && p in b[k];
      assert b[k] in Elems(a);
    }
  }

  /** When every request failed, collection leaves the pool as it was. */
  lemma {:induction false} AllFailedCollectNothing(pool: seq<string>, responses: seq<FetchResult>)
    requires forall k :: 0 <= k < |responses| ==> responses[k] == FetchFailed
    ensures Merge(pool, AllCollected(responses)) == pool
    decreases |responses|
  {
    if responses != [] {
      var front := responses[..|responses| - 1];
      AllFailedCollectNothing(pool, front);
      var sets := AllCollected(responses);
      assert sets[..|sets| - 1] == AllCollected(front);
    }
  }

  /** Starting from an empty `validProxies`, validation leaves in it exactly the
      passing part of the sample, in sample order: `validProxies ⊆ sample ⊆ allProxies`. */
  lemma ValidatedFromEmpty(allProxies: seq<string>, shuffled: seq<string>, sampleSize: int,
                           probe: ProxyConfig -> ProbeOutcome)
    requires NoDup(allProxies) && multiset(shuffled) == multiset(allProxies)
    ensures var sample := Sample(shuffled, sampleSize);
            AddAll([], Survivors(sample, probe)) == Survivors(sample, probe) &&
            Elems(Survivors(sample, probe)) <= Elems(sample) <= Elems(allProxies)
  {
    var sample := Sample(shuffled, sampleSize);
    SampleWithinPool(allProxies, shuffled, sampleSize);
    SurvivorsSpec(sample, probe);
    assert [] + Survivors(sample, probe) == Survivors(sample, probe);
    AddAllFresh([], Survivors(sample, probe));
  }

  /** No `:` survives in the file name, whatever the timestamp. */
  lemma FileNameHasNoColon(isoTimestamp: string)
    ensures ':' !in FileName(isoTimestamp)
  {
    ReplaceAllRemoves(isoTimestamp, ':', '-');
  }
}
