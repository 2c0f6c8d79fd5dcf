/** The script's top level: a validator for the webhook collects from every
    source, validates a sample of the default size, saves the result, and sends
    the report only when saving returned a path. */
module Pipeline {
  import opened OrderedSets
  import opened Validator

  /** What one run leaves behind: the file saved, if any, and the report sent, if any. */
  datatype Outcome = Outcome(saved: Option<SavedFile>, sent: Option<Report>)

  /** One run, given the webhook, every source's response, the shuffle `sort`
      performs, the probe's answers, the clock and whether the filesystem works. */
  method Run(discordWebhook: string, responses: seq<FetchResult>, shuffle: seq<string> -> seq<string>,
             probe: ProxyConfig -> ProbeOutcome, isoTimestamp: string, fsOk: bool)
    returns (outcome: Outcome)
    requires |responses| == |ProxySources|
    requires forall xs :: multiset(shuffle(xs)) == multiset(xs)
    ensures var pool := Merge([], AllCollected(responses));
            var valid := Survivors(Sample(shuffle(pool), DefaultSampleSize), probe);
            outcome.saved == (if fsOk then Some(SavedFile(FilePath(isoTimestamp), FileBody(valid))) else None) &&
            outcome.sent == (if fsOk then Some(Report(discordWebhook, outcome.saved.value, |pool|, |valid|)) else None)
    ensures outcome.sent.Some? ==> outcome.sent.value.validCount <= outcome.sent.value.totalCollected
  {
    var validator := new ProxyValidator(discordWebhook);
    validator.FetchAllProxies(responses);
    var pool := validator.allProxies;
    validator.ValidateProxies(DefaultSampleSize, shuffle(pool), probe);
    ValidatedFromEmpty(pool, shuffle(pool), DefaultSampleSize, probe);
    var saved := validator.SaveProxies(isoTimestamp, fsOk);
    var sent := None;
    if saved.Some? {
      sent := Some(validator.SendToDiscord(saved.value));
    }
    outcome := Outcome(saved, sent);
  }
}
