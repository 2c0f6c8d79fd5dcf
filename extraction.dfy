/** Candidate extraction (`fetchFromSource`): the global regular expression
    `/(\d{1,3}\.\d{1,3}\.\d{1,3}\.\d{1,3}):(\d+)/g` is run with `exec` until it
    fails, and every match is added to a set as `group1 + ":" + group2`.

    `\d{1,3}` followed by a literal `.` or `:` is tried greedily, three digits
    first; since the separator is not a digit, at most one of the three tries
    can succeed, and `\d+` at the end of the pattern takes the whole run of
    digits. So the backtracking matcher has one answer at each start index,
    and `MatchAt` computes it. */
module Extraction {
  import opened OrderedSets
  import opened JsText

  /** One to three digits: what `\d{1,3}` accepts. Octet values are not checked. */
  predicate IsOctet(s: string) {
    1 <= |s| <= 3 && AllDigits(s)
  }

  /** The captured groups of one match: the four octets of group 1, and group 2. */
  datatype Candidate = Candidate(octets: seq<string>, port: string) {

    /** The pattern's shape; octet and port values are not range-checked. */
    predicate Valid() {
      |octets| == 4 && (forall k :: 0 <= k < 4 ==> IsOctet(octets[k])) && port != [] && AllDigits(port)
    }

    /** Group 1, `match[1]`: the octets with the dots between them. */
    function Host(): string {
      Join(octets, '.')
    }

    /** The string added to the set, `${match[1]}:${match[2]}`. */
    function Text(): string {
      Host() + ":" + port
    }
  }

  /** A string of the shape the extractor produces. */
  ghost predicate IsCandidateText(p: string) {
    exists g: Candidate :: g.Valid() && g.Text() == p
  }

  /** A successful `exec`: where the match starts, its groups, and `lastIndex` after it. */
  datatype Match = Match(start: nat, groups: Candidate, end: nat)

  /** The literal after each `\d{1,3}` of group 1, and the `:` before group 2. */
  const Separators: string := "...:"

  /** Dots between the octets, a colon before the port, and no digit among them. */
  lemma SeparatorsShape()
    ensures |Separators| == 4 && Separators[3] == ':'
    ensures forall k :: 0 <= k < 3 ==> Separators[k] == '.'
    ensures forall k :: 0 <= k < 4 ==> !IsDigit(Separators[k])
  {
  }

  /** `\d{1,3}` followed by the literal `sep`, tried at index `i` with three,
      then two, then one digit: the index of the separator. */
  function GroupEnd(s: string, i: nat, sep: char): (e: Option<nat>)
    requires i <= |s|
    ensures e.Some? ==> i < e.value <= i + 3 && e.value < |s| && s[e.value] == sep
  {
    if i + 3 < |s| && IsDigit(s[i]) && IsDigit(s[i + 1]) && IsDigit(s[i + 2]) && s[i + 3] == sep then Some(i + 3)
    else if i + 2 < |s| && IsDigit(s[i]) && IsDigit(s[i + 1]) && s[i + 2] == sep then Some(i + 2)
    else if i + 1 < |s| && IsDigit(s[i]) && s[i + 1] == sep then Some(i + 1)
    else None
  }

  /** The rest of the pattern from index `i`: `\d{1,3}` then `seps[0]`, `\d{1,3}`
      then `seps[1]`, ..., then `\d+`. The octets read, the port, and the end. */
  function MatchFrom(s: string, i: nat, seps: string): (r: Option<(seq<string>, string, nat)>)
    requires i <= |s|
    ensures r.Some? ==> |r.value.0| == |seps| && i < r.value.2 <= |s|
    decreases |seps|
  {
    if seps == [] then
      var n := DigitRun(s, i);
      if n == 0 then None else Some(([], s[i..i + n], i + n))
    else
      match GroupEnd(s, i, seps[0])
      case None => None
      case Some(e) =>
        match MatchFrom(s, e + 1, seps[1..])
        case None => None
        case Some(rest) => Some(([s[i..e]] + rest.0, rest.1, rest.2))
  }

  /** The text `MatchFrom` reads before the port: each octet followed by its separator. */
  function Delimited(octs: seq<string>, seps: string): string
    requires |octs| == |seps|
    decreases |seps|
  {
    if seps == [] then [] else octs[0] + [seps[0]] + Delimited(octs[1..], seps[1..])
  }

  /** The pattern anchored at index `i`. */
  function MatchAt(s: string, i: nat): (r: Option<Match>)
    requires i <= |s|
    ensures r.Some? ==> r.value.start == i && i < r.value.end <= |s|
  {
    match MatchFrom(s, i, Separators)
    case None => None
    case Some(r) => Some(Match(i, Candidate(r.0, r.1), r.2))
  }

  /** `MatchAt` reports what `MatchFrom` read, as the groups of a match starting at `i`. */
  lemma MatchAtOfFrom(s: string, i: nat, octs: seq<string>, port: string, end: nat)
    requires i <= |s| && MatchFrom(s, i, Separators) == Some((octs, port, end))
    ensures MatchAt(s, i) == Some(Match(i, Candidate(octs, port), end))
  {
  }

  /** `proxyRegex.exec(text)` with `lastIndex == i`: the leftmost match at or after `i`. */
  function FirstMatch(s: string, i: nat): (r: Option<Match>)
    requires i <= |s|
    ensures r.Some? ==> i <= r.value.start < |s| && MatchAt(s, r.value.start) == Some(r.value)
    ensures forall j :: i <= j < (if r.Some? then r.value.start else |s|) ==> MatchAt(s, j).None?
    decreases |s| - i
  {
    if i == |s| then None
    else if MatchAt(s, i).Some? then MatchAt(s, i)
    else FirstMatch(s, i + 1)
  }

  /** The strings of the successive matches from `lastIndex == i`, duplicates included. */
  function Matches(s: string, i: nat): (ms: seq<string>)
    requires i <= |s|
    ensures forall k :: 0 <= k < |ms| ==> IsCandidateText(ms[k])
    decreases |s| - i
  {
    match FirstMatch(s, i)
    case None => []
    case Some(m) =>
      MatchAtSound(s, m.start);
      assert IsCandidateText(m.groups.Text());
      [m.groups.Text()] + Matches(s, m.end)
  }

  /** The set `fetchFromSource` builds from a response body, in insertion order. */
  function Extracted(text: string): (proxies: seq<string>)
    ensures NoDup(proxies)
    ensures forall p :: p in proxies ==> IsCandidateText(p)
  {
    var ms := Matches(text, 0);
    var r := AddAll([], ms);
    AddAllNoDup([], ms);
    AddAllElems([], ms);
    assert forall p :: p in r ==> IsCandidateText(p) by {
      forall p | p in r ensures IsCandidateText(p) {
        assert p in Elems(r);
        var k :| 0 <= k < |ms| && ms[k] == p;
      }
    }
    r
  }

  /** A slice is the concatenation of the slices it is cut into. */
  lemma SliceCut(s: string, x: nat, y: nat, z: nat)
    requires x <= y < z <= |s|
    ensures s[x..z] == s[x..y] + [s[y]] + s[y + 1..z]
  {
    assert s[x..z] == s[x..y] + s[y..z];
    assert s[y..z] == [s[y]] + s[y + 1..z];
  }

  /** Backtracking finds no other way through `\d{1,3}` followed by `sep`:
      it succeeds with `k` digits exactly when `GroupEnd` puts the separator at `i + k`. */
  lemma GroupEndExact(s: string, i: nat, k: nat, sep: char)
    requires !IsDigit(sep)
    requires i + k < |s|
    ensures GroupEnd(s, i, sep) == Some(i + k) <==> IsOctet(s[i..i + k]) && s[i + k] == sep
  {
    assert forall x :: i <= x < i + k ==> s[x] == s[i..i + k][x - i];
  }

  /** Every group `MatchFrom` reads before a separator is an octet. */
  lemma {:induction false} MatchFromOctets(s: string, i: nat, seps: string)
    requires i <= |s| && MatchFrom(s, i, seps).Some?
    requires forall k :: 0 <= k < |seps| ==> !IsDigit(seps[k])
    ensures forall k :: 0 <= k < |seps| ==> IsOctet(MatchFrom(s, i, seps).value.0[k])
    decreases |seps|
  {
    if seps != [] {
      var e := GroupEnd(s, i, seps[0]).value;
      var j := e + 1;
      var rest := MatchFrom(s, j, seps[1..]).value;
      assert forall k :: 0 <= k < |seps[1..]| ==> seps[1..][k] == seps[k + 1];
      MatchFromOctets(s, j, seps[1..]);
      GroupEndExact(s, i, e - i, seps[0]);
      MatchFromStep(s, i, seps, e, j, rest.0, rest.1, rest.2);
    }
  }

  /** The port `MatchFrom` reads is a non-empty run of digits that takes every digit that follows. */
  lemma {:induction false} MatchFromPort(s: string, i: nat, seps: string)
    requires i <= |s| && MatchFrom(s, i, seps).Some?
    ensures var r := MatchFrom(s, i, seps).value;
            r.1 != [] && AllDigits(r.1) && |r.1| <= r.2 && r.1 == s[r.2 - |r.1|..r.2] &&
            (r.2 == |s| || !IsDigit(s[r.2]))
    decreases |seps|
  {
    if seps == [] {
      DigitRunSpec(s, i);
      var n := DigitRun(s, i);
      var r := MatchFrom(s, i, seps).value;
      assert r.1 == s[i..i + n] && r.2 == i + n && |r.1| == n;
      assert forall x :: 0 <= x < |r.1| ==> r.1[x] == s[i + x];
    } else {
      var e := GroupEnd(s, i, seps[0]).value;
      MatchFromPort(s, e + 1, seps[1..]);
    }
  }

  /** One step of `Delimited`: the octet before the separator at `e`, then the rest. */
  lemma DelimitedStep(s: string, i: nat, e: nat, j: nat, end: nat, octs: seq<string>, seps: string, port: string)
    requires i <= e < end <= |s| && j == e + 1 && |octs| == |seps|
    requires s[j..end] == Delimited(octs, seps) + port
    ensures s[i..end] == Delimited([s[i..e]] + octs, [s[e]] + seps) + port
  {
    var a, c, d := s[i..e], s[e], Delimited(octs, seps);
    assert Delimited([a] + octs, [c] + seps) == a + [c] + d by {
      assert ([a] + octs)[1..] == octs;
      assert ([c] + seps)[1..] == seps;
    }
    SliceCut(s, i, e, end);
    Associate(a + [c], d, port);
  }

  /** Regrouping a concatenation, stated as a lemma so that a proof uses it
      once for the strings it names and for nothing else. */
  lemma Associate(x: string, y: string, z: string)
    ensures x + (y + z) == (x + y) + z
  {
  }

  /** The text `MatchFrom` reads is its octets, each followed by its separator, then the port. */
  lemma {:induction false} MatchFromText(s: string, i: nat, seps: string)
    requires i <= |s| && MatchFrom(s, i, seps).Some?
    ensures var r := MatchFrom(s, i, seps).value;
            s[i..r.2] == Delimited(r.0, seps) + r.1
    decreases |seps|
  {
    if seps == [] {
      MatchFromPort(s, i, seps);
    } else {
      var e := GroupEnd(s, i, seps[0]).value;
      var j := e + 1;
      var rest := MatchFrom(s, j, seps[1..]).value;
      MatchFromText(s, j, seps[1..]);
      MatchFromStep(s, i, seps, e, j, rest.0, rest.1, rest.2);
      DelimitedStep(s, i, e, j, rest.2, rest.0, seps[1..], rest.1);
      assert [s[e]] + seps[1..] == seps;
    }
  }

  /** Octets each followed by its separator, then a maximal run of port digits,
      are read back by `MatchFrom`. */
  lemma {:induction false} MatchFromComplete(s: string, i: nat, seps: string, octs: seq<string>, port: string,
                                             t: string, end: nat)
    requires |octs| == |seps|
    requires forall k :: 0 <= k < |seps| ==> !IsDigit(seps[k]) && IsOctet(octs[k])
    requires port != [] && AllDigits(port)
    requires t == Delimited(octs, seps) + port
    requires end == i + |t| <= |s| && s[i..end] == t && (end == |s| || !IsDigit(s[end]))
    ensures MatchFrom(s, i, seps) == Some((octs, port, end))
    decreases |seps|
  {
    if seps == [] {
      assert t == port by {
        assert Delimited(octs, seps) == [];
      }
      PortComplete(s, i, port, end);
    } else {
      var o, c := octs[0], seps[0];
      var t' := Delimited(octs[1..], seps[1..]) + port;
      assert t == o + [c] + t' by {
        Associate(o + [c], Delimited(octs[1..], seps[1..]), port);
      }
      var e := i + |o|;
      var j := e + 1;
      SliceParts(s, i, o, c, t', e, j, end);
      GroupEndExact(s, i, |o|, c);
      assert forall k :: 0 <= k < |seps[1..]| ==> seps[1..][k] == seps[k + 1] && octs[1..][k] == octs[k + 1];
      MatchFromComplete(s, j, seps[1..], octs[1..], port, t', end);
      MatchFromStep(s, i, seps, e, j, octs[1..], port, end);
      assert [o] + octs[1..] == octs;
    }
  }

  /** One step of `MatchFrom`: the group up to the first separator, then the rest. */
  lemma MatchFromStep(s: string, i: nat, seps: string, e: nat, j: nat, octs: seq<string>, port: string, end: nat)
    requires i <= |s| && seps != [] && j == e + 1
    requires GroupEnd(s, i, seps[0]) == Some(e)
    requires MatchFrom(s, j, seps[1..]) == Some((octs, port, end))
    ensures MatchFrom(s, i, seps) == Some(([s[i..e]] + octs, port, end))
  {
  }

  /** The base case: a maximal run of digits at `i` is read as the port. */
  lemma PortComplete(s: string, i: nat, port: string, end: nat)
    requires port != [] && AllDigits(port)
    requires end == i + |port| <= |s| && s[i..end] == port && (end == |s| || !IsDigit(s[end]))
    ensures MatchFrom(s, i, []) == Some(([], port, end))
  {
    assert forall x :: i <= x < end ==> s[x] == s[i..end][x - i];
    DigitRunExact(s, i, |port|);
  }

  /** A slice that spells `a`, then `c`, then `b` spells each at its place. */
  lemma SliceParts(s: string, i: nat, a: string, c: char, b: string, e: nat, j: nat, end: nat)
    requires e == i + |a| && j == e + 1 && end == j + |b| <= |s| && s[i..end] == a + [c] + b
    ensures s[i..e] == a && s[e] == c && s[j..end] == b
  {
    var w := s[i..end];
    assert forall k :: i <= k < end ==> s[k] == w[k - i];
    assert s[i..e] == w[..|a|];
    assert s[e] == w[|a|];
    assert s[j..end] == w[|a| + 1..];
  }

  /** The text before the port, for the pattern's separators, is group 1 and its colon. */
  lemma {:induction false} DelimitedHost(octs: seq<string>, seps: string)
    requires |octs| == |seps| >= 1
    requires seps[|seps| - 1] == ':' && forall k :: 0 <= k < |seps| - 1 ==> seps[k] == '.'
    ensures Delimited(octs, seps) == Join(octs, '.') + ":"
    decreases |seps|
  {
    if |seps| > 1 {
      DelimitedHost(octs[1..], seps[1..]);
    }
  }

  /** What `MatchAt` reports is a match of the whole pattern: its groups have the
      pattern's shape, the text matched is the string added to the set, and the
      port took every digit that follows. */
  lemma MatchAtSound(s: string, i: nat)
    requires i <= |s| && MatchAt(s, i).Some?
    ensures var m := MatchAt(s, i).value;
            m.groups.Valid() && s[i..m.end] == m.groups.Text() && (m.end == |s| || !IsDigit(s[m.end]))
  {
    SeparatorsShape();
    MatchFromOctets(s, i, Separators);
    MatchFromPort(s, i, Separators);
    MatchFromText(s, i, Separators);
    DelimitedHost(MatchFrom(s, i, Separators).value.0, Separators);
  }

  /** Every occurrence of a candidate's text that is not followed by a digit is
      found by the pattern anchored there, with the same groups. */
  lemma MatchAtComplete(s: string, i: nat, g: Candidate, end: nat)
    requires g.Valid()
    requires end == i + |g.Text()| <= |s| && s[i..end] == g.Text()
    requires end == |s| || !IsDigit(s[end])
    ensures MatchAt(s, i) == Some(Match(i, g, end))
  {
    var t := g.Text();
    assert Delimited(g.octets, Separators) + g.port == t by {
      SeparatorsShape();
      DelimitedHost(g.octets, Separators);
    }
    MatchAtFromParts(s, i, g.octets, g.port, t, end);
    assert g == Candidate(g.octets, g.port);
  }

  /** The same, for the text the groups spell with the pattern's separators. */
  lemma MatchAtFromParts(s: string, i: nat, octs: seq<string>, port: string, t: string, end: nat)
    requires |octs| == 4 && (forall k :: 0 <= k < 4 ==> IsOctet(octs[k])) && port != [] && AllDigits(port)
    requires t == Delimited(octs, Separators) + port
    requires end == i + |t| <= |s| && s[i..end] == t && (end == |s| || !IsDigit(s[end]))
    ensures MatchAt(s, i) == Some(Match(i, Candidate(octs, port), end))
  {
    SeparatorsShape();
    MatchFromComplete(s, i, Separators, octs, port, t, end);
    MatchAtOfFrom(s, i, octs, port, end);
  }

  /** The extractor finds exactly what it produces: a candidate's text alone yields that one entry. */
  lemma ExtractedText(g: Candidate)
    requires g.Valid()
    ensures Extracted(g.Text()) == [g.Text()]
  {
    var t := g.Text();
    assert t[0..|t|] == t;
    MatchAtComplete(t, 0, g, |t|);
    assert FirstMatch(t, 0) == Some(Match(0, g, |t|));
    assert FirstMatch(t, |t|) == None;
    assert Matches(t, |t|) == [];
    assert Matches(t, 0) == [t];
    assert AddAll([], [t]) == AddAll([t], []) == [t];
  }

  /** Every match contains the colon of the pattern. */
  lemma MatchNeedsColon(s: string, i: nat)
    requires i <= |s| && ':' !in s
    ensures MatchAt(s, i).None?
  {
    if MatchAt(s, i).Some? {
      MatchAtSound(s, i);
    }
  }

  /** Text with no colon holds no candidate: the set is empty. */
  lemma ExtractedWithoutColon(text: string)
    requires ':' !in text
    ensures Extracted(text) == []
  {
    forall j | 0 <= j <= |text| ensures MatchAt(text, j).None? {
      MatchNeedsColon(text, j);
    }
  }

  /** The set holds exactly the strings of the matches, each once. */
  lemma ExtractedElems(text: string)
    ensures Elems(Extracted(text)) == Elems(Matches(text, 0))
  {
    AddAllElems([], Matches(text, 0));
  }

  /** The set is empty exactly when the pattern matches at no index of the text. */
  lemma ExtractedEmpty(text: string)
    ensures Extracted(text) == [] <==> forall j :: 0 <= j < |text| ==> MatchAt(text, j).None?
  {
    ExtractedElems(text);
    match FirstMatch(text, 0)
    case None =>
    case Some(m) =>
      assert m.groups.Text() in Elems(Matches(text, 0));
  }

  /** A candidate listed twice, with a non-digit between, is collected once. */
  lemma ExtractedTwice(g: Candidate, c: char)
    requires g.Valid() && !IsDigit(c)
    ensures Extracted(g.Text() + [c] + g.Text()) == [g.Text()]
  {
    var t := g.Text();
    var s := t + [c] + t;
    assert s[0..|t|] == t && s[|t|] == c && s[|t| + 1..|s|] == t;
    ExtractedTwiceAt(s, |t|, g);
  }

  /** The same, for a text given by what it holds where. */
  lemma ExtractedTwiceAt(s: string, n: nat, g: Candidate)
    requires g.Valid() && n == |g.Text()| && |s| == 2 * n + 1
    requires s[0..n] == g.Text() && !IsDigit(s[n]) && s[n + 1..|s|] == g.Text()
    ensures Extracted(s) == [g.Text()]
  {
    var m := n + 1;
    var end := |s|;
    MatchAtComplete(s, 0, g, n);
    MatchAtComplete(s, m, g, end);
    NoMatchAtNonDigit(s, n);
    TwoMatches(s, n, m, g, end);
    DuplicateAddedOnce(g.Text());
  }

  /** Matches at `0` and just after `n`, and none at `n`, make two matches in all. */
  lemma TwoMatches(s: string, n: nat, m: nat, g: Candidate, end: nat)
    requires m == n + 1 && end == |s| && end == m + n
    requires MatchAt(s, 0) == Some(Match(0, g, n))
    requires MatchAt(s, n).None?
    requires MatchAt(s, m) == Some(Match(m, g, end))
    ensures Matches(s, 0) == [g.Text(), g.Text()]
  {
    var first := Match(0, g, n);
    var second := Match(m, g, end);
    FirstMatchHere(s, m, second);
    FirstMatchSkip(s, n, m);
    FirstMatchHere(s, 0, first);
    MatchesNext(s, m, second);
    MatchesNext(s, n, second);
    MatchesNext(s, 0, first);
    assert Matches(s, end) == [];
  }

  /** `exec` from `i` reports the match anchored at `i` when there is one. */
  lemma FirstMatchHere(s: string, i: nat, m: Match)
    requires i <= |s| && MatchAt(s, i) == Some(m)
    ensures FirstMatch(s, i) == Some(m)
  {
    assert i < |s| by {
      MatchAtSound(s, i);
    }
  }

  /** `exec` from `i` moves on to `j == i + 1` when nothing matches at `i`. */
  lemma FirstMatchSkip(s: string, i: nat, j: nat)
    requires j == i + 1 <= |s| && MatchAt(s, i).None?
    ensures FirstMatch(s, i) == FirstMatch(s, j)
  {
  }

  /** The pattern cannot start at a non-digit. */
  lemma NoMatchAtNonDigit(s: string, i: nat)
    requires i < |s| && !IsDigit(s[i])
    ensures MatchAt(s, i).None?
  {
    assert GroupEnd(s, i, '.').None?;
  }

  /** When `exec` from `i` finds `m`, the matches from `i` are `m` and then those after it. */
  lemma MatchesNext(s: string, i: nat, m: Match)
    requires i <= |s| && FirstMatch(s, i) == Some(m)
    ensures Matches(s, i) == [m.groups.Text()] + Matches(s, m.end)
  {
  }

  /** Adding the same string twice to an empty set gives it once. */
  lemma DuplicateAddedOnce(t: string)
    ensures AddAll([], [t, t]) == [t]
  {
    assert [t, t][1..] == [t];
    assert Add([], t) == [t];
    assert AddAll([], [t, t]) == AddAll(Add([], t), [t]);
    AddAllPresent([t], [t]);
  }

  /** A match may start inside a longer run of digits: the first octet is the
      last three digits before the dot. */
  lemma ExtractedInsideDigitRun()
    ensures Extracted("1234.5.6.7:80") == ["234.5.6.7:80"]
  {
    var s := "1234.5.6.7:80";
    var t := "234.5.6.7:80";
    var g := Candidate(["234", "5", "6", "7"], "80");
    var end := |s|;
    InnerCandidate(g, t);
    assert s[1..end] == t;
    MatchAtComplete(s, 1, g, end);
    FourDigitsNoMatch(s);
    var m := Match(1, g, end);
    FirstMatchHere(s, 1, m);
    FirstMatchSkip(s, 0, 1);
    MatchesNext(s, 0, m);
    assert Matches(s, end) == [];
    assert AddAll([], [t]) == [t];
  }

  /** The candidate found inside `1234.5.6.7:80`. */
  lemma InnerCandidate(g: Candidate, t: string)
    requires g == Candidate(["234", "5", "6", "7"], "80") && t == "234.5.6.7:80"
    ensures g.Valid() && g.Text() == t
  {
    assert g.Host() == "234.5.6.7";
  }

  /** Four digits before the first dot: no octet can start at the first of them. */
  lemma FourDigitsNoMatch(s: string)
    requires s == "1234.5.6.7:80"
    ensures MatchAt(s, 0).None?
  {
    assert GroupEnd(s, 0, '.').None?;
  }
}
