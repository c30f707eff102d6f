/** The branch-policy gate of `main.ts`: turning the raw `whitelist` and
    `blacklist` inputs into branch lists (`getInputs`), the decision on a
    pull request (`handlePullRequest`) and the event-type gate (`main`).
    The reporting calls of `@actions/core` (`info`, `warning`, `error`,
    `setFailed`) are modelled as an ordered sequence of events that the
    methods return. */
module BranchPolicy {
  import opened JsStrings
  import opened JsArrays

  // ---------------------------------------------------------------------
  // getInputs

  predicate NonEmpty(s: string) {
    s != ""
  }

  /** `getInputs`, applied to the string `core.getInput` returned: an empty
      input gives no branches; otherwise the lines of the input, without
      the empty ones, lower-cased. */
  function GetInputs(input: string): (r: seq<string>)
    ensures input == "" ==> r == []
    ensures forall i :: 0 <= i < |r| ==> r[i] != ""
    ensures forall i :: 0 <= i < |r| ==> '\n' !in r[i]
    ensures forall i :: 0 <= i < |r| ==> IsLowerCase(r[i])
  {
    if input == "" then []
    else
      var lines := Filter(Split(input, '\n'), NonEmpty);
      var r := Map(lines, Lower);
      assert forall i :: 0 <= i < |r| ==> '\n' !in r[i] by {
        forall i | 0 <= i < |r| ensures '\n' !in r[i] {
          LowerKeepsNonLetter(lines[i], '\n');
        }
      }
      r
  }

  /** The early return for an empty input is only a shortcut: the
      split/filter/map pipeline gives the same list for every input. */
  lemma GetInputsPipeline(input: string)
    ensures GetInputs(input) == Map(Filter(Split(input, '\n'), NonEmpty), Lower)
  {
  }

  /** A single line gives itself lower-cased, unless it is empty. Blank
      lines made of spaces and lines ending in a carriage return are kept. */
  lemma {:induction false} GetInputsLine(line: string)
    requires '\n' !in line
    ensures GetInputs(line) == if line == "" then [] else [Lower(line)]
  {
    SplitNoSeparator(line, '\n');
    if line != "" {
      assert Filter([line], NonEmpty) == [line];
    }
  }

  /** Lines keep their order: the branches of `a + "\n" + b` are those of
      `a` followed by those of `b`. */
  lemma {:induction false} GetInputsAppend(a: string, b: string)
    ensures GetInputs(a + "\n" + b) == GetInputs(a) + GetInputs(b)
  {
    GetInputsPipeline(a + "\n" + b);
    GetInputsPipeline(a);
    GetInputsPipeline(b);
    SplitAppend(a, b, '\n');
    FilterAppend(Split(a, '\n'), Split(b, '\n'), NonEmpty);
    MapAppend(Filter(Split(a, '\n'), NonEmpty), Filter(Split(b, '\n'), NonEmpty), Lower);
  }

  /** An input made only of line breaks gives no branches. */
  lemma {:induction false} GetInputsOnlyLineBreaks(input: string)
    requires forall i :: 0 <= i < |input| ==> input[i] == '\n'
    ensures GetInputs(input) == []
    decreases |input|
  {
    if input != "" {
      GetInputsOnlyLineBreaks(input[1..]);
      GetInputsAppend("", input[1..]);
      assert "" + "\n" + input[1..] == input;
    }
  }

  /** Membership: a branch is listed exactly when some non-empty line of the
      input lower-cases to it. */
  lemma GetInputsMembers(input: string, x: string)
    ensures x in GetInputs(input) <==>
      exists line :: line in Split(input, '\n') && line != "" && Lower(line) == x
  {
  }

  /** Normalising the re-joined list of branches gives the same list. */
  lemma GetInputsIdempotent(input: string)
    ensures GetInputs(Join(GetInputs(input), '\n')) == GetInputs(input)
  {
    var xs := GetInputs(input);
    if xs != [] {
      SplitJoin(xs, '\n');
      GetInputsPipeline(Join(xs, '\n'));
      FilterAll(xs, NonEmpty);
      var ys := Map(xs, Lower);
      forall i | 0 <= i < |xs| ensures ys[i] == xs[i] {
        LowerFixesLowerCase(xs[i]);
      }
    }
  }

  /** Lower-casing in `getInputs` and in the pull request refs makes the
      comparison case-insensitive: a line matching the head branch up to
      case lists the lower-cased head branch. */
  lemma CaseInsensitiveMatch(input: string, line: string, headRef: string)
    requires line in Split(input, '\n') && line != ""
    requires Lower(line) == Lower(headRef)
    ensures Lower(headRef) in GetInputs(input)
  {
  }

  // ---------------------------------------------------------------------
  // Events reported through @actions/core

  datatype Level = Info | Warning | Error

  /** What a log line says, without its wording. The outcome messages carry
      the branch the source names in them, which is the base branch. */
  datatype Message =
    | NotPullRequest(eventName: string)
    | BothListsGiven
    | BothListsEmpty
    | Summary(number: int, baseRef: string, headRef: string)
    | AllowedBranches(allowed: seq<string>)
    | ForbiddenBranches(forbidden: seq<string>)
    | FoundOnWhitelist(branch: string)
    | NotFoundOnWhitelist(branch: string)
    | FoundOnBlacklist(branch: string)
    | NotFoundOnBlacklist(branch: string)

  /** The message given to `setFailed`: the branch it names (the base
      branch) and the branch it names after "for" (the head branch). */
  datatype FailReason =
    | NotOnWhitelist(branch: string, target: string)
    | OnBlacklist(branch: string, target: string)

  /** A leveled log line, or the terminal failure signal. */
  datatype Event = Log(level: Level, message: Message) | Failed(reason: FailReason)

  /** The part of the webhook payload the gate reads, as it arrives. */
  datatype PullRequest = PullRequest(number: int, baseRef: string, headRef: string)

  predicate IsWarning(e: Event) {
    e.Log? && e.level == Warning
  }

  predicate IsError(e: Event) {
    e.Log? && e.level == Error
  }

  predicate IsFailure(e: Event) {
    e.Failed?
  }

  /** Whether the failure signal was set. */
  predicate HasFailed(events: seq<Event>) {
    exists i :: 0 <= i < |events| && events[i].Failed?
  }

  function Count(events: seq<Event>, p: Event -> bool): nat
    decreases |events|
  {
    if |events| == 0 then 0
    else (if p(events[0]) then 1 else 0) + Count(events[1..], p)
  }

  lemma {:induction false} CountAppend(xs: seq<Event>, ys: seq<Event>, p: Event -> bool)
    ensures Count(xs + ys, p) == Count(xs, p) + Count(ys, p)
    decreases |xs|
  {
    if |xs| > 0 {
      assert (xs + ys)[0] == xs[0];
      assert (xs + ys)[1..] == xs[1..] + ys;
      CountAppend(xs[1..], ys, p);
    } else {
      assert xs + ys == ys;
    }
  }

  lemma CountShort(xs: seq<Event>, p: Event -> bool)
    requires |xs| <= 2
    ensures Count(xs, p) == (if |xs| > 0 && p(xs[0]) then 1 else 0) + (if |xs| > 1 && p(xs[1]) then 1 else 0)
  {
  }

  lemma CountNone(xs: seq<Event>, p: Event -> bool)
    requires forall i :: 0 <= i < |xs| ==> !p(xs[i])
    ensures Count(xs, p) == 0
    decreases |xs|
  {
  }

  // ---------------------------------------------------------------------
  // handlePullRequest, as a specification

  /** A branch counts as found when `find` returns a truthy value: it is on
      the list and is not the empty string. */
  predicate OnList(branches: seq<string>, branch: string) {
    branch in branches && branch != ""
  }

  /** The advisory warning, which depends only on which lists are empty. */
  function Advisory(allowed: seq<string>, forbidden: seq<string>): seq<Event> {
    if |allowed| > 0 && |forbidden| > 0 then [Log(Warning, BothListsGiven)]
    else if |allowed| == 0 && |forbidden| == 0 then [Log(Warning, BothListsEmpty)]
    else []
  }

  /** The three info lines. */
  function Summaries(allowed: seq<string>, forbidden: seq<string>, number: int, baseRef: string, headRef: string): seq<Event> {
    [Log(Info, Summary(number, baseRef, headRef)),
     Log(Info, AllowedBranches(allowed)),
     Log(Info, ForbiddenBranches(forbidden))]
  }

  /** The outcome: the whitelist decides when it is non-empty, otherwise
      the blacklist when it is non-empty, otherwise nothing is reported. */
  function Ruling(allowed: seq<string>, forbidden: seq<string>, baseRef: string, headRef: string): seq<Event> {
    if |allowed| > 0 then
      if OnList(allowed, headRef) then [Log(Info, FoundOnWhitelist(baseRef))]
      else [Log(Error, NotFoundOnWhitelist(baseRef)), Failed(NotOnWhitelist(baseRef, headRef))]
    else if |forbidden| > 0 then
      if OnList(forbidden, headRef) then [Log(Error, FoundOnBlacklist(baseRef)), Failed(OnBlacklist(baseRef, headRef))]
      else [Log(Info, NotFoundOnBlacklist(baseRef))]
    else []
  }

  /** Everything `handlePullRequest` reports, in order. */
  function Trace(allowed: seq<string>, forbidden: seq<string>, pr: PullRequest): seq<Event> {
    var baseRef, headRef := Lower(pr.baseRef), Lower(pr.headRef);
    Advisory(allowed, forbidden) + Summaries(allowed, forbidden, pr.number, baseRef, headRef)
      + Ruling(allowed, forbidden, baseRef, headRef)
  }

  /** The events after the advisory and the three info lines. */
  function Verdict(events: seq<Event>): seq<Event> {
    var w := Count(events, IsWarning);
    if w + 3 <= |events| then events[w + 3..] else []
  }

  /** The outcome by plain membership of the lower-cased head branch. */
  predicate Rejected(allowed: seq<string>, forbidden: seq<string>, headRef: string) {
    if |allowed| > 0 then headRef !in allowed else headRef in forbidden
  }

  // ---------------------------------------------------------------------
  // handlePullRequest and main

  /** `handlePullRequest`: the advisory, the three info lines, then the
      whitelist or the blacklist decides, as the truthy `find` results say. */
  method HandlePullRequest(allowed: seq<string>, forbidden: seq<string>, pr: PullRequest)
    returns (events: seq<Event>)
    ensures events == Trace(allowed, forbidden, pr)
  {
    events := [];
    if |allowed| > 0 && |forbidden| > 0 {
      events := events + [Log(Warning, BothListsGiven)];
    } else if |allowed| == 0 && |forbidden| == 0 {
      events := events + [Log(Warning, BothListsEmpty)];
    }

    var baseRef := Lower(pr.baseRef);
    var headRef := Lower(pr.headRef);

    events := events + [Log(Info, Summary(pr.number, baseRef, headRef))];
    events := events + [Log(Info, AllowedBranches(allowed))];
    events := events + [Log(Info, ForbiddenBranches(forbidden))];

    var foundForbidden := Find(forbidden, EqualTo(headRef));
    var foundAllowed := Find(allowed, EqualTo(headRef));
    TruthyFind(forbidden, headRef);
    TruthyFind(allowed, headRef);

    if |allowed| > 0 {
      if Truthy(foundAllowed) {
        events := events + [Log(Info, FoundOnWhitelist(baseRef))];
      } else {
        events := events + [Log(Error, NotFoundOnWhitelist(baseRef))];
        events := events + [Failed(NotOnWhitelist(baseRef, headRef))];
      }
      return;
    }

    if |forbidden| > 0 {
      if Truthy(foundForbidden) {
        events := events + [Log(Error, FoundOnBlacklist(baseRef))];
        events := events + [Failed(OnBlacklist(baseRef, headRef))];
      } else {
        events := events + [Log(Info, NotFoundOnBlacklist(baseRef))];
      }
      return;
    }
  }

  /** `main`: any event other than `pull_request` gives one warning and
      nothing else; a pull request is judged on the normalised lists. */
  method Run(eventName: string, whitelist: string, blacklist: string, pr: PullRequest)
    returns (events: seq<Event>)
    ensures eventName != "pull_request" ==> events == [Log(Warning, NotPullRequest(eventName))]
    ensures eventName == "pull_request" ==> events == Trace(GetInputs(whitelist), GetInputs(blacklist), pr)
  {
    if eventName != "pull_request" {
      events := [Log(Warning, NotPullRequest(eventName))];
      assert !events[0].Failed?;
      return;
    }

    var allowedBranches := GetInputs(whitelist);
    var forbiddenBranches := GetInputs(blacklist);
    events := HandlePullRequest(allowedBranches, forbiddenBranches, pr);
  }

  // ---------------------------------------------------------------------
  // Properties of handlePullRequest

  /** At most one warning, and it comes first, decided only by which lists
      are empty; then the three info lines. */
  lemma TraceLayout(allowed: seq<string>, forbidden: seq<string>, pr: PullRequest)
    ensures var t, w := Trace(allowed, forbidden, pr), Count(Trace(allowed, forbidden, pr), IsWarning);
      && w <= 1
      && (w == 1 <==> (|allowed| > 0) == (|forbidden| > 0))
      && (forall i :: 0 <= i < |t| && IsWarning(t[i]) ==> i < w)
      && w + 3 <= |t|
      && t[w..w + 3] == Summaries(allowed, forbidden, pr.number, Lower(pr.baseRef), Lower(pr.headRef))
      && (Log(Warning, BothListsGiven) in t <==> |allowed| > 0 && |forbidden| > 0)
      && (Log(Warning, BothListsEmpty) in t <==> |allowed| == 0 && |forbidden| == 0)
  {
    var baseRef, headRef := Lower(pr.baseRef), Lower(pr.headRef);
    var adv := Advisory(allowed, forbidden);
    var sum := Summaries(allowed, forbidden, pr.number, baseRef, headRef);
    var rul := Ruling(allowed, forbidden, baseRef, headRef);
    CountAppend(adv, sum, IsWarning);
    CountAppend(adv + sum, rul, IsWarning);
    CountNone(sum, IsWarning);
    CountNone(rul, IsWarning);
    var t := Trace(allowed, forbidden, pr);
    assert t == adv + sum + rul;
    assert Count(adv, IsWarning) == |adv|;
  }

  /** An error line is always followed by the failure signal, the failure
      signal always follows an error line and ends the trace, and each
      happens at most once. */
  lemma ErrorsAndFailure(allowed: seq<string>, forbidden: seq<string>, pr: PullRequest)
    ensures var t := Trace(allowed, forbidden, pr);
      && Count(t, IsError) == Count(t, IsFailure) <= 1
      && (forall i :: 0 <= i < |t| && IsError(t[i]) ==> i + 1 < |t| && t[i + 1].Failed?)
      && (forall i :: 0 <= i < |t| && t[i].Failed? ==> i == |t| - 1 && 0 < i && IsError(t[i - 1]))
  {
    var baseRef, headRef := Lower(pr.baseRef), Lower(pr.headRef);
    var adv := Advisory(allowed, forbidden);
    var sum := Summaries(allowed, forbidden, pr.number, baseRef, headRef);
    var rul := Ruling(allowed, forbidden, baseRef, headRef);
    var t := Trace(allowed, forbidden, pr);
    assert t == (adv + sum) + rul;
    CountAppend(adv, sum, IsError);
    CountAppend(adv + sum, rul, IsError);
    CountAppend(adv, sum, IsFailure);
    CountAppend(adv + sum, rul, IsFailure);
    CountNone(adv + sum, IsError);
    CountNone(adv + sum, IsFailure);
    CountShort(rul, IsError);
    CountShort(rul, IsFailure);
  }

  /** With a non-empty whitelist the pull request fails exactly when its head
      branch is not found on the whitelist. */
  lemma WhitelistDecides(allowed: seq<string>, forbidden: seq<string>, pr: PullRequest)
    requires |allowed| > 0
    ensures HasFailed(Trace(allowed, forbidden, pr)) <==> !OnList(allowed, Lower(pr.headRef))
  {
    var t := Trace(allowed, forbidden, pr);
    if !OnList(allowed, Lower(pr.headRef)) {
      assert t[|t| - 1].Failed?;
    }
  }

  /** With a non-empty whitelist the blacklist's contents never change the
      outcome: the events after the info lines are the same for any two
      blacklists. */
  lemma WhitelistIgnoresBlacklist(allowed: seq<string>, forbidden1: seq<string>, forbidden2: seq<string>, pr: PullRequest)
    requires |allowed| > 0
    ensures Verdict(Trace(allowed, forbidden1, pr)) == Verdict(Trace(allowed, forbidden2, pr))
    ensures Verdict(Trace(allowed, forbidden1, pr)) == Ruling(allowed, [], Lower(pr.baseRef), Lower(pr.headRef))
    ensures HasFailed(Trace(allowed, forbidden1, pr)) == HasFailed(Trace(allowed, forbidden2, pr))
  {
    VerdictIsRuling(allowed, forbidden1, pr);
    VerdictIsRuling(allowed, forbidden2, pr);
    WhitelistDecides(allowed, forbidden1, pr);
    WhitelistDecides(allowed, forbidden2, pr);
  }

  lemma VerdictIsRuling(allowed: seq<string>, forbidden: seq<string>, pr: PullRequest)
    ensures Verdict(Trace(allowed, forbidden, pr)) == Ruling(allowed, forbidden, Lower(pr.baseRef), Lower(pr.headRef))
  {
    TraceLayout(allowed, forbidden, pr);
    var adv := Advisory(allowed, forbidden);
    var sum := Summaries(allowed, forbidden, pr.number, Lower(pr.baseRef), Lower(pr.headRef));
    var t := Trace(allowed, forbidden, pr);
    assert Count(t, IsWarning) == |adv| by {
      CountAppend(adv, sum, IsWarning);
      CountAppend(adv + sum, Ruling(allowed, forbidden, Lower(pr.baseRef), Lower(pr.headRef)), IsWarning);
      CountNone(sum, IsWarning);
      CountNone(Ruling(allowed, forbidden, Lower(pr.baseRef), Lower(pr.headRef)), IsWarning);
    }
  }

  /** With an empty whitelist and a non-empty blacklist the pull request
      fails exactly when its head branch is found on the blacklist. */
  lemma BlacklistDecides(allowed: seq<string>, forbidden: seq<string>, pr: PullRequest)
    requires |allowed| == 0 && |forbidden| > 0
    ensures HasFailed(Trace(allowed, forbidden, pr)) <==> OnList(forbidden, Lower(pr.headRef))
  {
    var t := Trace(allowed, forbidden, pr);
    if OnList(forbidden, Lower(pr.headRef)) {
      assert t[|t| - 1].Failed?;
    }
  }

  /** With both lists empty the pull request passes silently: one warning
      that both lists are empty, no error and no failure signal. */
  lemma BothEmptyPasses(pr: PullRequest)
    ensures var t := Trace([], [], pr);
      && !HasFailed(t)
      && Count(t, IsError) == 0
      && Count(t, IsWarning) == 1
      && t[0] == Log(Warning, BothListsEmpty)
      && Verdict(t) == []
  {
    CountNone(Trace([], [], pr), IsError);
    TraceLayout([], [], pr);
    VerdictIsRuling([], [], pr);
  }

  /** The outcome messages and the failure message name the base branch,
      while the branch looked up on the lists is the head branch. */
  lemma OutcomeNamesBaseRef(allowed: seq<string>, forbidden: seq<string>, pr: PullRequest)
    requires |allowed| > 0 || |forbidden| > 0
    ensures var v := Verdict(Trace(allowed, forbidden, pr));
      && |v| >= 1
      && v[0].Log?
      && v[0].message in {FoundOnWhitelist(Lower(pr.baseRef)), NotFoundOnWhitelist(Lower(pr.baseRef)),
                          FoundOnBlacklist(Lower(pr.baseRef)), NotFoundOnBlacklist(Lower(pr.baseRef))}
      && (|v| == 2 ==> v[1].Failed? && v[1].reason.branch == Lower(pr.baseRef)
                       && v[1].reason.target == Lower(pr.headRef))
  {
    VerdictIsRuling(allowed, forbidden, pr);
  }

  /** For lists that `getInputs` produced, the truthy `find` test is plain
      membership, because no normalised entry is the empty string. */
  lemma NormalisedOnList(input: string, branch: string)
    ensures OnList(GetInputs(input), branch) <==> branch in GetInputs(input)
  {
  }

  /** For lists with no empty entry, handlePullRequest fails exactly when
      plain membership of the head branch rejects the pull request. */
  lemma NormalisedRejected(allowed: seq<string>, forbidden: seq<string>, pr: PullRequest)
    requires forall i :: 0 <= i < |allowed| ==> allowed[i] != ""
    requires forall i :: 0 <= i < |forbidden| ==> forbidden[i] != ""
    ensures HasFailed(Trace(allowed, forbidden, pr)) <==> Rejected(allowed, forbidden, Lower(pr.headRef))
  {
    if |allowed| > 0 {
      WhitelistDecides(allowed, forbidden, pr);
    } else if |forbidden| > 0 {
      BlacklistDecides(allowed, forbidden, pr);
    } else {
      BothEmptyPasses(pr);
    }
  }

  /** End to end: on a `pull_request` event the job fails exactly when the
      lower-cased head branch is missing from a non-empty normalised
      whitelist, or, with an empty whitelist, is on the normalised
      blacklist. */
  lemma GateRejects(whitelist: string, blacklist: string, pr: PullRequest)
    ensures HasFailed(Trace(GetInputs(whitelist), GetInputs(blacklist), pr)) <==>
      Rejected(GetInputs(whitelist), GetInputs(blacklist), Lower(pr.headRef))
  {
    NormalisedRejected(GetInputs(whitelist), GetInputs(blacklist), pr);
  }
}
