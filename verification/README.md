# hrobot-go: a verified model

hrobot-go is a Go client for the Hetzner Robot API. This project models the
parts of it that carry a protocol or an algorithm, and proves what they promise.

* **Firewall reconcile** (`firewall.go`). The API prepends internal rules to
  every posted ruleset and may expand version-less rules. The client compares
  rulesets per IP version (`Equivalent`), finds the added rules
  (`ServerInjectedRules`) and strips them (`Without`). `Rules` and `Diff` hold
  the loops over counter maps, each proved against a specification by position;
  `Stripping`, `Reconcile`, `Convergence`, `Rulesets`, `Expansion`,
  `Interleaving`, `Placement`, `Normalisation` and `Filtering` prove what the
  specifications mean.
* **Form encoding** (`internal/urlencode/firewall.go`, `encodeRule`). `KeyOrder`,
  `FormEncoding` and `RuleForm` hold the encoder with its mutable rule map;
  `FormDecoding`, `FormRoundTrip` and `PostedForm` hold an independent reader
  and the round trip.
* **Status protocol** (`setStatus`, `Update`). `StatusProtocol` is a client over a
  mutable server that reads the posted text; `StatusRuns` is about whole runs.
* **Retry engine** (`client.go`). `RetryAfter` is the header in int64 arithmetic,
  `Requests` the attempt loop against an arbitrary transport, `Polling` the
  waiting loop on top of it.
* **Small cores**. `Envelope` (response unwrapping), `Ports` (port lists) and
  `ByteSize` (unit choice).

Go strings are sequences of bytes (`GoStrings.Text`). `int` is 64 bits wide
where the code depends on it. Clocks, contexts and the network are arguments:
what each attempt or poll meets is given in advance, and a server may refuse,
fail, or execute a request without the client learning of it.

## Where the code and its documentation differ

The model follows the code.

* `Equivalent` is documented to report whether two rulesets filter traffic
  identically. It is sound (`Filtering.EquivalentFiltersAlike`) but not complete:
  it tells apart lists that differ in a repeated rule, in the order of two rules
  with the same action, in a name, or in a last rule with the fallback action
  (`Filtering.RepetitionIsToldApart`, `OrderIsToldApart`, `NameIsToldApart`,
  `FallbackIsToldApart`). Two lists filter identically exactly when, in each
  version, the same rules with another action than the fallback decide, each
  overridden by the same rules with another action than its own
  (`Filtering.FilterAlikeIff`). Among lists that repeat no condition, do not end
  in the fallback and name their rules alike, `Equivalent` recognises all that
  filter like a given one if and only if no two neighbours of it share their
  action (`Filtering.EquivalentRecognisesIff`).
* `current.Without(injected).Equivalent(desired)` is documented to report drift.
  Against an API that keeps version-less rules or expands them, its verdict is
  right for every expansion that was diffed and every later list if and only if
  no version-less internal rule finds a desired copy left to be taken for, and
  behind every version-less desired rule there are, in each version, at least as
  many desired copies of it as internal ones
  (`Expansion.RulesetVerdictsAreRightIff`). The same condition is exact for
  convergence unless a version-less internal rule is taken for a desired pair;
  then the loop may converge by accident and miss drift
  (`Expansion.ConvergesByAccident`). No returned form is specified, so
  `Rulesets.RulesetConvergesIff` also gives the condition over all lists
  `Equivalent` treats as equal, those that merge an ipv4/ipv6 pair included: no
  internal rule's key is wanted in both IP versions and every version-less
  internal rule finds none of the desired copies left by the internal rules
  before it. The smallest failures are `Rulesets.FailsOnVersionlessForm` and,
  when the API appends instead of prepending, `Rulesets.FailsWhenAppended`; when
  it may place versioned internal rules anywhere, the loop converges if and only
  if every shared key stands only at the end of the desired rules
  (`Placement.ConvergesAnywhereIff`).
* The example body in the encoder's documentation lists a rule's name before its
  action; the code sorts the fields, so the action comes first
  (`FormEncoding.ExampleBody`).
* `unwrapResponse` is documented to return arrays with differing keys unchanged.
  Because the empty string marks "no key yet", leading elements with an empty
  key pass and become `null` (`Envelope.EmptyKeyIsLost`). Arrays of wrappers with
  differing keys are returned unchanged, except exactly those of empty keys
  followed by one other key (`Envelope.DifferingUnwrapsIff`), and those are the
  ones that lose content (`Envelope.LosslessIff`).

## Model

| member | source | states |
|---|---|---|
| Rules.VersionNames | firewall.go:83-85 | ipv4 and ipv6 each see the version-less rules and those literally named so |
| Rules.ProjectRules | firewall.go:90-99 | the loop yields the ordered keys of the rules that apply to the version |
| Rules.ProjectionAppend | firewall.go:90-99 | what a version sees of a concatenation is the concatenation of what it sees, and copies add up |
| Rules.RulesEquivalent | firewall.go:103-116 | true if and only if both versions' projections are equal |
| Rules.RulesetsEquivalent | firewall.go:127-129 | true if and only if both directions are equivalent |
| Diff.MatchVersion | firewall.go:172-190 | the counter loop over one version records exactly the positions that apply and those that find no free posted copy |
| Diff.InjectedRules | firewall.go:166-199 | reports, in order, exactly the rules unaccounted for in every version they apply to |
| Diff.RemoveRules | firewall.go:229-248 | each removal drops the earliest matching rule; the rest keeps its order |
| Diff.ServerInjectedRules | firewall.go:155-160 | both directions are diffed independently |
| Diff.RulesWithout | firewall.go:221-226 | both directions are stripped independently |
| Interleaving.InjectedByPosition | firewall.go:149-154 | a position is reported if and only if its rank among equal keys reaches the posted count in each version it applies to |
| Interleaving.StrippedByPosition | firewall.go:229-248 | a position survives if and only if its rank among equal rules reaches the number to remove |
| Stripping.StrippedMultiset | firewall.go:206-208 | removal is truncated multiset difference |
| Stripping.SurplusIsReported | firewall.go:151-154 | in each version the surplus over the posted copies is what is reported plus what is missed in that version alone |
| Stripping.StrippingKeepsPosted | firewall.go:144-154 | for all lists, stripping the reported rules leaves the smaller of the returned and posted counts, plus half-accounted copies: no caller's rule is ever stripped |
| Stripping.StripsExactlyIff | firewall.go:152-154 | exactly the surplus is stripped if and only if no returned rule is accounted for in one version only |
| Reconcile.StripsRecognisedPrefix | firewall.go:207-217 | once the internal prefix is recognised, stripping any later list leaves what filters like its caller's part |
| Reconcile.RecognisableIsRecognised | firewall.go:155-160 | recognisable internal rules are reported exactly, whatever form of the desired rules comes back |
| Convergence.WantedInBothIsNotInternal | firewall.go:118-129 | if the loop converges for all those lists, no internal rule has a key wanted in both versions |
| Convergence.ConvergesIff | firewall.go:118-129 | no returned form being specified: one direction of the loop converges for every pair of lists Equivalent treats as the desired one, merged lists included, if and only if the internal rules are recognisable |
| Convergence.VerdictIsRight | firewall.go:211-217 | then the verdict is right for every later list: equivalent exactly when nothing drifted |
| Convergence.VersionedConvergesIff | firewall.go:118-129 | for internal rules that carry their version: it converges for all those lists if and only if no internal key is wanted in both versions |
| Rulesets.RulesetConvergesIff | firewall.go:211-220 | ConvergesIff for whole rulesets |
| Rulesets.RulesetVerdictIsRight | firewall.go:211-220 | whole-ruleset drift is reported exactly when there is some |
| Rulesets.Drifted | firewall.go:213-217 | the documented check answers the negation of the stripped equivalence |
| Expansion.SeparableIsRecognised | firewall.go:149-154 | separable internal rules are reported exactly, whatever expansion of the desired rules comes back |
| Expansion.ConvergesForExpansionsIff | firewall.go:207-217 | the loop converges for every pair of expansions and takes no version-less internal rule for a desired one if and only if the lists are separable |
| Expansion.VersionedExpansionsIff | firewall.go:207-217 | for internal rules that carry their version: if and only if behind every version-less desired rule there are, in each version, as many desired copies of it as internal ones |
| Expansion.VerdictsAreRightIff | firewall.go:211-217 | for all internal rules: drift is reported exactly when there is some, for every expansion diffed and every later list, if and only if the lists are separable |
| Expansion.RulesetConvergesForExpansionsIff | firewall.go:211-220 | convergence for expansions of whole rulesets |
| Expansion.RulesetVerdictsAreRightIff | firewall.go:211-220 | right verdicts for whole rulesets |
| Expansion.ConvergesByAccident | firewall.go:152-154 | a version-less internal rule taken for a desired pair: the loop converges for every expansion, yet misses that the pair is gone |
| Rulesets.ExpandedIsRecovered | firewall.go:131-154 | when returned rules carry their version, the reported rules are the internal prefix even if the caller's rules repeat them, and stripping gives back the caller's part exactly |
| Rulesets.FailsOnVersionlessForm | firewall.go:152-154 | for every version-less rule, an internal ipv4 copy of it defeats the loop when the rule comes back version-less |
| Rulesets.FailsWhenAppended | firewall.go:239-246 | an appended internal rule equal to a caller's rule makes stripping lose the caller's order |
| Interleaving.ForeignRecognised | firewall.go:131-154 | internal rules foreign to the desired ones are reported exactly and in order wherever they stand, and stripping leaves exactly the others |
| Placement.ConvergesAnywhereIff | firewall.go:229-248 | with versions on all returned rules and the internal ones placed anywhere in any order, the loop converges if and only if every shared key stands only at the end of the desired rules in its version |
| Normalisation.EquivalentIffReaches | firewall.go:118-129 | two lists are equivalent if and only if splitting, merging and swapping neighbours of different versions takes one's filtering rules to the other's |
| Normalisation.KnownPartKeeps | firewall.go:83-85 | rules whose version is neither empty, ipv4 nor ipv6 are invisible to the comparison |
| Reconcile.InjectedIsKnown | firewall.go:192-197 | such rules are never reported |
| Filtering.FirstMatchIsProjected | firewall.go:81-99 | deciding a packet by the whole list is deciding it by the version's projection |
| Filtering.FilterAlikeIff | firewall.go:101-118 | all packets get the same action if and only if, in each version, the same rules with another action than the fallback decide, each overridden by the same rules with another action than its own |
| Filtering.EquivalentFiltersAlike | firewall.go:118-129 | equivalent lists decide every packet by the same rule, hence filter traffic identically, whatever the fallback |
| Filtering.EquivalentIffFiltersAlike | firewall.go:118-129 | for lists that repeat no condition, do not end in the fallback and name rules alike, one of which alternates actions, Equivalent is exactly filtering identically |
| Filtering.EquivalentRecognisesIff | firewall.go:118-129 | among such lists Equivalent recognises all that filter like a given one if and only if no two neighbours of that one share their action |
| Filtering.RepetitionIsToldApart | firewall.go:118-129 | a repeated rule filters alike yet is not equivalent |
| Filtering.OrderIsToldApart | firewall.go:118-129 | two rules with the same action in either order filter alike yet are not equivalent |
| Filtering.NameIsToldApart | firewall.go:118-129 | a renamed rule filters alike yet is not equivalent |
| Filtering.FallbackIsToldApart | firewall.go:118-129 | a last rule with the fallback action filters alike with no rule yet is not equivalent |
| KeyOrder.InOrderUnique | internal/urlencode/firewall.go:20-22 | a key set has one ascending enumeration, so output does not depend on map order |
| KeyOrder.SortedKeys | internal/urlencode/firewall.go:41-49 | collecting the keys in any order and sorting yields that enumeration |
| KeyOrder.LessIff | internal/urlencode/firewall.go:47 | the order is byte-wise: a text is less than its proper extensions and than texts with a greater byte at the first difference |
| FormEncoding.EncodeFirewallRules | internal/urlencode/firewall.go:23-39 | the body is the rendering of the maps' entries, by direction, position and field |
| FormEncoding.FirewallRuleEncoder.AddInputRule | internal/urlencode/firewall.go:64-69 | the rule is appended to the input list and nothing else changes |
| FormEncoding.FirewallRuleEncoder.AddOutputRule | internal/urlencode/firewall.go:72-77 | the rule is appended to the output list and nothing else changes |
| FormEncoding.FirewallRuleEncoder.EncodeToString | internal/urlencode/firewall.go:87-103 | the body is the rendering of the additional entries and then the rule entries |
| FormEncoding.ExampleBody | internal/urlencode/firewall.go:14-22 | the body of one inbound rule with a name and an action, spelled out, with its fields in ascending order |
| Strings.UnescapeEscape | internal/urlencode/firewall.go:32 | unescaping undoes value escaping for every byte string |
| Strings.EscapeOfByte | internal/urlencode/firewall.go:32 | which bytes stay, which becomes a plus, and how the others are written |
| Strings.PlaceValue | internal/urlencode/firewall.go:31 | indices are written in decimal: a digit is worth ten times as much one place to the left |
| FormDecoding.ParseKeyText | internal/urlencode/firewall.go:29-31 | parsing a bracket key gives back its direction, index and field |
| FormDecoding.ParseFormOfEntries | internal/urlencode/firewall.go:23-39 | reading a body gives back its entries in order |
| FormDecoding.AmpersandSplitsKey | internal/urlencode/firewall.go:90-94 | keys are not escaped: one with an ampersand reads back as two fields |
| FormRoundTrip.RoundTripIff | internal/urlencode/firewall.go:23-39 | the maps are recovered from the body if and only if no rule map is empty |
| RuleForm.EncodeRule | firewall.go:335-365 | each of the nine named fields is present exactly when its part of the rule is not empty (action always) and holds that part; there is no other field, and the map determines the rule |
| PostedForm.EncodeRules | firewall.go:323-332 | reading the body gives back the extra fields and the ordered rules of both directions, each part under its own field name |
| PostedForm.PostedRoundTrip | firewall.go:320-365 | for every ruleset no rule and no field is lost or moved |
| PostedForm.PostedFields | firewall.go:335-365 | every non-empty part of the i-th rule, and its action, stands in the posted body under rules[direction][i] and its own field name, and nothing else does |
| PostedForm.PostedKeysAllowed | internal/spectest/firewall.go:54-66 | every key of a posted body is in the documented grammar |
| StatusProtocol.FirewallService.ExtraFields | firewall.go:300-309 | status, whitelist_hos and filter_ipv6 are present exactly when set, with the literal value set, and no other key is |
| StatusProtocol.FirewallService.Update | firewall.go:293-318 | rejected locally exactly above the ceiling; otherwise, unless refused, exactly the set fields are posted with exactly their values, unset ones are omitted, and the server holds its internal rules before a form of exactly the given rules |
| StatusProtocol.FirewallService.SetStatus | firewall.go:375-397 | the post carries the given rules or those read back, the requested status, and both flags unchanged; it is executed exactly when nothing fails and the ceiling allows it |
| StatusProtocol.FirewallService.Activate | firewall.go:412-414 | active status over the rules read back, both flags unchanged; the caller learns which of success, limit and failure it was |
| StatusProtocol.FirewallService.ActivateWithRules | firewall.go:428-434 | active status over exactly the given rules, both flags unchanged; the caller learns which of success, limit and failure it was |
| StatusProtocol.FirewallService.Disable | firewall.go:446-448 | disabled status over the rules read back, both flags unchanged; the caller learns which of success, limit and failure it was |
| StatusProtocol.FirewallService.DisableWithRules | firewall.go:458-464 | disabled status over exactly the given rules, both flags unchanged; the caller learns which of success, limit and failure it was |
| StatusRuns.FlagsNeverChange | firewall.go:367-374 | whitelist_hos and filter_ipv6 never change in any run |
| StatusRuns.StatusFollowsCall | firewall.go:375-397 | after an executed call the status is the one it asked for or in process; otherwise it is unchanged |
| StatusRuns.KeepingPilesUp | firewall.go:399-409 | after n executed Activate or Disable calls, n copies of the internal rules stand before the initial rules |
| StatusRuns.KeepingIsBounded | firewall.go:399-409 | with k internal inbound rules and L initial ones at most (cap - L) / k + 1 calls are ever executed |
| StatusRuns.LockedOut | firewall.go:405-408 | above the ceiling no later call is executed and nothing changes |
| StatusRuns.ReplacingDoesNotPileUp | firewall.go:416-424 | after any executed WithRules call exactly one copy of the internal rules stands before a form of the desired rules |
| StatusRuns.RunsReconcile | firewall.go:207-220 | after any such run the reconcile check converges, provided the desired rules are separable from the internal ones |
| StatusRuns.RunsAlwaysReconcileIff | firewall.go:207-220 | within the ceiling, all such runs reconcile and no version-less internal rule is taken for a desired one if and only if they are separable |
| StatusRuns.RunVerdictsAreRightIff | firewall.go:207-220 | within the ceiling, for all internal rules: after every such run drift is reported exactly when there is some, whatever the configuration becomes, if and only if they are separable |
| StatusRuns.RunsReconcileExpanded | firewall.go:118-129 | the same when the diffed answer lists only versioned rules, even if the desired rules repeat internal ones |
| RetryAfter.DelayIsBounded | client.go:338-375 | the delay is between zero and the limit for every header |
| RetryAfter.DelayOfDecimal | client.go:351-365 | on a decimal of any length the int64 result is the exact minimum of n seconds and the limit |
| RetryAfter.DelayIsMonotone | client.go:345-375 | larger decimals never give smaller delays |
| RetryAfter.DelayOfDate | client.go:366-375 | no header asks for nothing; an HTTP date for the time left until it, up to the limit |
| RetryAfter.DelayOfSigned | client.go:350-365 | a plus sign changes nothing and a negative number asks for nothing |
| Requests.DoRequest | client.go:484-572 | an unusable request is an error with nothing sent; otherwise at most three attempts, each but the last retried for a reason the policy allows, with the policy's sleep in between; exactly one of response and error, for the stated reason; every response is closed or returned |
| Requests.OutcomeIsDetermined | client.go:503-572 | what the attempts meet determines how many are sent and what is returned |
| Requests.UnusableSendsNothing | client.go:484-521 | what cannot be sent is its own error, with nothing sent |
| Requests.RetriedIff | client.go:442-459 | an attempt is followed by another, or by a cancelled wait for one, exactly when it is one of the first two and failed in transport or with 500 or more and is no POST, or got 429, or got 401 and was the first |
| Requests.ReturnedStatus | client.go:549-569 | a response returned with attempts left is no 429, no first 401, and below 500 unless the call is a POST |
| Requests.SleepIsDetermined | client.go:541-565 | the sleep after each attempt: what a decimal header or date asks for, up to the limit, else half a second times the attempt's number |
| Requests.ClosedIff | client.go:555-569 | every response received is closed, once, except the one returned |
| Requests.CancellationStops | client.go:506-511 | nothing is sent and no wait ends once a cancellation is seen, and only then is the call cancelled |
| Requests.OneUnauthorizedRetry | client.go:442-452 | at most one retry is caused by a 401, and it is the first |
| Requests.TotalSleepBounded | client.go:541-565 | the sleeps add up to at most max(M, 500 ms) + max(M, 1 s) |
| Requests.PostRetriesNotExecuted | client.go:477-482 | every POST attempt but the last was answered 401 or 429 |
| Requests.RetriedCallIsAtomic | client.go:442-459 | the server ends as if the request was executed at most once, and exactly once when the returned response says so; a POST is executed at most once |
| Polling.CheckReady | firewall.go:559-568 | the poll yields what its attempts, as a GET, lead to |
| Polling.VerdictIff | firewall.go:559-568 | ready exactly when the last attempt got a decoded 2xx configuration not in process, not ready when it is in process, an error in every other case |
| Polling.WaitForCondition | utils.go:20-62 | at most thirty polls, all before the last having passed; how the wait ends follows from the last; each further poll is preceded by the scheduled delay |
| Polling.SuccessIff | utils.go:28-62 | the wait succeeds, or fails with the poll's error, if and only if some poll is ready, or fails, before any other ends the wait or a cancellation is seen; it times out if and only if thirty polls go by |
| Polling.RequestsBounded | utils.go:24-28 | polling a firewall sends at most ninety requests |
| Polling.DelayIsCappedPower | utils.go:54-58 | the i-th delay is 2 * 2^i seconds, capped at thirty |
| Polling.DelaysAt | utils.go:45-58 | the waits of a run are those delays in order |
| Polling.WaitingIsBounded | utils.go:21-25 | waiting totals at most 810 seconds |
| Ports.ParsePortRange | types.go:370-412 | the recursive method computes the parse that the following rows determine, with no recursion below the parts |
| Ports.RangeParsesIff | types.go:390-404 | a dashed pair of numbers parses to the range it names if and only if both are ports and not inverted, and is an error otherwise |
| Ports.DashedPart | types.go:390-404 | which error any text with a dash gives |
| Ports.SinglePartIff | types.go:370-412 | a text without a comma is accepted if and only if it is empty, a port or such a range |
| Ports.ListParses | types.go:375-387 | a comma list of parts that parse gives all their ranges in order |
| Ports.ListFails | types.go:380-384 | otherwise it is the error of the first part that does not |
| Ports.SpacesIgnored | types.go:380 | white space around the parts of a comma list changes nothing |
| Ports.TrimmedSpaces | types.go:380 | trimming takes off Unicode white space at both ends, and all of it |
| Ports.PrintedShape | types.go:414-419 | a single port is printed without a dash, any other range with one |
| Ports.PrintThenParse | types.go:369-419 | printing ordered ranges and parsing gives them back |
| Ports.ParseThenPrint | types.go:369-419 | every successful parse is ordered and survives printing and parsing |
| ByteSize.ChooseUnit | types.go:205-216 | the loop ends with div = 1024^(exp+1), div <= bytes < 1024 div, without overflow and with exp inside the unit letters |
| ByteSize.UnitIsUnique | types.go:205-216 | no other unit fits |
| ByteSize.UnitLetter | types.go:215 | the letter shown for every size |
| Envelope.UnwrapArray | client.go:393-421 | a list is unwrapped if and only if all elements wrap a container and keys agree once not empty |
| Envelope.UnwrapResponse | client.go:388-440 | a one-member object is unwrapped exactly when its value is an object or an array and its key is not id; lists as above; every other body is unchanged or a parse error |
| Envelope.WrapperIff | client.go:404-413 | only an object or an array under the only key makes a wrapper |
| Envelope.ScalarNotUnwrapped | client.go:406-413 | a list with a scalar element, or a scalar under an element's only key, is not unwrapped |
| Envelope.UnwrapsEnvelopes | client.go:377-382 | unwrapping inverts wrapping a list under one key |
| Envelope.LosslessIff | client.go:400-420 | an unwrapped list loses content if and only if its first key is empty and its last is not |
| Envelope.DifferingUnwrapsIff | client.go:386-387 | for every list of wrappers: differing keys are returned unchanged unless the list is empty keys followed by one other key throughout |
| Envelope.EmptyKeyIsLost | client.go:400-420 | a wrapper under the empty key followed by one under another key is unwrapped and its payload becomes null |

## Left out

- Expansion.ConvergesForExpansionsIff: when a version-less internal rule is taken for a desired one, convergence alone also depends on the order of the desired rules; the exact condition is then stated for right verdicts (Expansion.VerdictsAreRightIff).
- Filtering.FilterAlikeIff: every set of conditions is a possible packet; relations between conditions, such as one address range containing another, are not modelled.
- Requests.DoRequest: does not model logging and the rate-limit field.
- RetryAfter.DelayOfDecimal: the time left until an HTTP date is an arbitrary integer; date parsing is not modelled.
- Polling.WaitForCondition: the condition is given by what each poll yields; it is connected to the firewall's by Polling.RequestsBounded.
- StatusProtocol.FirewallService.SetStatus: nobody else changes the configuration between its read and its post.
- ByteSize.ChooseUnit: the `%.1f` rounding of the quotient is floating point and not modelled.
- Envelope.UnwrapResponse: JSON texts are trees; duplicate member names and the bytes of numbers and white space are not modelled.
- FormRoundTrip.RoundTripIff: keys hold none of `&`, `=`, `%`, `+` and the brackets; the encoder does not escape keys, and FormDecoding.AmpersandSplitsKey shows what then happens.
- Interleaving.ForeignRecognised: for version-less rules at arbitrary positions only this condition and the counts of Stripping.StrippingKeepsPosted are stated; with versions Placement.ConvergesAnywhereIff is exact.
- Sockets, TLS, timers, contexts and structured logging.
- The status split and size limit of `handleResponse`, error texts and error-kind predicates: single-branch facts.
- Traffic sizes with fractions, prices, time zones and the other float or date types.
- The service wrappers for servers, boot, reset, keys, IPs, subnets, vSwitches, storage boxes and the rest: path formatting and copying.
- Firewall templates: they use the same encoder with another set of extra fields.
- Packet matching on addresses, ports and flags: filtering is proved for every set of conditions a packet may meet.
