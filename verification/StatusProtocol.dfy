/**
 Activating and disabling a server's firewall (firewall.go). Posting replaces
 the whole configuration; the API prepends its internal rules to whatever it
 accepts and may expand version-less rules.
 */
module StatusProtocol {
  import opened GoStrings
  import opened Strings
  import opened Rules
  import opened Stripping
  import opened Reconcile
  import opened Rulesets
  import opened Expansion
  import opened FormRoundTrip
  import opened PostedForm
  import opened RuleForm
  import FormDecoding

  datatype Config = Config(status: Text, filterIPv6: bool, whitelistHOS: bool, rules: FirewallRules)

  datatype UpdateConfig = UpdateConfig(status: Option<Text>, whitelistHOS: Option<bool>, filterIPv6: Option<bool>,
                                       rules: FirewallRules)

  datatype Outcome = Accepted(config: Config) | LimitExceeded | Failed

  const Active: Text := "active"
  const Disabled: Text := "disabled"
  const InProcess: Text := "in process"

  // ---- The API

  function FormatBool(b: bool): Text {
    if b then "true" else "false"
  }

  /** The configuration an accepted form leads to; flags the form omits are left to the API. */
  ghost predicate Applies(internal: FirewallRules, posted: Posted, after: Config) {
    && (exists form :: ExpandedRules(posted.rules, form) && after.rules == Prepended(internal, form))
    && ("status" in posted.extra ==> after.status == posted.extra["status"] || after.status == InProcess)
    && ("whitelist_hos" in posted.extra ==> after.whitelistHOS == (posted.extra["whitelist_hos"] == "true"))
    && ("filter_ipv6" in posted.extra ==> after.filterIPv6 == (posted.extra["filter_ipv6"] == "true"))
  }

  method ExpandSome(rules: seq<FirewallRule>) returns (form: seq<FirewallRule>)
    ensures Expanded(rules, form)
  {
    form := [];
    for i := 0 to |rules|
      invariant Expanded(rules[..i], form)
    {
      var r, expand := rules[i], *;
      assert rules[..i + 1][..i] == rules[..i];
      if r.ipVersion == "" && expand {
        var pair := [r.(ipVersion := IPv4), r.(ipVersion := IPv6)];
        assert (form + pair)[..|form|] == form && (form + pair)[|form|..] == pair;
        form := form + pair;
      } else {
        assert (form + [r])[..|form|] == form;
        form := form + [r];
      }
    }
    assert rules[..|rules|] == rules;
  }

  /** What the world does to the next requests: reads fail, posts are refused, answers to posts get lost. */
  datatype Weather = Weather(readsFail: bool, postsRefused: bool, answersLost: bool)

  class RobotServer {
    const internal: FirewallRules
    var config: Config
    var weather: Weather

    constructor (internal: FirewallRules, config: Config, weather: Weather)
      ensures this.internal == internal && this.config == config && this.weather == weather
    {
      this.internal := internal;
      this.config := config;
      this.weather := weather;
    }

    method Get() returns (answer: Option<Config>)
      ensures answer == if weather.readsFail then None else Some(config)
    {
      answer := if weather.readsFail then None else Some(config);
    }

    /** A post is refused, or executed; the client may not learn of the latter. */
    method Post(body: Text) returns (answer: Option<Config>)
      modifies this`config
      ensures PostExecuted(body) ==> Applies(internal, DecodePosted(body).value, config)
      ensures !PostExecuted(body) ==> config == old(config)
      ensures answer == if PostExecuted(body) && !weather.answersLost then Some(config) else None
    {
      var posted := DecodePosted(body);
      answer := None;
      if posted.Some? && !weather.postsRefused {
        var input := ExpandSome(posted.value.rules.input);
        var output := ExpandSome(posted.value.rules.output);
        var extra, whitelistHOS, filterIPv6, settling := posted.value.extra, *, *, *;
        var form := FirewallRules(input, output);
        config := Config(
          if "status" !in extra then config.status else if settling then InProcess else extra["status"],
          if "filter_ipv6" in extra then extra["filter_ipv6"] == "true" else filterIPv6,
          if "whitelist_hos" in extra then extra["whitelist_hos"] == "true" else whitelistHOS,
          FirewallRules(internal.input + input, internal.output + output));
        assert ExpandedRules(posted.value.rules, form) && config.rules == Prepended(internal, form);
        if !weather.answersLost {
          answer := Some(config);
        }
      }
    }

    ghost predicate PostExecuted(body: Text)
      reads this`weather
    {
      DecodePosted(body).Some? && !weather.postsRefused
    }
  }

  // ---- The client

  /** A status call: keep the rules that are read back, or replace them. */
  datatype Call = Call(status: Text, rules: Option<FirewallRules>)

  ghost function PostedRules(call: Call, before: Config): FirewallRules {
    if call.rules.Some? then call.rules.value else before.rules
  }

  /** What one status call does to the server, when its post is executed or not. */
  ghost predicate Transition(internal: FirewallRules, cap: int, call: Call, before: Config, after: Config, executed: bool) {
    if executed then
      && |PostedRules(call, before).input| <= cap
      && after.whitelistHOS == before.whitelistHOS && after.filterIPv6 == before.filterIPv6
      && (after.status == call.status || after.status == InProcess)
      && exists form :: ExpandedRules(PostedRules(call, before), form) && after.rules == Prepended(internal, form)
    else
      after == before
  }

  class FirewallService {
    const server: RobotServer
    const maxFirewallInputRules: int

    constructor (server: RobotServer, maxFirewallInputRules: int)
      ensures this.server == server && this.maxFirewallInputRules == maxFirewallInputRules
    {
      this.server := server;
      this.maxFirewallInputRules := maxFirewallInputRules;
    }

    method ValidateRules(rules: FirewallRules) returns (exceeded: bool)
      ensures exceeded <==> |rules.input| > maxFirewallInputRules
    {
      exceeded := |rules.input| > maxFirewallInputRules;
    }

    method ExtraFields(config: UpdateConfig) returns (extra: map<Text, Text>)
      ensures SetsOnly(config, extra) && PlainKeys(extra)
    {
      assert |"status"| == 6 && |"whitelist_hos"| == 13 && |"filter_ipv6"| == 11;
      extra := map[];
      if config.status.Some? {
        extra := extra["status" := config.status.value];
      }
      if config.whitelistHOS.Some? {
        extra := extra["whitelist_hos" := FormatBool(config.whitelistHOS.value)];
      }
      if config.filterIPv6.Some? {
        extra := extra["filter_ipv6" := FormatBool(config.filterIPv6.value)];
      }
      ExtraIsPlain(config, extra);
    }

    method Update(config: UpdateConfig) returns (outcome: Outcome)
      modifies server`config
      ensures var exceeded := |config.rules.input| > maxFirewallInputRules;
              && (exceeded || server.weather.postsRefused ==> server.config == old(server.config))
              && (!exceeded && !server.weather.postsRefused ==>
                    && (exists extra :: SetsOnly(config, extra) &&
                                        Applies(server.internal, Posted(extra, config.rules), server.config))
                    && (config.whitelistHOS.Some? ==> server.config.whitelistHOS == config.whitelistHOS.value)
                    && (config.filterIPv6.Some? ==> server.config.filterIPv6 == config.filterIPv6.value)
                    && (config.status.Some? ==> server.config.status in {config.status.value, "in process"}))
              && outcome == if exceeded then LimitExceeded
                            else if server.weather.postsRefused || server.weather.answersLost then Failed
                            else Accepted(server.config)
    {
      var exceeded := ValidateRules(config.rules);
      if exceeded {
        return LimitExceeded;
      }
      var extra := ExtraFields(config);
      var body := EncodeRules(config.rules, extra);
      var answer := server.Post(body);
      outcome := if answer.Some? then Accepted(answer.value) else Failed;
    }

    /** The call's post reaches the server and is not refused. */
    ghost predicate Executes(call: Call)
      reads server`config, server`weather
    {
      && !server.weather.readsFail && !server.weather.postsRefused
      && |PostedRules(call, server.config).input| <= maxFirewallInputRules
    }

    /** Activate and Disable keep the rules; their WithRules forms replace them. */
    method SetStatus(status: Text, rules: Option<FirewallRules>) returns (outcome: Outcome)
      modifies server`config
      ensures Transition(server.internal, maxFirewallInputRules, Call(status, rules),
                         old(server.config), server.config, old(Executes(Call(status, rules))))
      ensures outcome == if server.weather.readsFail then Failed
                         else if |(if rules.Some? then rules.value else old(server.config.rules)).input| > maxFirewallInputRules then LimitExceeded
                         else if server.weather.postsRefused || server.weather.answersLost then Failed
                         else Accepted(server.config)
    {
      var current := server.Get();
      if current.None? {
        return Failed;
      }
      var applied := current.value.rules;
      if rules.Some? {
        applied := rules.value;
      }
      var config := UpdateConfig(Some(status), Some(current.value.whitelistHOS), Some(current.value.filterIPv6), applied);
      outcome := Update(config);
    }

    method Activate() returns (outcome: Outcome)
      modifies server`config
      ensures Transition(server.internal, maxFirewallInputRules, Call("active", None),
                         old(server.config), server.config, old(Executes(Call("active", None))))
      ensures old(Executes(Call("active", None))) ==> server.config.status in {"active", "in process"}
      ensures outcome == if server.weather.readsFail then Failed
                         else if |old(server.config.rules).input| > maxFirewallInputRules then LimitExceeded
                         else if server.weather.postsRefused || server.weather.answersLost then Failed
                         else Accepted(server.config)
    {
      outcome := SetStatus(Active, None);
    }

    method ActivateWithRules(rules: FirewallRules) returns (outcome: Outcome)
      modifies server`config
      ensures Transition(server.internal, maxFirewallInputRules, Call("active", Some(rules)),
                         old(server.config), server.config, old(Executes(Call("active", Some(rules)))))
      ensures old(Executes(Call("active", Some(rules)))) ==> server.config.status in {"active", "in process"}
      ensures outcome == if server.weather.readsFail then Failed
                         else if |rules.input| > maxFirewallInputRules then LimitExceeded
                         else if server.weather.postsRefused || server.weather.answersLost then Failed
                         else Accepted(server.config)
    {
      outcome := SetStatus(Active, Some(rules));
    }

    method Disable() returns (outcome: Outcome)
      modifies server`config
      ensures Transition(server.internal, maxFirewallInputRules, Call("disabled", None),
                         old(server.config), server.config, old(Executes(Call("disabled", None))))
      ensures old(Executes(Call("disabled", None))) ==> server.config.status in {"disabled", "in process"}
      ensures outcome == if server.weather.readsFail then Failed
                         else if |old(server.config.rules).input| > maxFirewallInputRules then LimitExceeded
                         else if server.weather.postsRefused || server.weather.answersLost then Failed
                         else Accepted(server.config)
    {
      outcome := SetStatus(Disabled, None);
    }

    method DisableWithRules(rules: FirewallRules) returns (outcome: Outcome)
      modifies server`config
      ensures Transition(server.internal, maxFirewallInputRules, Call("disabled", Some(rules)),
                         old(server.config), server.config, old(Executes(Call("disabled", Some(rules)))))
      ensures old(Executes(Call("disabled", Some(rules)))) ==> server.config.status in {"disabled", "in process"}
      ensures outcome == if server.weather.readsFail then Failed
                         else if |rules.input| > maxFirewallInputRules then LimitExceeded
                         else if server.weather.postsRefused || server.weather.answersLost then Failed
                         else Accepted(server.config)
    {
      outcome := SetStatus(Disabled, Some(rules));
    }
  }

  /** Exactly the fields the configuration sets, with the values it sets; unset ones are omitted. */
  ghost predicate SetsOnly(config: UpdateConfig, extra: map<Text, Text>) {
    && ("status" in extra <==> config.status.Some?)
    && ("whitelist_hos" in extra <==> config.whitelistHOS.Some?)
    && ("filter_ipv6" in extra <==> config.filterIPv6.Some?)
    && (config.status.Some? ==> extra["status"] == config.status.value)
    && (config.whitelistHOS.Some? ==> extra["whitelist_hos"] == if config.whitelistHOS.value then "true" else "false")
    && (config.filterIPv6.Some? ==> extra["filter_ipv6"] == if config.filterIPv6.value then "true" else "false")
    && extra.Keys <= {"status", "whitelist_hos", "filter_ipv6"}
  }

  lemma ExtraIsPlain(config: UpdateConfig, extra: map<Text, Text>)
    requires SetsOnly(config, extra)
    ensures PlainKeys(extra)
  {
    assert FormDecoding.PlainName("status");
    assert FormDecoding.PlainName("whitelist_hos");
    assert FormDecoding.PlainName("filter_ipv6");
  }
}
