/** The rules of a robots.txt file: which records apply to an agent, which rule decides a path, and the cache by domain. */
module RobotsRules {
  import opened Words
  import opened Robots

  datatype Rules = Rules(disallowed: seq<Text>, allowed: seq<Text>)

  // ----- records

  /** One `key: value` line after trimming. */
  datatype Record = Record(key: Text, value: Text)

  const USER_AGENT: Text := [117, 115, 101, 114, 45, 97, 103, 101, 110, 116]
  const ALLOW: Text := [97, 108, 108, 111, 119]
  const DISALLOW: Text := [100, 105, 115, 97, 108, 108, 111, 119]

  function Lower(b: byte): byte {
    if 65 <= b <= 90 then b + 32 else b
  }

  predicate EqIgnoreCase(a: Text, b: Text) {
    |a| == |b| && forall i | 0 <= i < |a| :: Lower(a[i]) == Lower(b[i])
  }

  predicate IsAgentLine(r: Record) {
    EqIgnoreCase(r.key, USER_AGENT)
  }

  /** A product token names an agent if it is the agent's name or the part before its version. */
  predicate TokenMatch(token: Text, agent: Text) {
    EqIgnoreCase(token, agent)
    || (|token| < |agent| && EqIgnoreCase(agent[..|token|], token) && agent[|token|] == SLASH)
  }

  lemma Keywords()
    ensures USER_AGENT == Ascii("user-agent") && ALLOW == Ascii("allow") && DISALLOW == Ascii("disallow")
    ensures [STAR, DOLLAR, SLASH] == Ascii("*$/")
  {
  }

  /** `u` is a capital letter and `l` the small one. */
  predicate CaseForms(u: byte, l: byte) {
    'A' as int <= u <= 'Z' as int && l - u == 'a' as int - 'A' as int
  }

  /** Two bytes are taken for the same exactly if they are, or are the two forms of one letter. */
  lemma SameLetter(a: byte, b: byte)
    ensures EqIgnoreCase([a], [b]) <==> a == b || CaseForms(a, b) || CaseForms(b, a)
  {
    assert EqIgnoreCase([a], [b]) <==> Lower([a][0]) == Lower([b][0]);
  }

  lemma SlashAt(name: Text, version: Text, i: nat)
    requires SLASH !in name && SLASH !in version && i <= |name| + |version|
    ensures (name + [SLASH] + version)[i] == SLASH <==> i == |name|
  {
    var agent := name + [SLASH] + version;
    assert i < |name| ==> agent[i] == name[i];
    assert i > |name| ==> agent[i] == version[i - |name| - 1];
  }

  /** An agent with a version is named by its name alone or by both, without regard to case. */
  lemma TokenNames(token: Text, name: Text, version: Text)
    requires SLASH !in name && SLASH !in version
    ensures TokenMatch(token, name) <==> EqIgnoreCase(token, name)
    ensures var agent := name + [SLASH] + version;
            TokenMatch(token, agent) <==> EqIgnoreCase(token, name) || EqIgnoreCase(token, agent)
  {
    hide EqIgnoreCase;
    var agent := name + [SLASH] + version;
    if |token| < |agent| {
      SlashAt(name, version, |token|);
    }
    assert agent[..|name|] == name;
    EqSymmetric(token, name);
  }

  lemma EqSymmetric(a: Text, b: Text)
    ensures EqIgnoreCase(a, b) <==> EqIgnoreCase(b, a)
    ensures EqIgnoreCase(a, b) ==> |a| == |b|
  {
  }

  /** Whether an agent line selects the agent; the wildcard only counts when nothing names the agent. */
  predicate Selects(r: Record, agent: Text, specificOnly: bool) {
    IsAgentLine(r) && if r.value == [STAR] then !specificOnly else TokenMatch(r.value, agent)
  }

  predicate Names(r: Record, agent: Text) {
    Selects(r, agent, true)
  }

  predicate IsRuleLine(r: Record) {
    EqIgnoreCase(r.key, DISALLOW) || EqIgnoreCase(r.key, ALLOW)
  }

  /** How the end of a group's agent lines is told: by a rule, as the standard has it, or by any other line. */
  datatype Reading = Standard | AnyLine

  predicate EndsAgents(r: Record, reading: Reading) {
    if reading == Standard then IsRuleLine(r) else !IsAgentLine(r)
  }

  /** From `j` up to `i` no agent line follows a line that ends the agent lines. For the standard see sections 2.2.1
      and 2.2.4 of RFC 9309: records other than rules do not interfere with the groups. */
  predicate SameGroup(rs: seq<Record>, j: nat, i: nat, reading: Reading)
    requires i <= |rs|
  {
    forall a, b | j <= a < b < i :: IsAgentLine(rs[b]) ==> !EndsAgents(rs[a], reading)
  }

  /** Record `i` stands in a group that one of its agent lines selects. */
  ghost predicate Governed(rs: seq<Record>, i: nat, agent: Text, specificOnly: bool, reading: Reading)
    requires i <= |rs|
  {
    exists j: nat :: j < i && Selects(rs[j], agent, specificOnly) && SameGroup(rs, j, i, reading)
  }

  ghost predicate Applies(rs: seq<Record>, i: nat, key: Text, agent: Text, specificOnly: bool, reading: Reading)
    requires i < |rs|
  {
    !IsAgentLine(rs[i]) && EqIgnoreCase(rs[i].key, key) && rs[i].value != [] && Governed(rs, i, agent, specificOnly, reading)
  }

  /** The values that apply under `key` among the first `n` records, in order. */
  ghost function Values(rs: seq<Record>, n: nat, key: Text, agent: Text, specificOnly: bool, reading: Reading): seq<Text>
    requires n <= |rs|
  {
    if n == 0 then [] else
      Values(rs, n - 1, key, agent, specificOnly, reading)
      + if Applies(rs, n - 1, key, agent, specificOnly, reading) then [rs[n - 1].value] else []
  }

  ghost function RulesOf(rs: seq<Record>, agent: Text, specificOnly: bool, reading: Reading): Rules {
    Rules(Values(rs, |rs|, DISALLOW, agent, specificOnly, reading), Values(rs, |rs|, ALLOW, agent, specificOnly, reading))
  }

  // ----- where the two readings differ

  /** The last line that selects the agent before record `i` is cut off from it: between them another record stands
      before an agent line, though no rule does. */
  ghost predicate CutOff(rs: seq<Record>, i: nat, agent: Text, specificOnly: bool)
    requires i <= |rs|
  {
    exists j: nat ::
      && j < i && Selects(rs[j], agent, specificOnly) && SameGroup(rs, j, i, Standard) && !SameGroup(rs, j, i, AnyLine)
      && forall m | j < m < i :: !Selects(rs[m], agent, specificOnly)
  }

  /** Some rule with a value is cut off from the agent. */
  ghost predicate Interrupted(rs: seq<Record>, agent: Text, specificOnly: bool) {
    exists i: nat :: i < |rs| && IsRuleLine(rs[i]) && rs[i].value != [] && CutOff(rs, i, agent, specificOnly)
  }

  /** The parser finds the rules of the standard exactly when no rule is cut off. */
  lemma StandardUnlessInterrupted(rs: seq<Record>, agent: Text, specificOnly: bool)
    ensures RulesOf(rs, agent, specificOnly, AnyLine) == RulesOf(rs, agent, specificOnly, Standard)
       <==> !Interrupted(rs, agent, specificOnly)
  {
    hide CutOff, EqIgnoreCase;
    ValuesAgree(rs, |rs|, DISALLOW, agent, specificOnly);
    ValuesAgree(rs, |rs|, ALLOW, agent, specificOnly);
    forall i: nat | i < |rs| && IsRuleLine(rs[i]) && CutOff(rs, i, agent, specificOnly) && rs[i].value != []
      ensures Lost(rs, i, DISALLOW, agent, specificOnly) || Lost(rs, i, ALLOW, agent, specificOnly)
    {
    }
  }

  ghost predicate Lost(rs: seq<Record>, i: nat, key: Text, agent: Text, specificOnly: bool)
    requires i < |rs|
  {
    EqIgnoreCase(rs[i].key, key) && rs[i].value != [] && CutOff(rs, i, agent, specificOnly)
  }

  lemma {:induction false} ValuesAgree(rs: seq<Record>, n: nat, key: Text, agent: Text, specificOnly: bool)
    requires n <= |rs| && (key == DISALLOW || key == ALLOW)
    ensures var code, std := Values(rs, n, key, agent, specificOnly, AnyLine), Values(rs, n, key, agent, specificOnly, Standard);
      |code| <= |std| && (code == std <==> |code| == |std|)
      && (code == std <==> forall i: nat | i < n :: !Lost(rs, i, key, agent, specificOnly))
  {
    hide CutOff, Governed, EqIgnoreCase;
    if n > 0 {
      ValuesAgree(rs, n - 1, key, agent, specificOnly);
      AgentOrRule(rs[n - 1]);
      CutOffIsUngoverned(rs, n - 1, agent, specificOnly);
      var a, b := Applies(rs, n - 1, key, agent, specificOnly, AnyLine), Applies(rs, n - 1, key, agent, specificOnly, Standard);
      assert (a ==> b) && (Lost(rs, n - 1, key, agent, specificOnly) <==> b && !a);
      hide Applies, Lost;
      var code, std := Values(rs, n - 1, key, agent, specificOnly, AnyLine), Values(rs, n - 1, key, agent, specificOnly, Standard);
      if a == b && |code| == |std| {
        assert Values(rs, n, key, agent, specificOnly, AnyLine) == Values(rs, n, key, agent, specificOnly, Standard);
      }
    }
  }

  lemma AgentOrRule(r: Record)
    ensures !(IsAgentLine(r) && IsRuleLine(r))
  {
  }

  lemma CutOffIsUngoverned(rs: seq<Record>, i: nat, agent: Text, specificOnly: bool)
    requires i <= |rs|
    ensures CutOff(rs, i, agent, specificOnly)
       <==> Governed(rs, i, agent, specificOnly, Standard) && !Governed(rs, i, agent, specificOnly, AnyLine)
    ensures Governed(rs, i, agent, specificOnly, AnyLine) ==> Governed(rs, i, agent, specificOnly, Standard)
  {
    hide Selects, EndsAgents;
    forall j: nat | j < i && SameGroup(rs, j, i, AnyLine) ensures SameGroup(rs, j, i, Standard) {
      StandardCoarser(rs, j, i);
    }
    if Governed(rs, i, agent, specificOnly, Standard) && !Governed(rs, i, agent, specificOnly, AnyLine) {
      var j: nat :| j < i && Selects(rs[j], agent, specificOnly) && SameGroup(rs, j, i, Standard);
      var l := LastSelecting(rs, j, i, agent, specificOnly);
      assert SameGroup(rs, l, i, Standard);
    }
  }

  lemma StandardCoarser(rs: seq<Record>, j: nat, i: nat)
    requires i <= |rs| && SameGroup(rs, j, i, AnyLine)
    ensures SameGroup(rs, j, i, Standard)
  {
    hide IsAgentLine, IsRuleLine;
    forall a | j <= a < i ensures EndsAgents(rs[a], Standard) ==> EndsAgents(rs[a], AnyLine) {
      AgentOrRule(rs[a]);
    }
  }

  lemma {:induction false} LastSelecting(rs: seq<Record>, j: nat, i: nat, agent: Text, specificOnly: bool) returns (l: nat)
    requires j < i <= |rs| && Selects(rs[j], agent, specificOnly)
    ensures j <= l < i && Selects(rs[l], agent, specificOnly) && forall m | l < m < i :: !Selects(rs[m], agent, specificOnly)
  {
    hide Selects;
    if Selects(rs[i - 1], agent, specificOnly) {
      l := i - 1;
    } else {
      l := LastSelecting(rs, j, i - 1, agent, specificOnly);
    }
  }

  /** A sitemap record between two agent lines: the standard applies the rule to both agents, the parser to the second
      alone. */
  lemma SitemapCutsOff(key: Text, value: Text)
    requires !EqIgnoreCase(key, USER_AGENT) && !EqIgnoreCase(key, DISALLOW) && !EqIgnoreCase(key, ALLOW)
    ensures var rs := [Record(USER_AGENT, [97]), Record(key, value), Record(USER_AGENT, [98]), Record(DISALLOW, [SLASH])];
      && RulesOf(rs, [97], true, Standard) == Rules([[SLASH]], [])
      && RulesOf(rs, [97], true, AnyLine) == Rules([], [])
  {
    var rs := [Record(USER_AGENT, [97]), Record(key, value), Record(USER_AGENT, [98]), Record(DISALLOW, [SLASH])];
    var none: seq<Text> := [];
    assert EqIgnoreCase(USER_AGENT, USER_AGENT) && EqIgnoreCase(DISALLOW, DISALLOW) && !EqIgnoreCase(DISALLOW, ALLOW);
    assert !EqIgnoreCase(USER_AGENT, DISALLOW) && !EqIgnoreCase(USER_AGENT, ALLOW);
    assert IsAgentLine(rs[0]) && !IsAgentLine(rs[1]) && IsAgentLine(rs[2]) && !IsAgentLine(rs[3]);
    assert Selects(rs[0], [97], true) && !Selects(rs[2], [97], true);
    hide EqIgnoreCase, IsAgentLine, Selects, TokenMatch;
    assert SameGroup(rs, 0, 3, Standard);
    assert EndsAgents(rs[1], AnyLine) && !SameGroup(rs, 0, 3, AnyLine) && !Governed(rs, 3, [97], true, AnyLine);
    assert Applies(rs, 3, DISALLOW, [97], true, Standard) && !Applies(rs, 3, DISALLOW, [97], true, AnyLine);
    hide Applies, Governed;
    forall reading: Reading
      ensures Values(rs, 3, DISALLOW, [97], true, reading) == none && Values(rs, 4, ALLOW, [97], true, reading) == none
    {
      NoValues(rs, 3, DISALLOW, [97], true, reading);
      NoValues(rs, 4, ALLOW, [97], true, reading);
    }
  }

  lemma {:induction false} NoValues(rs: seq<Record>, n: nat, key: Text, agent: Text, specificOnly: bool, reading: Reading)
    requires n <= |rs| && forall i | 0 <= i < n :: !EqIgnoreCase(rs[i].key, key)
    ensures Values(rs, n, key, agent, specificOnly, reading) == []
  {
    hide EqIgnoreCase, Governed;
    if n > 0 {
      NoValues(rs, n - 1, key, agent, specificOnly, reading);
    }
  }

  lemma GovernedNext(rs: seq<Record>, n: nat, agent: Text, specificOnly: bool)
    requires n < |rs|
    ensures Governed(rs, n + 1, agent, specificOnly, AnyLine) <==>
              if IsAgentLine(rs[n])
              then Selects(rs[n], agent, specificOnly)
                   || (n > 0 && IsAgentLine(rs[n - 1]) && Governed(rs, n, agent, specificOnly, AnyLine))
              else Governed(rs, n, agent, specificOnly, AnyLine)
  {
    hide Selects, IsAgentLine;
    if Governed(rs, n + 1, agent, specificOnly, AnyLine) {
      var j: nat :| j < n + 1 && Selects(rs[j], agent, specificOnly) && SameGroup(rs, j, n + 1, AnyLine);
      SelectsAgentLine(rs[j], agent, specificOnly);
      assert j < n ==> SameGroup(rs, j, n, AnyLine);
      assert n > 0 && j <= n - 1 && IsAgentLine(rs[n]) ==> IsAgentLine(rs[n - 1]);
    }
    if Selects(rs[n], agent, specificOnly) {
      SelectsAgentLine(rs[n], agent, specificOnly);
      assert SameGroup(rs, n, n + 1, AnyLine);
    }
    if Governed(rs, n, agent, specificOnly, AnyLine) && (!IsAgentLine(rs[n]) || (n > 0 && IsAgentLine(rs[n - 1]))) {
      var j: nat :| j < n && Selects(rs[j], agent, specificOnly) && SameGroup(rs, j, n, AnyLine);
      assert SameGroup(rs, j, n + 1, AnyLine);
    }
  }

  lemma SelectsAgentLine(r: Record, agent: Text, specificOnly: bool)
    ensures Selects(r, agent, specificOnly) ==> IsAgentLine(r)
  {
  }

  /** One pass over the records. */
  method ParseSection(rs: seq<Record>, agent: Text, specificOnly: bool) returns (rules: Rules, hasSpecific: bool)
    ensures rules == RulesOf(rs, agent, specificOnly, AnyLine)
    ensures hasSpecific <==> exists i :: 0 <= i < |rs| && Names(rs[i], agent)
  {
    hide Governed, EqIgnoreCase, TokenMatch;
    rules := Rules([], []);
    hasSpecific := false;
    var groupMatches, lastWasUa := false, false;
    NoneGoverned(rs, agent, specificOnly);
    for n := 0 to |rs|
      invariant rules.disallowed == Values(rs, n, DISALLOW, agent, specificOnly, AnyLine)
      invariant rules.allowed == Values(rs, n, ALLOW, agent, specificOnly, AnyLine)
      invariant hasSpecific <==> exists i :: 0 <= i < n && Names(rs[i], agent)
      invariant groupMatches <==> Governed(rs, n, agent, specificOnly, AnyLine)
      invariant lastWasUa <==> n > 0 && IsAgentLine(rs[n - 1])
    {
      GovernedNext(rs, n, agent, specificOnly);
      var key, value := rs[n].key, rs[n].value;
      if EqIgnoreCase(key, USER_AGENT) {
        if !lastWasUa {
          groupMatches := false;
        }
        if value == [STAR] {
          if !specificOnly {
            groupMatches := true;
          }
        } else {
          if TokenMatch(value, agent) {
            groupMatches := true;
            hasSpecific := true;
          }
        }
        lastWasUa := true;
      } else {
        if groupMatches && value != [] {
          KeysExclusive(key);
          if EqIgnoreCase(key, DISALLOW) {
            rules := rules.(disallowed := rules.disallowed + [value]);
          } else if EqIgnoreCase(key, ALLOW) {
            rules := rules.(allowed := rules.allowed + [value]);
          }
        }
        lastWasUa := false;
      }
    }
  }

  lemma NoneGoverned(rs: seq<Record>, agent: Text, specificOnly: bool)
    ensures !Governed(rs, 0, agent, specificOnly, AnyLine)
  {
  }

  lemma KeysExclusive(key: Text)
    ensures !(EqIgnoreCase(key, DISALLOW) && EqIgnoreCase(key, ALLOW))
  {
  }

  /** The groups that name the agent if there are any, else the wildcard groups. */
  method ParseRobotsTxt(rs: seq<Record>, agent: Text) returns (rules: Rules)
    ensures var named := exists i :: 0 <= i < |rs| && Names(rs[i], agent);
            && rules == RulesOf(rs, agent, named, AnyLine)
            && (rules == RulesOf(rs, agent, named, Standard) <==> !Interrupted(rs, agent, named))
  {
    hide RulesOf, Names, Interrupted;
    var hasSpecific;
    rules, hasSpecific := ParseSection(rs, agent, true);
    if !hasSpecific {
      rules, hasSpecific := ParseSection(rs, agent, false);
    }
    StandardUnlessInterrupted(rs, agent, exists i :: 0 <= i < |rs| && Names(rs[i], agent));
  }

  // ----- the verdict

  ghost predicate Hit(path: Text, patterns: seq<Text>, i: int) {
    0 <= i < |patterns| && RuleMatches(path, patterns[i])
  }

  /** No rule matches, or the longest match is an allow rule, or as long as one (section 2.2.2 of RFC 9309):
      every matching disallow rule is outmatched by an allow rule at least as long. */
  ghost predicate Allowed(path: Text, rules: Rules) {
    forall i :: Hit(path, rules.disallowed, i) ==>
      exists j :: Hit(path, rules.allowed, j) && |rules.allowed[j]| >= |rules.disallowed[i]|
  }

  /** The length of the longest match among the first `n` patterns, if it beats `best`. */
  ghost predicate Longest(path: Text, patterns: seq<Text>, n: nat, best: Option<nat>) {
    && (forall i :: i < n && Hit(path, patterns, i) ==> best != None && |patterns[i]| <= best.value)
    && (best != None ==> exists i :: i < n && Hit(path, patterns, i) && |patterns[i]| == best.value)
  }

  /** Keeps the first of the longest matches seen so far. */
  method Better(path: Text, pattern: Text, allow: bool, best: Option<(nat, bool)>) returns (r: Option<(nat, bool)>)
    ensures r == if RuleMatches(path, pattern) && (best == None || |pattern| > best.value.0)
                 then Some((|pattern|, allow)) else best
  {
    var m := PathMatches(path, pattern);
    r := if m && (best == None || |pattern| > best.value.0) then Some((|pattern|, allow)) else best;
  }

  method Verdict(path: Text, rules: Rules) returns (verdict: bool)
    ensures verdict <==> Allowed(path, rules)
  {
    hide RuleMatches;
    var best: Option<(nat, bool)> := None;
    for n := 0 to |rules.allowed|
      invariant best != None ==> best.value.1
      invariant Longest(path, rules.allowed, n, if best == None then None else Some(best.value.0))
    {
      best := Better(path, rules.allowed[n], true, best);
      assert Hit(path, rules.allowed, n) <==> RuleMatches(path, rules.allowed[n]);
    }
    ghost var byAllow := best;
    for n := 0 to |rules.disallowed|
      invariant best != None && best.value.1 ==> best == byAllow
      invariant best == None ==> byAllow == None
      invariant best != None && byAllow != None ==> best.value.0 >= byAllow.value.0
      invariant best != None && !best.value.1 ==>
          (exists i :: i < n && Hit(path, rules.disallowed, i) && |rules.disallowed[i]| == best.value.0)
          && (byAllow != None ==> best.value.0 > byAllow.value.0)
      invariant forall i :: i < n && Hit(path, rules.disallowed, i) ==> best != None && |rules.disallowed[i]| <= best.value.0
    {
      best := Better(path, rules.disallowed[n], false, best);
      assert Hit(path, rules.disallowed, n) <==> RuleMatches(path, rules.disallowed[n]);
    }
    verdict := best == None || best.value.1;
  }

  // ----- the cache

  class RobotsCache {
    var cache: map<Text, Rules>

    constructor ()
      ensures cache == map[]
    {
      cache := map[];
    }

    /** The first rules stored for a domain stay. */
    method ParseAndStore(domain: Text, rs: seq<Record>, agent: Text)
      modifies this
      ensures forall d :: d in cache <==> d in old(cache) || d == domain
      ensures forall d :: d in old(cache) ==> cache[d] == old(cache)[d]
      ensures domain !in old(cache) ==>
                cache[domain] == RulesOf(rs, agent, exists i :: 0 <= i < |rs| && Names(rs[i], agent), AnyLine)
    {
      var rules := ParseRobotsTxt(rs, agent);
      if domain !in cache {
        cache := cache[domain := rules];
      }
    }

    method StoreEmpty(domain: Text)
      modifies this
      ensures forall d :: d in cache <==> d in old(cache) || d == domain
      ensures forall d :: d in old(cache) ==> cache[d] == old(cache)[d]
      ensures domain !in old(cache) ==> cache[domain] == Rules([], []) && forall path :: Allowed(path, cache[domain])
    {
      if domain !in cache {
        cache := cache[domain := Rules([], [])];
      }
    }

    /** A domain without rules allows everything. */
    method IsAllowed(domain: Text, path: Text) returns (verdict: bool)
      ensures verdict <==> domain !in cache || Allowed(path, cache[domain])
    {
      verdict := true;
      if domain in cache {
        verdict := Verdict(path, cache[domain]);
      }
    }
  }
}
