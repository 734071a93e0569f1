/** The registry's rule keys: RuleKey and parseRuleKey of internal/controller/conditions.go. */
module RuleKeys {
  import opened Strings

  const STREAM_RULE := "streamrule"
  const CLUSTER_STREAM_RULE := "clusterstreamrule"

  datatype Rule = Rule(kind: string, namespace: string, name: string)

  datatype Parsed = NotAKey | Key(rule: Rule)

  function RuleKey(rule: Rule): string {
    rule.kind + "/" + rule.namespace + "/" + rule.name
  }

  function ParseRuleKey(key: string): Parsed {
    var parts := Split(key, '/');
    if |parts| != 3 || parts[0] == "" || parts[2] == "" then NotAKey
    else if parts[0] != STREAM_RULE && parts[0] != CLUSTER_STREAM_RULE then NotAKey
    else Key(Rule(parts[0], parts[1], parts[2]))
  }

  /** A rule whose key is unambiguous: a known kind, a name, and no slash in either part. */
  predicate WellNamed(rule: Rule) {
    && (rule.kind == "streamrule" || rule.kind == "clusterstreamrule")
    && rule.name != "" && '/' !in rule.namespace && '/' !in rule.name
  }

  lemma KeyIsJoined(rule: Rule)
    ensures RuleKey(rule) == Join([rule.kind, rule.namespace, rule.name], '/')
  {
    var parts := [rule.kind, rule.namespace, rule.name];
    assert parts[1..] == [rule.namespace, rule.name];
    assert parts[1..][1..] == [rule.name];
    assert Join(parts[1..], '/') == rule.namespace + ['/'] + rule.name;
    assert RuleKey(rule) == rule.kind + ['/'] + (rule.namespace + ['/'] + rule.name);
  }

  /** parseRuleKey gives the rule back exactly for the rules that can exist. */
  lemma ParseInvertsRuleKeyIff(rule: Rule)
    ensures ParseRuleKey(RuleKey(rule)) == Key(rule) <==> WellNamed(rule)
  {
    KeyIsJoined(rule);
    if WellNamed(rule) {
      SplitJoin([rule.kind, rule.namespace, rule.name], '/');
    }
  }

  /** And nothing else is accepted: a key that parses is the key of what it parses to. */
  lemma ParsedKeysAreRuleKeys(key: string)
    ensures ParseRuleKey(key).Key? ==>
              WellNamed(ParseRuleKey(key).rule) && RuleKey(ParseRuleKey(key).rule) == key
  {
    if ParseRuleKey(key).Key? {
      var parts := Split(key, '/');
      JoinSplit(key, '/');
      assert parts == [parts[0], parts[1], parts[2]];
      KeyIsJoined(Rule(parts[0], parts[1], parts[2]));
    }
  }

  /** Distinct rules never share a key. */
  lemma RuleKeyIsInjective(a: Rule, b: Rule)
    requires WellNamed(a) && WellNamed(b) && RuleKey(a) == RuleKey(b)
    ensures a == b
  {
    ParseInvertsRuleKeyIff(a);
    ParseInvertsRuleKeyIff(b);
  }
}
