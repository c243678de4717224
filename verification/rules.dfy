/** Rule compilation (`prepareRules`) and the two matching semantics over a
    header occurrence: the blocklist test `applyRule` and the whitelist test
    `isWhitelisted`. */
module Rules {
  import opened Wrappers
  import opened Regex

  /** One `{Name, Value}` pattern pair of the configuration; the empty
      string stands for "no pattern". */
  datatype HeaderConfig = HeaderConfig(name: string, value: string)

  /** A compiled pair; `None` is an absent matcher (a nil `*regexp.Regexp`). */
  datatype Rule = Rule(name: Option<Regexp>, value: Option<Regexp>)

  /** What makes `regexp.MustCompile` panic, so that the filter never starts. */
  datatype ConfigError = InvalidPattern(expr: string)

  predicate PatternOk(eng: Engine, expr: string) {
    expr == "" || eng.compiles(expr)
  }

  predicate EntryOk(eng: Engine, c: HeaderConfig) {
    PatternOk(eng, c.name) && PatternOk(eng, c.value)
  }

  /** The matcher a pattern stands for once it compiles: absent exactly for
      the empty pattern. */
  function Matcher(expr: string): Option<Regexp> {
    if expr == "" then None else Some(Regexp(expr))
  }

  /** The rule a well-formed entry stands for. */
  function RuleOf(c: HeaderConfig): Rule {
    Rule(Matcher(c.name), Matcher(c.value))
  }

  /** The rules of a well-formed configuration list, entry by entry. */
  function Compiled(cfg: seq<HeaderConfig>): seq<Rule> {
    seq(|cfg|, i requires 0 <= i < |cfg| => RuleOf(cfg[i]))
  }

  /** `expr` is the pattern of `c` whose compilation panics first: the name
      is compiled before the value. */
  predicate Offends(eng: Engine, c: HeaderConfig, expr: string) {
    && expr != "" && !eng.compiles(expr)
    && (expr == c.name || (expr == c.value && PatternOk(eng, c.name)))
  }

  /** One guarded `regexp.MustCompile` call. */
  function CompilePattern(eng: Engine, expr: string): (r: Result<Option<Regexp>, ConfigError>)
    ensures r.Success? <==> PatternOk(eng, expr)
    ensures r.Success? ==> r.value == Matcher(expr)
    ensures r.Failure? ==> r.error == InvalidPattern(expr)
  {
    if |expr| == 0 then Success(None)
    else
      match Compile(eng, expr)
      case None => Failure(InvalidPattern(expr))
      case Some(re) => Success(Some(re))
  }

  function CompileRule(eng: Engine, c: HeaderConfig): (r: Result<Rule, ConfigError>)
    ensures r.Success? <==> EntryOk(eng, c)
    ensures r.Success? ==> r.value == RuleOf(c)
    ensures r.Failure? ==> Offends(eng, c, r.error.expr)
  {
    match CompilePattern(eng, c.name)
    case Failure(e) => Failure(e)
    case Success(n) =>
      match CompilePattern(eng, c.value)
      case Failure(e) => Failure(e)
      case Success(v) => Success(Rule(n, v))
  }

  /** `prepareRules`: one rule per entry, in order, or the pattern that makes
      construction fail, which is the first offending one. */
  function PrepareRules(eng: Engine, cfg: seq<HeaderConfig>): (r: Result<seq<Rule>, ConfigError>)
    ensures r.Success? <==> forall i :: 0 <= i < |cfg| ==> EntryOk(eng, cfg[i])
    ensures r.Success? ==> r.value == Compiled(cfg)
    ensures r.Failure? ==> exists i :: 0 <= i < |cfg| && Offends(eng, cfg[i], r.error.expr)
                                       && forall k :: 0 <= k < i ==> EntryOk(eng, cfg[k])
    decreases |cfg|
  {
    if |cfg| == 0 then Success([])
    else
      match CompileRule(eng, cfg[0])
      case Failure(e) => Failure(e)
      case Success(rule) =>
        match PrepareRules(eng, cfg[1..])
        case Failure(e) =>
          assert forall k :: 1 <= k < |cfg| ==> cfg[k] == cfg[1..][k - 1];
          Failure(e)
        case Success(rest) =>
          assert forall k :: 1 <= k < |cfg| ==> cfg[k] == cfg[1..][k - 1];
          assert [rule] + rest == Compiled(cfg);
          Success([rule] + rest)
  }

  /** Compiling two lists one after the other is compiling their
      concatenation: appended configuration entries only append rules. */
  lemma PrepareRulesAppend(eng: Engine, a: seq<HeaderConfig>, b: seq<HeaderConfig>)
    requires PrepareRules(eng, a).Success? && PrepareRules(eng, b).Success?
    ensures PrepareRules(eng, a + b) == Success(PrepareRules(eng, a).value + PrepareRules(eng, b).value)
  {
    AppendEntriesOk(eng, a, b);
    CompiledAppend(a, b);
  }

  lemma CompiledAppend(a: seq<HeaderConfig>, b: seq<HeaderConfig>)
    ensures Compiled(a + b) == Compiled(a) + Compiled(b)
  {
    var l, r := Compiled(a + b), Compiled(a) + Compiled(b);
    forall i | 0 <= i < |a| + |b| ensures l[i] == r[i] {
      if i < |a| {
        assert (a + b)[i] == a[i];
      } else {
        assert (a + b)[i] == b[i - |a|];
      }
    }
  }

  lemma AppendEntriesOk(eng: Engine, a: seq<HeaderConfig>, b: seq<HeaderConfig>)
    requires forall i :: 0 <= i < |a| ==> EntryOk(eng, a[i])
    requires forall i :: 0 <= i < |b| ==> EntryOk(eng, b[i])
    ensures forall i :: 0 <= i < |a + b| ==> EntryOk(eng, (a + b)[i])
  {
    forall i | 0 <= i < |a + b| ensures EntryOk(eng, (a + b)[i]) {
      if i < |a| {
        assert (a + b)[i] == a[i];
      } else {
        assert (a + b)[i] == b[i - |a|];
      }
    }
  }

  /** The inner `for _, value := range values` loop: some value matches. */
  function SomeValueMatches(eng: Engine, re: Regexp, values: seq<string>): (r: bool)
    ensures r <==> exists k :: 0 <= k < |values| && MatchString(eng, re, values[k])
    decreases |values|
  {
    if |values| == 0 then false
    else if MatchString(eng, re, values[0]) then true
    else
      assert forall k :: 1 <= k < |values| ==> values[k] == values[1..][k - 1];
      SomeValueMatches(eng, re, values[1..])
  }

  predicate NameMatches(eng: Engine, rule: Rule, name: string) {
    rule.name.Some? && MatchString(eng, rule.name.value, name)
  }

  /** `applyRule`, the blocklist test. */
  function ApplyRule(eng: Engine, rule: Rule, name: string, values: seq<string>): (r: bool)
    ensures rule.value.None? ==> (r <==> NameMatches(eng, rule, name))
    ensures rule.value.Some? ==>
              (r <==> (rule.name.None? || NameMatches(eng, rule, name))
                      && exists k :: 0 <= k < |values| && MatchString(eng, rule.value.value, values[k]))
  {
    var nameMatch := NameMatches(eng, rule, name);
    if rule.value.None? && nameMatch then true
    else if rule.value.Some? && (nameMatch || rule.name.None?) then
      SomeValueMatches(eng, rule.value.value, values)
    else false
  }

  /** Whitelist semantics of one rule: an absent name matcher is a wildcard
      and an absent value matcher accepts any values. */
  predicate Admits(eng: Engine, rule: Rule, name: string, values: seq<string>) {
    && (rule.name.None? || MatchString(eng, rule.name.value, name))
    && (rule.value.None? || exists k :: 0 <= k < |values| && MatchString(eng, rule.value.value, values[k]))
  }

  /** `isWhitelisted`: the loop over whitelist rules with its `continue` on
      a name mismatch and its early `return true`s. */
  function IsWhitelisted(eng: Engine, name: string, values: seq<string>, whitelist: seq<Rule>): (r: bool)
    ensures r <==> exists i :: 0 <= i < |whitelist| && Admits(eng, whitelist[i], name, values)
    decreases |whitelist|
  {
    if |whitelist| == 0 then false
    else
      assert forall i :: 1 <= i < |whitelist| ==> whitelist[i] == whitelist[1..][i - 1];
      var rule := whitelist[0];
      if rule.name.Some? && !MatchString(eng, rule.name.value, name) then
        IsWhitelisted(eng, name, values, whitelist[1..])
      else if rule.value.None? then true
      else if SomeValueMatches(eng, rule.value.value, values) then true
      else IsWhitelisted(eng, name, values, whitelist[1..])
  }

  /** The two semantics differ on exactly one rule: the one with both
      matchers absent, which never blocks yet whitelists every header. */
  lemma BlockIffAdmitsUnlessEmpty(eng: Engine, rule: Rule, name: string, values: seq<string>)
    ensures ApplyRule(eng, rule, name, values) <==>
            Admits(eng, rule, name, values) && !(rule.name.None? && rule.value.None?)
  {
  }

  /** A value-only rule does not look at the header name at all. */
  lemma ValueOnlyRuleIgnoresName(eng: Engine, rule: Rule, n1: string, n2: string, values: seq<string>)
    requires rule.name.None? && rule.value.Some?
    ensures ApplyRule(eng, rule, n1, values) == ApplyRule(eng, rule, n2, values)
  {
  }

  /** More whitelist rules never withdraw a whitelisting. */
  lemma WhitelistMonotone(eng: Engine, name: string, values: seq<string>, w1: seq<Rule>, w2: seq<Rule>)
    requires forall r :: r in w1 ==> r in w2
    requires IsWhitelisted(eng, name, values, w1)
    ensures IsWhitelisted(eng, name, values, w2)
  {
    var i :| 0 <= i < |w1| && Admits(eng, w1[i], name, values);
    assert w1[i] in w2;
    var j :| 0 <= j < |w2| && w2[j] == w1[i];
  }
}
