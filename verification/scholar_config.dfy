/**
 * Where the reconciler finds the Google Scholar author ID: the socials data
 * file first, then several key names in the site configuration. Both files
 * arrive already parsed; `None` stands for a file that could not be opened or
 * parsed (the source catches that exception and moves on).
 */
module ScholarConfig {

  import opened Wrappers
  import opened Values

  /** The two documents the ID may come from. */
  datatype Source = SocialsFile | ConfigFile

  /** One place the ID may be written: a top-level key, or a key inside a section. */
  datatype Location = TopLevel(key: string) | InSection(section: string, key: string)

  /** A resolution rule: a location inside one of the documents. */
  datatype Rule = Rule(source: Source, location: Location)

  /** The two spellings of the ID inside one section of the configuration. */
  function SectionRules(section: string): seq<Rule> {
    [Rule(ConfigFile, InSection(section, "scholar_userid")), Rule(ConfigFile, InSection(section, "google_scholar_id"))]
  }

  /** The two spellings of the ID at the top level of the configuration. */
  const TopLevelRules: seq<Rule> :=
    [Rule(ConfigFile, TopLevel("scholar_userid")), Rule(ConfigFile, TopLevel("google_scholar_id"))]

  /**
   * Every rule, highest priority first: socials file `scholar_userid`, then in
   * the configuration `socials.scholar_userid`, `socials.google_scholar_id`,
   * `scholar.scholar_userid`, `scholar.google_scholar_id`, `scholar_userid`
   * and `google_scholar_id`.
   */
  const Rules: seq<Rule> := [Rule(SocialsFile, TopLevel("scholar_userid"))] + ConfigRules

  /** The configuration part of `Rules`: the `socials` section, the `scholar` section, the top level. */
  const ConfigRules: seq<Rule> := SectionRules("socials") + (SectionRules("scholar") + TopLevelRules)

  /** The value a location holds in a mapping; None when the section is missing or not a mapping. */
  function ValueAt(doc: map<Value, Value>, loc: Location): Value {
    match loc
    case TopLevel(k) => Get(doc, Str(k))
    case InSection(sec, k) =>
      if Str(sec) in doc && doc[Str(sec)].Dict? then Get(doc[Str(sec)].entries, Str(k)) else Null
  }

  /** The value a rule selects; None unless its document was read and is a mapping. */
  function RuleValue(socials: Option<Value>, config: Option<Value>, rule: Rule): Value {
    var doc := if rule.source == SocialsFile then socials else config;
    match doc
    case Some(Dict(m)) => ValueAt(m, rule.location)
    case _ => Null
  }

  /** The value of the first rule in `rules` that selects something truthy. */
  function FirstTruthy(socials: Option<Value>, config: Option<Value>, rules: seq<Rule>): Option<Value> {
    if |rules| == 0 then None
    else if Truthy(RuleValue(socials, config, rules[0])) then Some(RuleValue(socials, config, rules[0]))
    else FirstTruthy(socials, config, rules[1..])
  }

  /**
   * `FirstTruthy` finds something exactly when some rule selects a truthy
   * value, and what it finds is the value of the earliest such rule.
   */
  lemma {:induction false} FirstTruthyIsFirst(socials: Option<Value>, config: Option<Value>, rules: seq<Rule>)
    ensures FirstTruthy(socials, config, rules).Some? <==>
      exists i :: 0 <= i < |rules| && Truthy(RuleValue(socials, config, rules[i]))
    ensures FirstTruthy(socials, config, rules).Some? ==>
      exists i :: 0 <= i < |rules| && FirstTruthy(socials, config, rules).value == RuleValue(socials, config, rules[i])
        && Truthy(RuleValue(socials, config, rules[i]))
        && forall j :: 0 <= j < i ==> !Truthy(RuleValue(socials, config, rules[j]))
  {
    if |rules| > 0 && !Truthy(RuleValue(socials, config, rules[0])) {
      FirstTruthyIsFirst(socials, config, rules[1..]);
      assert forall i :: 1 <= i < |rules| ==> rules[i] == rules[1..][i - 1];
      if FirstTruthy(socials, config, rules[1..]).Some? {
        var i :| 0 <= i < |rules[1..]| && FirstTruthy(socials, config, rules[1..]).value == RuleValue(socials, config, rules[1..][i])
          && Truthy(RuleValue(socials, config, rules[1..][i]))
          && forall j :: 0 <= j < i ==> !Truthy(RuleValue(socials, config, rules[1..][j]));
        assert forall j :: 0 <= j < i + 1 ==> !Truthy(RuleValue(socials, config, rules[j])) by {
          forall j | 0 <= j < i + 1 ensures !Truthy(RuleValue(socials, config, rules[j])) {
            if j > 0 { assert rules[j] == rules[1..][j - 1]; }
          }
        }
      }
    }
  }

  /**
   * The socials-file step as the source writes it: a non-empty mapping whose
   * `scholar_userid` is truthy gives the ID.
   */
  function FromSocials(socials: Option<Value>): (r: Option<Value>)
    ensures r.Some? ==> Truthy(r.value)
    ensures r.Some? <==> socials.Some? && socials.value.Dict? && Truthy(Get(socials.value.entries, Str("scholar_userid")))
  {
    match socials
    case Some(Dict(m)) =>
      var id := Get(m, Str("scholar_userid"));
      if Truthy(Dict(m)) && Truthy(id) then Some(id) else None
    case _ => None
  }

  /** `section.get('scholar_userid') or section.get('google_scholar_id')` for a section that is a mapping. */
  function SectionId(doc: map<Value, Value>, section: string): Value {
    if Str(section) in doc && doc[Str(section)].Dict? then
      var s := doc[Str(section)].entries;
      Or(Get(s, Str("scholar_userid")), Get(s, Str("google_scholar_id")))
    else Null
  }

  /**
   * The configuration step as the source writes it: the `socials` section, then
   * the `scholar` section, then the top level, each consulted only while no
   * truthy ID has been found. A document that is not a mapping makes the
   * membership test, the indexing or `.get` raise, and the handler falls through.
   */
  function FromConfig(config: Option<Value>): (r: Option<Value>)
    ensures r.Some? ==> Truthy(r.value)
    ensures r.Some? ==> config.Some? && config.value.Dict?
  {
    match config
    case Some(Dict(c)) =>
      var fromSocials := SectionId(c, "socials");
      var fromScholar := if !Truthy(fromSocials) then SectionId(c, "scholar") else fromSocials;
      var id := if !Truthy(fromScholar) then Or(Get(c, Str("scholar_userid")), Get(c, Str("google_scholar_id"))) else fromScholar;
      if Truthy(id) then Some(id) else None
    case _ => None
  }

  /** `get_scholar_id_from_config`: the socials file wins, otherwise the configuration is consulted. */
  function GetScholarId(socials: Option<Value>, config: Option<Value>): (r: Option<Value>)
    ensures r.Some? ==> Truthy(r.value)
  {
    match FromSocials(socials)
    case Some(id) => Some(id)
    case None => FromConfig(config)
  }

  /**
   * The nested fallbacks of the source are exactly the ordered rule list: the
   * ID is the first truthy value along `Rules`, and there is none when every
   * rule selects a falsy value or a section that is not a mapping.
   */
  lemma ResolutionOrder(socials: Option<Value>, config: Option<Value>)
    ensures GetScholarId(socials, config) == FirstTruthy(socials, config, Rules)
    ensures GetScholarId(socials, config).None? <==>
      forall i :: 0 <= i < |Rules| ==> !Truthy(RuleValue(socials, config, Rules[i]))
  {
    SocialsStep(socials, config);
    ConfigStep(socials, config);
    FirstTruthyIsFirst(socials, config, Rules);
    FirstTruthyConcat(socials, config, [Rule(SocialsFile, TopLevel("scholar_userid"))], ConfigRules);
  }

  /** The socials-file rule selects what `FromSocials` finds. */
  lemma SocialsStep(socials: Option<Value>, config: Option<Value>)
    ensures FirstTruthy(socials, config, [Rule(SocialsFile, TopLevel("scholar_userid"))]) == FromSocials(socials)
  {
  }

  /** The configuration rules select what `FromConfig` finds. */
  lemma ConfigStep(socials: Option<Value>, config: Option<Value>)
    ensures FirstTruthy(socials, config, ConfigRules) == FromConfig(config)
  {
    FirstTruthyConcat(socials, config, SectionRules("scholar"), TopLevelRules);
    FirstTruthyConcat(socials, config, SectionRules("socials"), SectionRules("scholar") + TopLevelRules);
    match config
    case Some(Dict(c)) =>
      SectionStep(socials, c, "socials");
      SectionStep(socials, c, "scholar");
      TopLevelStep(socials, c);
    case _ =>
      NoConfigRuleFires(socials, config, ConfigRules);
  }

  /** The rules of one section select what `SectionId` computes. */
  lemma SectionStep(socials: Option<Value>, c: map<Value, Value>, section: string)
    ensures FirstTruthy(socials, Some(Dict(c)), SectionRules(section)) ==
      if Truthy(SectionId(c, section)) then Some(SectionId(c, section)) else None
  {
    TwoRules(socials, Some(Dict(c)), SectionRules(section));
  }

  /** The top-level rules select the top-level `or` of the two spellings. */
  lemma TopLevelStep(socials: Option<Value>, c: map<Value, Value>)
    ensures FirstTruthy(socials, Some(Dict(c)), TopLevelRules) ==
      var id := Or(Get(c, Str("scholar_userid")), Get(c, Str("google_scholar_id")));
      if Truthy(id) then Some(id) else None
  {
    TwoRules(socials, Some(Dict(c)), TopLevelRules);
  }

  /** Two rules select like Python's `or` of their two values. */
  lemma TwoRules(socials: Option<Value>, config: Option<Value>, rules: seq<Rule>)
    requires |rules| == 2
    ensures FirstTruthy(socials, config, rules) ==
      var id := Or(RuleValue(socials, config, rules[0]), RuleValue(socials, config, rules[1]));
      if Truthy(id) then Some(id) else None
  {
    var rest := rules[1..];
    assert rest[0] == rules[1];
    assert rest[1..] == [];
    assert FirstTruthy(socials, config, rest[1..]) == None;
    assert FirstTruthy(socials, config, rest) ==
      if Truthy(RuleValue(socials, config, rules[1])) then Some(RuleValue(socials, config, rules[1])) else None;
  }

  /** A configuration that was not read, or is not a mapping, makes no configuration rule fire. */
  lemma NoConfigRuleFires(socials: Option<Value>, config: Option<Value>, rules: seq<Rule>)
    requires !(config.Some? && config.value.Dict?)
    requires forall i :: 0 <= i < |rules| ==> rules[i].source == ConfigFile
    ensures FirstTruthy(socials, config, rules) == None
  {
  }

  /** Scanning a concatenation scans the first part, then the second only if the first found nothing. */
  lemma {:induction false} FirstTruthyConcat(socials: Option<Value>, config: Option<Value>, a: seq<Rule>, b: seq<Rule>)
    ensures FirstTruthy(socials, config, a + b) ==
      match FirstTruthy(socials, config, a)
      case Some(v) => Some(v)
      case None => FirstTruthy(socials, config, b)
  {
    if |a| == 0 {
      assert a + b == b;
    } else {
      assert (a + b)[1..] == a[1..] + b;
      FirstTruthyConcat(socials, config, a[1..], b);
    }
  }

  /** A truthy `scholar_userid` in the socials file wins whatever the configuration holds. */
  lemma SocialsFileWins(m: map<Value, Value>, config: Option<Value>)
    requires Truthy(Get(m, Str("scholar_userid")))
    ensures GetScholarId(Some(Dict(m)), config) == Some(m[Str("scholar_userid")])
  {
  }

  /** A section that is not a mapping is skipped: the next rule decides. */
  lemma NonMappingSectionSkipped(c: map<Value, Value>)
    requires Str("socials") in c && !c[Str("socials")].Dict?
    requires Truthy(Get(c, Str("scholar_userid")))
    requires !(Str("scholar") in c && c[Str("scholar")].Dict?)
    ensures GetScholarId(None, Some(Dict(c))) == Some(c[Str("scholar_userid")])
  {
  }
}
