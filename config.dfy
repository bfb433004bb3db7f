/**
 * How main turns the `core.whitespace` setting and the command line into a
 * tab width and a list of sanitizers: the default rule table, the token
 * loop, the conflict check, the trailing-space shorthand, the command-line
 * overrides and the fixed order in which sanitizers are appended.
 */
module Config {
  import opened Wrappers
  import opened Text
  import P = Pipeline
  import S = Sanitizers

  /**
   * The `ws_config` dictionary: boolean rules by name, and `tabwidth` once
   * a token has set it.
   */
  datatype WsConfig = WsConfig(flags: map<string, bool>, tabwidth: Option<int>)

  /** The rule table main starts from, before `core.whitespace` is read. */
  const Defaults: WsConfig := WsConfig(
    map[
      "blank-at-eol" := true,
      "space-before-tab" := true,
      "indent-with-non-tab" := false,
      "tab-in-indent" := false,
      "blank-at-eof" := false,
      "trailing-space" := false,
      "cr-at-eol" := false
    ],
    None)

  /** The module-level `TAB_WIDTH = 8`. */
  const DefaultTabWidth: int := 8

  /** `ws_config.get(name, False)`. */
  predicate Enabled(flags: map<string, bool>, name: string) {
    name in flags && flags[name]
  }

  // ---------------------------------------------------------------------
  // The core.whitespace token loop
  // ---------------------------------------------------------------------

  /** What one comma-separated token does to `ws_config`. */
  datatype TokenEffect = SetFlag(name: string, value: bool) | SetTabWidth(width: int)

  /**
   * One pass of the token loop on `raw`. None stands for the exceptions
   * the loop body can raise (`int()` on a malformed width, `c[0]` on an
   * empty token), which the bare `except` around the loop swallows.
   */
  function ParseToken(raw: string): (e: Option<TokenEffect>)
    ensures Strip(raw) == [] ==> e.None?
    ensures Contains(Strip(raw), "tabwidth") ==> e.None? || e.value.SetTabWidth?
    ensures e.Some? && e.value.SetTabWidth? ==>
      Contains(Strip(raw), "tabwidth") && ParseInt(Last(SplitOn(Strip(raw), '='))) == Some(e.value.width)
    ensures Contains(Strip(raw), "tabwidth") && ParseInt(Last(SplitOn(Strip(raw), '='))).Some? ==>
      e == Some(SetTabWidth(ParseInt(Last(SplitOn(Strip(raw), '='))).value))
    ensures e.Some? && e.value.SetFlag? ==>
      !Contains(Strip(raw), "tabwidth") &&
      (e.value.value <==> Strip(raw)[0] != '-') &&
      Strip(raw) == (if e.value.value then e.value.name else "-" + e.value.name)
    ensures Strip(raw) != [] && !Contains(Strip(raw), "tabwidth") ==> e.Some?
  {
    var c := Strip(raw);
    if Contains(c, "tabwidth") then
      match ParseInt(Last(SplitOn(c, '=')))
      case Some(n) => Some(SetTabWidth(n))
      case None => None
    else if c == [] then None
    else if c[0] == '-' then
      assert c == "-" + c[1..];
      Some(SetFlag(c[1..], false))
    else Some(SetFlag(c, true))
  }

  function ApplyEffect(cfg: WsConfig, e: TokenEffect): WsConfig {
    match e
    case SetFlag(name, value) => cfg.(flags := cfg.flags[name := value])
    case SetTabWidth(width) => cfg.(tabwidth := Some(width))
  }

  /** The token loop from `cfg` on: stops at the first token that raises, keeping what came before. */
  function ResolveTokens(cfg: WsConfig, tokens: seq<string>): WsConfig
    decreases |tokens|
  {
    if tokens == [] then cfg
    else
      match ParseToken(tokens[0])
      case None => cfg
      case Some(e) => ResolveTokens(ApplyEffect(cfg, e), tokens[1..])
  }

  /**
   * `ws_config` after the try block: the defaults, updated by the setting's
   * tokens if it exists. Every rule of the default table still has a value.
   */
  function ResolveWhitespace(setting: Option<string>): (cfg: WsConfig)
    ensures Defaults.flags.Keys <= cfg.flags.Keys
  {
    match setting
    case None => Defaults
    case Some(s) =>
      ResolveTokensProvenance(Defaults, SplitOn(s, ','));
      ResolveTokens(Defaults, SplitOn(s, ','))
  }

  /**
   * Where the loop's values come from: no rule is dropped, and every rule
   * and the width either keep their value from `cfg` or hold what an
   * accepted token set.
   */
  lemma {:induction false} ResolveTokensProvenance(cfg: WsConfig, tokens: seq<string>)
    ensures var r := ResolveTokens(cfg, tokens);
      && cfg.flags.Keys <= r.flags.Keys
      && (forall name :: name in r.flags ==>
            (name in cfg.flags && r.flags[name] == cfg.flags[name]) ||
            exists k :: 0 <= k < |tokens| && ParseToken(tokens[k]) == Some(SetFlag(name, r.flags[name])))
      && (r.tabwidth == cfg.tabwidth ||
            exists k :: 0 <= k < |tokens| && r.tabwidth.Some? && ParseToken(tokens[k]) == Some(SetTabWidth(r.tabwidth.value)))
    decreases |tokens|
  {
    if tokens != [] {
      match ParseToken(tokens[0])
      case None =>
      case Some(e) =>
        var next := ApplyEffect(cfg, e);
        ResolveTokensProvenance(next, tokens[1..]);
        var r := ResolveTokens(cfg, tokens);
        assert r == ResolveTokens(next, tokens[1..]);
        assert forall k :: 0 <= k < |tokens| - 1 ==> tokens[1..][k] == tokens[k + 1];
        forall name | name in r.flags
          ensures (name in cfg.flags && r.flags[name] == cfg.flags[name]) ||
                  exists k :: 0 <= k < |tokens| && ParseToken(tokens[k]) == Some(SetFlag(name, r.flags[name]))
        {
          if !(name in next.flags && r.flags[name] == next.flags[name]) {
            var k :| 0 <= k < |tokens[1..]| && ParseToken(tokens[1..][k]) == Some(SetFlag(name, r.flags[name]));
            assert ParseToken(tokens[k + 1]) == Some(SetFlag(name, r.flags[name]));
          } else if e == SetFlag(name, next.flags[name]) {
            assert ParseToken(tokens[0]) == Some(SetFlag(name, r.flags[name]));
          }
        }
        if r.tabwidth != next.tabwidth {
          var k :| 0 <= k < |tokens[1..]| && r.tabwidth.Some? && ParseToken(tokens[1..][k]) == Some(SetTabWidth(r.tabwidth.value));
          assert ParseToken(tokens[k + 1]) == Some(SetTabWidth(r.tabwidth.value));
        } else if r.tabwidth != cfg.tabwidth {
          assert ParseToken(tokens[0]) == Some(SetTabWidth(r.tabwidth.value));
        }
    }
  }

  /** Every token of the list is one the loop accepts. */
  predicate AllParse(tokens: seq<string>) {
    forall k :: 0 <= k < |tokens| ==> ParseToken(tokens[k]).Some?
  }

  /** Tokens accepted one after the other: the loop over a concatenation is the loop over each part in turn. */
  lemma {:induction false} ResolveTokensAppend(cfg: WsConfig, a: seq<string>, b: seq<string>)
    requires AllParse(a)
    ensures ResolveTokens(cfg, a + b) == ResolveTokens(ResolveTokens(cfg, a), b)
    decreases |a|
  {
    if a == [] {
      assert a + b == b;
    } else {
      assert (a + b)[0] == a[0] && (a + b)[1..] == a[1..] + b;
      assert ParseToken(a[0]).Some?;
      assert forall k :: 0 <= k < |a| - 1 ==> a[1..][k] == a[k + 1];
      ResolveTokensAppend(ApplyEffect(cfg, ParseToken(a[0]).value), a[1..], b);
    }
  }

  /** A token that raises ends the loop: nothing after it has any effect. */
  lemma ResolveTokensStops(cfg: WsConfig, a: seq<string>, t: string, b: seq<string>)
    requires AllParse(a) && ParseToken(t).None?
    ensures ResolveTokens(cfg, a + [t] + b) == ResolveTokens(cfg, a)
  {
    assert a + [t] + b == a + ([t] + b);
    ResolveTokensAppend(cfg, a, [t] + b);
    assert ([t] + b)[0] == t;
    assert a + [] == a;
    ResolveTokensAppend(cfg, a, []);
  }

  /** A token that is accepted and sets the flag `name`. */
  predicate SetsFlag(token: string, name: string) {
    var e := ParseToken(token);
    e.Some? && e.value.SetFlag? && e.value.name == name
  }

  /**
   * The last accepted token that names a rule decides it: after it come
   * only tokens that raise, or that set the width or another rule.
   */
  lemma ResolveTokensLastWins(cfg: WsConfig, a: seq<string>, t: string, b: seq<string>, name: string, value: bool)
    requires AllParse(a) && ParseToken(t) == Some(SetFlag(name, value))
    requires forall k :: 0 <= k < |b| ==> !SetsFlag(b[k], name)
    ensures Enabled(ResolveTokens(cfg, a + [t] + b).flags, name) == value
  {
    assert a + [t] + b == a + ([t] + b);
    ResolveTokensAppend(cfg, a, [t] + b);
    var mid := ApplyEffect(ResolveTokens(cfg, a), SetFlag(name, value));
    assert ResolveTokens(ResolveTokens(cfg, a), [t] + b) == ResolveTokens(mid, b) by {
      assert ([t] + b)[0] == t && ([t] + b)[1..] == b;
    }
    ResolveTokensKeepsFlag(mid, b, name);
  }

  /** Tokens that do not set the flag `name` leave it as it was. */
  lemma {:induction false} ResolveTokensKeepsFlag(cfg: WsConfig, tokens: seq<string>, name: string)
    requires forall k :: 0 <= k < |tokens| ==> !SetsFlag(tokens[k], name)
    ensures Enabled(ResolveTokens(cfg, tokens).flags, name) == Enabled(cfg.flags, name)
    decreases |tokens|
  {
    if tokens != [] {
      assert !SetsFlag(tokens[0], name);
      match ParseToken(tokens[0])
      case None =>
      case Some(e) =>
        assert forall k :: 0 <= k < |tokens| - 1 ==> tokens[1..][k] == tokens[k + 1];
        ResolveTokensKeepsFlag(ApplyEffect(cfg, e), tokens[1..], name);
    }
  }

  /** Tokens that do not mention the tab width leave it as it was. */
  lemma {:induction false} ResolveTokensKeepsTabWidth(cfg: WsConfig, tokens: seq<string>)
    requires forall k :: 0 <= k < |tokens| ==> !Contains(Strip(tokens[k]), "tabwidth")
    ensures ResolveTokens(cfg, tokens).tabwidth == cfg.tabwidth
    decreases |tokens|
  {
    if tokens != [] {
      match ParseToken(tokens[0])
      case None =>
      case Some(e) =>
        assert forall k :: 0 <= k < |tokens| - 1 ==> tokens[1..][k] == tokens[k + 1];
        ResolveTokensKeepsTabWidth(ApplyEffect(cfg, e), tokens[1..]);
    }
  }

  /**
   * The token loop as main runs it: `ws_config` updated in place, leaving
   * the loop at the first token that raises.
   */
  method ReadWhitespaceSetting(setting: Option<string>) returns (cfg: WsConfig)
    ensures cfg == ResolveWhitespace(setting)
  {
    if setting.None? {
      return Defaults;
    }
    var flags := Defaults.flags;
    var tabwidth: Option<int> := None;
    var tokens := SplitOn(setting.value, ',');
    var i := 0;
    while i < |tokens|
      invariant 0 <= i <= |tokens|
      invariant ResolveTokens(WsConfig(flags, tabwidth), tokens[i..]) == ResolveWhitespace(setting)
      decreases |tokens| - i
    {
      var c := Strip(tokens[i]);
      assert tokens[i..][0] == tokens[i] && tokens[i..][1..] == tokens[i + 1..];
      if Contains(c, "tabwidth") {
        var n := ParseInt(Last(SplitOn(c, '=')));
        if n.None? {
          break;
        }
        tabwidth := Some(n.value);
      } else {
        if c == [] {
          break;
        }
        if c[0] == '-' {
          flags := flags[c[1..] := false];
        } else {
          flags := flags[c := true];
        }
      }
      i := i + 1;
    }
    cfg := WsConfig(flags, tabwidth);
  }

  // ---------------------------------------------------------------------
  // Policy: conflict check, trailing-space, command-line overrides
  // ---------------------------------------------------------------------

  datatype ConfigError = BothTabInIndentAndIndentWithNonTab

  predicate Conflicting(flags: map<string, bool>) {
    Enabled(flags, "tab-in-indent") && Enabled(flags, "indent-with-non-tab")
  }

  /**
   * The checks main makes on the configured rules: it exits when both
   * tab-in-indent and indent-with-non-tab are on, and otherwise lets
   * trailing-space switch on blank-at-eol and blank-at-eof.
   */
  function Finalize(cfg: WsConfig): (r: Result<WsConfig, ConfigError>)
    ensures r.Failure? <==> Conflicting(cfg.flags)
    ensures r.Success? ==> r.value.tabwidth == cfg.tabwidth
    ensures r.Success? && Enabled(cfg.flags, "trailing-space") ==>
      Enabled(r.value.flags, "blank-at-eol") && Enabled(r.value.flags, "blank-at-eof")
    ensures r.Success? ==> forall name :: name != "blank-at-eol" && name != "blank-at-eof" ==>
      Enabled(r.value.flags, name) == Enabled(cfg.flags, name)
    ensures r.Success? ==> forall name :: Enabled(cfg.flags, name) ==> Enabled(r.value.flags, name)
    ensures r.Success? && !Enabled(cfg.flags, "trailing-space") ==> r.value == cfg
  {
    if Conflicting(cfg.flags) then Failure(BothTabInIndentAndIndentWithNonTab)
    else if Enabled(cfg.flags, "trailing-space") then
      Success(cfg.(flags := cfg.flags["blank-at-eol" := true]["blank-at-eof" := true]))
    else Success(cfg)
  }

  /**
   * The parsed command line: the rule switches given explicitly, and
   * `--tabwidth` if given. Options left out take their defaults from
   * `ws_config`, so only the given ones override it.
   */
  datatype CliArgs = CliArgs(flags: map<string, bool>, tabwidth: Option<int>)

  /**
   * The rule switches argparse defines. There is no `--blank-at-eof`
   * (its option is commented out), so a command line never carries it.
   */
  const Switches: set<string> :=
    {"trailing-space", "blank-at-eol", "space-before-tab", "indent-with-non-tab", "tab-in-indent", "cr-at-eol"}

  /** A command line argparse can produce: only the switches it defines. */
  predicate ValidCli(cli: CliArgs) {
    cli.flags.Keys <= Switches
  }

  /** The command line cannot reach blank-at-eof: it keeps the configured value. */
  lemma CliKeepsBlankAtEof(flags: map<string, bool>, cli: CliArgs)
    requires ValidCli(cli)
    ensures Enabled(ApplyOverrides(flags, cli), "blank-at-eof") == Enabled(flags, "blank-at-eof")
  {
    assert "blank-at-eof" !in Switches by {
      assert "blank-at-eof"[11] != "blank-at-eol"[11];
      assert |"blank-at-eof"| != |"trailing-space"| && |"blank-at-eof"| != |"space-before-tab"|;
      assert |"blank-at-eof"| != |"indent-with-non-tab"| && |"blank-at-eof"| != |"tab-in-indent"|;
      assert |"blank-at-eof"| != |"cr-at-eol"|;
    }
  }

  /** `vars(args)` for the rule switches: the command line wins over the configuration. */
  function ApplyOverrides(flags: map<string, bool>, cli: CliArgs): (r: map<string, bool>)
    ensures forall name :: name in cli.flags ==> Enabled(r, name) == cli.flags[name]
    ensures forall name :: name !in cli.flags ==> Enabled(r, name) == Enabled(flags, name)
  {
    flags + cli.flags
  }

  // ---------------------------------------------------------------------
  // The tab width
  // ---------------------------------------------------------------------

  /**
   * `TAB_WIDTH = ws_config.get('tabwidth')` as written: None unless a
   * `core.whitespace` token set it, and blind to `--tabwidth`, which is
   * parsed only after this assignment.
   */
  function TabWidthAsWritten(cfg: WsConfig, cli: CliArgs): Option<int> {
    cfg.tabwidth
  }

  /**
   * The width the sanitizers are evidently meant to use: `--tabwidth` when
   * given, else the configured `tabwidth`, else the default 8.
   */
  function EffectiveTabWidth(cfg: WsConfig, cli: CliArgs): (tw: int)
    ensures cli.tabwidth.Some? ==> tw == cli.tabwidth.value
    ensures cli.tabwidth.None? && cfg.tabwidth.Some? ==> tw == cfg.tabwidth.value
    ensures cli.tabwidth.None? && cfg.tabwidth.None? ==> tw == DefaultTabWidth
  {
    cli.tabwidth.GetOr(cfg.tabwidth.GetOr(DefaultTabWidth))
  }

  /**
   * As written, a run with no `core.whitespace` setting leaves the width
   * unset whatever the command line says, while the default rules include
   * space-before-tab and a line such as " \tabc" reaches its tab expansion,
   * where Python 2's `expandtabs(None)` raises TypeError.
   */
  lemma TabWidthUnsetByDefault(cli: CliArgs)
    ensures TabWidthAsWritten(ResolveWhitespace(None), cli).None?
    ensures P.SpaceBeforeTab in SelectRules(ApplyOverrides(Finalize(Defaults).value.flags, CliArgs(map[], None)))
    ensures S.LeadingSplit(" \tabc") == Some(S.Split(" \t", "abc"))
    ensures S.SpacesThenTab(" \t")
  {
    DefaultRules();
    assert SelectRules(ApplyOverrides(Finalize(Defaults).value.flags, CliArgs(map[], None)))[1] == P.SpaceBeforeTab;
    SpaceTabLine();
  }

  /** " \tabc" splits at its tab and its leading run is a space before a tab. */
  lemma SpaceTabLine()
    ensures S.LeadingSplit(" \tabc") == Some(S.Split(" \t", "abc"))
    ensures S.SpacesThenTab(" \t")
  {
    var sp := S.Split(" \t", "abc");
    assert " \tabc" == sp.lead + sp.trail;
    S.LeadingSplitComplete(" \tabc", sp);
    assert S.SpaceRun(" \t") == 1;
  }

  /** Without a setting or options, the sanitizers are blank-at-eol then space-before-tab. */
  lemma DefaultRules()
    ensures Finalize(Defaults) == Success(Defaults)
    ensures SelectRules(ApplyOverrides(Finalize(Defaults).value.flags, CliArgs(map[], None))) == [P.BlankAtEol, P.SpaceBeforeTab]
  {
    var flags := Defaults.flags;
    assert !Conflicting(flags) && !Enabled(flags, "trailing-space");
    assert flags + map[] == flags;
    assert Enabled(flags, "blank-at-eol") && Enabled(flags, "space-before-tab");
    assert !Enabled(flags, "indent-with-non-tab") && !Enabled(flags, "tab-in-indent") && !Enabled(flags, "cr-at-eol");
    assert ApplyOverrides(flags, CliArgs(map[], None)) == flags;
    assert Pick(flags, P.BlankAtEol) == [P.BlankAtEol] && Pick(flags, P.SpaceBeforeTab) == [P.SpaceBeforeTab];
    assert Pick(flags, P.IndentWithNonTab) == [] && Pick(flags, P.TabInIndent) == [] && Pick(flags, P.CrAtEol) == [];
  }

  /** With the correction, a setting that never mentions the width gives 8 unless `--tabwidth` says otherwise. */
  lemma EffectiveTabWidthDefault(setting: Option<string>, cli: CliArgs)
    requires setting.Some? ==> forall k :: 0 <= k < |SplitOn(setting.value, ',')| ==>
      !Contains(Strip(SplitOn(setting.value, ',')[k]), "tabwidth")
    ensures EffectiveTabWidth(ResolveWhitespace(setting), cli) == cli.tabwidth.GetOr(DefaultTabWidth)
  {
    if setting.Some? {
      ResolveTokensKeepsTabWidth(Defaults, SplitOn(setting.value, ','));
    }
  }

  // ---------------------------------------------------------------------
  // Choosing the sanitizers
  // ---------------------------------------------------------------------

  /** The rule name that switches a sanitizer on. */
  function RuleName(rule: P.Rule): string {
    match rule
    case BlankAtEol => "blank-at-eol"
    case SpaceBeforeTab => "space-before-tab"
    case IndentWithNonTab => "indent-with-non-tab"
    case TabInIndent => "tab-in-indent"
    case CrAtEol => "cr-at-eol"
  }

  /** Position of a sanitizer in the order main appends them. */
  function Rank(rule: P.Rule): nat {
    match rule
    case BlankAtEol => 0
    case SpaceBeforeTab => 1
    case IndentWithNonTab => 2
    case TabInIndent => 3
    case CrAtEol => 4
  }

  /** The one-element list for `rule` when its switch is on, else nothing. */
  function Pick(flags: map<string, bool>, rule: P.Rule): seq<P.Rule> {
    if Enabled(flags, RuleName(rule)) then [rule] else []
  }

  /**
   * The sanitizer list: exactly the enabled rules, each once, in the fixed
   * order blank-at-eol, space-before-tab, indent-with-non-tab,
   * tab-in-indent, cr-at-eol.
   */
  function SelectRules(flags: map<string, bool>): (rules: seq<P.Rule>)
    ensures forall rule :: rule in rules <==> Enabled(flags, RuleName(rule))
    ensures forall i, j :: 0 <= i < j < |rules| ==> Rank(rules[i]) < Rank(rules[j])
  {
    PicksInOrder(flags);
    Pick(flags, P.BlankAtEol) + Pick(flags, P.SpaceBeforeTab) + Pick(flags, P.IndentWithNonTab) +
    Pick(flags, P.TabInIndent) + Pick(flags, P.CrAtEol)
  }

  /** The five picks, concatenated in order, hold exactly the enabled rules in ascending rank. */
  lemma PicksInOrder(flags: map<string, bool>)
    ensures var rules := Pick(flags, P.BlankAtEol) + Pick(flags, P.SpaceBeforeTab) + Pick(flags, P.IndentWithNonTab) +
                         Pick(flags, P.TabInIndent) + Pick(flags, P.CrAtEol);
      (forall rule :: rule in rules <==> Enabled(flags, RuleName(rule))) && Ascending(rules)
  {
    var r1 := Pick(flags, P.BlankAtEol);
    PickAfter(r1, flags, P.SpaceBeforeTab);
    var r2 := r1 + Pick(flags, P.SpaceBeforeTab);
    PickAfter(r2, flags, P.IndentWithNonTab);
    var r3 := r2 + Pick(flags, P.IndentWithNonTab);
    PickAfter(r3, flags, P.TabInIndent);
    var r4 := r3 + Pick(flags, P.TabInIndent);
    PickAfter(r4, flags, P.CrAtEol);
    PicksCover(flags, r4 + Pick(flags, P.CrAtEol));
  }

  /** A list holding exactly the picks of all five rules holds exactly the enabled ones. */
  lemma PicksCover(flags: map<string, bool>, rules: seq<P.Rule>)
    requires forall x :: x in rules <==>
      || (x == P.BlankAtEol && Enabled(flags, RuleName(P.BlankAtEol)))
      || (x == P.SpaceBeforeTab && Enabled(flags, RuleName(P.SpaceBeforeTab)))
      || (x == P.IndentWithNonTab && Enabled(flags, RuleName(P.IndentWithNonTab)))
      || (x == P.TabInIndent && Enabled(flags, RuleName(P.TabInIndent)))
      || (x == P.CrAtEol && Enabled(flags, RuleName(P.CrAtEol)))
    ensures forall rule :: rule in rules <==> Enabled(flags, RuleName(rule))
  {
    forall rule ensures rule in rules <==> Enabled(flags, RuleName(rule)) {
      match rule
      case BlankAtEol =>
      case SpaceBeforeTab =>
      case IndentWithNonTab =>
      case TabInIndent =>
      case CrAtEol =>
    }
  }

  /** Rank strictly increases along the list. */
  predicate Ascending(rules: seq<P.Rule>) {
    forall i, j :: 0 <= i < j < |rules| ==> Rank(rules[i]) < Rank(rules[j])
  }

  /** Appending the pick for a rule ranked after everything already chosen keeps the order. */
  lemma PickAfter(xs: seq<P.Rule>, flags: map<string, bool>, rule: P.Rule)
    requires Ascending(xs) && forall x :: x in xs ==> Rank(x) < Rank(rule)
    ensures Ascending(xs + Pick(flags, rule))
    ensures forall x :: x in xs + Pick(flags, rule) <==> x in xs || (x == rule && Enabled(flags, RuleName(rule)))
    ensures forall x :: x in xs + Pick(flags, rule) ==> Rank(x) <= Rank(rule)
  {
    var ys := xs + Pick(flags, rule);
    forall i, j | 0 <= i < j < |ys| ensures Rank(ys[i]) < Rank(ys[j]) {
      if j >= |xs| {
        assert ys[i] in xs;
      }
    }
  }

  /** The list built the way main builds it, by appending to an empty list. */
  method BuildSanitizers(flags: map<string, bool>) returns (rules: seq<P.Rule>)
    ensures rules == SelectRules(flags)
  {
    rules := [];
    if Enabled(flags, "blank-at-eol") {
      rules := rules + [P.BlankAtEol];
    }
    assert rules == Pick(flags, P.BlankAtEol);
    if Enabled(flags, "space-before-tab") {
      rules := rules + [P.SpaceBeforeTab];
    }
    assert rules == Pick(flags, P.BlankAtEol) + Pick(flags, P.SpaceBeforeTab);
    if Enabled(flags, "indent-with-non-tab") {
      rules := rules + [P.IndentWithNonTab];
    }
    assert rules == Pick(flags, P.BlankAtEol) + Pick(flags, P.SpaceBeforeTab) + Pick(flags, P.IndentWithNonTab);
    if Enabled(flags, "tab-in-indent") {
      rules := rules + [P.TabInIndent];
    }
    assert rules == Pick(flags, P.BlankAtEol) + Pick(flags, P.SpaceBeforeTab) + Pick(flags, P.IndentWithNonTab)
                  + Pick(flags, P.TabInIndent);
    if Enabled(flags, "cr-at-eol") {
      rules := rules + [P.CrAtEol];
    }
  }

  /** blank-at-eof has no sanitizer: switching it never changes the list. */
  lemma BlankAtEofNeverSelected(flags: map<string, bool>, value: bool)
    ensures SelectRules(flags["blank-at-eof" := value]) == SelectRules(flags)
  {
    var flags' := flags["blank-at-eof" := value];
    assert "blank-at-eol"[11] != "blank-at-eof"[11];
    assert Pick(flags', P.BlankAtEol) == Pick(flags, P.BlankAtEol);
    assert Pick(flags', P.SpaceBeforeTab) == Pick(flags, P.SpaceBeforeTab);
    assert Pick(flags', P.IndentWithNonTab) == Pick(flags, P.IndentWithNonTab);
    assert Pick(flags', P.TabInIndent) == Pick(flags, P.TabInIndent);
    assert Pick(flags', P.CrAtEol) == Pick(flags, P.CrAtEol);
  }

  /** When blank-at-eol is on and cr-at-eol off, no sanitized line ends in a space. */
  lemma SelectedRulesStripTrailingSpace(flags: map<string, bool>, line: string, tw: int)
    requires Enabled(flags, "blank-at-eol") && !Enabled(flags, "cr-at-eol")
    ensures !EndsWith(P.SanitizeLine(line, SelectRules(flags), tw), ' ')
  {
    BlankAtEolLeads(flags);
    P.BlankAtEolFirstHolds(line, SelectRules(flags), tw);
  }

  /** With blank-at-eol on and cr-at-eol off, the list starts with blank-at-eol and has no cr-at-eol. */
  lemma BlankAtEolLeads(flags: map<string, bool>)
    requires Enabled(flags, "blank-at-eol") && !Enabled(flags, "cr-at-eol")
    ensures var rules := SelectRules(flags);
      |rules| > 0 && rules[0] == P.BlankAtEol && P.CrAtEol !in rules[1..]
  {
    var rules := SelectRules(flags);
    assert Pick(flags, P.BlankAtEol) == [P.BlankAtEol];
    assert rules[0] == P.BlankAtEol;
    assert P.CrAtEol !in rules;
    assert P.CrAtEol !in rules[1..];
  }

  // ---------------------------------------------------------------------
  // Everything main decides before touching a file
  // ---------------------------------------------------------------------

  datatype Setup = Setup(tabWidth: int, rules: seq<P.Rule>)

  /**
   * main up to the diff: resolve `core.whitespace`, refuse the conflicting
   * pair, apply trailing-space, then the command line, then pick the
   * sanitizers. The tab width is the corrected one.
   */
  function Configure(setting: Option<string>, cli: CliArgs): (r: Result<Setup, ConfigError>)
    ensures r.Failure? <==> Conflicting(ResolveWhitespace(setting).flags)
    ensures r.Success? ==> r.value.tabWidth == EffectiveTabWidth(ResolveWhitespace(setting), cli)
    ensures r.Success? ==> forall rule :: rule in r.value.rules <==>
      if RuleName(rule) in cli.flags then cli.flags[RuleName(rule)]
      else Enabled(Finalize(ResolveWhitespace(setting)).value.flags, RuleName(rule))
  {
    var cfg := ResolveWhitespace(setting);
    match Finalize(cfg)
    case Failure(e) => Failure(e)
    case Success(f) => Success(Setup(EffectiveTabWidth(cfg, cli), SelectRules(ApplyOverrides(f.flags, cli))))
  }

  /** How Configure reads once the configuration is resolved and finalized. */
  lemma ConfigureUnfolds(setting: Option<string>, cli: CliArgs)
    ensures var cfg := ResolveWhitespace(setting);
      Configure(setting, cli) == match Finalize(cfg)
        case Failure(e) => Failure(e)
        case Success(f) => Success(Setup(EffectiveTabWidth(cfg, cli), SelectRules(ApplyOverrides(f.flags, cli))))
  {
  }

  /** Only the configuration is checked for the conflict: the command line can switch on both rules. */
  lemma CliBypassesConflictCheck()
    ensures var r := Configure(None, CliArgs(map["tab-in-indent" := true, "indent-with-non-tab" := true], None));
      r.Success? && P.IndentWithNonTab in r.value.rules && P.TabInIndent in r.value.rules
  {
    var cli := CliArgs(map["tab-in-indent" := true, "indent-with-non-tab" := true], None);
    assert !Conflicting(Defaults.flags);
    assert RuleName(P.IndentWithNonTab) in cli.flags && cli.flags[RuleName(P.IndentWithNonTab)];
    assert RuleName(P.TabInIndent) in cli.flags && cli.flags[RuleName(P.TabInIndent)];
  }

  /** `--trailing-space True` comes after the shorthand is expanded, so it switches nothing on. */
  lemma CliTrailingSpaceIsInert(setting: Option<string>)
    requires !Conflicting(ResolveWhitespace(setting).flags)
    requires !Enabled(ResolveWhitespace(setting).flags, "blank-at-eol")
    requires !Enabled(ResolveWhitespace(setting).flags, "trailing-space")
    ensures var r := Configure(setting, CliArgs(map["trailing-space" := true], None));
      r.Success? && P.BlankAtEol !in r.value.rules
  {
  }

  /** The default configuration runs blank-at-eol then space-before-tab with 8-column tabs. */
  lemma DefaultSetup()
    ensures Configure(None, CliArgs(map[], None)) == Success(Setup(8, [P.BlankAtEol, P.SpaceBeforeTab]))
  {
    DefaultRules();
  }
}
