/**
 * The line sanitizers of git_fix_whitespace: each rewrites one line's
 * content (without its terminator). The tab width is a parameter rather
 * than the module-global `TAB_WIDTH`; every function is total over `int`
 * widths, as the Python code is, and the properties that need tab stops
 * assume a positive width.
 */
module Sanitizers {
  import opened Wrappers
  import opened Text

  // ---------------------------------------------------------------------
  // blank-at-eol and cr-at-eol
  // ---------------------------------------------------------------------

  /** blank_at_eol_sanitizer: `line.rstrip(' ')`. Only spaces go; a tab survives. */
  function BlankAtEol(line: string): (r: string)
    ensures r <= line && !EndsWith(r, ' ') && AllChar(line[|r|..], ' ')
    ensures forall i :: 0 <= i < |line| && line[i] != ' ' ==> i < |r|
  {
    var r := RStrip(line, ' ');
    assert forall i :: |r| <= i < |line| ==> line[|r|..][i - |r|] == line[i];
    r
  }

  /** cr_at_eol_sanitizer: `line.rstrip('\r')`. */
  function CrAtEol(line: string): (r: string)
    ensures r <= line && !EndsWith(r, '\r') && AllChar(line[|r|..], '\r')
    ensures forall i :: 0 <= i < |line| && line[i] != '\r' ==> i < |r|
  {
    var r := RStrip(line, '\r');
    assert forall i :: |r| <= i < |line| ==> line[|r|..][i - |r|] == line[i];
    r
  }

  /** A line that does not end in a space is left alone, so the sanitizer is idempotent. */
  lemma BlankAtEolFixes(line: string)
    ensures !EndsWith(line, ' ') ==> BlankAtEol(line) == line
    ensures BlankAtEol(BlankAtEol(line)) == BlankAtEol(line)
  {
  }

  lemma CrAtEolFixes(line: string)
    ensures !EndsWith(line, '\r') ==> CrAtEol(line) == line
    ensures CrAtEol(CrAtEol(line)) == CrAtEol(line)
  {
  }

  // ---------------------------------------------------------------------
  // The guard shared by the indentation sanitizers: LEADING_WS_REGEX
  // ---------------------------------------------------------------------

  /** The two groups of `^(\s+)([^\s]+)$`. */
  datatype Split = Split(lead: string, trail: string)

  /**
   * `line` is a non-empty whitespace run followed by a non-empty run free
   * of whitespace; Python's `$` also lets one final '\n' follow.
   */
  predicate IsLeadingSplit(line: string, sp: Split) {
    && |sp.lead| > 0 && AllWs(sp.lead)
    && |sp.trail| > 0 && NoWs(sp.trail)
    && (line == sp.lead + sp.trail || line == sp.lead + sp.trail + "\n")
  }

  /** What the pattern has to cover before `$`: the line without one final '\n'. */
  function MatchBody(line: string): string {
    if EndsWith(line, '\n') then line[..|line| - 1] else line
  }

  /** `LEADING_WS_REGEX.match(line)`: its two groups, or None when it does not match. */
  function LeadingSplit(line: string): (m: Option<Split>)
    ensures m.Some? ==> IsLeadingSplit(line, m.value)
  {
    var body := MatchBody(line);
    var k := WsPrefixLen(body);
    if 0 < k < |body| && NoWs(body[k..]) then
      assert body == body[..k] + body[k..];
      Some(Split(body[..k], body[k..]))
    else None
  }

  /** Conversely, every way of seeing the line as whitespace-then-word is the match found. */
  lemma LeadingSplitComplete(line: string, sp: Split)
    requires IsLeadingSplit(line, sp)
    ensures LeadingSplit(line) == Some(sp)
  {
    var body := sp.lead + sp.trail;
    assert !IsWs(sp.trail[|sp.trail| - 1]);
    assert MatchBody(line) == body;
    assert body[..|sp.lead|] == sp.lead;
    assert body[|sp.lead|..] == sp.trail;
    WsPrefixLenUnique(body, |sp.lead|);
  }

  /** The sanitized line keeps the matched remainder `sp.trail` and replaces the leading run. */
  predicate KeepsTrail(r: string, sp: Split) {
    |r| >= |sp.trail| && r[|r| - |sp.trail|..] == sp.trail
  }

  /** The new leading run of `r`, given that it keeps `sp.trail`. */
  function NewLead(r: string, sp: Split): string
    requires KeepsTrail(r, sp)
  {
    r[..|r| - |sp.trail|]
  }

  // ---------------------------------------------------------------------
  // Tab expansion (Python 2 str.expandtabs)
  // ---------------------------------------------------------------------

  predicate OnlyBlanks(s: string) {
    forall i :: 0 <= i < |s| ==> s[i] == ' ' || s[i] == '\t'
  }

  /** The first tab stop strictly after column `col`. */
  function NextStop(col: nat, tw: int): nat
    requires tw > 0
  {
    (col / tw + 1) * tw
  }

  /**
   * The display column reached after writing `s` from column `col`, with tab
   * stops every `tw` columns; '\n' and '\r' return to column 0.
   */
  function Column(s: string, col: nat, tw: int): nat
    requires tw > 0
  {
    if s == [] then col
    else if s[0] == '\t' then Column(s[1..], NextStop(col, tw), tw)
    else if s[0] == '\n' || s[0] == '\r' then Column(s[1..], 0, tw)
    else Column(s[1..], col + 1, tw)
  }

  /**
   * Python 2 `str.expandtabs(tw)` continued from column `col`: a tab becomes
   * the spaces up to the next multiple of `tw` (nothing when `tw <= 0`),
   * every other character is copied, and '\n' or '\r' reset the column.
   */
  function ExpandFrom(s: string, col: nat, tw: int): string
  {
    if s == [] then []
    else if s[0] == '\t' then
      var pad := if tw > 0 then tw - col % tw else 0;
      Repeat(' ', pad) + ExpandFrom(s[1..], col + pad, tw)
    else
      [s[0]] + ExpandFrom(s[1..], if s[0] == '\n' || s[0] == '\r' then 0 else col + 1, tw)
  }

  /**
   * What the expansion leaves: no tab at a positive width, a text without
   * tabs as it was, and only spaces for a run of spaces and tabs.
   */
  lemma {:induction false} ExpandFromShape(s: string, col: nat, tw: int)
    ensures var r := ExpandFrom(s, col, tw);
      && (tw > 0 ==> '\t' !in r)
      && ('\t' !in s ==> r == s)
      && (tw > 0 && OnlyBlanks(s) ==> AllChar(r, ' '))
  {
    if tw > 0 {
      ExpandFromNoTab(s, col, tw);
      if OnlyBlanks(s) {
        ExpandFromBlanks(s, col, tw);
      }
    }
    if '\t' !in s {
      ExpandFromTabFree(s, col, tw);
    }
  }

  lemma {:induction false} ExpandFromNoTab(s: string, col: nat, tw: int)
    requires tw > 0
    ensures '\t' !in ExpandFrom(s, col, tw)
    decreases |s|
  {
    if s != [] {
      var head, next := ExpandFromHead(s, col, tw);
      ExpandFromNoTab(s[1..], next, tw);
      assert '\t' !in head;
    }
  }

  lemma {:induction false} ExpandFromTabFree(s: string, col: nat, tw: int)
    requires '\t' !in s
    ensures ExpandFrom(s, col, tw) == s
    decreases |s|
  {
    if s != [] {
      var head, next := ExpandFromHead(s, col, tw);
      assert '\t' !in s[1..];
      ExpandFromTabFree(s[1..], next, tw);
      assert s == [s[0]] + s[1..];
    }
  }

  lemma {:induction false} ExpandFromBlanks(s: string, col: nat, tw: int)
    requires tw > 0 && OnlyBlanks(s)
    ensures AllChar(ExpandFrom(s, col, tw), ' ')
    decreases |s|
  {
    if s != [] {
      var head, next := ExpandFromHead(s, col, tw);
      assert OnlyBlanks(s[1..]) by {
        forall i | 0 <= i < |s| - 1 ensures s[1..][i] == ' ' || s[1..][i] == '\t' {
          assert s[1..][i] == s[i + 1];
        }
      }
      ExpandFromBlanks(s[1..], next, tw);
      assert AllChar(head, ' ');
    }
  }

  /**
   * `s.expandtabs(tw)`: no tab is left when the width is positive, a text
   * without tabs comes back as it is, and a single line is as long as the
   * display columns it takes.
   */
  function ExpandTabs(s: string, tw: int): (r: string)
    ensures tw > 0 ==> '\t' !in r
    ensures '\t' !in s ==> r == s
    ensures tw > 0 && '\n' !in s && '\r' !in s ==> |r| == Column(s, 0, tw)
  {
    assert tw > 0 && '\n' !in s && '\r' !in s ==> |ExpandFrom(s, 0, tw)| == Column(s, 0, tw) by {
      if tw > 0 && '\n' !in s && '\r' !in s {
        ExpandFromLength(s, 0, tw);
      }
    }
    ExpandFromShape(s, 0, tw);
    ExpandFrom(s, 0, tw)
  }

  /** Without line breaks, the expansion is exactly as long as the columns it advances. */
  lemma {:induction false} ExpandFromLength(s: string, col: nat, tw: int)
    requires tw > 0 && '\n' !in s && '\r' !in s
    ensures col + |ExpandFrom(s, col, tw)| == Column(s, col, tw)
    decreases |s|
  {
    if s != [] {
      assert '\n' !in s[1..] && '\r' !in s[1..];
      if s[0] == '\t' {
        NextStopPad(col, tw);
        ExpandFromLength(s[1..], col + (tw - col % tw), tw);
      } else {
        ExpandFromLength(s[1..], col + 1, tw);
      }
    }
  }

  lemma {:induction false} ColumnSpaces(n: nat, rest: string, col: nat, tw: int)
    requires tw > 0
    ensures Column(Repeat(' ', n) + rest, col, tw) == Column(rest, col + n, tw)
  {
    if n > 0 {
      var s := Repeat(' ', n) + rest;
      assert s[0] == ' ';
      assert s[1..] == Repeat(' ', n - 1) + rest;
      assert Column(s, col, tw) == Column(s[1..], col + 1, tw);
      ColumnSpaces(n - 1, rest, col + 1, tw);
    } else {
      assert Repeat(' ', n) + rest == rest;
    }
  }

  /** Expansion keeps the text where it was on screen: the column reached does not move. */
  lemma {:induction false} ExpandFromKeepsColumn(s: string, col: nat, tw: int)
    requires tw > 0
    ensures Column(ExpandFrom(s, col, tw), col, tw) == Column(s, col, tw)
    decreases |s|
  {
    if s != [] {
      if s[0] == '\t' {
        var pad := tw - col % tw;
        NextStopPad(col, tw);
        ColumnSpaces(pad, ExpandFrom(s[1..], col + pad, tw), col, tw);
        ExpandFromKeepsColumn(s[1..], col + pad, tw);
      } else {
        var next := if s[0] == '\n' || s[0] == '\r' then 0 else col + 1;
        assert ([s[0]] + ExpandFrom(s[1..], next, tw))[1..] == ExpandFrom(s[1..], next, tw);
        ExpandFromKeepsColumn(s[1..], next, tw);
      }
    }
  }

  /**
   * The indentation rewrite of space-before-tab and tab-in-indent: the
   * remainder is kept and the leading run is tab-expanded. At a positive
   * width the new run holds no tab, sits at the same display column, and is
   * all spaces, as many as that column, when the old run held only spaces
   * and tabs.
   */
  predicate ExpandedIndent(r: string, sp: Split, tw: int) {
    && KeepsTrail(r, sp)
    && NewLead(r, sp) == ExpandTabs(sp.lead, tw)
    && (tw > 0 ==>
      && '\t' !in NewLead(r, sp)
      && Column(NewLead(r, sp), 0, tw) == Column(sp.lead, 0, tw)
      && (OnlyBlanks(sp.lead) ==> NewLead(r, sp) == Repeat(' ', Column(sp.lead, 0, tw))))
  }

  lemma ExpandTabsIndent(sp: Split, tw: int)
    ensures ExpandedIndent(ExpandTabs(sp.lead, tw) + sp.trail, sp, tw)
  {
    var e := ExpandTabs(sp.lead, tw);
    assert NewLead(e + sp.trail, sp) == e;
    if tw > 0 {
      ExpandFromKeepsColumn(sp.lead, 0, tw);
      if OnlyBlanks(sp.lead) {
        ExpandFromShape(sp.lead, 0, tw);
        assert '\n' !in sp.lead && '\r' !in sp.lead;
        ExpandFromLength(sp.lead, 0, tw);
        assert e == Repeat(' ', Column(sp.lead, 0, tw));
      }
    }
  }

  /**
   * The expansion character by character: a tab becomes the spaces up to
   * the next tab stop (nothing without a positive width), and any other
   * character, '\v', '\f' and '\r' included, is copied as it is.
   */
  lemma ExpandFromChar(c: char, col: nat, tw: int)
    ensures c == '\t' && tw > 0 ==> ExpandFrom([c], col, tw) == Repeat(' ', NextStop(col, tw) - col)
    ensures c == '\t' && tw <= 0 ==> ExpandFrom([c], col, tw) == []
    ensures c != '\t' ==> ExpandFrom([c], col, tw) == [c]
  {
    if c == '\t' && tw > 0 {
      NextStopPad(col, tw);
      assert [c][1..] == [];
    }
  }

  /** At a positive width, expanding `a + b` expands `a`, then `b` from the column `a` reached. */
  lemma {:induction false} ExpandFromAppend(a: string, b: string, col: nat, tw: int)
    requires tw > 0
    ensures ExpandFrom(a + b, col, tw) == ExpandFrom(a, col, tw) + ExpandFrom(b, Column(a, col, tw), tw)
    decreases |a|
  {
    if a == [] {
      assert a + b == b;
    } else {
      var head, next := ExpandFromHead(a, col, tw);
      assert ExpandFrom(a + b, col, tw) == head + ExpandFrom(a[1..] + b, next, tw) by {
        var ab := a + b;
        assert ab[0] == a[0] && ab[1..] == a[1..] + b;
        var head', next' := ExpandFromHead(ab, col, tw);
      }
      assert Column(a, col, tw) == Column(a[1..], next, tw) by {
        if a[0] == '\t' {
          NextStopPad(col, tw);
        }
      }
      ExpandFromAppend(a[1..], b, next, tw);
      var x := ExpandFrom(a[1..], next, tw);
      var y := ExpandFrom(b, Column(a, col, tw), tw);
      assert head + (x + y) == (head + x) + y;
    }
  }

  /** One step of the expansion: what the first character becomes, and the column after it. */
  lemma ExpandFromHead(s: string, col: nat, tw: int) returns (head: string, next: nat)
    requires |s| > 0
    ensures ExpandFrom(s, col, tw) == head + ExpandFrom(s[1..], next, tw)
    ensures head == (if s[0] == '\t' then Repeat(' ', if tw > 0 then tw - col % tw else 0) else [s[0]])
    ensures next == (if s[0] == '\t' then col + (if tw > 0 then tw - col % tw else 0)
      else if s[0] == '\n' || s[0] == '\r' then 0 else col + 1)
  {
    head := if s[0] == '\t' then Repeat(' ', if tw > 0 then tw - col % tw else 0) else [s[0]];
    next := if s[0] == '\t' then col + (if tw > 0 then tw - col % tw else 0)
      else if s[0] == '\n' || s[0] == '\r' then 0 else col + 1;
  }

  /** Without a positive width the column plays no part: tabs are dropped wherever they stand. */
  lemma {:induction false} ExpandFromAnyColumn(s: string, col: nat, col': nat, tw: int)
    requires tw <= 0
    ensures ExpandFrom(s, col, tw) == ExpandFrom(s, col', tw)
    decreases |s|
  {
    if s != [] {
      var h, n := ExpandFromHead(s, col, tw);
      var h', n' := ExpandFromHead(s, col', tw);
      ExpandFromAnyColumn(s[1..], n, n', tw);
    }
  }

  /** Without a positive width, expanding `a + b` expands `a` and `b` on their own. */
  lemma {:induction false} ExpandFromNoWidth(a: string, b: string, col: nat, col': nat, tw: int)
    requires tw <= 0
    ensures ExpandFrom(a + b, col, tw) == ExpandFrom(a, col, tw) + ExpandFrom(b, col', tw)
    decreases |a|
  {
    if a == [] {
      assert a + b == b;
      ExpandFromAnyColumn(b, col, col', tw);
    } else {
      var head, next := ExpandFromHead(a, col, tw);
      assert ExpandFrom(a + b, col, tw) == head + ExpandFrom(a[1..] + b, next, tw) by {
        var ab := a + b;
        assert ab[0] == a[0] && ab[1..] == a[1..] + b;
        var head', next' := ExpandFromHead(ab, col, tw);
      }
      ExpandFromNoWidth(a[1..], b, next, col', tw);
      var x := ExpandFrom(a[1..], next, tw);
      var y := ExpandFrom(b, col', tw);
      assert head + (x + y) == (head + x) + y;
    }
  }

  // ---------------------------------------------------------------------
  // space-before-tab
  // ---------------------------------------------------------------------

  /** Length of the run of spaces at the front of `s`. */
  function SpaceRun(s: string): (n: nat)
    ensures n <= |s| && AllChar(s[..n], ' ')
    ensures n == |s| || s[n] != ' '
  {
    if s != [] && s[0] == ' ' then
      var n := 1 + SpaceRun(s[1..]);
      assert forall i :: 1 <= i < n ==> s[..n][i] == s[1..][..n - 1][i - 1];
      n
    else 0
  }

  /** `SPACE_BEFORE_TAB_REGEX.match(lead)`: `lead` starts with one or more spaces and then a tab. */
  predicate SpacesThenTab(lead: string) {
    var n := SpaceRun(lead);
    0 < n < |lead| && lead[n] == '\t'
  }

  /**
   * space_before_tab_sanitizer: when the leading run starts with spaces
   * then a tab, the whole leading run is tab-expanded; otherwise, and
   * whenever the guard does not match, the line is returned unchanged.
   */
  function SpaceBeforeTab(line: string, tw: int): (r: string)
    ensures match LeadingSplit(line)
      case None => r == line
      case Some(sp) => if SpacesThenTab(sp.lead) then ExpandedIndent(r, sp, tw) else r == line
  {
    match LeadingSplit(line)
    case None => line
    case Some(sp) =>
      if SpacesThenTab(sp.lead) then
        ExpandTabsIndent(sp, tw);
        ExpandTabs(sp.lead, tw) + sp.trail
      else line
  }

  /** A leading run that starts with a tab is never space-before-tab. */
  lemma SpaceBeforeTabNeedsLeadingSpace(line: string, tw: int, sp: Split)
    requires IsLeadingSplit(line, sp) && sp.lead[0] == '\t'
    ensures SpaceBeforeTab(line, tw) == line
  {
    LeadingSplitComplete(line, sp);
  }

  // ---------------------------------------------------------------------
  // tab-in-indent
  // ---------------------------------------------------------------------

  /**
   * tab_in_indent_sanitizer: a leading run holding a tab is tab-expanded
   * as a whole; otherwise the line is unchanged.
   */
  function TabInIndent(line: string, tw: int): (r: string)
    ensures match LeadingSplit(line)
      case None => r == line
      case Some(sp) => if '\t' in sp.lead then ExpandedIndent(r, sp, tw) else r == line
  {
    match LeadingSplit(line)
    case None => line
    case Some(sp) =>
      if '\t' in sp.lead then
        ExpandTabsIndent(sp, tw);
        ExpandTabs(sp.lead, tw) + sp.trail
      else line
  }

  // ---------------------------------------------------------------------
  // indent-with-non-tab
  // ---------------------------------------------------------------------

  /** The `spaces` and `tabs` counters of indent_with_non_tab_sanitizer. */
  datatype Counters = Counters(spaces: nat, tabs: nat)

  /** One iteration of the counting loop, on character `c`. */
  function CountStep(k: Counters, c: char, tw: int): Counters {
    var spaces := if c == ' ' then k.spaces + 1 else k.spaces;
    var k1 := if c == '\t' then Counters(0, k.tabs + 1) else Counters(spaces, k.tabs);
    if k1.spaces == tw then Counters(0, k1.tabs + 1) else k1
  }

  /** The counters after running the loop over `s`, starting from `k`. */
  function CountFrom(s: string, k: Counters, tw: int): Counters {
    if s == [] then k else CountFrom(s[1..], CountStep(k, s[0], tw), tw)
  }

  /** The number of tabs the loop settles on: a leftover partial group rounds up. */
  function IndentTabCount(lead: string, tw: int): (n: nat)
    ensures tw > 0 ==> n == GroupTabCount(lead, tw)
    ensures tw < 0 && |lead| > 0 && AllChar(lead, ' ') ==> n == 1
  {
    var k := CountFrom(lead, Counters(0, 0), tw);
    assert tw > 0 ==> (if k.spaces > 0 then k.tabs + 1 else k.tabs) == GroupTabCount(lead, tw) by {
      if tw > 0 {
        CountFromGroups(lead, 0, tw);
      }
    }
    assert tw < 0 && AllChar(lead, ' ') ==> k == Counters(|lead|, 0) by {
      if tw < 0 && AllChar(lead, ' ') {
        SpacesWithoutWidth(lead, 0, 0, tw);
      }
    }
    if k.spaces > 0 then k.tabs + 1 else k.tabs
  }

  function CeilDiv(a: nat, b: int): nat
    requires b > 0
  {
    a / b + (if a % b == 0 then 0 else 1)
  }

  /**
   * The same count stated group by group: the spaces before each tab give
   * one tab per whole `tw` of them (a partial group is dropped by the tab),
   * each tab gives one, and the spaces after the last tab give one per `tw`,
   * rounded up. Whitespace other than space and tab gives nothing.
   */
  function WholeGroups(n: nat, tw: int): nat
    requires tw > 0
  {
    n / tw
  }

  function GroupTabCount(s: string, tw: int): nat
    requires tw > 0
  {
    if '\t' in s then
      var p := IndexOf(s, '\t');
      WholeGroups(Count(s[..p], ' '), tw) + 1 + GroupTabCount(s[p + 1..], tw)
    else CeilDiv(Count(s, ' '), tw)
  }

  /**
   * indent_with_non_tab_sanitizer: a leading run holding a space is
   * replaced by tabs only, as many as the group-by-group count; otherwise
   * the line is unchanged.
   */
  function IndentWithNonTab(line: string, tw: int): (r: string)
    ensures match LeadingSplit(line)
      case None => r == line
      case Some(sp) =>
        if ' ' in sp.lead then
          KeepsTrail(r, sp) && (tw > 0 ==> NewLead(r, sp) == Repeat('\t', GroupTabCount(sp.lead, tw)))
        else r == line
  {
    match LeadingSplit(line)
    case None => line
    case Some(sp) =>
      if ' ' in sp.lead then
        var r := Repeat('\t', IndentTabCount(sp.lead, tw)) + sp.trail;
        assert NewLead(r, sp) == Repeat('\t', IndentTabCount(sp.lead, tw));
        r
      else line
  }

  /** indent_with_non_tab_sanitizer: the guard, then the counting loop over the leading run. */
  method IndentWithNonTabSanitizer(line: string, tw: int) returns (r: string)
    ensures r == IndentWithNonTab(line, tw)
  {
    var m := LeadingSplit(line);
    if m.None? || ' ' !in m.value.lead {
      return line;
    }
    var tabs := CountIndentTabs(m.value.lead, tw);
    r := Repeat('\t', tabs) + m.value.trail;
    IndentWithNonTabFires(line, tw);
  }

  /**
   * The counting loop of indent_with_non_tab_sanitizer, counter by counter:
   * a space adds to the partial group, a tab closes it, a full group of
   * `tw` spaces becomes a tab, and a partial group left at the end rounds up.
   */
  method CountIndentTabs(lead: string, tw: int) returns (tabs: nat)
    ensures tabs == IndentTabCount(lead, tw)
  {
    var spaces: nat;
    spaces, tabs := 0, 0;
    for i := 0 to |lead|
      invariant CountFrom(lead[i..], Counters(spaces, tabs), tw) == CountFrom(lead, Counters(0, 0), tw)
    {
      ghost var before := Counters(spaces, tabs);
      var ws := lead[i];
      if ws == ' ' {
        spaces := spaces + 1;
      }
      if ws == '\t' {
        spaces := 0;
        tabs := tabs + 1;
      }
      if spaces == tw {
        spaces := 0;
        tabs := tabs + 1;
      }
      assert Counters(spaces, tabs) == CountStep(before, ws, tw);
      CountFromUnfold(lead, i, before, tw);
    }
    assert lead[|lead|..] == [];
    if spaces > 0 {
      tabs := tabs + 1;
    }
  }

  /** One step of the counting loop at position i. */
  lemma CountFromUnfold(s: string, i: nat, k: Counters, tw: int)
    requires i < |s|
    ensures CountFrom(s[i..], k, tw) == CountFrom(s[i + 1..], CountStep(k, s[i], tw), tw)
  {
    assert s[i..][0] == s[i] && s[i..][1..] == s[i + 1..];
  }

  /** When the guard matches and the run holds a space, the line becomes the loop's count of tabs and the rest. */
  lemma IndentWithNonTabFires(line: string, tw: int)
    requires LeadingSplit(line).Some? && ' ' in LeadingSplit(line).value.lead
    ensures var sp := LeadingSplit(line).value;
      IndentWithNonTab(line, tw) == Repeat('\t', IndentTabCount(sp.lead, tw)) + sp.trail
  {
  }

  lemma {:induction false} CountFromAppend(a: string, b: string, k: Counters, tw: int)
    ensures CountFrom(a + b, k, tw) == CountFrom(b, CountFrom(a, k, tw), tw)
    decreases |a|
  {
    if a != [] {
      assert a + b != [] && (a + b)[0] == a[0];
      assert CountFrom(a + b, k, tw) == CountFrom((a + b)[1..], CountStep(k, a[0], tw), tw);
      assert (a + b)[1..] == a[1..] + b;
      CountFromAppend(a[1..], b, CountStep(k, a[0], tw), tw);
    } else {
      assert a + b == b;
    }
  }

  // ---------------------------------------------------------------------
  // Arithmetic on tab stops
  // ---------------------------------------------------------------------

  lemma MulMono(a: int, b: int, c: int)
    requires a <= b && c > 0
    ensures a * c <= b * c
  {
    assert b * c - a * c == (b - a) * c;
  }

  lemma DivModUnique(x: int, tw: int, q: int, m: int)
    requires tw > 0 && 0 <= m < tw && x == q * tw + m
    ensures x / tw == q && x % tw == m
  {
    var q', m' := x / tw, x % tw;
    assert x == q' * tw + m';
    if q' > q {
      MulMono(q + 1, q', tw);
    } else if q' < q {
      MulMono(q' + 1, q, tw);
    }
  }

  lemma DivModShift(a: nat, tw: int)
    requires tw > 0
    ensures (tw + a) / tw == a / tw + 1 && (tw + a) % tw == a % tw
  {
    var q, m := a / tw, a % tw;
    assert (q + 1) * tw == q * tw + tw;
    DivModUnique(tw + a, tw, q + 1, m);
  }

  /** The padding `expandtabs` writes for a tab reaches exactly the next tab stop. */
  lemma NextStopPad(col: nat, tw: int)
    requires tw > 0
    ensures col + (tw - col % tw) == NextStop(col, tw)
  {
    assert (col / tw + 1) * tw == (col / tw) * tw + tw;
  }

  /** Over a stretch without tabs the loop only counts spaces, `tw` to a tab. */
  lemma {:induction false} CountFromTabFree(x: string, k: Counters, tw: int)
    requires tw > 0 && '\t' !in x && k.spaces < tw
    ensures CountFrom(x, k, tw)
         == Counters((k.spaces + Count(x, ' ')) % tw, k.tabs + (k.spaces + Count(x, ' ')) / tw)
    decreases |x|
  {
    if x == [] {
      DivModUnique(k.spaces, tw, 0, k.spaces);
    } else {
      var n := Count(x[1..], ' ');
      assert '\t' !in x[1..];
      if x[0] == ' ' {
        assert Count(x, ' ') == 1 + n;
        if k.spaces + 1 == tw {
          assert CountStep(k, x[0], tw) == Counters(0, k.tabs + 1);
          CountFromTabFree(x[1..], Counters(0, k.tabs + 1), tw);
          DivModShift(n, tw);
        } else {
          assert CountStep(k, x[0], tw) == Counters(k.spaces + 1, k.tabs);
          CountFromTabFree(x[1..], Counters(k.spaces + 1, k.tabs), tw);
        }
      } else {
        assert Count(x, ' ') == n;
        assert CountStep(k, x[0], tw) == k;
        CountFromTabFree(x[1..], k, tw);
      }
    }
  }

  lemma {:induction false} CountFromGroups(s: string, t: nat, tw: int)
    requires tw > 0
    ensures var k := CountFrom(s, Counters(0, t), tw);
            (if k.spaces > 0 then k.tabs + 1 else k.tabs) == t + GroupTabCount(s, tw)
    decreases |s|
  {
    if '\t' in s {
      var p := IndexOf(s, '\t');
      var q := WholeGroups(Count(s[..p], ' '), tw);
      CountFromPastTab(s, t, tw);
      CountFromGroups(s[p + 1..], t + q + 1, tw);
    } else {
      GroupsTabFree(s, t, tw);
    }
  }

  /** Without a tab, the spaces make whole groups plus one for a partial group. */
  lemma GroupsTabFree(s: string, t: nat, tw: int)
    requires tw > 0 && '\t' !in s
    ensures var k := CountFrom(s, Counters(0, t), tw);
            (if k.spaces > 0 then k.tabs + 1 else k.tabs) == t + GroupTabCount(s, tw)
  {
    CountFromTabFree(s, Counters(0, t), tw);
    assert GroupTabCount(s, tw) == CeilDiv(Count(s, ' '), tw);
  }

  /** Up to and including the first tab, the count adds the whole groups before it and the tab. */
  lemma CountFromPastTab(s: string, t: nat, tw: int)
    requires tw > 0 && '\t' in s
    ensures var p := IndexOf(s, '\t');
            CountFrom(s, Counters(0, t), tw)
              == CountFrom(s[p + 1..], Counters(0, t + WholeGroups(Count(s[..p], ' '), tw) + 1), tw)
  {
    var p := IndexOf(s, '\t');
    var a := s[..p];
    var b := s[p..];
    var k1 := CountFrom(a, Counters(0, t), tw);
    assert CountFrom(s, Counters(0, t), tw) == CountFrom(b, k1, tw) by {
      CountFromSplit(s, p, Counters(0, t), tw);
    }
    assert k1.tabs == t + WholeGroups(Count(a, ' '), tw) by {
      TabFreeTabs(a, t, tw);
    }
    assert CountStep(k1, '\t', tw) == Counters(0, k1.tabs + 1);
    assert CountFrom(b, k1, tw) == CountFrom(s[p + 1..], CountStep(k1, '\t', tw), tw) by {
      assert b[0] == '\t' && b[1..] == s[p + 1..];
    }
  }

  lemma CountFromSplit(s: string, p: nat, k: Counters, tw: int)
    requires p <= |s|
    ensures CountFrom(s, k, tw) == CountFrom(s[p..], CountFrom(s[..p], k, tw), tw)
  {
    assert s == s[..p] + s[p..];
    CountFromAppend(s[..p], s[p..], k, tw);
  }

  /** Over a run without tabs, the loop adds one tab per whole group of spaces. */
  lemma TabFreeTabs(x: string, t: nat, tw: int)
    requires tw > 0 && '\t' !in x
    ensures CountFrom(x, Counters(0, t), tw).tabs == t + WholeGroups(Count(x, ' '), tw)
  {
    CountFromTabFree(x, Counters(0, t), tw);
  }

  // ---------------------------------------------------------------------
  // indent-with-non-tab against the display width
  // ---------------------------------------------------------------------

  /** `n` tabs from column 0 reach column `n * tw`. */
  lemma {:induction false} ColumnTabs(n: nat, col: nat, tw: int)
    requires tw > 0 && col % tw == 0
    ensures Column(Repeat('\t', n), col, tw) == col + n * tw
  {
    var s := Repeat('\t', n);
    if n > 0 {
      assert s[0] == '\t' && s[1..] == Repeat('\t', n - 1);
      DivModUnique(col, tw, col / tw, 0);
      assert NextStop(col, tw) == col + tw;
      DivModUnique(col + tw, tw, col / tw + 1, 0);
      ColumnTabs(n - 1, col + tw, tw);
    } else {
      assert s == [];
    }
  }

  /** The counters always cover the display column reached so far. */
  lemma {:induction false} CountFromCovers(s: string, k: Counters, col: nat, tw: int)
    requires tw > 0 && OnlyBlanks(s) && k.spaces < tw && col <= k.tabs * tw + k.spaces
    ensures CountFrom(s, k, tw).spaces < tw
    ensures Column(s, col, tw) <= CountFrom(s, k, tw).tabs * tw + CountFrom(s, k, tw).spaces
    decreases |s|
  {
    if s != [] {
      assert s[0] == ' ' || s[0] == '\t';
      assert OnlyBlanks(s[1..]) by {
        forall i | 0 <= i < |s[1..]| ensures s[1..][i] == ' ' || s[1..][i] == '\t' {
          assert s[1..][i] == s[i + 1];
        }
      }
      var k1 := CountStep(k, s[0], tw);
      if s[0] == '\t' {
        assert k1 == Counters(0, k.tabs + 1);
        assert NextStop(col, tw) <= k1.tabs * tw + k1.spaces by {
          TabStepCovers(k.tabs, k.spaces, col, tw);
        }
        CountFromCovers(s[1..], k1, NextStop(col, tw), tw);
      } else {
        assert col + 1 <= k1.tabs * tw + k1.spaces by {
          assert (k.tabs + 1) * tw == k.tabs * tw + tw;
        }
        CountFromCovers(s[1..], k1, col + 1, tw);
      }
    }
  }

  /** A tab moves the column to the next stop, which the loop's extra tab reaches. */
  lemma TabStepCovers(tabs: nat, spaces: nat, col: nat, tw: int)
    requires tw > 0 && spaces < tw && col <= tabs * tw + spaces
    ensures NextStop(col, tw) <= (tabs + 1) * tw
  {
    assert (tabs + 1) * tw == tabs * tw + tw;
    if col / tw > tabs {
      MulMono(tabs + 1, col / tw, tw);
    }
    MulMono(col / tw + 1, tabs + 1, tw);
  }

  /**
   * indent-with-non-tab never narrows an indentation of spaces and tabs: its
   * tabs, tab-expanded, reach at least the column the old run reached.
   */
  lemma IndentWithNonTabWidens(line: string, tw: int, sp: Split)
    requires tw > 0 && IsLeadingSplit(line, sp) && OnlyBlanks(sp.lead) && ' ' in sp.lead
    ensures var r := IndentWithNonTab(line, tw);
            KeepsTrail(r, sp) && Column(NewLead(r, sp), 0, tw) >= Column(sp.lead, 0, tw)
  {
    var n := GroupTabCount(sp.lead, tw);
    var r := IndentWithNonTab(line, tw);
    assert KeepsTrail(r, sp) && NewLead(r, sp) == Repeat('\t', n) by {
      LeadingSplitComplete(line, sp);
    }
    assert Column(Repeat('\t', n), 0, tw) >= Column(sp.lead, 0, tw) by {
      TabsCoverRun(sp.lead, n, tw);
    }
  }

  /** The loop's count of tabs, from column 0, reaches the column a run of blanks reaches. */
  lemma TabsCoverRun(lead: string, n: nat, tw: int)
    requires tw > 0 && OnlyBlanks(lead) && n == IndentTabCount(lead, tw)
    ensures Column(Repeat('\t', n), 0, tw) >= Column(lead, 0, tw)
  {
    var k := CountFrom(lead, Counters(0, 0), tw);
    assert n == if k.spaces > 0 then k.tabs + 1 else k.tabs;
    CountFromCovers(lead, Counters(0, 0), 0, tw);
    ColumnTabs(n, 0, tw);
    RoundUpCovers(Column(lead, 0, tw), k, n, tw);
  }

  /** Rounding a partial group up to a whole tab still covers the column. */
  lemma RoundUpCovers(col: nat, k: Counters, n: nat, tw: int)
    requires tw > 0 && k.spaces < tw && col <= k.tabs * tw + k.spaces
    requires n == if k.spaces > 0 then k.tabs + 1 else k.tabs
    ensures col <= n * tw
  {
    assert (k.tabs + 1) * tw == k.tabs * tw + tw;
  }

  // ---------------------------------------------------------------------
  // The cases of tests/test_sanitizers.py, with the default width 8
  // ---------------------------------------------------------------------

  lemma BlankAtEolExamples()
    ensures BlankAtEol("") == "" && BlankAtEol(" ") == "" && BlankAtEol("     ") == ""
    ensures BlankAtEol("abc def") == "abc def"
    ensures BlankAtEol("abc def ") == "abc def" && BlankAtEol("abc def    ") == "abc def"
    ensures BlankAtEol("abc\t") == "abc\t"
  {
    RStripUnique(" ", ' ', "");
    RStripUnique("     ", ' ', "");
    RStripUnique("abc def ", ' ', "abc def");
    RStripUnique("abc def    ", ' ', "abc def");
  }

  /** Lines the guard rejects: every indentation sanitizer returns them unchanged. */
  lemma GuardRejects()
    ensures LeadingSplit("") == None
    ensures LeadingSplit(" ") == None
    ensures LeadingSplit("  \t") == None
    ensures LeadingSplit("  \t ") == None
    ensures LeadingSplit("abc") == None
    ensures LeadingSplit("abc\tefg") == None
  {
    assert WsPrefixLen("abc") == 0;
    assert WsPrefixLen("abc\tefg") == 0;
    WsPrefixLenUnique(" ", 1);
    WsPrefixLenUnique("  \t", 3);
    WsPrefixLenUnique("  \t ", 4);
  }

  /** When space-before-tab fires on a run of spaces and tabs, the run becomes spaces up to its column. */
  lemma SpaceBeforeTabRewrites(line: string, tw: int, sp: Split)
    requires tw > 0 && IsLeadingSplit(line, sp) && SpacesThenTab(sp.lead) && OnlyBlanks(sp.lead)
    ensures SpaceBeforeTab(line, tw) == Repeat(' ', Column(sp.lead, 0, tw)) + sp.trail
  {
    LeadingSplitComplete(line, sp);
    var r := SpaceBeforeTab(line, tw);
    assert r == NewLead(r, sp) + sp.trail;
  }

  /** When space-before-tab fires, the line is its expanded leading run followed by the rest. */
  lemma SpaceBeforeTabExpands(line: string, tw: int, sp: Split)
    requires IsLeadingSplit(line, sp) && SpacesThenTab(sp.lead)
    ensures SpaceBeforeTab(line, tw) == ExpandTabs(sp.lead, tw) + sp.trail
  {
    LeadingSplitComplete(line, sp);
    var r := SpaceBeforeTab(line, tw);
    assert r == NewLead(r, sp) + sp.trail;
  }

  /** When tab-in-indent fires on a run of spaces and tabs, the run becomes spaces up to its column. */
  lemma TabInIndentRewrites(line: string, tw: int, sp: Split)
    requires tw > 0 && IsLeadingSplit(line, sp) && '\t' in sp.lead && OnlyBlanks(sp.lead)
    ensures TabInIndent(line, tw) == Repeat(' ', Column(sp.lead, 0, tw)) + sp.trail
  {
    LeadingSplitComplete(line, sp);
    var r := TabInIndent(line, tw);
    assert r == NewLead(r, sp) + sp.trail;
  }

  /** When indent-with-non-tab fires, the run becomes the group-by-group number of tabs. */
  lemma IndentWithNonTabRewrites(line: string, tw: int, sp: Split)
    requires tw > 0 && IsLeadingSplit(line, sp) && ' ' in sp.lead
    ensures IndentWithNonTab(line, tw) == Repeat('\t', GroupTabCount(sp.lead, tw)) + sp.trail
  {
    LeadingSplitComplete(line, sp);
    var r := IndentWithNonTab(line, tw);
    assert r == NewLead(r, sp) + sp.trail;
  }

  lemma SpaceBeforeTabExamples()
    ensures SpaceBeforeTab(" \tabc", 8) == Repeat(' ', 8) + "abc"
  {
    var sp := Split(" \t", "abc");
    assert " \tabc" == sp.lead + sp.trail;
    assert SpaceRun(sp.lead) == 1;
    assert Column(sp.lead, 0, 8) == 8;
    SpaceBeforeTabRewrites(" \tabc", 8, sp);
  }

  /** A vertical tab in the leading run is copied after the expanded tab, as `expandtabs` does. */
  lemma SpaceBeforeTabKeepsVerticalTab()
    ensures SpaceBeforeTab(" \t\U{000B}abc", 8) == Repeat(' ', 8) + "\U{000B}abc"
  {
    var sp := Split(" \t\U{000B}", "abc");
    VerticalTabLineSplits();
    SpaceBeforeTabExpands(" \t\U{000B}abc", 8, sp);
    ExpandVerticalTabRun();
  }

  lemma VerticalTabLineSplits()
    ensures IsLeadingSplit(" \t\U{000B}abc", Split(" \t\U{000B}", "abc"))
    ensures SpacesThenTab(" \t\U{000B}")
  {
    assert " \t\U{000B}abc" == " \t\U{000B}" + "abc";
    assert SpaceRun(" \t\U{000B}") == 1;
  }

  lemma ExpandVerticalTabRun()
    ensures ExpandTabs(" \t\U{000B}", 8) + "abc" == Repeat(' ', 8) + "\U{000B}abc"
  {
    assert " \t\U{000B}" == " \t" + "\U{000B}";
    ExpandFromAppend(" \t", "\U{000B}", 0, 8);
    assert Column(" \t", 0, 8) == 8;
    assert ExpandFrom(" \t", 0, 8) == Repeat(' ', 8) by {
      assert " \t" == " " + "\t";
      ExpandFromAppend(" ", "\t", 0, 8);
      ExpandFromChar('\t', 1, 8);
    }
    ExpandFromChar('\U{000B}', 8, 8);
    assert Repeat(' ', 8) + "\U{000B}" + "abc" == Repeat(' ', 8) + "\U{000B}abc";
  }

  lemma SpaceBeforeTabLeavesTabFirst()
    ensures SpaceBeforeTab("\tabc", 8) == "\tabc"
    ensures SpaceBeforeTab("\t  abc", 8) == "\t  abc"
  {
    SpaceBeforeTabLeavesTab();
    SpaceBeforeTabLeavesTabSpaces();
  }

  lemma SpaceBeforeTabLeavesTab()
    ensures SpaceBeforeTab("\tabc", 8) == "\tabc"
  {
    var sp := Split("\t", "abc");
    assert "\tabc" == sp.lead + sp.trail;
    SpaceBeforeTabNeedsLeadingSpace("\tabc", 8, sp);
  }

  lemma SpaceBeforeTabLeavesTabSpaces()
    ensures SpaceBeforeTab("\t  abc", 8) == "\t  abc"
  {
    var sp := Split("\t  ", "abc");
    assert "\t  abc" == sp.lead + sp.trail;
    SpaceBeforeTabNeedsLeadingSpace("\t  abc", 8, sp);
  }

  lemma IndentWithNonTabExample1()
    ensures IndentWithNonTab(" abc", 8) == "\tabc"
  {
    IndentWithNonTabShape1();
    IndentWithNonTabResult1();
  }

  lemma IndentWithNonTabResult1()
    ensures Repeat('\t', GroupTabCount(" ", 8)) + "abc" == "\tabc"
  {
    assert Count(" ", ' ') == 1;
    assert Repeat('\t', 1) + "abc" == "\tabc";
  }

  lemma IndentWithNonTabShape1()
    ensures IndentWithNonTab(" abc", 8) == Repeat('\t', GroupTabCount(" ", 8)) + "abc"
  {
    var sp := Split(" ", "abc");
    assert " abc" == sp.lead + sp.trail;
    assert sp.lead[0] == ' ';
    IndentWithNonTabRewrites(" abc", 8, sp);
  }

  lemma IndentWithNonTabExample2()
    ensures IndentWithNonTab("\t" + Repeat(' ', 8) + "abc", 8) == "\t\tabc"
  {
    IndentWithNonTabShape2();
    IndentWithNonTabResult2();
  }

  lemma IndentWithNonTabResult2()
    ensures Repeat('\t', GroupTabCount("\t" + Repeat(' ', 8), 8)) + "abc" == "\t\tabc"
  {
    GroupsOfExample2();
    assert Repeat('\t', 2) + "abc" == "\t\tabc";
  }

  lemma IndentWithNonTabShape2()
    ensures IndentWithNonTab("\t" + Repeat(' ', 8) + "abc", 8)
         == Repeat('\t', GroupTabCount("\t" + Repeat(' ', 8), 8)) + "abc"
  {
    var sp := Split("\t" + Repeat(' ', 8), "abc");
    assert "\t" + Repeat(' ', 8) + "abc" == sp.lead + sp.trail;
    assert sp.lead[1] == ' ';
    assert IsLeadingSplit(sp.lead + sp.trail, sp);
    IndentWithNonTabRewrites(sp.lead + sp.trail, 8, sp);
  }

  lemma GroupsOfExample2()
    ensures GroupTabCount("\t" + Repeat(' ', 8), 8) == 2
  {
    var lead := "\t" + Repeat(' ', 8);
    assert IndexOf(lead, '\t') == 0 && lead[..0] == [] && lead[1..] == Repeat(' ', 8);
    GroupsOfEightSpaces();
  }

  lemma IndentWithNonTabExample3()
    ensures IndentWithNonTab("\t" + Repeat(' ', 10) + "\t abc", 8) == "\t\t\t\tabc"
  {
    IndentWithNonTabShape3();
    IndentWithNonTabResult3();
  }

  lemma IndentWithNonTabResult3()
    ensures Repeat('\t', GroupTabCount("\t" + Repeat(' ', 10) + "\t ", 8)) + "abc" == "\t\t\t\tabc"
  {
    GroupsOfExample3();
    assert Repeat('\t', 4) + "abc" == "\t\t\t\tabc";
  }

  lemma IndentWithNonTabShape3()
    ensures IndentWithNonTab("\t" + Repeat(' ', 10) + "\t abc", 8)
         == Repeat('\t', GroupTabCount("\t" + Repeat(' ', 10) + "\t ", 8)) + "abc"
  {
    var sp := Split("\t" + Repeat(' ', 10) + "\t ", "abc");
    assert "\t" + Repeat(' ', 10) + "\t abc" == sp.lead + sp.trail;
    assert IsLeadingSplit(sp.lead + sp.trail, sp);
    IndentWithNonTabRewrites(sp.lead + sp.trail, 8, sp);
  }

  lemma GroupsOfExample3()
    ensures GroupTabCount("\t" + Repeat(' ', 10) + "\t ", 8) == 4
  {
    var lead := "\t" + Repeat(' ', 10) + "\t ";
    assert lead[1] == ' ';
    assert IndexOf(lead, '\t') == 0;
    assert lead[1..] == Repeat(' ', 10) + "\t ";
    GroupsAfterFirstTab();
  }

  lemma GroupsAfterFirstTab()
    ensures GroupTabCount(Repeat(' ', 10) + "\t ", 8) == 3
  {
    var rest := Repeat(' ', 10) + "\t ";
    assert IndexOf(rest, '\t') == 10 && rest[..10] == Repeat(' ', 10) && rest[11..] == " ";
    SpacesCount(10);
    assert Count(" ", ' ') == 1 && '\t' !in " ";
    assert GroupTabCount(" ", 8) == 1;
  }

  lemma IndentWithNonTabExample4()
    ensures IndentWithNonTab(" \tabc", 8) == "\tabc"
  {
    IndentWithNonTabShape4();
    IndentWithNonTabResult4();
  }

  lemma IndentWithNonTabResult4()
    ensures Repeat('\t', GroupTabCount(" \t", 8)) + "abc" == "\tabc"
  {
    GroupsOfSpaceTab();
    assert Repeat('\t', 1) + "abc" == "\tabc";
  }

  lemma IndentWithNonTabShape4()
    ensures IndentWithNonTab(" \tabc", 8) == Repeat('\t', GroupTabCount(" \t", 8)) + "abc"
  {
    var sp := Split(" \t", "abc");
    assert " \tabc" == sp.lead + sp.trail;
    assert sp.lead[0] == ' ';
    assert IsLeadingSplit(" \tabc", sp);
    IndentWithNonTabRewrites(" \tabc", 8, sp);
  }

  /** Eight spaces of indentation become one tab. */
  lemma IndentWithNonTabWholeGroup()
    ensures IndentWithNonTab(Repeat(' ', 8) + "x", 8) == "\tx"
  {
    IndentWithNonTabShapeWhole();
    IndentWithNonTabResultWhole();
  }

  lemma IndentWithNonTabResultWhole()
    ensures Repeat('\t', GroupTabCount(Repeat(' ', 8), 8)) + "x" == "\tx"
  {
    GroupsOfEightSpaces();
    assert Repeat('\t', 1) + "x" == "\tx";
  }

  lemma IndentWithNonTabShapeWhole()
    ensures IndentWithNonTab(Repeat(' ', 8) + "x", 8) == Repeat('\t', GroupTabCount(Repeat(' ', 8), 8)) + "x"
  {
    var sp := Split(Repeat(' ', 8), "x");
    assert sp.lead[0] == ' ';
    IndentWithNonTabRewrites(sp.lead + sp.trail, 8, sp);
  }

  lemma GroupsOfEightSpaces()
    ensures GroupTabCount(Repeat(' ', 8), 8) == 1
  {
    SpacesCount(8);
    assert '\t' !in Repeat(' ', 8);
  }

  lemma GroupsOfSpaceTab()
    ensures GroupTabCount(" \t", 8) == 1
  {
    var lead := " \t";
    assert IndexOf(lead, '\t') == 1 && lead[..1] == " " && lead[2..] == "";
    assert Count(" ", ' ') == 1;
  }

  /**
   * A width that no count of spaces can equal, as Python 2's None never
   * equals an int, closes no group: the spaces only pile up.
   */
  lemma {:induction false} SpacesWithoutWidth(s: string, spaces: nat, tabs: nat, tw: int)
    requires tw < 0 && AllChar(s, ' ')
    ensures CountFrom(s, Counters(spaces, tabs), tw) == Counters(spaces + |s|, tabs)
    decreases |s|
  {
    if s != [] {
      assert s[0] == ' ';
      assert CountStep(Counters(spaces, tabs), s[0], tw) == Counters(spaces + 1, tabs);
      assert AllChar(s[1..], ' ') by {
        forall i | 0 <= i < |s[1..]| ensures s[1..][i] == ' ' {
          assert s[1..][i] == s[i + 1];
        }
      }
      SpacesWithoutWidth(s[1..], spaces + 1, tabs, tw);
    }
  }

  /**
   * With the width unset, indent-with-non-tab turns any run of spaces into
   * a single tab: 16 spaces before "x" give "\tx", where the default width
   * 8 gives "\t\tx".
   */
  lemma UnsetWidthMiscount(tw: int)
    requires tw < 0
    ensures IndentWithNonTab(Repeat(' ', 16) + "x", tw) == "\tx"
    ensures IndentWithNonTab(Repeat(' ', 16) + "x", 8) == "\t\tx"
  {
    var line := Repeat(' ', 16) + "x";
    var sp := Split(Repeat(' ', 16), "x");
    assert LeadingSplit(line) == Some(sp) && ' ' in sp.lead by {
      assert sp.lead[0] == ' ';
      assert IsLeadingSplit(line, sp);
      LeadingSplitComplete(line, sp);
    }
    assert IndentWithNonTab(line, tw) == "\tx" by {
      IndentWithNonTabFires(line, tw);
      assert IndentTabCount(sp.lead, tw) == 1;
      assert Repeat('\t', 1) + "x" == "\tx";
    }
    assert IndentWithNonTab(line, 8) == "\t\tx" by {
      IndentWithNonTabFires(line, 8);
      SixteenSpacesAtEight();
      assert Repeat('\t', 2) + "x" == "\t\tx";
    }
  }

  lemma SixteenSpacesAtEight()
    ensures IndentTabCount(Repeat(' ', 16), 8) == 2
  {
    assert IndentTabCount(Repeat(' ', 16), 8) == GroupTabCount(Repeat(' ', 16), 8);
    SpacesCount(16);
    assert '\t' !in Repeat(' ', 16);
  }

  lemma IndentWithNonTabLeavesTabsAlone()
    ensures IndentWithNonTab("\tabc", 8) == "\tabc"
  {
    var sp := Split("\t", "abc");
    assert "\tabc" == sp.lead + sp.trail;
    LeadingSplitComplete("\tabc", sp);
  }

  lemma {:induction false} SpacesCount(n: nat)
    ensures Count(Repeat(' ', n), ' ') == n
  {
    if n > 0 {
      assert Repeat(' ', n)[1..] == Repeat(' ', n - 1);
      SpacesCount(n - 1);
    }
  }

  lemma TabInIndentExamples()
    ensures TabInIndent(" abc", 8) == " abc"
    ensures TabInIndent(" \tabc", 8) == Repeat(' ', 8) + "abc"
  {
    LeadingSplitComplete(" abc", Split(" ", "abc"));
    var sp := Split(" \t", "abc");
    assert " \tabc" == sp.lead + sp.trail;
    assert Column(sp.lead, 0, 8) == 8;
    TabInIndentRewrites(" \tabc", 8, sp);
  }

  lemma TabInIndentExample3()
    ensures TabInIndent("\tabc", 8) == Repeat(' ', 8) + "abc"
    ensures TabInIndent("\t" + Repeat(' ', 8) + "abc", 8) == Repeat(' ', 16) + "abc"
  {
    TabInIndentOneTab();
    TabInIndentTabThenGroup();
  }

  lemma TabInIndentOneTab()
    ensures TabInIndent("\tabc", 8) == Repeat(' ', 8) + "abc"
  {
    var sp := Split("\t", "abc");
    assert "\tabc" == sp.lead + sp.trail;
    assert Column(sp.lead, 0, 8) == 8;
    TabInIndentRewrites("\tabc", 8, sp);
  }

  lemma TabInIndentTabThenGroup()
    ensures TabInIndent("\t" + Repeat(' ', 8) + "abc", 8) == Repeat(' ', 16) + "abc"
  {
    var sp := Split("\t" + Repeat(' ', 8), "abc");
    assert "\t" + Repeat(' ', 8) + "abc" == sp.lead + sp.trail;
    assert sp.lead[0] == '\t' && sp.lead[1..] == Repeat(' ', 8) + "";
    ColumnSpaces(8, "", 8, 8);
    assert Column(sp.lead, 0, 8) == 16;
    TabInIndentRewrites(sp.lead + sp.trail, 8, sp);
  }

  lemma TabInIndentExample2()
    ensures TabInIndent("\t" + Repeat(' ', 10) + "\tabc", 8) == Repeat(' ', 24) + "abc"
  {
    var sp := Split("\t" + Repeat(' ', 10) + "\t", "abc");
    assert "\t" + Repeat(' ', 10) + "\tabc" == sp.lead + sp.trail;
    assert sp.lead[0] == '\t' && sp.lead[1..] == Repeat(' ', 10) + "\t";
    ColumnSpaces(10, "\t", 8, 8);
    assert Column(sp.lead, 0, 8) == Column(sp.lead[1..], 8, 8) == Column("\t", 18, 8) == 24;
    TabInIndentRewrites(sp.lead + sp.trail, 8, sp);
  }
}
