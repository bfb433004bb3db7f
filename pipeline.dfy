/**
 * sanitize_line: the enabled sanitizers applied one after the other, each
 * to the previous one's output (`reduce(lambda a, b: b(a), sanitizers, line)`).
 */
module Pipeline {
  import opened Text
  import S = Sanitizers

  /** The sanitizers main can put in the list; blank_at_eof_sanitizer is never added. */
  datatype Rule = BlankAtEol | SpaceBeforeTab | IndentWithNonTab | TabInIndent | CrAtEol

  function Apply(rule: Rule, line: string, tw: int): string {
    match rule
    case BlankAtEol => S.BlankAtEol(line)
    case SpaceBeforeTab => S.SpaceBeforeTab(line, tw)
    case IndentWithNonTab => S.IndentWithNonTab(line, tw)
    case TabInIndent => S.TabInIndent(line, tw)
    case CrAtEol => S.CrAtEol(line)
  }

  /**
   * The left fold of `rules` over `line`. A list of the two end-strippers
   * alone only ever cuts the line short.
   */
  function SanitizeLine(line: string, rules: seq<Rule>, tw: int): (r: string)
    ensures (forall k :: 0 <= k < |rules| ==> rules[k] == BlankAtEol || rules[k] == CrAtEol) ==> r <= line
    decreases |rules|
  {
    if rules == [] then line
    else
      assert forall k :: 0 <= k < |rules| - 1 ==> rules[1..][k] == rules[k + 1];
      SanitizeLine(Apply(rules[0], line, tw), rules[1..], tw)
  }

  /** Folding over two lists one after the other is folding over their concatenation. */
  lemma {:induction false} SanitizeLineAppend(line: string, a: seq<Rule>, b: seq<Rule>, tw: int)
    ensures SanitizeLine(line, a + b, tw) == SanitizeLine(SanitizeLine(line, a, tw), b, tw)
    decreases |a|
  {
    if a == [] {
      assert a + b == b;
    } else {
      assert (a + b)[0] == a[0] && (a + b)[1..] == a[1..] + b;
      SanitizeLineAppend(Apply(a[0], line, tw), a[1..], b, tw);
    }
  }

  /** A line every enabled sanitizer leaves alone comes out of the pipeline unchanged. */
  lemma {:induction false} SanitizeLineClean(line: string, rules: seq<Rule>, tw: int)
    requires forall k :: 0 <= k < |rules| ==> Apply(rules[k], line, tw) == line
    ensures SanitizeLine(line, rules, tw) == line
    decreases |rules|
  {
    if rules != [] {
      assert forall k :: 0 <= k < |rules| - 1 ==> rules[1..][k] == rules[k + 1];
      SanitizeLineClean(line, rules[1..], tw);
    }
  }

  /** Every sanitizer but cr-at-eol keeps a line that does not end in a space that way. */
  lemma KeepsNoTrailingSpace(rule: Rule, line: string, tw: int)
    requires rule != CrAtEol && !EndsWith(line, ' ')
    ensures !EndsWith(Apply(rule, line, tw), ' ')
  {
    var r := Apply(rule, line, tw);
    if r != line {
      match rule
      case BlankAtEol =>
      case SpaceBeforeTab => TrailEnds(r, line);
      case IndentWithNonTab => TrailEnds(r, line);
      case TabInIndent => TrailEnds(r, line);
    }
  }

  /** A line rewritten behind a kept remainder ends as that remainder does, never in a space. */
  lemma TrailEnds(r: string, line: string)
    requires S.LeadingSplit(line).Some? && S.KeepsTrail(r, S.LeadingSplit(line).value)
    ensures !EndsWith(r, ' ')
  {
    var sp := S.LeadingSplit(line).value;
    assert r[|r| - 1] == sp.trail[|sp.trail| - 1];
  }

  /** Rules that leave a space-free line end alone, and so the whole fold does. */
  lemma {:induction false} NoTrailingSpaceAfter(line: string, rules: seq<Rule>, tw: int)
    requires CrAtEol !in rules && !EndsWith(line, ' ')
    ensures !EndsWith(SanitizeLine(line, rules, tw), ' ')
    decreases |rules|
  {
    if rules != [] {
      KeepsNoTrailingSpace(rules[0], line, tw);
      NoTrailingSpaceAfter(Apply(rules[0], line, tw), rules[1..], tw);
    }
  }

  /** With blank-at-eol first and no cr-at-eol, no sanitized line ends in a space. */
  lemma BlankAtEolFirstHolds(line: string, rules: seq<Rule>, tw: int)
    requires |rules| > 0 && rules[0] == BlankAtEol && CrAtEol !in rules[1..]
    ensures !EndsWith(SanitizeLine(line, rules, tw), ' ')
  {
    NoTrailingSpaceAfter(S.BlankAtEol(line), rules[1..], tw);
  }

  /**
   * cr-at-eol runs after blank-at-eol, so a space hidden behind a carriage
   * return survives both.
   */
  lemma CrAtEolExposesSpace()
    ensures SanitizeLine("abc \r", [BlankAtEol, CrAtEol], 8) == "abc "
  {
    assert S.BlankAtEol("abc \r") == "abc \r";
    assert RStrip("abc ", '\r') == "abc ";
    assert RStrip("abc \r", '\r') == RStrip("abc ", '\r');
    assert S.CrAtEol("abc \r") == "abc ";
  }

  /** The default list (blank-at-eol, space-before-tab) leaves an already clean line alone. */
  lemma DefaultPipelineKeepsCleanLine()
    ensures SanitizeLine("\tabc", [BlankAtEol, SpaceBeforeTab], 8) == "\tabc"
  {
    S.SpaceBeforeTabLeavesTabFirst();
    assert S.BlankAtEol("\tabc") == "\tabc";
    SanitizeLineClean("\tabc", [BlankAtEol, SpaceBeforeTab], 8);
  }
}
