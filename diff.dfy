/**
 * sanitize_diff up to the file system: reading a unified diff into the
 * changes it makes to a file (line number to new line text), and merging
 * those changes into the lines of the file as it is on disk.
 */
module Diff {
  import opened Wrappers
  import opened Text
  import P = Pipeline

  /** A change record of the repository: whether the file was deleted or renamed, and the patch text. */
  datatype FileChange = FileChange(deletedFile: bool, renamed: bool, diff: string)

  /** Why sanitize_diff returns early, leaving the file alone. */
  datatype Skip = DeletedOrRenamed | NoPath | BadHunkHeader

  /** The exceptions sanitize_diff lets escape, each of which ends the whole run. */
  datatype Crash =
    | ShortDiff      // `_patch[1]` on a patch of fewer than two lines: IndexError
    | LineNoUnset    // a '+' or ' ' line before any hunk header: UnboundLocalError
    | MissingFile    // `os.rename` of a path that is not there: OSError

  datatype Outcome = Skipped(why: Skip) | Crashed(what: Crash) | Rewrite(path: string, changes: map<int, string>)

  // ---------------------------------------------------------------------
  // The two regular expressions
  // ---------------------------------------------------------------------

  /** The longest prefix of `s` free of '\n' (what `.+` can cover). */
  function UpToNewline(s: string): (r: string)
    ensures r <= s && '\n' !in r
    ensures r == s || s[|r|] == '\n'
  {
    if '\n' in s then s[..IndexOf(s, '\n')] else s
  }

  /**
   * `PATH_INFO_REGEX.search(line).group(1)`: the text after the leftmost
   * "b/" that has at least one character other than '\n' after it.
   */
  function PathInfo(line: string): (p: Option<string>)
    ensures p.Some? ==> |p.value| > 0 && '\n' !in p.value && Contains(line, "b/" + p.value)
    decreases |line|
  {
    if |line| < 3 then None
    else if PathMatchAt(line) then
      var p := UpToNewline(line[2..]);
      assert line[..2 + |p|] == "b/" + p;
      ContainsAt(line, "b/" + p, 0);
      Some(p)
    else
      match PathInfo(line[1..])
      case None => None
      case Some(p) =>
        ContainsShift(line, "b/" + p);
        Some(p)
  }

  /** `b/(.+)` matches at the start of `s`: "b/" and then a character other than '\n'. */
  predicate PathMatchAt(s: string) {
    |s| >= 3 && s[..2] == "b/" && s[2] != '\n'
  }

  /** Position `i` holds the leftmost match of `b/(.+)` in `line`. */
  predicate LeftmostPath(line: string, i: int)
    requires 0 <= i <= |line|
  {
    PathMatchAt(line[i..]) && forall j :: 0 <= j < i ==> !PathMatchAt(line[j..])
  }

  /**
   * PathInfo is `search`: it finds nothing exactly when no position of
   * the line matches, and otherwise reads the path at the leftmost match.
   */
  lemma {:induction false} PathInfoLeftmost(line: string)
    ensures PathInfo(line).None? <==> forall i :: 0 <= i < |line| ==> !PathMatchAt(line[i..])
    ensures PathInfo(line).Some? ==>
      exists i :: 0 <= i < |line| - 2 && LeftmostPath(line, i) && PathInfo(line).value == UpToNewline(line[i + 2..])
    decreases |line|
  {
    assert line[0..] == line;
    if |line| < 3 {
      forall i | 0 <= i < |line| ensures !PathMatchAt(line[i..]) {
      }
    } else if PathMatchAt(line) {
      assert LeftmostPath(line, 0);
    } else {
      PathInfoLeftmost(line[1..]);
      assert forall i :: 1 <= i <= |line| ==> line[1..][i - 1..] == line[i..];
      if PathInfo(line[1..]).Some? {
        var i :| 0 <= i < |line[1..]| - 2 && LeftmostPath(line[1..], i) && PathInfo(line[1..]).value == UpToNewline(line[1..][i + 2..]);
        assert line[1..][i + 2..] == line[i + 3..];
        assert LeftmostPath(line, i + 1);
      } else {
        forall i | 0 <= i < |line| ensures !PathMatchAt(line[i..]) {
          if i > 0 {
            assert line[1..][i - 1..] == line[i..];
          }
        }
      }
    }
  }

  lemma ContainsShift(s: string, sub: string)
    requires |s| > 0 && Contains(s[1..], sub)
    ensures Contains(s, sub)
  {
  }

  /** Text without a 'b' in it cannot hold a match, so the search goes past it. */
  lemma {:induction false} PathInfoSkips(x: string, y: string)
    requires 'b' !in x && |y| >= 3
    ensures PathInfo(x + y) == PathInfo(y)
    decreases |x|
  {
    if x == [] {
      assert x + y == y;
    } else {
      assert (x + y)[0] == x[0];
      assert (x + y)[1..] == x[1..] + y;
      PathInfoSkips(x[1..], y);
    }
  }

  /** The "+++ b/<path>" line of a diff gives back its path. */
  lemma PathInfoHeader(path: string)
    requires |path| > 0 && '\n' !in path
    ensures PathInfo("+++ b/" + path) == Some(path)
  {
    HeaderLineSplits(path);
    PathInfoSkips("+++ ", "b/" + path);
    PathInfoAt(path);
  }

  lemma HeaderLineSplits(path: string)
    ensures "+++ b/" + path == "+++ " + ("b/" + path)
  {
    var full := "+++ " + ("b/" + path);
    assert forall i :: 0 <= i < 6 ==> full[i] == "+++ b/"[i];
    assert full[6..] == path;
  }

  lemma PathInfoAt(path: string)
    requires |path| > 0 && '\n' !in path
    ensures PathInfo("b/" + path) == Some(path)
  {
    var line := "b/" + path;
    assert line[..2] == "b/";
    assert line[2..] == path;
    assert line[2] != '\n';
    assert UpToNewline(path) == path;
  }

  /** Length of the run of digits at the front of `s`. */
  function DigitRun(s: string): (n: nat)
    ensures n <= |s| && AllDigits(s[..n])
    ensures n == |s| || !IsDigit(s[n])
  {
    if s != [] && IsDigit(s[0]) then
      var n := 1 + DigitRun(s[1..]);
      assert forall i :: 1 <= i < n ==> s[..n][i] == s[1..][..n - 1][i - 1];
      n
    else 0
  }

  /** `\+(\d+),(\d+)` matches at the start of `s`. */
  predicate HunkInfoAt(s: string) {
    |s| > 0 && s[0] == '+' &&
    var d := DigitRun(s[1..]);
    d > 0 && 2 + d < |s| && s[1 + d] == ',' && IsDigit(s[2 + d])
  }

  /**
   * `int(LINE_INFO_REGEX.search(line).group(1))`: the start line of the
   * new side, read at the leftmost match; None when there is no match.
   */
  function HunkStart(line: string): (n: Option<nat>)
    decreases |line|
  {
    if line == [] then None
    else if HunkInfoAt(line) then Some(StartAt(line))
    else HunkStart(line[1..])
  }

  /** The first number of a `\+(\d+),(\d+)` match at the start of `s`. */
  function StartAt(s: string): nat
    requires |s| > 0
  {
    DigitsValue(s[1..][..DigitRun(s[1..])])
  }

  /** The regular expression matches at `i` and nowhere before. */
  predicate LeftmostHunkInfo(line: string, i: int)
    requires 0 <= i < |line|
  {
    HunkInfoAt(line[i..]) && forall j :: 0 <= j < i ==> !HunkInfoAt(line[j..])
  }

  /**
   * `search` finds the leftmost match: HunkStart is None exactly when no
   * position matches, and otherwise reads the number at the leftmost one.
   */
  lemma {:induction false} HunkStartLeftmost(line: string)
    ensures HunkStart(line).None? <==> forall i :: 0 <= i < |line| ==> !HunkInfoAt(line[i..])
    ensures HunkStart(line).Some? ==>
      exists i :: 0 <= i < |line| && LeftmostHunkInfo(line, i) && HunkStart(line).value == StartAt(line[i..])
    decreases |line|
  {
    if line != [] {
      assert line[0..] == line;
      if HunkInfoAt(line) {
        assert LeftmostHunkInfo(line, 0);
      } else {
        HunkStartLeftmost(line[1..]);
        assert forall i :: 1 <= i < |line| ==> line[1..][i - 1..] == line[i..];
        if HunkStart(line[1..]).Some? {
          var i :| 0 <= i < |line[1..]| && LeftmostHunkInfo(line[1..], i) && HunkStart(line[1..]).value == StartAt(line[1..][i..]);
          assert LeftmostHunkInfo(line, i + 1);
        } else {
          forall i | 0 <= i < |line| ensures !HunkInfoAt(line[i..]) {
            if i > 0 {
              assert line[1..][i - 1..] == line[i..];
            }
          }
        }
      }
    }
  }

  lemma {:induction false} DigitRunOf(ds: string, rest: string)
    requires |ds| > 0 && AllDigits(ds) && (rest == [] || !IsDigit(rest[0]))
    ensures DigitRun(ds + rest) == |ds|
    ensures (ds + rest)[..|ds|] == ds
    decreases |ds|
  {
    var s := ds + rest;
    assert s[0] == ds[0] && IsDigit(s[0]);
    if |ds| > 1 {
      assert s[1..] == ds[1..] + rest;
      assert AllDigits(ds[1..]) by {
        forall i | 0 <= i < |ds| - 1 ensures IsDigit(ds[1..][i]) {
          assert ds[1..][i] == ds[i + 1];
        }
      }
      DigitRunOf(ds[1..], rest);
    } else {
      assert s[1..] == rest;
    }
  }

  /** Text without a '+' in it cannot hold a match, so the search goes past it. */
  lemma {:induction false} HunkStartSkips(x: string, y: string)
    requires '+' !in x
    ensures HunkStart(x + y) == HunkStart(y)
    decreases |x|
  {
    if x == [] {
      assert x + y == y;
    } else {
      assert (x + y)[0] == x[0];
      assert (x + y)[1..] == x[1..] + y;
      HunkStartSkips(x[1..], y);
    }
  }

  /** The hunk header git writes, "@@ -a,b +n,m @@...", gives n. */
  lemma HunkStartHeader(a: nat, b: nat, n: nat, m: nat, rest: string)
    ensures HunkStart("@@ -" + Decimal(a) + "," + Decimal(b) + " +" + Decimal(n) + "," + Decimal(m) + " @@" + rest) == Some(n)
  {
    var head := "@@ -" + Decimal(a) + "," + Decimal(b) + " ";
    var tail := "+" + Decimal(n) + "," + Decimal(m) + " @@" + rest;
    assert "@@ -" + Decimal(a) + "," + Decimal(b) + " +" + Decimal(n) + "," + Decimal(m) + " @@" + rest == head + tail;
    OldRangeHasNoPlus(a, b);
    HunkStartSkips(head, tail);
    NewRangeMatches(n, m, rest);
  }

  /** The old-side range "@@ -a,b " holds no '+'. */
  lemma OldRangeHasNoPlus(a: nat, b: nat)
    ensures '+' !in "@@ -" + Decimal(a) + "," + Decimal(b) + " "
  {
    var head := "@@ -" + Decimal(a) + "," + Decimal(b) + " ";
    assert forall i :: 0 <= i < |Decimal(a)| ==> Decimal(a)[i] != '+';
    assert forall i :: 0 <= i < |Decimal(b)| ==> Decimal(b)[i] != '+';
    assert forall i :: 0 <= i < |head| ==> head[i] != '+';
  }

  /** The new-side range "+n,m" matches at once and gives n. */
  lemma NewRangeMatches(n: nat, m: nat, rest: string)
    ensures HunkStart("+" + Decimal(n) + "," + Decimal(m) + " @@" + rest) == Some(n)
  {
    var tail := "+" + Decimal(n) + "," + Decimal(m) + " @@" + rest;
    var after := "," + Decimal(m) + " @@" + rest;
    assert tail[1..] == Decimal(n) + after;
    DigitRunOf(Decimal(n), after);
    assert tail[1..][1 + |Decimal(n)|] == Decimal(m)[0];
    assert HunkInfoAt(tail);
    DigitsValueDecimal(n);
  }

  /** A hunk header without a line count, as git writes for one-line hunks, is not recognised. */
  lemma HunkStartNeedsCount()
    ensures HunkStart("@@ -1 +1 @@") == None
  {
    assert "@@ -1 +1 @@" == "@@ -1 " + "+1 @@";
    HunkStartSkips("@@ -1 ", "+1 @@");
    assert "+1 @@"[1..] == "1 @@";
    assert DigitRun("1 @@") == 1;
    assert !HunkInfoAt("+1 @@");
    assert "1 @@" == "1 @@" + "";
    HunkStartSkips("1 @@", "");
  }

  /** The header line git writes for a hunk of `b` old lines at `a` and `m` new lines at `n`. */
  function HunkHeader(a: nat, b: nat, n: nat, m: nat): (h: string)
    ensures StartsWith(h, "@@") && '\n' !in h
    ensures HunkStart(h) == Some(n)
  {
    var h := "@@ -" + Decimal(a) + "," + Decimal(b) + " +" + Decimal(n) + "," + Decimal(m) + " @@";
    assert forall i :: 0 <= i < |Decimal(a)| ==> IsDigit(Decimal(a)[i]);
    assert forall i :: 0 <= i < |Decimal(b)| ==> IsDigit(Decimal(b)[i]);
    assert forall i :: 0 <= i < |Decimal(n)| ==> IsDigit(Decimal(n)[i]);
    assert forall i :: 0 <= i < |Decimal(m)| ==> IsDigit(Decimal(m)[i]);
    HunkStartHeader(a, b, n, m, "");
    assert h + "" == h;
    h
  }

  // ---------------------------------------------------------------------
  // Scanning the hunks
  // ---------------------------------------------------------------------

  /** The loop state: the current line number once a hunk header set it, and the changes so far. */
  datatype Scan = Scanning(lineNo: Option<int>, changes: map<int, string>) | Stopped(outcome: Outcome)

  /** A line that takes a line number: an added line or a context line. */
  predicate Counted(line: string) {
    StartsWith(line, "+") || StartsWith(line, " ")
  }

  /** What a counted line writes: an added line sanitized, a context line as it is, each with '\n'. */
  function Entry(line: string, rules: seq<P.Rule>, tw: int): string
    requires Counted(line)
  {
    if StartsWith(line, "+") then P.SanitizeLine(line[1..], rules, tw) + "\n" else line[1..] + "\n"
  }

  /** One pass of the loop over the patch lines. */
  function Step(st: Scan, line: string, rules: seq<P.Rule>, tw: int): Scan {
    match st
    case Stopped(_) => st
    case Scanning(lineNo, changes) =>
      if StartsWith(line, "@@") then
        match HunkStart(line)
        case None => Stopped(Skipped(BadHunkHeader))
        case Some(n) => Scanning(Some(n), changes)
      else if Counted(line) then
        match lineNo
        case None => Stopped(Crashed(LineNoUnset))
        case Some(k) => Scanning(Some(k + 1), changes[k := Entry(line, rules, tw)])
      else st
  }

  /** The loop over `lines` from state `st`. */
  function ScanLines(lines: seq<string>, st: Scan, rules: seq<P.Rule>, tw: int): Scan
    decreases |lines|
  {
    if lines == [] then st else ScanLines(lines[1..], Step(st, lines[0], rules, tw), rules, tw)
  }

  lemma {:induction false} ScanStopped(lines: seq<string>, o: Outcome, rules: seq<P.Rule>, tw: int)
    ensures ScanLines(lines, Stopped(o), rules, tw) == Stopped(o)
    decreases |lines|
  {
    if lines != [] {
      ScanStopped(lines[1..], o, rules, tw);
    }
  }

  /**
   * One pass never drops a change and records at most the line at the
   * current number; once a hunk header was met the number stays set.
   */
  lemma StepKeeps(st: Scan, line: string, rules: seq<P.Rule>, tw: int)
    ensures var r := Step(st, line, rules, tw);
      && (r.Scanning? ==> st.Scanning? && st.changes.Keys <= r.changes.Keys)
      && (r.Scanning? && st.lineNo.Some? ==> r.lineNo.Some?)
      && (r.Scanning? ==> forall k :: k in r.changes && k !in st.changes ==> st.lineNo == Some(k))
  {
  }

  /** The whole loop never drops a change, and keeps the line number set once it is. */
  lemma {:induction false} ScanLinesKeeps(lines: seq<string>, st: Scan, rules: seq<P.Rule>, tw: int)
    ensures var r := ScanLines(lines, st, rules, tw);
      && (r.Scanning? ==> st.Scanning? && st.changes.Keys <= r.changes.Keys)
      && (r.Scanning? && st.lineNo.Some? ==> r.lineNo.Some?)
    decreases |lines|
  {
    if lines != [] {
      StepKeeps(st, lines[0], rules, tw);
      ScanLinesKeeps(lines[1..], Step(st, lines[0], rules, tw), rules, tw);
    }
  }

  /** The loop of sanitize_diff over the patch lines, filling `line_changes` in place. */
  method CollectLineChanges(patch: seq<string>, rules: seq<P.Rule>, tw: int) returns (result: Scan)
    ensures result == ScanLines(patch, Scanning(None, map[]), rules, tw)
  {
    var lineChanges: map<int, string> := map[];
    var lineNo: Option<int> := None;
    for i := 0 to |patch|
      invariant ScanLines(patch[i..], Scanning(lineNo, lineChanges), rules, tw) == ScanLines(patch, Scanning(None, map[]), rules, tw)
    {
      var line := patch[i];
      assert patch[i..][0] == line && patch[i..][1..] == patch[i + 1..];
      if StartsWith(line, "@@") {
        var m := HunkStart(line);
        if m.None? {
          ScanStopped(patch[i + 1..], Skipped(BadHunkHeader), rules, tw);
          return Stopped(Skipped(BadHunkHeader));
        }
        lineNo := Some(m.value);
      } else if StartsWith(line, "+") {
        if lineNo.None? {
          ScanStopped(patch[i + 1..], Crashed(LineNoUnset), rules, tw);
          return Stopped(Crashed(LineNoUnset));
        }
        lineChanges := lineChanges[lineNo.value := P.SanitizeLine(line[1..], rules, tw) + "\n"];
        lineNo := Some(lineNo.value + 1);
      } else if StartsWith(line, " ") {
        if lineNo.None? {
          ScanStopped(patch[i + 1..], Crashed(LineNoUnset), rules, tw);
          return Stopped(Crashed(LineNoUnset));
        }
        lineChanges := lineChanges[lineNo.value := line[1..] + "\n"];
        lineNo := Some(lineNo.value + 1);
      }
    }
    assert patch[|patch|..] == [];
    return Scanning(lineNo, lineChanges);
  }

  /** Number of counted lines among the first `p` lines of `body`. */
  function Rank(body: seq<string>, p: nat): nat
    requires p <= |body|
  {
    if p == 0 then 0 else (if Counted(body[0]) then 1 else 0) + Rank(body[1..], p - 1)
  }

  lemma {:induction false} RankBelow(body: seq<string>, p: nat)
    requires p < |body| && Counted(body[p])
    ensures Rank(body, p) < Rank(body, |body|)
    decreases p
  {
    if p > 0 {
      RankBelow(body[1..], p - 1);
    } else {
      assert Rank(body, |body|) == 1 + Rank(body[1..], |body| - 1);
    }
  }

  /** No line of `body` is a hunk header. */
  predicate NoHeader(body: seq<string>) {
    forall j :: 0 <= j < |body| ==> !StartsWith(body[j], "@@")
  }

  /** A hunk body without headers keeps none in its tail. */
  lemma NoHeaderTail(body: seq<string>)
    requires NoHeader(body) && body != []
    ensures NoHeader(body[1..]) && !StartsWith(body[0], "@@")
  {
    var tl := body[1..];
    forall j | 0 <= j < |tl| ensures !StartsWith(tl[j], "@@") {
      assert tl[j] == body[j + 1];
    }
  }

  /** A counted first line of a hunk body takes number n, and the scan goes on from n + 1. */
  lemma HunkHeadCounted(body: seq<string>, n: int, m0: map<int, string>, rules: seq<P.Rule>, tw: int)
    requires NoHeader(body) && body != [] && Counted(body[0])
    ensures NoHeader(body[1..])
    ensures ScanLines(body, Scanning(Some(n), m0), rules, tw)
         == ScanLines(body[1..], Scanning(Some(n + 1), m0[n := Entry(body[0], rules, tw)]), rules, tw)
    ensures Rank(body, |body|) == 1 + Rank(body[1..], |body| - 1)
  {
    NoHeaderTail(body);
  }

  /** Any other first line of a hunk body leaves the scan state as it was. */
  lemma HunkHeadOther(body: seq<string>, n: int, m0: map<int, string>, rules: seq<P.Rule>, tw: int)
    requires NoHeader(body) && body != [] && !Counted(body[0])
    ensures NoHeader(body[1..])
    ensures ScanLines(body, Scanning(Some(n), m0), rules, tw) == ScanLines(body[1..], Scanning(Some(n), m0), rules, tw)
    ensures Rank(body, |body|) == Rank(body[1..], |body| - 1)
  {
    NoHeaderTail(body);
  }

  /**
   * Scanning the lines of one hunk from line `n`: the scan goes on, the
   * number moves past the counted lines, and exactly the numbers they take
   * are added to the changes; changes at other numbers stay.
   */
  lemma {:induction false} ScanHunkShape(body: seq<string>, n: int, m0: map<int, string>, rules: seq<P.Rule>, tw: int)
    requires NoHeader(body)
    ensures var st := ScanLines(body, Scanning(Some(n), m0), rules, tw);
      && st.Scanning?
      && st.lineNo == Some(n + Rank(body, |body|))
      && (forall k :: k in st.changes <==> k in m0 || n <= k < n + Rank(body, |body|))
      && (forall k :: k in m0 && !(n <= k < n + Rank(body, |body|)) ==> st.changes[k] == m0[k])
    decreases |body|
  {
    if body != [] {
      if Counted(body[0]) {
        HunkHeadCounted(body, n, m0, rules, tw);
        ScanHunkShape(body[1..], n + 1, m0[n := Entry(body[0], rules, tw)], rules, tw);
      } else {
        HunkHeadOther(body, n, m0, rules, tw);
        ScanHunkShape(body[1..], n, m0, rules, tw);
      }
    }
  }

  /** Within one hunk from line `n`, the p-th line, when counted, is recorded at n plus its rank. */
  lemma {:induction false} ScanHunkEntry(body: seq<string>, n: int, m0: map<int, string>, rules: seq<P.Rule>, tw: int, p: nat)
    requires NoHeader(body) && p < |body| && Counted(body[p])
    ensures var st := ScanLines(body, Scanning(Some(n), m0), rules, tw);
      st.Scanning? && n + Rank(body, p) in st.changes && st.changes[n + Rank(body, p)] == Entry(body[p], rules, tw)
    decreases p, 1
  {
    if p == 0 {
      EntryOfHead(body, n, m0, rules, tw);
    } else if Counted(body[0]) {
      HunkHeadCounted(body, n, m0, rules, tw);
      assert Rank(body, p) == 1 + Rank(body[1..], p - 1);
      EntryInTail(body, n, m0, n + 1, m0[n := Entry(body[0], rules, tw)], rules, tw, p);
    } else {
      HunkHeadOther(body, n, m0, rules, tw);
      assert Rank(body, p) == Rank(body[1..], p - 1);
      EntryInTail(body, n, m0, n, m0, rules, tw, p);
    }
  }

  /** The first line of a hunk body, when counted, keeps the number n it takes. */
  lemma EntryOfHead(body: seq<string>, n: int, m0: map<int, string>, rules: seq<P.Rule>, tw: int)
    requires NoHeader(body) && body != [] && Counted(body[0])
    ensures var st := ScanLines(body, Scanning(Some(n), m0), rules, tw);
      st.Scanning? && n in st.changes && st.changes[n] == Entry(body[0], rules, tw)
  {
    HunkHeadCounted(body, n, m0, rules, tw);
    var m1 := m0[n := Entry(body[0], rules, tw)];
    var st1 := ScanLines(body[1..], Scanning(Some(n + 1), m1), rules, tw);
    assert st1.Scanning? && n in st1.changes && st1.changes[n] == m1[n] by {
      ScanHunkShape(body[1..], n + 1, m1, rules, tw);
    }
  }

  /**
   * Once the first line is consumed, the p-th line is the tail's (p-1)-th,
   * at the same final number.
   */
  lemma {:induction false} EntryInTail(body: seq<string>, n: int, m0: map<int, string>, n1: int, m1: map<int, string>,
                                       rules: seq<P.Rule>, tw: int, p: nat)
    requires NoHeader(body) && 0 < p < |body| && Counted(body[p])
    requires ScanLines(body, Scanning(Some(n), m0), rules, tw) == ScanLines(body[1..], Scanning(Some(n1), m1), rules, tw)
    requires n1 + Rank(body[1..], p - 1) == n + Rank(body, p)
    ensures var st := ScanLines(body, Scanning(Some(n), m0), rules, tw);
      st.Scanning? && n + Rank(body, p) in st.changes && st.changes[n + Rank(body, p)] == Entry(body[p], rules, tw)
    decreases p, 0
  {
    NoHeaderTail(body);
    assert body[p] == body[1..][p - 1];
    ScanHunkEntry(body[1..], n1, m1, rules, tw, p - 1);
  }

  /**
   * sanitize_diff's reading of a change: deleted and renamed files are
   * skipped; line 1 of the patch must name the file after "b/"; then the
   * hunks are scanned from the third line on.
   */
  function ParseDiff(change: FileChange, rules: seq<P.Rule>, tw: int): (o: Outcome)
    ensures o == Skipped(DeletedOrRenamed) <==> change.deletedFile || change.renamed
    ensures o == Skipped(NoPath) <==>
      !change.deletedFile && !change.renamed && |SplitOn(change.diff, '\n')| >= 2 && PathInfo(SplitOn(change.diff, '\n')[1]).None?
    ensures o.Rewrite? ==> |SplitOn(change.diff, '\n')| >= 2 && PathInfo(SplitOn(change.diff, '\n')[1]) == Some(o.path)
    ensures o.Crashed? && o.what == ShortDiff <==>
      !change.deletedFile && !change.renamed && Count(change.diff, '\n') == 0
  {
    if change.deletedFile || change.renamed then Skipped(DeletedOrRenamed)
    else
      var patch := SplitOn(change.diff, '\n');
      if |patch| < 2 then Crashed(ShortDiff)
      else
        match PathInfo(patch[1])
        case None => Skipped(NoPath)
        case Some(path) =>
          var st := ScanLines(patch[2..], Scanning(None, map[]), rules, tw);
          match st
          case Stopped(o) =>
            assert o == Skipped(BadHunkHeader) || o == Crashed(LineNoUnset) by { ScanNeverShort(patch[2..], rules, tw); }
            o
          case Scanning(_, changes) => Rewrite(path, changes)
  }

  /** The scan only stops with a bad hunk header or a line before any header. */
  lemma ScanNeverShort(lines: seq<string>, rules: seq<P.Rule>, tw: int)
    ensures var st := ScanLines(lines, Scanning(None, map[]), rules, tw);
      st.Stopped? ==> st.outcome == Skipped(BadHunkHeader) || st.outcome == Crashed(LineNoUnset)
  {
    ScanOutcomes(lines, Scanning(None, map[]), rules, tw);
  }

  lemma {:induction false} ScanOutcomes(lines: seq<string>, st: Scan, rules: seq<P.Rule>, tw: int)
    requires st.Stopped? ==> st.outcome == Skipped(BadHunkHeader) || st.outcome == Crashed(LineNoUnset)
    ensures var r := ScanLines(lines, st, rules, tw);
      r.Stopped? ==> r.outcome == Skipped(BadHunkHeader) || r.outcome == Crashed(LineNoUnset)
    decreases |lines|
  {
    if lines != [] {
      ScanOutcomes(lines[1..], Step(st, lines[0], rules, tw), rules, tw);
    }
  }

  /**
   * A diff of one hunk, as git writes it: a "---" line, "+++ b/<path>",
   * the header "@@ -a,b +n,m @@", and the hunk's lines. It rewrites
   * `path` with the changes of that hunk scanned from line n, which
   * ScanFreshHunk describes line by line.
   */
  lemma ParseSingleHunk(change: FileChange, patch: seq<string>, path: string, a: nat, b: nat, n: nat, m: nat,
                        rules: seq<P.Rule>, tw: int)
    requires !change.deletedFile && !change.renamed
    requires |patch| >= 3 && forall j :: 0 <= j < |patch| ==> '\n' !in patch[j]
    requires |path| > 0 && patch[1] == "+++ b/" + path
    requires patch[2] == HunkHeader(a, b, n, m) && NoHeader(patch[3..])
    requires change.diff == Join(patch, '\n')
    ensures var st := ScanLines(patch[3..], Scanning(Some(n), map[]), rules, tw);
      st.Scanning? && ParseDiff(change, rules, tw) == Rewrite(path, st.changes)
  {
    SplitOnJoin(patch, '\n');
    PathInfoHeader(path);
    ScanOfPatch(patch, n, rules, tw);
    ParseDiffRewrite(change, patch, path, rules, tw);
  }

  /** From the header line on, the patch scans as its hunk body from line n, without stopping. */
  lemma ScanOfPatch(patch: seq<string>, n: nat, rules: seq<P.Rule>, tw: int)
    requires |patch| >= 3 && StartsWith(patch[2], "@@") && HunkStart(patch[2]) == Some(n) && NoHeader(patch[3..])
    ensures ScanLines(patch[2..], Scanning(None, map[]), rules, tw) == ScanLines(patch[3..], Scanning(Some(n), map[]), rules, tw)
    ensures ScanLines(patch[3..], Scanning(Some(n), map[]), rules, tw).Scanning?
  {
    assert patch[2..] == [patch[2]] + patch[3..];
    ScanAfterHeader(patch[2], patch[3..], n, rules, tw);
    ScanHunkGoesOn(patch[3..], n, rules, tw);
  }

  /** A hunk body never stops the scan. */
  lemma ScanHunkGoesOn(body: seq<string>, n: int, rules: seq<P.Rule>, tw: int)
    requires NoHeader(body)
    ensures ScanLines(body, Scanning(Some(n), map[]), rules, tw).Scanning?
  {
    ScanHunkShape(body, n, map[], rules, tw);
  }

  /** A hunk scanned from its header on, with no earlier changes. */
  lemma ScanFreshHunk(body: seq<string>, n: int, rules: seq<P.Rule>, tw: int)
    requires NoHeader(body)
    ensures var st := ScanLines(body, Scanning(Some(n), map[]), rules, tw);
      && st.Scanning?
      && (forall k :: k in st.changes <==> n <= k < n + Rank(body, |body|))
      && (forall p :: 0 <= p < |body| && Counted(body[p]) ==>
            n + Rank(body, p) in st.changes && st.changes[n + Rank(body, p)] == Entry(body[p], rules, tw))
  {
    var st := ScanLines(body, Scanning(Some(n), map[]), rules, tw);
    assert st.Scanning? && forall k :: k in st.changes <==> n <= k < n + Rank(body, |body|) by {
      ScanHunkShape(body, n, map[], rules, tw);
    }
    var changes := st.changes;
    forall p | 0 <= p < |body| && Counted(body[p])
      ensures n + Rank(body, p) in changes && changes[n + Rank(body, p)] == Entry(body[p], rules, tw)
    {
      ScanHunkEntry(body, n, map[], rules, tw, p);
    }
  }

  lemma ParseDiffRewrite(change: FileChange, parts: seq<string>, path: string, rules: seq<P.Rule>, tw: int)
    requires !change.deletedFile && !change.renamed
    requires SplitOn(change.diff, '\n') == parts && |parts| >= 2
    requires PathInfo(parts[1]) == Some(path)
    requires ScanLines(parts[2..], Scanning(None, map[]), rules, tw).Scanning?
    ensures ParseDiff(change, rules, tw) == Rewrite(path, ScanLines(parts[2..], Scanning(None, map[]), rules, tw).changes)
  {
  }

  lemma ScanAfterHeader(header: string, body: seq<string>, n: nat, rules: seq<P.Rule>, tw: int)
    requires StartsWith(header, "@@") && HunkStart(header) == Some(n)
    ensures ScanLines([header] + body, Scanning(None, map[]), rules, tw) == ScanLines(body, Scanning(Some(n), map[]), rules, tw)
  {
    assert ([header] + body)[0] == header && ([header] + body)[1..] == body;
  }

  /** A scan over two runs of lines is the scan of the second from where the first left off. */
  lemma {:induction false} ScanLinesAppend(a: seq<string>, b: seq<string>, st: Scan, rules: seq<P.Rule>, tw: int)
    ensures ScanLines(a + b, st, rules, tw) == ScanLines(b, ScanLines(a, st, rules, tw), rules, tw)
    decreases |a|
  {
    if a == [] {
      assert a + b == b;
    } else {
      assert (a + b)[0] == a[0] && (a + b)[1..] == a[1..] + b;
      ScanLinesAppend(a[1..], b, Step(st, a[0], rules, tw), rules, tw);
    }
  }

  /**
   * A hunk header met while scanning, whatever the line number and the
   * changes so far: it sets the line number to its start, or stops the scan
   * when it has none.
   */
  lemma ScanHeaderStep(header: string, rest: seq<string>, lineNo: Option<int>, m0: map<int, string>, rules: seq<P.Rule>, tw: int)
    requires StartsWith(header, "@@")
    ensures HunkStart(header).Some? ==>
      ScanLines([header] + rest, Scanning(lineNo, m0), rules, tw)
        == ScanLines(rest, Scanning(Some(HunkStart(header).value), m0), rules, tw)
    ensures HunkStart(header).None? ==>
      ScanLines([header] + rest, Scanning(lineNo, m0), rules, tw) == Stopped(Skipped(BadHunkHeader))
  {
    assert ([header] + rest)[0] == header && ([header] + rest)[1..] == rest;
    if HunkStart(header).None? {
      ScanStopped(rest, Skipped(BadHunkHeader), rules, tw);
    }
  }

  /**
   * The scan never looks at the changes already recorded: changes `m0` made
   * before a run of lines come out of it as they went in, except where the
   * run records a line of its own.
   */
  lemma {:induction false} ScanCarries(lines: seq<string>, lineNo: Option<int>, m0: map<int, string>, m1: map<int, string>,
                                       rules: seq<P.Rule>, tw: int)
    ensures var r := ScanLines(lines, Scanning(lineNo, m1), rules, tw);
      ScanLines(lines, Scanning(lineNo, m0 + m1), rules, tw) == if r.Stopped? then r else Scanning(r.lineNo, m0 + r.changes)
    decreases |lines|
  {
    if lines != [] {
      var s1 := Step(Scanning(lineNo, m1), lines[0], rules, tw);
      StepCarries(lines[0], lineNo, m0, m1, rules, tw);
      if s1.Stopped? {
        ScanStopped(lines[1..], s1.outcome, rules, tw);
      } else {
        ScanCarries(lines[1..], s1.lineNo, m0, s1.changes, rules, tw);
      }
    }
  }

  /** One pass carries the earlier changes `m0` along. */
  lemma StepCarries(line: string, lineNo: Option<int>, m0: map<int, string>, m1: map<int, string>, rules: seq<P.Rule>, tw: int)
    ensures var s1 := Step(Scanning(lineNo, m1), line, rules, tw);
      Step(Scanning(lineNo, m0 + m1), line, rules, tw) == if s1.Stopped? then s1 else Scanning(s1.lineNo, m0 + s1.changes)
  {
    if !StartsWith(line, "@@") && Counted(line) && lineNo.Some? {
      var k := lineNo.value;
      var e := Entry(line, rules, tw);
      assert (m0 + m1)[k := e] == m0 + m1[k := e];
    }
  }

  /** One hunk of a patch: its "@@" header line and the lines up to the next header. */
  datatype Hunk = Hunk(header: string, body: seq<string>)

  /** A hunk header with a readable start line, and a body free of further headers. */
  predicate WellFormed(h: Hunk) {
    StartsWith(h.header, "@@") && HunkStart(h.header).Some? && NoHeader(h.body)
  }

  predicate AllWellFormed(hs: seq<Hunk>) {
    forall i :: 0 <= i < |hs| ==> WellFormed(hs[i])
  }

  /** The patch lines of a run of hunks, one after the other. */
  function HunkLines(hs: seq<Hunk>): seq<string>
    decreases |hs|
  {
    if hs == [] then [] else HunkLines(hs[..|hs| - 1]) + ([hs[|hs| - 1].header] + hs[|hs| - 1].body)
  }

  /**
   * The changes one hunk records on its own: its counted lines take the
   * numbers from its start line on, in order (HunkChangesOfLines).
   */
  function HunkChanges(h: Hunk, rules: seq<P.Rule>, tw: int): map<int, string>
    requires WellFormed(h)
  {
    var n := HunkStart(h.header).value;
    ScanHunkGoesOn(h.body, n, rules, tw);
    ScanLines(h.body, Scanning(Some(n), map[]), rules, tw).changes
  }

  /** The p-th counted line of a hunk is recorded at its start line plus p, and nothing else is. */
  lemma HunkChangesOfLines(h: Hunk, rules: seq<P.Rule>, tw: int)
    requires WellFormed(h)
    ensures var n := HunkStart(h.header).value;
      var c := HunkChanges(h, rules, tw);
      && (forall k :: k in c <==> n <= k < n + Rank(h.body, |h.body|))
      && (forall p :: 0 <= p < |h.body| && Counted(h.body[p]) ==>
            n + Rank(h.body, p) in c && c[n + Rank(h.body, p)] == Entry(h.body[p], rules, tw))
  {
    ScanFreshHunk(h.body, HunkStart(h.header).value, rules, tw);
  }

  /** The changes each hunk of a run records on its own, in the order of the hunks. */
  function HunkMaps(hs: seq<Hunk>, rules: seq<P.Rule>, tw: int): (ms: seq<map<int, string>>)
    requires AllWellFormed(hs)
    ensures |ms| == |hs| && forall i :: 0 <= i < |hs| ==> ms[i] == HunkChanges(hs[i], rules, tw)
    decreases |hs|
  {
    if hs == [] then []
    else
      var init := hs[..|hs| - 1];
      assert forall i :: 0 <= i < |init| ==> init[i] == hs[i];
      HunkMaps(init, rules, tw) + [HunkChanges(hs[|hs| - 1], rules, tw)]
  }

  /** Maps laid one over the other, a later map's entry replacing an earlier one's. */
  function Overlay(ms: seq<map<int, string>>): map<int, string>
    decreases |ms|
  {
    if ms == [] then map[] else Overlay(ms[..|ms| - 1]) + ms[|ms| - 1]
  }

  /** Map i holds key k and no later map does. */
  predicate LastHolder(ms: seq<map<int, string>>, k: int, i: int)
    requires 0 <= i < |ms|
  {
    k in ms[i] && forall j :: i < j < |ms| ==> k !in ms[j]
  }

  /**
   * A key any map holds is in the overlay, with the value of the last map
   * that holds it; no other key is.
   */
  lemma {:induction false} OverlayLastWins(ms: seq<map<int, string>>)
    ensures forall k :: k in Overlay(ms) ==> exists i :: 0 <= i < |ms| && LastHolder(ms, k, i) && Overlay(ms)[k] == ms[i][k]
    ensures forall i, k :: 0 <= i < |ms| && k in ms[i] ==> k in Overlay(ms)
    decreases |ms|
  {
    if ms != [] {
      var init := ms[..|ms| - 1];
      OverlayLastWins(init);
      OverlayStep(ms, init, Overlay(init));
    }
  }

  /** The last map laid over the overlay of those before it. */
  lemma OverlayStep(ms: seq<map<int, string>>, init: seq<map<int, string>>, before: map<int, string>)
    requires ms != [] && init == ms[..|ms| - 1]
    requires forall k :: k in before ==> exists i :: 0 <= i < |init| && LastHolder(init, k, i) && before[k] == init[i][k]
    requires forall i, k :: 0 <= i < |init| && k in init[i] ==> k in before
    ensures var c := before + ms[|ms| - 1];
      forall k :: k in c ==> exists i :: 0 <= i < |ms| && LastHolder(ms, k, i) && c[k] == ms[i][k]
    ensures forall i, k :: 0 <= i < |ms| && k in ms[i] ==> k in before + ms[|ms| - 1]
  {
    var last := |ms| - 1;
    var c := before + ms[last];
    forall k | k in c
      ensures exists i :: 0 <= i < |ms| && LastHolder(ms, k, i) && c[k] == ms[i][k]
    {
      if k in ms[last] {
        assert LastHolder(ms, k, last);
      } else {
        var i :| 0 <= i < |init| && LastHolder(init, k, i) && before[k] == init[i][k];
        forall j | i < j < |ms| ensures k !in ms[j] {
          if j < last {
            assert init[j] == ms[j];
          }
        }
        assert LastHolder(ms, k, i);
      }
    }
    forall i, k | 0 <= i < |ms| && k in ms[i] ensures k in c {
      if i < last {
        assert init[i] == ms[i];
      }
    }
  }

  /** One hunk, header and body, scanned from any state still scanning. */
  lemma ScanOneHunk(h: Hunk, lineNo: Option<int>, m0: map<int, string>, rules: seq<P.Rule>, tw: int)
    requires WellFormed(h)
    ensures var r := ScanLines([h.header] + h.body, Scanning(lineNo, m0), rules, tw);
      r.Scanning? && r.changes == m0 + HunkChanges(h, rules, tw)
  {
    var n := HunkStart(h.header).value;
    ScanHeaderStep(h.header, h.body, lineNo, m0, rules, tw);
    ScanHunkGoesOn(h.body, n, rules, tw);
    assert m0 + map[] == m0;
    ScanCarries(h.body, Some(n), m0, map[], rules, tw);
  }

  /**
   * Hunks scanned one after the other, from any state still scanning: the
   * scan goes on, and the changes so far are kept except where a hunk
   * records a line, where the last such hunk's entry stands.
   */
  lemma {:induction false} ScanHunks(hs: seq<Hunk>, lineNo: Option<int>, m0: map<int, string>, rules: seq<P.Rule>, tw: int)
    requires AllWellFormed(hs)
    ensures var r := ScanLines(HunkLines(hs), Scanning(lineNo, m0), rules, tw);
      r.Scanning? && r.changes == m0 + Overlay(HunkMaps(hs, rules, tw))
    decreases |hs|
  {
    if hs == [] {
      assert m0 + map[] == m0;
    } else {
      var init := hs[..|hs| - 1];
      var h := hs[|hs| - 1];
      assert AllWellFormed(init) by {
        forall i | 0 <= i < |init| ensures WellFormed(init[i]) {
          assert init[i] == hs[i];
        }
      }
      var before := Overlay(HunkMaps(init, rules, tw));
      var own := HunkChanges(h, rules, tw);
      var mid := ScanLines(HunkLines(init), Scanning(lineNo, m0), rules, tw);
      assert ScanLines(HunkLines(hs), Scanning(lineNo, m0), rules, tw) == ScanLines([h.header] + h.body, mid, rules, tw) by {
        ScanLinesAppend(HunkLines(init), [h.header] + h.body, Scanning(lineNo, m0), rules, tw);
      }
      assert mid.Scanning? && mid.changes == m0 + before by {
        ScanHunks(init, lineNo, m0, rules, tw);
      }
      var r := ScanLines([h.header] + h.body, mid, rules, tw);
      assert r.Scanning? && r.changes == (m0 + before) + own by {
        assert mid == Scanning(mid.lineNo, m0 + before);
        ScanOneHunk(h, mid.lineNo, m0 + before, rules, tw);
      }
      assert Overlay(HunkMaps(hs, rules, tw)) == before + own by {
        OverlayOfHunks(hs, init, rules, tw);
      }
      ChangesLaidOver(ScanLines(HunkLines(hs), Scanning(lineNo, m0), rules, tw), r, m0, before, own, Overlay(HunkMaps(hs, rules, tw)));
    }
  }

  /** A scan that ends with `before` and then `own` laid over `m0` ends with their overlay laid over `m0`. */
  lemma ChangesLaidOver(x: Scan, y: Scan, m0: map<int, string>, before: map<int, string>, own: map<int, string>, o: map<int, string>)
    requires x == y && y.Scanning? && y.changes == (m0 + before) + own && o == before + own
    ensures x.Scanning? && x.changes == m0 + o
  {
    assert (m0 + before) + own == m0 + (before + own);
  }

  lemma OverlayOfHunks(hs: seq<Hunk>, init: seq<Hunk>, rules: seq<P.Rule>, tw: int)
    requires AllWellFormed(hs) && hs != [] && init == hs[..|hs| - 1] && AllWellFormed(init)
    ensures Overlay(HunkMaps(hs, rules, tw)) == Overlay(HunkMaps(init, rules, tw)) + HunkChanges(hs[|hs| - 1], rules, tw)
  {
    var ms := HunkMaps(hs, rules, tw);
    assert ms[..|ms| - 1] == HunkMaps(init, rules, tw);
  }

  /**
   * A diff as git writes it: a "---" line, "+++ b/<path>", and any number
   * of hunks. It rewrites `path` with the changes of all its hunks, a later
   * hunk's entry winning where two hunks record the same line.
   */
  lemma ParseDiffHunks(change: FileChange, patch: seq<string>, path: string, hs: seq<Hunk>, rules: seq<P.Rule>, tw: int)
    requires !change.deletedFile && !change.renamed
    requires |patch| >= 2 && forall j :: 0 <= j < |patch| ==> '\n' !in patch[j]
    requires |path| > 0 && patch[1] == "+++ b/" + path
    requires AllWellFormed(hs) && patch[2..] == HunkLines(hs)
    requires change.diff == Join(patch, '\n')
    ensures ParseDiff(change, rules, tw) == Rewrite(path, Overlay(HunkMaps(hs, rules, tw)))
  {
    HeaderOfPatch(change, patch, path);
    HunksOfPatch(patch, hs, rules, tw);
    ParseDiffRewrite(change, patch, path, rules, tw);
  }

  /** The diff splits back into its lines, and its second line names `path`. */
  lemma HeaderOfPatch(change: FileChange, patch: seq<string>, path: string)
    requires |patch| >= 2 && forall j :: 0 <= j < |patch| ==> '\n' !in patch[j]
    requires |path| > 0 && patch[1] == "+++ b/" + path
    requires change.diff == Join(patch, '\n')
    ensures SplitOn(change.diff, '\n') == patch && PathInfo(patch[1]) == Some(path)
  {
    SplitOnJoin(patch, '\n');
    assert '\n' !in path by {
      forall i | 0 <= i < |path| ensures path[i] != '\n' {
        assert path[i] == patch[1][6 + i];
      }
    }
    PathInfoHeader(path);
  }

  /** The lines after the header scan as the hunks, from the start of the scan. */
  lemma HunksOfPatch(patch: seq<string>, hs: seq<Hunk>, rules: seq<P.Rule>, tw: int)
    requires |patch| >= 2 && AllWellFormed(hs) && patch[2..] == HunkLines(hs)
    ensures var r := ScanLines(patch[2..], Scanning(None, map[]), rules, tw);
      r.Scanning? && r.changes == Overlay(HunkMaps(hs, rules, tw))
  {
    ScanHunks(hs, None, map[], rules, tw);
    assert map[] + Overlay(HunkMaps(hs, rules, tw)) == Overlay(HunkMaps(hs, rules, tw));
  }

  /** Some line before the j-th is a hunk header. */
  predicate HeaderBefore(lines: seq<string>, j: int) {
    exists i :: 0 <= i < j && i < |lines| && StartsWith(lines[i], "@@")
  }

  /**
   * The j-th line stops a scan that had (`started`) or had not met a hunk
   * header before the lines: a header without a readable start line, or
   * an added or context line with no header before it.
   */
  predicate Stops(lines: seq<string>, started: bool, j: int)
    requires 0 <= j < |lines|
  {
    if StartsWith(lines[j], "@@") then HunkStart(lines[j]).None?
    else Counted(lines[j]) && !started && !HeaderBefore(lines, j)
  }

  /** How a stopping line ends sanitize_diff. */
  function StopOutcome(line: string): Outcome {
    if StartsWith(line, "@@") then Skipped(BadHunkHeader) else Crashed(LineNoUnset)
  }

  /** Past the first line, a line stops the scan as it stops the scan of the rest. */
  lemma StopsShift(lines: seq<string>, started: bool, j: int)
    requires 0 < j < |lines|
    ensures Stops(lines, started, j) == Stops(lines[1..], started || StartsWith(lines[0], "@@"), j - 1)
  {
    assert lines[1..][j - 1] == lines[j];
    if StartsWith(lines[0], "@@") {
      assert HeaderBefore(lines, j);
    }
    if HeaderBefore(lines[1..], j - 1) {
      var i :| 0 <= i < j - 1 && i < |lines[1..]| && StartsWith(lines[1..][i], "@@");
      assert lines[i + 1] == lines[1..][i];
    }
    if HeaderBefore(lines, j) && !StartsWith(lines[0], "@@") {
      var i :| 0 <= i < j && i < |lines| && StartsWith(lines[i], "@@");
      assert i > 0 && lines[1..][i - 1] == lines[i];
    }
  }

  /** A first line that does not stop the scan leaves it scanning, started once a header was met. */
  lemma StepGoesOn(lines: seq<string>, lineNo: Option<int>, m0: map<int, string>, rules: seq<P.Rule>, tw: int)
    requires |lines| > 0 && !Stops(lines, lineNo.Some?, 0)
    ensures var st := Step(Scanning(lineNo, m0), lines[0], rules, tw);
      st.Scanning? && st.lineNo.Some? == (lineNo.Some? || StartsWith(lines[0], "@@"))
  {
    assert !HeaderBefore(lines, 0);
  }

  /** The scan ends at the first line that stops it, with that line's outcome. */
  lemma {:induction false} ScanFirstStop(lines: seq<string>, lineNo: Option<int>, m0: map<int, string>, j: int,
                                         rules: seq<P.Rule>, tw: int)
    requires 0 <= j < |lines| && Stops(lines, lineNo.Some?, j)
    requires forall i :: 0 <= i < j ==> !Stops(lines, lineNo.Some?, i)
    ensures ScanLines(lines, Scanning(lineNo, m0), rules, tw) == Stopped(StopOutcome(lines[j]))
    decreases j
  {
    if j == 0 {
      assert !HeaderBefore(lines, 0);
      ScanStopped(lines[1..], StopOutcome(lines[0]), rules, tw);
    } else {
      var started := lineNo.Some? || StartsWith(lines[0], "@@");
      StepGoesOn(lines, lineNo, m0, rules, tw);
      var st := Step(Scanning(lineNo, m0), lines[0], rules, tw);
      forall i | 0 <= i < j - 1 ensures !Stops(lines[1..], started, i) {
        StopsShift(lines, lineNo.Some?, i + 1);
      }
      StopsShift(lines, lineNo.Some?, j);
      assert lines[1..][j - 1] == lines[j];
      ScanFirstStop(lines[1..], st.lineNo, st.changes, j - 1, rules, tw);
    }
  }

  /** With no line that stops it, the scan runs to the end. */
  lemma {:induction false} ScanNoStop(lines: seq<string>, lineNo: Option<int>, m0: map<int, string>, rules: seq<P.Rule>, tw: int)
    requires forall i :: 0 <= i < |lines| ==> !Stops(lines, lineNo.Some?, i)
    ensures ScanLines(lines, Scanning(lineNo, m0), rules, tw).Scanning?
    decreases |lines|
  {
    if lines != [] {
      var started := lineNo.Some? || StartsWith(lines[0], "@@");
      StepGoesOn(lines, lineNo, m0, rules, tw);
      var st := Step(Scanning(lineNo, m0), lines[0], rules, tw);
      forall i | 0 <= i < |lines| - 1 ensures !Stops(lines[1..], started, i) {
        StopsShift(lines, lineNo.Some?, i + 1);
      }
      ScanNoStop(lines[1..], st.lineNo, st.changes, rules, tw);
    }
  }

  /**
   * A change whose patch names its file stops at the first hunk line that
   * stops the scan: a bad hunk header skips the file, an added or context
   * line before any header raises.
   */
  lemma ParseDiffFirstStop(change: FileChange, j: int, rules: seq<P.Rule>, tw: int)
    requires !change.deletedFile && !change.renamed
    requires var patch := SplitOn(change.diff, '\n');
      && |patch| >= 2 && PathInfo(patch[1]).Some?
      && 0 <= j < |patch| - 2 && Stops(patch[2..], false, j)
      && forall i :: 0 <= i < j ==> !Stops(patch[2..], false, i)
    ensures ParseDiff(change, rules, tw) == StopOutcome(SplitOn(change.diff, '\n')[2 + j])
  {
    var patch := SplitOn(change.diff, '\n');
    ScanFirstStop(patch[2..], None, map[], j, rules, tw);
    assert patch[2..][j] == patch[2 + j];
  }

  /** A change whose patch names its file and has no stopping line rewrites that file. */
  lemma ParseDiffNoStop(change: FileChange, rules: seq<P.Rule>, tw: int)
    requires !change.deletedFile && !change.renamed
    requires var patch := SplitOn(change.diff, '\n');
      && |patch| >= 2 && PathInfo(patch[1]).Some?
      && forall i :: 0 <= i < |patch| - 2 ==> !Stops(patch[2..], false, i)
    ensures var o := ParseDiff(change, rules, tw);
      o.Rewrite? && o.path == PathInfo(SplitOn(change.diff, '\n')[1]).value
  {
    var patch := SplitOn(change.diff, '\n');
    ScanNoStop(patch[2..], None, map[], rules, tw);
  }

  // ---------------------------------------------------------------------
  // Merging the changes into the file
  // ---------------------------------------------------------------------

  /**
   * The rewrite loop from line number `lineNo` on: each line of the file
   * is replaced by the change recorded for its number, if any.
   */
  function MergeFrom(lines: seq<string>, changes: map<int, string>, lineNo: int): (r: seq<string>)
    ensures |r| == |lines|
    ensures forall i :: 0 <= i < |lines| ==> r[i] == if lineNo + i in changes then changes[lineNo + i] else lines[i]
    decreases |lines|
  {
    if lines == [] then []
    else [if lineNo in changes then changes[lineNo] else lines[0]] + MergeFrom(lines[1..], changes, lineNo + 1)
  }

  /** `line_changes.get(line_no, line)` over the file's lines, numbered from 1. */
  function Merge(lines: seq<string>, changes: map<int, string>): (r: seq<string>)
    ensures |r| == |lines|
    ensures forall i :: 0 <= i < |lines| ==> r[i] == if i + 1 in changes then changes[i + 1] else lines[i]
  {
    MergeFrom(lines, changes, 1)
  }

  /** No changes: the file is written back as it was. */
  lemma MergeNoChanges(lines: seq<string>)
    ensures Merge(lines, map[]) == lines
  {
  }

  /** Changes that repeat the lines they replace leave the lines as they are. */
  lemma MergeAgreeing(lines: seq<string>, changes: map<int, string>)
    requires forall k :: k in changes && 1 <= k <= |lines| ==> changes[k] == lines[k - 1]
    ensures Merge(lines, changes) == lines
  {
  }

  /** Changes recorded past the end of the file, or before line 1, are dropped. */
  lemma MergeOutOfRange(lines: seq<string>, changes: map<int, string>)
    ensures Merge(lines, changes) == Merge(lines, map k | k in changes && 1 <= k <= |lines| :: changes[k])
  {
  }

  /** Running the rewrite a second time with the same changes changes nothing more. */
  lemma MergeIdempotent(lines: seq<string>, changes: map<int, string>)
    ensures Merge(Merge(lines, changes), changes) == Merge(lines, changes)
  {
  }

  /** With no changes the bytes written are the bytes read. */
  lemma RewriteWithoutChangesKeepsBytes(content: string)
    ensures Concat(Merge(SplitLines(content), map[])) == content
  {
    MergeNoChanges(SplitLines(content));
    ConcatSplitLines(content);
  }

  /**
   * An added line "foo   " recorded at line 3 of a five-line file, with
   * blank-at-eol on: line 3 becomes "foo", the others stay.
   */
  lemma MergeScenario(lines: seq<string>)
    requires |lines| == 5
    ensures var r := Merge(lines, map[3 := P.SanitizeLine("foo   ", [P.BlankAtEol], 8) + "\n"]);
      |r| == 5 && r[2] == "foo\n" && r[0] == lines[0] && r[1] == lines[1] && r[3] == lines[3] && r[4] == lines[4]
  {
    SanitizeFoo();
  }

  lemma SanitizeFoo()
    ensures P.SanitizeLine("foo   ", [P.BlankAtEol], 8) == "foo"
  {
    RStripUnique("foo   ", ' ', "foo");
    assert P.SanitizeLine("foo   ", [P.BlankAtEol], 8) == P.SanitizeLine("foo", [], 8);
  }

  /** The rewrite loop as sanitize_diff runs it: one line read, one line written. */
  method RewriteLines(backup: seq<string>, changes: map<int, string>) returns (written: seq<string>)
    ensures written == Merge(backup, changes)
  {
    written := [];
    var lineNo := 1;
    for i := 0 to |backup|
      invariant lineNo == i + 1
      invariant written == Merge(backup, changes)[..i]
    {
      var line := backup[i];
      written := written + [if lineNo in changes then changes[lineNo] else line];
      lineNo := lineNo + 1;
    }
  }
}
