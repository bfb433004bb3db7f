/**
 * The Python 2 string primitives the whitespace fixer is built from:
 * `\s` and `str.isspace`, `rstrip`, `strip`, `split`, `int()`, substring
 * search, and the line iteration of a file opened in binary mode.
 * Characters stand for the bytes of Python 2 byte strings.
 */
module Text {
  import opened Wrappers

  /** Python 2's `\s` (no UNICODE flag) and `str.isspace` on byte strings. */
  predicate IsWs(c: char) {
    c == ' ' || c == '\t' || c == '\n' || c == '\r' || c == '\U{000B}' || c == '\U{000C}'
  }

  predicate AllWs(s: string) {
    forall i :: 0 <= i < |s| ==> IsWs(s[i])
  }

  predicate NoWs(s: string) {
    forall i :: 0 <= i < |s| ==> !IsWs(s[i])
  }

  predicate AllChar(s: string, c: char) {
    forall i :: 0 <= i < |s| ==> s[i] == c
  }

  predicate EndsWith(s: string, c: char) {
    |s| > 0 && s[|s| - 1] == c
  }

  predicate StartsWith(s: string, prefix: string) {
    prefix <= s
  }

  function Repeat(c: char, n: nat): (r: string)
    ensures |r| == n && AllChar(r, c)
  {
    seq(n, _ => c)
  }

  /** Number of occurrences of `c` in `s`. */
  function Count(s: string, c: char): nat
  {
    if s == [] then 0 else (if s[0] == c then 1 else 0) + Count(s[1..], c)
  }

  /** Index of the first `c` in `s`. */
  function IndexOf(s: string, c: char): (i: nat)
    requires c in s
    ensures i < |s| && s[i] == c && c !in s[..i]
  {
    if s[0] == c then 0 else 1 + IndexOf(s[1..], c)
  }

  /** `s.rstrip(c)`: drops the maximal run of `c` at the end of `s`. */
  function RStrip(s: string, c: char): (r: string)
    ensures r <= s
    ensures !EndsWith(r, c)
    ensures AllChar(s[|r|..], c)
  {
    if EndsWith(s, c) then RStrip(s[..|s| - 1], c) else s
  }

  /** The three facts above pin `RStrip` down: it is the only such prefix. */
  lemma RStripUnique(s: string, c: char, p: string)
    requires p <= s && !EndsWith(p, c) && AllChar(s[|p|..], c)
    ensures p == RStrip(s, c)
  {
  }

  lemma RStripIdempotent(s: string, c: char)
    ensures RStrip(RStrip(s, c), c) == RStrip(s, c)
  {
  }

  /** Length of the maximal run of whitespace at the front of `s`. */
  function WsPrefixLen(s: string): (k: nat)
    ensures k <= |s| && AllWs(s[..k])
    ensures k == |s| || !IsWs(s[k])
  {
    if s != [] && IsWs(s[0]) then
      var k := 1 + WsPrefixLen(s[1..]);
      assert forall i :: 1 <= i < k ==> s[..k][i] == s[1..][..k - 1][i - 1];
      k
    else 0
  }

  lemma {:induction false} WsPrefixLenUnique(s: string, k: nat)
    requires k <= |s| && AllWs(s[..k])
    requires k == |s| || !IsWs(s[k])
    ensures WsPrefixLen(s) == k
    decreases k
  {
    if k > 0 {
      assert IsWs(s[..k][0]);
      var t := s[1..][..k - 1];
      assert AllWs(t) by {
        forall i | 0 <= i < |t| ensures IsWs(t[i]) {
          assert t[i] == s[..k][i + 1];
        }
      }
      WsPrefixLenUnique(s[1..], k - 1);
    }
  }

  /** Drops the maximal run of whitespace at the end of `s`. */
  function RStripWs(s: string): (r: string)
    ensures r <= s
    ensures r == [] || !IsWs(r[|r| - 1])
    ensures AllWs(s[|r|..])
  {
    if s != [] && IsWs(s[|s| - 1]) then RStripWs(s[..|s| - 1]) else s
  }

  /** Python's `str.strip()` with no argument. */
  function Strip(s: string): (r: string)
    ensures r == [] || (!IsWs(r[0]) && !IsWs(r[|r| - 1]))
  {
    var t := RStripWs(s);
    t[WsPrefixLen(t)..]
  }

  /** A string that neither starts nor ends with whitespace is its own `strip()`. */
  lemma StripNoWsEnds(s: string)
    requires s == [] || (!IsWs(s[0]) && !IsWs(s[|s| - 1]))
    ensures Strip(s) == s
  {
    assert RStripWs(s) == s;
    if s != [] {
      WsPrefixLenUnique(s, 0);
    }
  }

  /** `s.split(c)`: the pieces between occurrences of `c`; never empty. */
  function SplitOn(s: string, c: char): (parts: seq<string>)
    ensures |parts| == Count(s, c) + 1
    ensures forall k :: 0 <= k < |parts| ==> c !in parts[k]
  {
    if c !in s then
      CountAbsent(s, c);
      [s]
    else
      var i := IndexOf(s, c);
      CountSplit(s, c, i);
      [s[..i]] + SplitOn(s[i + 1..], c)
  }

  /** `c.join(parts)`. */
  function Join(parts: seq<string>, c: char): string
    requires |parts| > 0
  {
    if |parts| == 1 then parts[0] else parts[0] + [c] + Join(parts[1..], c)
  }

  lemma CountAbsent(s: string, c: char)
    requires c !in s
    ensures Count(s, c) == 0
  {
    if s != [] {
      CountAbsent(s[1..], c);
    }
  }

  lemma CountSplit(s: string, c: char, i: nat)
    requires i < |s| && s[i] == c && c !in s[..i]
    ensures Count(s, c) == 1 + Count(s[i + 1..], c)
  {
    if i > 0 {
      assert s[1..][..i - 1] == s[..i][1..];
      CountSplit(s[1..], c, i - 1);
      assert s[1..][i..] == s[i + 1..];
    }
  }

  /** Splitting and joining on the same separator gives back the string. */
  lemma {:induction false} JoinSplitOn(s: string, c: char)
    ensures Join(SplitOn(s, c), c) == s
    decreases |s|
  {
    if c in s {
      var i := IndexOf(s, c);
      JoinSplitOn(s[i + 1..], c);
      assert s == s[..i] + [c] + s[i + 1..];
    }
  }

  /** Joining pieces free of the separator and splitting again gives back the pieces. */
  lemma {:induction false} SplitOnJoin(parts: seq<string>, c: char)
    requires |parts| > 0
    requires forall k :: 0 <= k < |parts| ==> c !in parts[k]
    ensures SplitOn(Join(parts, c), c) == parts
    decreases |parts|
  {
    var head := parts[0];
    assert c !in head;
    if |parts| == 1 {
      assert SplitOn(head, c) == [head];
    } else {
      var tail := parts[1..];
      assert forall k :: 0 <= k < |tail| ==> c !in tail[k] by {
        forall k | 0 <= k < |tail| ensures c !in tail[k] {
          assert tail[k] == parts[k + 1];
        }
      }
      SplitOnJoin(tail, c);
      assert Join(parts, c) == head + [c] + Join(tail, c);
      SplitOnCons(head, Join(tail, c), c);
      assert parts == [head] + tail;
    }
  }

  /** Splitting at a first separator peels off the piece before it. */
  lemma SplitOnCons(a: string, b: string, c: char)
    requires c !in a
    ensures SplitOn(a + [c] + b, c) == [a] + SplitOn(b, c)
  {
    var s := a + [c] + b;
    assert s[|a|] == c;
    assert s[..|a|] == a;
    assert IndexOf(s, c) == |a| by {
      IndexOfAt(s, c, |a|);
    }
    assert s[|a| + 1..] == b;
  }

  lemma {:induction false} IndexOfAt(s: string, c: char, i: nat)
    requires i < |s| && s[i] == c && c !in s[..i]
    ensures IndexOf(s, c) == i
    decreases i
  {
    if i > 0 {
      assert s[..i][0] == s[0];
      assert s[1..][..i - 1] == s[..i][1..];
      IndexOfAt(s[1..], c, i - 1);
    }
  }

  /** The last element of a non-empty sequence (Python's `list.pop()` result). */
  function Last<T>(xs: seq<T>): T
    requires |xs| > 0
  {
    xs[|xs| - 1]
  }

  /** `sub in s` for strings: `sub` occurs in `s` at some position. */
  predicate Contains(s: string, sub: string)
    decreases |s|
  {
    if |s| < |sub| then false else sub <= s || Contains(s[1..], sub)
  }

  lemma {:induction false} ContainsAt(s: string, sub: string, i: nat)
    requires i + |sub| <= |s| && s[i..i + |sub|] == sub
    ensures Contains(s, sub)
    decreases i
  {
    if i > 0 {
      assert s[1..][i - 1..i - 1 + |sub|] == sub;
      ContainsAt(s[1..], sub, i - 1);
    }
  }

  predicate IsDigit(c: char) {
    '0' <= c <= '9'
  }

  predicate AllDigits(s: string) {
    forall i :: 0 <= i < |s| ==> IsDigit(s[i])
  }

  /** Decimal value of a run of digits, read left to right. */
  function DigitsValue(ds: string): nat
    requires AllDigits(ds)
  {
    if ds == [] then 0
    else DigitsValue(ds[..|ds| - 1]) * 10 + (ds[|ds| - 1] as int - '0' as int)
  }

  /** The decimal rendering of `n` (Python's `str(n)` for a non-negative int). */
  function Decimal(n: nat): (ds: string)
    ensures |ds| > 0 && AllDigits(ds)
  {
    var d := ['0' + (n % 10) as char];
    if n < 10 then d else Decimal(n / 10) + d
  }

  lemma {:induction false} DigitsValueDecimal(n: nat)
    ensures DigitsValue(Decimal(n)) == n
  {
    var ds := Decimal(n);
    if n >= 10 {
      DigitsValueDecimal(n / 10);
      assert ds[..|ds| - 1] == Decimal(n / 10);
    }
  }

  /**
   * Python 2 `int(s)` on a byte string, decimal only: whitespace is
   * ignored around the number and also between an optional sign and the
   * digits (CPython's `PyOS_strtol` skips blanks again after the sign);
   * one or more digits must follow, and anything else raises ValueError,
   * modelled as None.
   */
  function ParseInt(s: string): (r: Option<int>)
    ensures r.Some? ==> var t := Strip(s); |t| > 0 && IsDigit(t[|t| - 1])
    ensures r.Some? ==> var t := Strip(s); |t| > 0 && (IsDigit(t[0]) || t[0] == '-' || t[0] == '+')
    ensures r.Some? && r.value < 0 ==> Strip(s)[0] == '-'
  {
    var t := Strip(s);
    if |t| > 0 && (t[0] == '-' || t[0] == '+') then
      var ds := t[1..][WsPrefixLen(t[1..])..];
      if |ds| > 0 && AllDigits(ds) then
        assert t[|t| - 1] == ds[|ds| - 1];
        Some(if t[0] == '-' then -(DigitsValue(ds) as int) else DigitsValue(ds))
      else None
    else if |t| > 0 && AllDigits(t) then Some(DigitsValue(t))
    else None
  }

  /** A blank between the sign and the digits is skipped: `int("- 4") == -4` and `int("+\t12") == 12`. */
  lemma ParseIntBlankAfterSign()
    ensures ParseInt("- 4") == Some(-4)
    ensures ParseInt("+\t12") == Some(12)
  {
    ParseIntMinusBlank();
    ParseIntPlusTab();
  }

  lemma ParseIntMinusBlank()
    ensures ParseInt("- 4") == Some(-4)
  {
    StripNoWsEnds("- 4");
    assert "- 4"[1..] == " 4";
    WsPrefixLenUnique(" 4", 1);
    assert " 4"[1..] == "4";
  }

  lemma ParseIntPlusTab()
    ensures ParseInt("+\t12") == Some(12)
  {
    StripNoWsEnds("+\t12");
    assert "+\t12"[1..] == "\t12";
    WsPrefixLenUnique("\t12", 1);
    assert "\t12"[1..] == "12";
    assert DigitsValue("12") == 12 by {
      assert "12"[..1] == "1";
      assert DigitsValue("1") == DigitsValue("") * 10 + 1 by {
        assert "1"[..0] == "";
      }
    }
  }

  /**
   * Every text of the accepted form `[blanks][sign][blanks]digits[blanks]`
   * parses, to the digits' value, negated after a '-': `int(" 4") == 4`,
   * `int("+4") == 4`, `int("007") == 7`.
   */
  lemma {:induction false} ParseIntAccepts(pre: string, sg: char, mid: string, ds: string, post: string)
    requires AllWs(pre) && AllWs(mid) && AllWs(post) && |ds| > 0 && AllDigits(ds)
    ensures ParseInt(pre + ds + post) == Some(DigitsValue(ds))
    ensures sg == '+' || sg == '-' ==>
      ParseInt(pre + [sg] + mid + ds + post) == Some(if sg == '-' then -(DigitsValue(ds) as int) else DigitsValue(ds))
  {
    ParseIntPadded(pre, ds, post);
    if sg == '+' || sg == '-' {
      ParseIntSignedPadded(pre, sg, mid, ds, post);
    }
  }

  lemma {:induction false} ParseIntPadded(pre: string, ds: string, post: string)
    requires AllWs(pre) && AllWs(post) && |ds| > 0 && AllDigits(ds)
    ensures ParseInt(pre + ds + post) == Some(DigitsValue(ds))
  {
    assert IsDigit(ds[0]) && IsDigit(ds[|ds| - 1]);
    StripPadded(pre, ds, post);
  }

  lemma {:induction false} ParseIntSignedPadded(pre: string, sg: char, mid: string, ds: string, post: string)
    requires sg == '+' || sg == '-'
    requires AllWs(pre) && AllWs(mid) && AllWs(post) && |ds| > 0 && AllDigits(ds)
    ensures ParseInt(pre + [sg] + mid + ds + post) == Some(if sg == '-' then -(DigitsValue(ds) as int) else DigitsValue(ds))
  {
    var core := [sg] + mid + ds;
    assert pre + [sg] + mid + ds + post == pre + core + post;
    assert !IsWs(core[0]) && !IsWs(core[|core| - 1]) by {
      assert core[|core| - 1] == ds[|ds| - 1];
      assert IsDigit(ds[|ds| - 1]);
    }
    StripPadded(pre, core, post);
    StripNoWsEnds(core);
    ParseIntSameStrip(pre + core + post, core);
    ParseIntSigned(sg, mid, ds);
  }

  /** `int()` looks only at the stripped text. */
  lemma ParseIntSameStrip(s: string, s': string)
    requires Strip(s) == Strip(s')
    ensures ParseInt(s) == ParseInt(s')
  {
  }

  /** A sign, blanks, then digits: the stripped text `int()` sees. */
  lemma {:induction false} ParseIntSigned(sg: char, mid: string, ds: string)
    requires sg == '+' || sg == '-'
    requires AllWs(mid) && |ds| > 0 && AllDigits(ds)
    ensures ParseInt([sg] + mid + ds) == Some(if sg == '-' then -(DigitsValue(ds) as int) else DigitsValue(ds))
  {
    var rest := mid + ds;
    var t := [sg] + rest;
    assert t == [sg] + mid + ds;
    assert t[1..] == rest;
    assert !IsWs(t[|t| - 1]) by {
      assert t[|t| - 1] == rest[|rest| - 1] == ds[|ds| - 1];
      assert IsDigit(ds[|ds| - 1]);
    }
    StripNoWsEnds(t);
    SkipBlanks(mid, ds);
    ParseIntSignedText(t, ds);
  }

  /** A stripped text made of a sign, blanks and then digits reads as those digits, signed. */
  lemma ParseIntSignedText(t: string, ds: string)
    requires |t| > 0 && (t[0] == '+' || t[0] == '-') && Strip(t) == t
    requires t[1..][WsPrefixLen(t[1..])..] == ds && |ds| > 0 && AllDigits(ds)
    ensures ParseInt(t) == Some(if t[0] == '-' then -(DigitsValue(ds) as int) else DigitsValue(ds))
  {
  }

  /** Skipping the blanks before a run of digits reaches the digits. */
  lemma {:induction false} SkipBlanks(mid: string, ds: string)
    requires AllWs(mid) && |ds| > 0 && IsDigit(ds[0])
    ensures (mid + ds)[WsPrefixLen(mid + ds)..] == ds
  {
    assert (mid + ds)[..|mid|] == mid;
    assert (mid + ds)[|mid|] == ds[0];
    WsPrefixLenUnique(mid + ds, |mid|);
    assert (mid + ds)[|mid|..] == ds;
  }

  /** `strip()` of a text padded with whitespace on both sides gives the text between. */
  lemma {:induction false} StripPadded(pre: string, core: string, post: string)
    requires AllWs(pre) && AllWs(post)
    requires |core| > 0 && !IsWs(core[0]) && !IsWs(core[|core| - 1])
    ensures Strip(pre + core + post) == core
  {
    assert RStripWs(pre + core + post) == pre + core by {
      RStripWsAfter(pre + core, post);
    }
    assert WsPrefixLen(pre + core) == |pre| by {
      assert (pre + core)[..|pre|] == pre;
      assert (pre + core)[|pre|] == core[0];
      WsPrefixLenUnique(pre + core, |pre|);
    }
    assert (pre + core)[|pre|..] == core;
  }

  /** `rstrip()` drops exactly a whitespace tail that follows a non-blank end. */
  lemma {:induction false} RStripWsAfter(u: string, w: string)
    requires AllWs(w) && (u == [] || !IsWs(u[|u| - 1]))
    ensures RStripWs(u + w) == u
    decreases |w|
  {
    if w == [] {
      assert u + w == u;
    } else {
      assert (u + w)[..|u + w| - 1] == u + w[..|w| - 1];
      assert IsWs((u + w)[|u + w| - 1]) by {
        assert (u + w)[|u + w| - 1] == w[|w| - 1];
      }
      RStripWsAfter(u, w[..|w| - 1]);
    }
  }

  /** `int(str(n)) == n` and `int('-' + str(n)) == -n`. */
  lemma ParseIntDecimal(n: nat)
    ensures ParseInt(Decimal(n)) == Some(n)
    ensures ParseInt("-" + Decimal(n)) == Some(-(n as int))
  {
    ParseIntUnsigned(n);
    ParseIntNegated(n);
  }

  lemma ParseIntUnsigned(n: nat)
    ensures ParseInt(Decimal(n)) == Some(n)
  {
    var ds := Decimal(n);
    assert !IsWs(ds[0]) && !IsWs(ds[|ds| - 1]) by {
      assert IsDigit(ds[0]) && IsDigit(ds[|ds| - 1]);
    }
    StripNoWsEnds(ds);
    assert ds[0] != '-' && ds[0] != '+' by {
      assert IsDigit(ds[0]);
    }
    DigitsValueDecimal(n);
  }

  lemma ParseIntNegated(n: nat)
    ensures ParseInt("-" + Decimal(n)) == Some(-(n as int))
  {
    var ds := Decimal(n);
    var t := "-" + ds;
    assert t[1..] == ds;
    assert WsPrefixLen(ds) == 0 by {
      assert IsDigit(ds[0]);
    }
    assert ds[0..] == ds;
    assert !IsWs(t[|t| - 1]) by {
      assert t[|t| - 1] == ds[|ds| - 1];
      assert IsDigit(ds[|ds| - 1]);
    }
    StripNoWsEnds(t);
    DigitsValueDecimal(n);
  }

  /** Concatenation of a sequence of strings. */
  function Concat(parts: seq<string>): string
  {
    if parts == [] then [] else parts[0] + Concat(parts[1..])
  }

  /**
   * The lines of a file read by iterating over it in binary mode: every
   * line but possibly the last ends with its '\n' terminator, no line is
   * empty, and no line holds a '\n' before its end.
   */
  function SplitLines(s: string): (lines: seq<string>)
    ensures forall k :: 0 <= k < |lines| ==> |lines[k]| > 0 && '\n' !in lines[k][..|lines[k]| - 1]
    ensures forall k :: 0 <= k < |lines| - 1 ==> EndsWith(lines[k], '\n')
  {
    if s == [] then []
    else if '\n' !in s then [s]
    else
      var i := IndexOf(s, '\n');
      assert s[..i + 1][..i] == s[..i];
      [s[..i + 1]] + SplitLines(s[i + 1..])
  }

  /** Reading a file line by line loses nothing: the lines concatenate to its bytes. */
  lemma {:induction false} ConcatSplitLines(s: string)
    ensures Concat(SplitLines(s)) == s
    decreases |s|
  {
    if s != [] && '\n' in s {
      var i := IndexOf(s, '\n');
      ConcatSplitLines(s[i + 1..]);
      assert s == s[..i + 1] + s[i + 1..];
    }
  }
}
