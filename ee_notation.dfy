/**
 * Engineering-notation rewriting done on a cell's text before it reaches the
 * expression evaluator (`ee_parse`, public/main.js:468-480).
 *
 * Each of the nine suffix rules replaces "a run of digits, then any number of
 * spaces, then the suffix" by "the digits, then an exponent"; the rules run one
 * after another over the whole string, and a final pass turns "**" into "^".
 * A global regular-expression replace scans left to right and resumes after
 * each match; because digits, spaces and the first letter of every suffix are
 * disjoint, a match can only begin at the first digit of a digit run, and a run
 * whose first digit does not begin a match has no digit that does.  `Rewrite`
 * is that scan.
 */
module EeNotation {

  /** One line of `ee_parse`: a suffix and the exponent text that replaces it. */
  datatype Rule = Rule(suffix: string, exponent: string)

  /** The rules in the order the source applies them. */
  const Rules: seq<Rule> := [
    Rule("G", "E9"), Rule("M", "E6"), Rule("meg", "E6"),
    Rule("K", "E3"), Rule("k", "E3"), Rule("m", "E-3"),
    Rule("u", "E-6"), Rule("n", "E-9"), Rule("p", "E-12")
  ]

  predicate IsDigit(c: char) { '0' <= c <= '9' }

  predicate NoDigits(s: string) { forall i :: 0 <= i < |s| ==> !IsDigit(s[i]) }

  /** A rule whose suffix cannot begin with a digit or a space, and whose
      exponent begins with a character that neither a space nor the suffix
      begins with: every rule of `Rules` is one. */
  predicate WellFormed(r: Rule)
  {
    && r.suffix != [] && !IsDigit(r.suffix[0]) && r.suffix[0] != ' '
    && r.exponent != [] && r.exponent[0] != ' ' && r.exponent[0] != r.suffix[0]
  }

  lemma RulesWellFormed()
    ensures forall k :: 0 <= k < |Rules| ==> WellFormed(Rules[k])
  {
  }

  /** Length of the maximal run of digits at the start of `s` (`[0-9]+`). */
  function DigitRun(s: string): (n: nat)
    ensures n <= |s|
    ensures forall i :: 0 <= i < n ==> IsDigit(s[i])
    ensures n < |s| ==> !IsDigit(s[n])
    ensures s != [] && IsDigit(s[0]) ==> n >= 1
  {
    if s != [] && IsDigit(s[0]) then 1 + DigitRun(s[1..]) else 0
  }

  /** Length of the maximal run of spaces at the start of `s` (` *`). */
  function SpaceRun(s: string): (n: nat)
    ensures n <= |s|
    ensures forall i :: 0 <= i < n ==> s[i] == ' '
    ensures n < |s| ==> s[n] != ' '
  {
    if s != [] && s[0] == ' ' then 1 + SpaceRun(s[1..]) else 0
  }

  /** Where the suffix would have to start for a match beginning at `s[0]`. */
  function Lead(s: string): (j: nat)
    ensures DigitRun(s) <= j <= |s|
  {
    DigitRun(s) + SpaceRun(s[DigitRun(s)..])
  }

  /** The pattern of rule `r` matches at the start of `t`. */
  predicate MatchesHere(t: string, r: Rule)
  {
    t != [] && IsDigit(t[0]) && r.suffix <= t[Lead(t)..]
  }

  /** The pattern of rule `r` occurs somewhere in `s`. */
  predicate HasMatch(s: string, r: Rule)
  {
    exists i :: 0 <= i < |s| && MatchesHere(s[i..], r)
  }

  /** What one step of the scan writes at the start of `s`, and how many
      characters of `s` it has used up. */
  datatype Chunk = Chunk(out: string, used: nat)

  /** One step of the scan of rule `r`: a character that is not a digit is
      copied; a digit run followed by spaces and the suffix becomes the digits
      and the exponent; a digit run not followed by them is copied. */
  function Step(s: string, r: Rule): (c: Chunk)
    requires s != []
    ensures 0 < c.used <= |s|
  {
    if !IsDigit(s[0]) then Chunk([s[0]], 1)
    else if r.suffix <= s[Lead(s)..] then Chunk(s[..DigitRun(s)] + r.exponent, Lead(s) + |r.suffix|)
    else Chunk(s[..DigitRun(s)], DigitRun(s))
  }

  /** One global replace of `/([0-9]+)( *)SUFFIX/g` by `"$1EXPONENT"`. */
  function Rewrite(s: string, r: Rule): string
    decreases |s|
  {
    if s == [] then [] else Step(s, r).out + Rewrite(s[Step(s, r).used..], r)
  }

  lemma RewriteUnfold(s: string, r: Rule)
    requires s != []
    ensures Rewrite(s, r) == Step(s, r).out + Rewrite(s[Step(s, r).used..], r)
  {
  }

  /** The suffix rules applied one after another. */
  function ApplyRules(s: string, rules: seq<Rule>): string
    decreases |rules|
  {
    if rules == [] then s else ApplyRules(Rewrite(s, rules[0]), rules[1..])
  }

  /** `"**"` starts at position `i` of `s`. */
  predicate StarsAt(s: string, i: int)
  {
    0 <= i && i + 1 < |s| && s[i] == '*' && s[i + 1] == '*'
  }

  predicate HasStars(s: string)
  {
    exists i :: 0 <= i < |s| && StarsAt(s, i)
  }

  // One global replace of the pattern `\*\*` (every "**") by "^".
  function RewriteStars(s: string): string
    decreases |s|
  {
    if StarsAt(s, 0) then "^" + RewriteStars(s[2..])
    else if s == [] then []
    else [s[0]] + RewriteStars(s[1..])
  }

  /** `ee_parse`. */
  function EeParse(s: string): string
  {
    RewriteStars(ApplyRules(s, Rules))
  }

  // ---------------------------------------------------------------------
  // A pass changes the text exactly when its pattern occurs in it.
  // ---------------------------------------------------------------------

  lemma {:induction false} DigitRunDrop(s: string, i: nat)
    requires i <= DigitRun(s)
    ensures DigitRun(s[i..]) == DigitRun(s) - i
    decreases i
  {
    if i > 0 {
      assert s[1..][i - 1..] == s[i..];
      DigitRunDrop(s[1..], i - 1);
    }
  }

  /** Inside a digit run, a match can only start where the run starts. */
  lemma NoMatchInsideRun(s: string, i: nat, r: Rule)
    requires i < DigitRun(s)
    requires !(r.suffix <= s[Lead(s)..])
    ensures !MatchesHere(s[i..], r)
  {
    var d := DigitRun(s);
    DigitRunDrop(s, i);
    assert s[i..][d - i..] == s[d..];
    assert Lead(s[i..]) == Lead(s) - i;
    assert s[i..][Lead(s[i..])..] == s[Lead(s)..];
  }

  /** When no match starts before `k`, the matches of `s` are those of `s[k..]`. */
  lemma HasMatchFrom(s: string, k: nat, r: Rule)
    requires k <= |s|
    requires forall i :: 0 <= i < k ==> !MatchesHere(s[i..], r)
    ensures HasMatch(s, r) <==> HasMatch(s[k..], r)
  {
    if HasMatch(s, r) {
      var i :| 0 <= i < |s| && MatchesHere(s[i..], r);
      assert s[k..][i - k..] == s[i..];
    }
    if HasMatch(s[k..], r) {
      var i :| 0 <= i < |s[k..]| && MatchesHere(s[k..][i..], r);
      assert s[k..][i..] == s[k + i..];
    }
  }

  /** At a digit whose run is followed by the suffix, the pass writes the
      exponent where the text had a space or the suffix. */
  lemma MatchChanges(s: string, r: Rule)
    requires WellFormed(r)
    requires s != [] && IsDigit(s[0]) && r.suffix <= s[Lead(s)..]
    ensures Rewrite(s, r) != s
  {
    var d := DigitRun(s);
    var j := Lead(s);
    var c := Step(s, r);
    assert c.out == s[..d] + r.exponent;
    var out := c.out + Rewrite(s[c.used..], r);
    assert Rewrite(s, r) == out;
    assert out[d] == r.exponent[0];
    if j > d {
      assert s[d] == s[d..][0] == ' ';
    } else {
      assert s[d] == s[j..][0] == r.suffix[0];
    }
  }

  lemma PrefixCancel(p: string, a: string, b: string)
    ensures p + a == p + b <==> a == b
  {
    if p + a == p + b {
      assert a == (p + a)[|p|..];
    }
  }

  /** The step of `RewriteChangesIff` past text the pass copies unchanged:
      the step at `s` copies its first `k` characters, and no match starts
      before `k`. */
  lemma CopiedPrefixStep(s: string, k: nat, r: Rule)
    requires 0 < k <= |s| && Step(s, r) == Chunk(s[..k], k)
    requires forall i :: 0 <= i < k ==> !MatchesHere(s[i..], r)
    requires Rewrite(s[k..], r) == s[k..] <==> !HasMatch(s[k..], r)
    ensures Rewrite(s, r) == s <==> !HasMatch(s, r)
  {
    HasMatchFrom(s, k, r);
    PrefixCancel(s[..k], Rewrite(s[k..], r), s[k..]);
    TakeDrop(s, k);
  }

  lemma {:induction false} RewriteChangesIff(s: string, r: Rule)
    requires WellFormed(r)
    ensures Rewrite(s, r) == s <==> !HasMatch(s, r)
    decreases |s|
  {
    if s == [] {
    } else if !IsDigit(s[0]) {
      RewriteChangesIff(s[1..], r);
      assert s[..1] == [s[0]];
      assert s[0..] == s;
      CopiedPrefixStep(s, 1, r);
    } else if r.suffix <= s[Lead(s)..] {
      assert s[0..] == s;
      assert MatchesHere(s[0..], r);
      MatchChanges(s, r);
    } else {
      var d := DigitRun(s);
      forall i | 0 <= i < d ensures !MatchesHere(s[i..], r) {
        NoMatchInsideRun(s, i, r);
      }
      RewriteChangesIff(s[d..], r);
      CopiedPrefixStep(s, d, r);
    }
  }

  lemma {:induction false} RewriteStarsChangesIff(s: string)
    ensures RewriteStars(s) == s <==> !HasStars(s)
    decreases |s|
  {
    if StarsAt(s, 0) {
      assert RewriteStars(s)[0] == '^';
    } else if s == [] {
    } else {
      RewriteStarsChangesIff(s[1..]);
      var tail := RewriteStars(s[1..]);
      assert ([s[0]] + tail)[1..] == tail;
      assert s == [s[0]] + s[1..];
      if HasStars(s) {
        var i :| 0 <= i < |s| && StarsAt(s, i);
        assert s[1..][i - 1] == s[i] && s[1..][i] == s[i + 1];
        assert StarsAt(s[1..], i - 1);
      }
      if HasStars(s[1..]) {
        var i :| 0 <= i < |s[1..]| && StarsAt(s[1..], i);
        assert s[1..][i] == s[i + 1] && s[1..][i + 1] == s[i + 2];
        assert StarsAt(s, i + 1);
      }
    }
  }

  // ---------------------------------------------------------------------
  // Consequences for `ee_parse`.
  // ---------------------------------------------------------------------

  lemma NoDigitsNoMatch(s: string, r: Rule)
    requires NoDigits(s)
    ensures !HasMatch(s, r)
  {
    forall i | 0 <= i < |s| ensures !MatchesHere(s[i..], r) {
      assert s[i..][0] == s[i];
    }
  }

  lemma {:induction false} ApplyRulesNoDigits(s: string, rules: seq<Rule>)
    requires NoDigits(s)
    requires forall k :: 0 <= k < |rules| ==> WellFormed(rules[k])
    ensures ApplyRules(s, rules) == s
    decreases |rules|
  {
    if rules != [] {
      NoDigitsNoMatch(s, rules[0]);
      RewriteChangesIff(s, rules[0]);
      ApplyRulesNoDigits(s, rules[1..]);
    }
  }

  /** On text without digits only `"**"` is rewritten. */
  lemma EeParseDigitFree(s: string)
    requires NoDigits(s)
    ensures EeParse(s) == RewriteStars(s)
  {
    RulesWellFormed();
    ApplyRulesNoDigits(s, Rules);
  }

  /** Text with no digit and no `"**"` comes back unchanged. */
  lemma EeParsePlainText(s: string)
    requires NoDigits(s) && !HasStars(s)
    ensures EeParse(s) == s
  {
    EeParseDigitFree(s);
    RewriteStarsChangesIff(s);
  }

  lemma EeParseEmpty()
    ensures EeParse("") == ""
  {
    EeParsePlainText("");
  }

  // ---------------------------------------------------------------------
  // A letter that no digit run reaches is kept in place.
  // ---------------------------------------------------------------------

  /** A character that can take part in no rewrite of `ee_parse`: neither a
      digit, nor a space, nor `*`, nor any letter of any suffix. */
  predicate Separator(c: char)
  {
    !IsDigit(c) && c != ' ' && c != '*' && c !in "GMmegKkunp"
  }

  lemma SeparatorInSuffix(c: char, k: nat)
    requires Separator(c) && k < |Rules|
    ensures c !in Rules[k].suffix
  {
  }

  function Last(s: string): char
    requires s != []
  {
    s[|s| - 1]
  }

  lemma TakeDrop(s: string, k: nat)
    requires k <= |s|
    ensures s[..k] + s[k..] == s
  {
  }

  lemma EmptyAppend(e: string, v: string)
    requires e == []
    ensures e + v == v && v + e == v
  {
  }

  lemma DropDrop(s: string, a: nat, b: nat)
    requires a + b <= |s|
    ensures s[a..][b..] == s[a + b..]
  {
  }

  lemma AppendAssoc(a: string, b: string, c: string)
    ensures a + (b + c) == a + b + c
  {
  }

  lemma DropAppend(u: string, v: string, k: nat)
    requires k <= |u|
    ensures (u + v)[k..] == u[k..] + v
  {
  }

  lemma LastAppend(a: string, b: string)
    requires b != []
    ensures a + b != [] && Last(a + b) == Last(b)
  {
  }

  lemma LastDrop(u: string, k: nat)
    requires k < |u|
    ensures Last(u[k..]) == Last(u)
  {
  }

  /** The last character of `u` is one that no match of `r` can contain. */
  predicate EndsClear(u: string, r: Rule)
  {
    u != [] && !IsDigit(Last(u)) && Last(u) != ' ' && Last(u) !in r.suffix
  }

  /** A digit run of `u` and the spaces after it end inside `u`, and so does
      the suffix if it follows them: appending `v` changes none of that. */
  lemma DigitStartAgrees(u: string, v: string, r: Rule)
    requires EndsClear(u, r) && IsDigit(u[0])
    ensures DigitRun(u + v) == DigitRun(u) && Lead(u + v) == Lead(u) < |u|
    ensures r.suffix <= (u + v)[Lead(u)..] <==> r.suffix <= u[Lead(u)..]
    ensures r.suffix <= u[Lead(u)..] ==> Lead(u) + |r.suffix| < |u|
  {
    var s := u + v;
    var d := DigitRun(u);
    DigitRunPrefix(u, v);
    DropAppend(u, v, d);
    LastDrop(u, d);
    SpaceRunPrefix(u[d..], v);
    var j := Lead(u);
    DropAppend(u, v, j);
    if r.suffix <= s[j..] {
      SuffixEndsInside(u, v, j, r.suffix);
    }
    if r.suffix <= u[j..] {
      EmptyAppend([], u);
      SuffixEndsInside(u, [], j, r.suffix);
    }
  }

  /** A suffix occurrence that starts inside `u` cannot reach `u`'s last
      character when that character is not in the suffix. */
  lemma SuffixEndsInside(u: string, v: string, j: nat, suf: string)
    requires j < |u| && suf <= (u + v)[j..] && Last(u) !in suf
    ensures j + |suf| < |u| && suf <= u[j..]
  {
    assert forall i :: j <= i < j + |suf| && i < |u| ==> u[i] == (u + v)[i] == suf[i - j];
  }

  /** The first step of the scan is the same on `u + v` as on `u`, and when
      `u` starts with a digit it ends inside `u`. */
  lemma StepAgrees(u: string, v: string, r: Rule)
    requires EndsClear(u, r)
    ensures Step(u + v, r) == Step(u, r)
    ensures IsDigit(u[0]) ==> Step(u, r).used < |u|
  {
    if IsDigit(u[0]) {
      DigitStartAgrees(u, v, r);
      assert (u + v)[..DigitRun(u)] == u[..DigitRun(u)];
    }
  }

  /** The inductive step of `RewriteSplit`: the scans of `u + v` and of `u`
      take the same first step, which ends inside `u`. */
  lemma SplitStep(u: string, v: string, r: Rule)
    requires u != [] && Step(u + v, r) == Step(u, r) && Step(u, r).used < |u|
    requires var k := Step(u, r).used;
      Rewrite(u[k..] + v, r) == Rewrite(u[k..], r) + Rewrite(v, r)
    requires var k := Step(u, r).used;
      Rewrite(u[k..], r) != [] && Last(Rewrite(u[k..], r)) == Last(u[k..])
    ensures Rewrite(u + v, r) == Rewrite(u, r) + Rewrite(v, r)
    ensures Rewrite(u, r) != [] && Last(Rewrite(u, r)) == Last(u)
  {
    var c := Step(u, r);
    var k := c.used;
    DropAppend(u, v, k);
    LastAppend(c.out, Rewrite(u[k..], r));
    LastDrop(u, k);
  }

  /** A pass splits at a character that cannot take part in its pattern, and
      keeps that character last. */
  lemma {:induction false} RewriteSplit(u: string, v: string, r: Rule)
    requires EndsClear(u, r)
    ensures Rewrite(u + v, r) == Rewrite(u, r) + Rewrite(v, r)
    ensures Rewrite(u, r) != [] && Last(Rewrite(u, r)) == Last(u)
    decreases |u|
  {
    StepAgrees(u, v, r);
    var k := Step(u, r).used;
    if k == |u| {
      SplitSingle(u, v, r);
    } else {
      LastDrop(u, k);
      RewriteSplit(u[k..], v, r);
      SplitStep(u, v, r);
    }
  }

  /** The base case of `RewriteSplit`: the first step of the scan uses up all
      of `u`. */
  lemma SplitSingle(u: string, v: string, r: Rule)
    requires u != [] && Step(u + v, r) == Step(u, r) && Step(u, r).used == |u|
    requires !IsDigit(u[0])
    ensures Rewrite(u + v, r) == Rewrite(u, r) + Rewrite(v, r)
    ensures Rewrite(u, r) != [] && Last(Rewrite(u, r)) == Last(u)
  {
    assert Step(u, r) == Chunk([u[0]], 1);
    DropAppend(u, v, 1);
    EmptyAppend(u[1..], v);
    EmptyAppend(u[1..], []);
    RewriteUnfold(u, r);
    RewriteUnfold(u + v, r);
  }

  lemma {:induction false} DigitRunPrefix(u: string, v: string)
    requires u != [] && !IsDigit(Last(u))
    ensures DigitRun(u + v) == DigitRun(u) < |u|
    decreases |u|
  {
    if IsDigit(u[0]) {
      assert (u + v)[1..] == u[1..] + v;
      DigitRunPrefix(u[1..], v);
    }
  }

  lemma {:induction false} SpaceRunPrefix(u: string, v: string)
    requires u != [] && Last(u) != ' '
    ensures SpaceRun(u + v) == SpaceRun(u) < |u|
    decreases |u|
  {
    if u[0] == ' ' {
      assert (u + v)[1..] == u[1..] + v;
      SpaceRunPrefix(u[1..], v);
    }
  }

  lemma {:induction false} RewriteStarsSplit(u: string, v: string)
    requires u != [] && Last(u) != '*'
    ensures RewriteStars(u + v) == RewriteStars(u) + RewriteStars(v)
    ensures RewriteStars(u) != [] && Last(RewriteStars(u)) == Last(u)
    decreases |u|
  {
    var s := u + v;
    if StarsAt(s, 0) {
      assert |u| >= 2;
      assert StarsAt(u, 0);
      DropAppend(u, v, 2);
      LastDrop(u, 2);
      RewriteStarsSplit(u[2..], v);
      AppendAssoc("^", RewriteStars(u[2..]), RewriteStars(v));
      LastAppend("^", RewriteStars(u[2..]));
    } else if |u| == 1 {
      DropAppend(u, v, 1);
      EmptyAppend(u[1..], v);
      EmptyAppend(u[1..], []);
    } else {
      assert !StarsAt(u, 0);
      DropAppend(u, v, 1);
      LastDrop(u, 1);
      RewriteStarsSplit(u[1..], v);
      AppendAssoc([u[0]], RewriteStars(u[1..]), RewriteStars(v));
      LastAppend([u[0]], RewriteStars(u[1..]));
    }
  }

  lemma {:induction false} ApplyRulesSplit(u: string, v: string, rules: seq<Rule>)
    requires u != [] && Separator(Last(u))
    requires forall k :: 0 <= k < |rules| ==> Last(u) !in rules[k].suffix
    ensures ApplyRules(u + v, rules) == ApplyRules(u, rules) + ApplyRules(v, rules)
    ensures ApplyRules(u, rules) != [] && Last(ApplyRules(u, rules)) == Last(u)
    decreases |rules|
  {
    if rules != [] {
      RewriteSplit(u, v, rules[0]);
      ApplyRulesSplit(Rewrite(u, rules[0]), Rewrite(v, rules[0]), rules[1..]);
    }
  }

  /** `ee_parse` splits after any separator character. */
  lemma EeParseSplit(u: string, v: string)
    requires u != [] && Separator(Last(u))
    ensures EeParse(u + v) == EeParse(u) + EeParse(v)
  {
    forall k | 0 <= k < |Rules| ensures Last(u) !in Rules[k].suffix {
      SeparatorInSuffix(Last(u), k);
    }
    ApplyRulesSplit(u, v, Rules);
    RewriteStarsSplit(ApplyRules(u, Rules), ApplyRules(v, Rules));
  }

  lemma {:induction false} ApplyRulesLeading(c: char, w: string, rules: seq<Rule>)
    requires !IsDigit(c)
    ensures ApplyRules([c] + w, rules) == [c] + ApplyRules(w, rules)
    decreases |rules|
  {
    if rules != [] {
      assert ([c] + w)[1..] == w;
      ApplyRulesLeading(c, Rewrite(w, rules[0]), rules[1..]);
    }
  }

  lemma EeParseLeading(c: char, w: string)
    requires !IsDigit(c) && c != '*'
    ensures EeParse([c] + w) == [c] + EeParse(w)
  {
    ApplyRulesLeading(c, w, Rules);
    var t := ApplyRules(w, Rules);
    assert !StarsAt([c] + t, 0);
    assert ([c] + t)[1..] == t;
  }

  /** A letter (any non-digit other than `*`) that follows a separator is
      kept, and the text on either side is rewritten on its own: in particular
      a suffix letter with no digits before it is not touched.  At the start of
      the text, `EeParseLeading` says the same. */
  lemma LetterKept(u: string, c: char, w: string)
    requires u != [] && Separator(Last(u))
    requires !IsDigit(c) && c != '*'
    ensures EeParse(u + [c] + w) == EeParse(u) + [c] + EeParse(w)
  {
    EeParseLeading(c, w);
    AppendAssoc(u, [c], w);
    EeParseSplit(u, [c] + w);
    AppendAssoc(EeParse(u), [c], EeParse(w));
  }

  // ---------------------------------------------------------------------
  // What one pass does at a number, and worked examples.
  // ---------------------------------------------------------------------

  lemma {:induction false} DigitRunOf(n: string, t: string)
    requires forall i :: 0 <= i < |n| ==> IsDigit(n[i])
    requires t == [] || !IsDigit(t[0])
    ensures DigitRun(n + t) == |n|
    decreases |n|
  {
    if n != [] {
      assert (n + t)[1..] == n[1..] + t;
      DigitRunOf(n[1..], t);
    } else {
      assert n + t == t;
    }
  }

  lemma {:induction false} SpaceRunOf(sp: string, t: string)
    requires forall i :: 0 <= i < |sp| ==> sp[i] == ' '
    requires t == [] || t[0] != ' '
    ensures SpaceRun(sp + t) == |sp|
    decreases |sp|
  {
    if sp != [] {
      assert (sp + t)[1..] == sp[1..] + t;
      SpaceRunOf(sp[1..], t);
    } else {
      assert sp + t == t;
    }
  }

  /** Spaces that no number precedes are copied. */
  lemma {:induction false} RewriteSpaces(sp: string, t: string, r: Rule)
    requires forall i :: 0 <= i < |sp| ==> sp[i] == ' '
    ensures Rewrite(sp + t, r) == sp + Rewrite(t, r)
    decreases |sp|
  {
    if sp == [] {
      EmptyAppend(sp, t);
      EmptyAppend(sp, Rewrite(t, r));
    } else {
      var s := sp + t;
      assert s[0] == ' ';
      assert Step(s, r) == Chunk([' '], 1);
      DropAppend(sp, t, 1);
      RewriteUnfold(s, r);
      RewriteSpaces(sp[1..], t, r);
      AppendAssoc([' '], sp[1..], Rewrite(t, r));
      TakeDrop(sp, 1);
      assert sp[..1] == [' '];
    }
  }

  /** Where the parts of `n + sp + t` lie for the scan. */
  lemma NumberLayout(n: string, sp: string, t: string)
    requires n != [] && forall i :: 0 <= i < |n| ==> IsDigit(n[i])
    requires forall i :: 0 <= i < |sp| ==> sp[i] == ' '
    requires t == [] || (!IsDigit(t[0]) && t[0] != ' ')
    ensures var s := n + sp + t;
      && DigitRun(s) == |n| && Lead(s) == |n| + |sp|
      && s[..|n|] == n && s[|n|..] == sp + t && s[|n| + |sp|..] == t
  {
    var s := n + sp + t;
    assert s == n + (sp + t);
    DigitRunOf(n, sp + t);
    if sp == [] {
      assert sp + t == t;
    } else {
      assert (sp + t)[0] == ' ';
    }
    assert s[|n|..] == sp + t;
    SpaceRunOf(sp, t);
  }

  /** The first step of the scan at a number `n` followed by spaces `sp`
      and then by text `t` that starts with neither a digit nor a space. */
  lemma StepAtNumber(n: string, sp: string, t: string, r: Rule)
    requires n != [] && forall i :: 0 <= i < |n| ==> IsDigit(n[i])
    requires forall i :: 0 <= i < |sp| ==> sp[i] == ' '
    requires t == [] || (!IsDigit(t[0]) && t[0] != ' ')
    ensures Step(n + sp + t, r)
         == if r.suffix <= t then Chunk(n + r.exponent, |n| + |sp| + |r.suffix|) else Chunk(n, |n|)
  {
    NumberLayout(n, sp, t);
    assert (n + sp + t)[0] == n[0];
  }

  /** A number `n`, spaces `sp` and the suffix of `r` become the number and
      the exponent; the scan goes on after the suffix. */
  lemma RewriteNumberMatch(n: string, sp: string, t: string, r: Rule)
    requires n != [] && forall i :: 0 <= i < |n| ==> IsDigit(n[i])
    requires forall i :: 0 <= i < |sp| ==> sp[i] == ' '
    requires t == [] || (!IsDigit(t[0]) && t[0] != ' ')
    requires r.suffix <= t
    ensures Rewrite(n + sp + t, r) == n + r.exponent + Rewrite(t[|r.suffix|..], r)
  {
    var s := n + sp + t;
    var k := |n| + |sp| + |r.suffix|;
    StepAtNumber(n, sp, t, r);
    assert Step(s, r) == Chunk(n + r.exponent, k);
    NumberLayout(n, sp, t);
    DropDrop(s, |n| + |sp|, |r.suffix|);
    assert s[k..] == t[|r.suffix|..];
    RewriteUnfold(s, r);
  }

  /** A number `n` and spaces `sp` not followed by the suffix of `r` are
      copied, and the scan goes on with the text `t` after them. */
  lemma RewriteNumberNoMatch(n: string, sp: string, t: string, r: Rule)
    requires n != [] && forall i :: 0 <= i < |n| ==> IsDigit(n[i])
    requires forall i :: 0 <= i < |sp| ==> sp[i] == ' '
    requires t == [] || (!IsDigit(t[0]) && t[0] != ' ')
    requires !(r.suffix <= t)
    ensures Rewrite(n + sp + t, r) == n + sp + Rewrite(t, r)
  {
    var s := n + sp + t;
    StepAtNumber(n, sp, t, r);
    NumberLayout(n, sp, t);
    RewriteUnfold(s, r);
    RewriteSpaces(sp, t, r);
    AppendAssoc(n, sp, Rewrite(t, r));
  }

  lemma {:induction false} ApplyRulesAppend(s: string, a: seq<Rule>, b: seq<Rule>)
    ensures ApplyRules(s, a + b) == ApplyRules(ApplyRules(s, a), b)
    decreases |a|
  {
    if a != [] {
      assert (a + b)[1..] == a[1..] + b;
      ApplyRulesAppend(Rewrite(s, a[0]), a[1..], b);
    } else {
      assert a + b == b;
    }
  }

  lemma {:induction false} ApplyRulesKeep(s: string, rules: seq<Rule>)
    requires forall k :: 0 <= k < |rules| ==> Rewrite(s, rules[k]) == s
    ensures ApplyRules(s, rules) == s
    decreases |rules|
  {
    if rules != [] {
      assert forall k :: 0 <= k < |rules[1..]| ==> rules[1..][k] == rules[k + 1];
      ApplyRulesKeep(s, rules[1..]);
    }
  }

  /** The four rules before `k`, `k` itself, and the four after it. */
  lemma RulesAroundKilo()
    ensures Rules == Rules[..4] + [Rules[4]] + Rules[5..]
    ensures Rules[4] == Rule("k", "E3")
    ensures Rules[..4] == [Rule("G", "E9"), Rule("M", "E6"), Rule("meg", "E6"), Rule("K", "E3")]
    ensures Rules[5..] == [Rule("m", "E-3"), Rule("u", "E-6"), Rule("n", "E-9"), Rule("p", "E-12")]
  {
  }

  /** A pass leaves text without digits as it is. */
  lemma RewriteDigitFree(t: string, r: Rule)
    requires NoDigits(t) && WellFormed(r)
    ensures Rewrite(t, r) == t
  {
    NoDigitsNoMatch(t, r);
    RewriteChangesIff(t, r);
  }

  /** The rules before `k` leave `"10k"` and `"10 k"` alone. */
  lemma KiloBefore(sp: string)
    requires sp == "" || sp == " "
    ensures ApplyRules("10" + sp + "k", Rules[..4]) == "10" + sp + "k"
  {
    var s := "10" + sp + "k";
    RulesAroundKilo();
    RulesWellFormed();
    forall k | 0 <= k < 4 ensures Rewrite(s, Rules[..4][k]) == s {
      var r := Rules[..4][k];
      assert !(r.suffix <= "k");
      RewriteNumberNoMatch("10", sp, "k", r);
      RewriteDigitFree("k", r);
    }
    ApplyRulesKeep(s, Rules[..4]);
  }

  /** Digits alone are kept. */
  lemma DigitsKept(m: string, r: Rule)
    requires WellFormed(r)
    requires m != [] && forall i :: 0 <= i < |m| ==> IsDigit(m[i])
    ensures Rewrite(m, r) == m
  {
    var e: string := [];
    EmptyAppend(e, m);
    EmptyAppend(e, m + e);
    RewriteNumberNoMatch(m, e, e, r);
  }

  /** A letter followed by digits is kept. */
  lemma LetterThenDigits(c: char, m: string, r: Rule)
    requires !IsDigit(c) && WellFormed(r)
    requires m != [] && forall i :: 0 <= i < |m| ==> IsDigit(m[i])
    ensures Rewrite([c] + m, r) == [c] + m
  {
    var s := [c] + m;
    assert s[0] == c;
    assert Step(s, r) == Chunk([c], 1);
    DropAppend([c], m, 1);
    EmptyAppend([c][1..], m);
    RewriteUnfold(s, r);
    DigitsKept(m, r);
  }

  /** A rule whose suffix does not start `"E3"` leaves `"10E3"` alone. */
  lemma TenE3Kept(r: Rule)
    requires WellFormed(r) && !(r.suffix <= "E3")
    ensures Rewrite("10E3", r) == "10E3"
  {
    var n, e := "10", "E3";
    assert n + [] + e == "10E3";
    RewriteNumberNoMatch(n, [], e, r);
    assert e == ['E'] + "3";
    LetterThenDigits('E', "3", r);
  }

  /** The rules after `k` leave `"10E3"` alone. */
  lemma KiloAfter()
    ensures ApplyRules("10E3", Rules[5..]) == "10E3"
  {
    RulesAroundKilo();
    RulesWellFormed();
    forall k | 0 <= k < 4 ensures Rewrite("10E3", Rules[5..][k]) == "10E3" {
      TenE3Kept(Rules[5..][k]);
    }
    ApplyRulesKeep("10E3", Rules[5..]);
  }

  /** The rule for `k` turns `"10k"` and `"10 k"` into `"10E3"`. */
  lemma KiloRule(sp: string)
    requires sp == "" || sp == " "
    ensures ApplyRules("10" + sp + "k", [Rules[4]]) == "10E3"
  {
    var s := "10" + sp + "k";
    RulesAroundKilo();
    RewriteNumberMatch("10", sp, "k", Rules[4]);
    assert "k"[1..] == [];
    assert Rewrite(s, Rules[4]) == "10E3";
  }

  lemma StarsFreeTenE3()
    ensures RewriteStars("10E3") == "10E3"
  {
    RewriteStarsChangesIff("10E3");
  }

  /** `"10k"` and `"10 k"` both become `"10E3"`: the space between the number
      and the suffix is dropped. */
  lemma EeParseKilo(sp: string)
    requires sp == "" || sp == " "
    ensures EeParse("10" + sp + "k") == "10E3"
  {
    var s := "10" + sp + "k";
    RulesAroundKilo();
    KiloBefore(sp);
    KiloRule(sp);
    KiloAfter();
    ApplyRulesAppend(s, Rules[..4], [Rules[4]]);
    ApplyRulesAppend(s, Rules[..4] + [Rules[4]], Rules[5..]);
    StarsFreeTenE3();
  }

  /** `"**"` becomes `"^"`. */
  lemma EeParsePower(s: string)
    requires s == "**"
    ensures EeParse(s) == "^"
  {
    EeParseDigitFree(s);
    StarsPair(s);
  }

  lemma StarsPair(s: string)
    requires s == "**"
    ensures RewriteStars(s) == "^"
  {
    assert StarsAt(s, 0) && s[2..] == [];
  }

  /** The five rules before `m`, the rules for `m` and `u`, and the two after. */
  lemma RulesAroundMilli()
    ensures Rules == Rules[..5] + [Rules[5], Rules[6]] + Rules[7..]
    ensures Rules[5] == Rule("m", "E-3") && Rules[6] == Rule("u", "E-6")
    ensures Rules[..5] == [Rule("G", "E9"), Rule("M", "E6"), Rule("meg", "E6"), Rule("K", "E3"), Rule("k", "E3")]
    ensures Rules[7..] == [Rule("n", "E-9"), Rule("p", "E-12")]
  {
  }

  predicate Digits(n: string)
  {
    n != [] && forall i :: 0 <= i < |n| ==> IsDigit(n[i])
  }

  /** No rule before `m` matches at `"mu"` or changes it. */
  lemma MuKept(mu: string, r: Rule)
    requires mu == "mu" && r in Rules[..5]
    ensures !(r.suffix <= mu) && mu[0] != ' ' && Rewrite(mu, r) == mu
  {
    RulesAroundMilli();
    RulesWellFormed();
    RewriteDigitFree(mu, r);
  }

  /** The rules before `m` leave a number followed by `"mu"` alone. */
  lemma MilliBefore(n: string, mu: string)
    requires Digits(n) && mu == "mu"
    ensures ApplyRules(n + mu, Rules[..5]) == n + mu
  {
    var e: string := [];
    EmptyAppend(e, mu);
    AppendAssoc(n, e, mu);
    forall k | 0 <= k < 5 ensures Rewrite(n + mu, Rules[..5][k]) == n + mu {
      MuKept(mu, Rules[..5][k]);
      RewriteNumberNoMatch(n, e, mu, Rules[..5][k]);
    }
    ApplyRulesKeep(n + mu, Rules[..5]);
  }

  /** The rule for `m` turns a number followed by `"mu"` into the number,
      `"E-3"` and `"u"`. */
  lemma MilliRule(n: string, mu: string, u: string)
    requires Digits(n) && mu == "mu" && u == "u"
    ensures Rewrite(n + mu, Rules[5]) == n + "E-3" + u
  {
    RulesAroundMilli();
    RulesWellFormed();
    var e: string := [];
    EmptyAppend(e, mu);
    AppendAssoc(n, e, mu);
    RewriteNumberMatch(n, e, mu, Rules[5]);
    assert mu[1..] == u;
    RewriteDigitFree(u, Rules[5]);
  }

  /** A pass copies a number followed by digit-free text `m` that its suffix
      cannot start on or reach across, and goes on after them. */
  lemma NumberMinus(n: string, m: string, w: string, r: Rule)
    requires WellFormed(r) && NoDigits(m) && m != [] && m[0] != ' ' && m[0] != r.suffix[0]
    requires EndsClear(m, r)
    requires Digits(n)
    ensures Rewrite(n + m + w, r) == n + m + Rewrite(w, r)
  {
    var t := m + w;
    var e: string := [];
    assert t[0] == m[0];
    assert !(r.suffix <= t) by {
      assert r.suffix[0] != t[0];
    }
    assert Rewrite(n + e + t, r) == n + e + Rewrite(t, r) by {
      RewriteNumberNoMatch(n, e, t, r);
    }
    assert Rewrite(t, r) == m + Rewrite(w, r) by {
      RewriteSplit(m, w, r);
      RewriteDigitFree(m, r);
    }
    EmptyAppend(e, t);
    EmptyAppend(e, Rewrite(t, r));
    AppendAssoc(n, e, t);
    AppendAssoc(n, e, Rewrite(t, r));
    AppendAssoc(n, m, w);
    AppendAssoc(n, m, Rewrite(w, r));
  }

  /** `"E-"`, the start of a negative exponent, is such a text for the
      rules after `m`. */
  lemma MinusClear(m: string, r: Rule)
    requires m == "E-" && r in Rules[6..]
    ensures WellFormed(r) && NoDigits(m) && m != [] && m[0] != ' ' && m[0] != r.suffix[0]
    ensures EndsClear(m, r)
  {
    RulesWellFormed();
  }

  /** The rule for `u` turns `"3u"` into `"3E-6"`. */
  lemma MicroAtDigit(t: string)
    requires t == "3u"
    ensures Rewrite(t, Rules[6]) == "3E-6"
  {
    RulesAroundMilli();
    var u := "u";
    assert t == "3" + [] + u;
    RewriteNumberMatch("3", [], u, Rules[6]);
    assert u[1..] == [];
  }

  /** The rule for `u` turns the number, `"E-3"` and `"u"` into the number and
      `"E-3E-6"`: it reads the `3` of the exponent the rule for `m` wrote as
      the number before `u`. */
  lemma MicroRule(n: string, m: string, t: string)
    requires Digits(n) && m == "E-" && t == "3u"
    ensures Rewrite(n + m + t, Rules[6]) == n + m + "3E-6"
  {
    RulesAroundMilli();
    MinusClear(m, Rules[6]);
    NumberMinus(n, m, t, Rules[6]);
    MicroAtDigit(t);
  }

  /** The rules `n` and `p` leave the number and `"E-3E-6"` alone. */
  lemma MicroAfterOne(n: string, m: string, w: string, r: Rule)
    requires Digits(n) && m == "E-" && w == "3E-6" && r in Rules[7..]
    ensures Rewrite(n + m + w, r) == n + m + w
  {
    RulesAroundMilli();
    var three, six := "3", "6";
    assert w == three + m + six;
    assert Digits(three) && Digits(six);
    MinusClear(m, r);
    DigitsKept(six, r);
    NumberMinus(three, m, six, r);
    NumberMinus(n, m, w, r);
  }

  /** The rules after `u` leave the number and `"E-3E-6"` alone. */
  lemma MicroAfter(n: string, m: string, w: string)
    requires Digits(n) && m == "E-" && w == "3E-6"
    ensures ApplyRules(n + m + w, Rules[7..]) == n + m + w
  {
    forall k | 0 <= k < |Rules[7..]| ensures Rewrite(n + m + w, Rules[7..][k]) == n + m + w {
      MicroAfterOne(n, m, w, Rules[7..][k]);
    }
    ApplyRulesKeep(n + m + w, Rules[7..]);
  }

  lemma ApplyTwo(s: string, a: Rule, b: Rule)
    ensures ApplyRules(s, [a, b]) == Rewrite(Rewrite(s, a), b)
  {
    assert [a, b][1..] == [b];
    assert [b][1..] == [];
    assert ApplyRules(s, [a, b]) == ApplyRules(Rewrite(s, a), [b]);
    assert ApplyRules(Rewrite(s, a), [b]) == ApplyRules(Rewrite(Rewrite(s, a), b), []);
  }

  /** `"E-3"` then `"u"` is `"E-"` then `"3u"`. */
  lemma RegroupMilli(n: string)
    ensures n + "E-3" + "u" == n + "E-" + "3u"
  {
    assert "E-3" + "u" == "E-" + "3u";
    AppendAssoc(n, "E-3", "u");
    AppendAssoc(n, "E-", "3u");
  }

  lemma StarsFreeMicro(n: string, m: string, w: string)
    requires Digits(n) && m == "E-" && w == "3E-6"
    ensures RewriteStars(n + m + w) == n + m + w
  {
    var s := n + m + w;
    forall i | 0 <= i < |s| ensures s[i] != '*' {
      if i < |n| {
        assert s[i] == n[i];
      } else if i < |n| + |m| {
        assert s[i] == m[i - |n|];
      } else {
        assert s[i] == w[i - |n| - |m|];
      }
    }
    RewriteStarsChangesIff(s);
  }

  /** A number followed by `"mu"` becomes the number and `"E-3E-6"`, not
      `"E-9"`: the rule for `u` runs after the rule for `m` and reads the
      digit of the exponent `m` wrote as a number. */
  lemma EeParseMilliMicro(n: string)
    requires Digits(n)
    ensures EeParse(n + "mu") == n + "E-" + "3E-6"
  {
    var mu, m, w := "mu", "E-", "3E-6";
    RulesAroundMilli();
    MilliBefore(n, mu);
    MilliRule(n, mu, "u");
    RegroupMilli(n);
    MicroRule(n, m, "3u");
    ApplyTwo(n + mu, Rules[5], Rules[6]);
    MicroAfter(n, m, w);
    ApplyRulesAppend(n + mu, Rules[..5], [Rules[5], Rules[6]]);
    ApplyRulesAppend(n + mu, Rules[..5] + [Rules[5], Rules[6]], Rules[7..]);
    StarsFreeMicro(n, m, w);
  }
}
