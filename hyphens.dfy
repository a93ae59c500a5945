/**
 * The two deletion passes of the transform hook (src/index.ts:36-37):
 * Tailwind guards some rules with `@supports ((-webkit-hyphens: none)) and
 * (...)`, a support test that fails inside a shadow root, so the hook
 * deletes that condition and the `and` joining it to the next one.
 */
module Hyphens {
  import opened Text
  import opened Pattern

  /** `/\(\(-webkit-hyphens:\s*none\)\)\s*and\s*\/g` */
  const DoubleCondition: Regex := [Lit("((-webkit-hyphens:"), Spaces, Lit("none))"), Spaces, Lit("and"), Spaces]

  /** `/\(-webkit-hyphens:\s*none\)\s*and\s*\/g` */
  const SingleCondition: Regex := [Lit("(-webkit-hyphens:"), Spaces, Lit("none)"), Spaces, Lit("and"), Spaces]

  const HyphensProperty: string := "-webkit-hyphens"

  /** The first pass: delete every double-parenthesised condition with its `and`. */
  function StripDoubleCondition(s: string): string {
    Strip(DoubleCondition, s)
  }

  /** The second pass: delete every single-parenthesised condition with its `and`. */
  function StripSingleCondition(s: string): string {
    Strip(SingleCondition, s)
  }

  /** Both patterns admit the backtracking-free reading of `\s*`. */
  lemma ConditionsWellFormed()
    ensures WellFormed(DoubleCondition) && WellFormed(SingleCondition)
  {
    ThreeLiteralsWellFormed("((-webkit-hyphens:", "none))", "and", DoubleCondition);
    ThreeLiteralsWellFormed("(-webkit-hyphens:", "none)", "and", SingleCondition);
  }

  /**
   * The match the first pass deletes at the start of `s` is the longest
   * prefix of `s` that the regex matches, as JavaScript's greedy `\s*` finds it.
   */
  lemma DoubleConditionMatch(s: string)
    ensures MatchLen(DoubleCondition, s).Some? ==> InLang(DoubleCondition, s[..MatchLen(DoubleCondition, s).value])
    ensures forall m: nat :: m <= |s| && InLang(DoubleCondition, s[..m]) ==>
      MatchLen(DoubleCondition, s).Some? && m <= MatchLen(DoubleCondition, s).value
  {
    ConditionsWellFormed();
    if MatchLen(DoubleCondition, s).Some? {
      MatchLenSound(DoubleCondition, s);
    }
    forall m: nat | m <= |s| && InLang(DoubleCondition, s[..m])
      ensures MatchLen(DoubleCondition, s).Some? && m <= MatchLen(DoubleCondition, s).value
    {
      MatchLenLongest(DoubleCondition, s, m);
    }
  }

  /** The same for the second pass. */
  lemma SingleConditionMatch(s: string)
    ensures MatchLen(SingleCondition, s).Some? ==> InLang(SingleCondition, s[..MatchLen(SingleCondition, s).value])
    ensures forall m: nat :: m <= |s| && InLang(SingleCondition, s[..m]) ==>
      MatchLen(SingleCondition, s).Some? && m <= MatchLen(SingleCondition, s).value
  {
    ConditionsWellFormed();
    if MatchLen(SingleCondition, s).Some? {
      MatchLenSound(SingleCondition, s);
    }
    forall m: nat | m <= |s| && InLang(SingleCondition, s[..m])
      ensures MatchLen(SingleCondition, s).Some? && m <= MatchLen(SingleCondition, s).value
    {
      MatchLenLongest(SingleCondition, s, m);
    }
  }

  /** Each pass only deletes characters. */
  lemma PassesOnlyDelete(s: string)
    ensures IsSubsequence(StripDoubleCondition(s), s)
    ensures IsSubsequence(StripSingleCondition(s), s)
    ensures IsSubsequence(StripSingleCondition(StripDoubleCondition(s)), s)
    ensures |StripSingleCondition(StripDoubleCondition(s))| <= |StripDoubleCondition(s)| <= |s|
  {
    StripSubsequence(DoubleCondition, s);
    StripSubsequence(SingleCondition, s);
    StripSubsequence(SingleCondition, StripDoubleCondition(s));
    SubsequenceTrans(StripSingleCondition(StripDoubleCondition(s)), StripDoubleCondition(s), s);
  }

  /** The opening literal of the first pattern holds the property name after its two parentheses. */
  lemma DoubleOpenHoldsHyphens(l: string)
    requires l == "((-webkit-hyphens:"
    ensures OccursAt(l, HyphensProperty, 2)
  {
    assert l[2..17] == HyphensProperty;
  }

  /** The opening literal of the second pattern holds the property name after its parenthesis. */
  lemma SingleOpenHoldsHyphens(l: string)
    requires l == "(-webkit-hyphens:"
    ensures OccursAt(l, HyphensProperty, 1)
  {
    assert l[1..16] == HyphensProperty;
  }

  /** Both patterns begin with a literal that holds `-webkit-hyphens`. */
  lemma LeadingLiteralHoldsHyphens(s: string, i: nat)
    ensures OccursAt(s, DoubleCondition[0].text, i) ==> OccursAt(s, HyphensProperty, i + 2)
    ensures OccursAt(s, SingleCondition[0].text, i) ==> OccursAt(s, HyphensProperty, i + 1)
  {
    if OccursAt(s, DoubleCondition[0].text, i) {
      DoubleOpenHoldsHyphens(DoubleCondition[0].text);
      OccursWithin(s, DoubleCondition[0].text, HyphensProperty, i, 2);
    }
    if OccursAt(s, SingleCondition[0].text, i) {
      SingleOpenHoldsHyphens(SingleCondition[0].text);
      OccursWithin(s, SingleCondition[0].text, HyphensProperty, i, 1);
    }
  }

  /** CSS without `-webkit-hyphens` passes through both deletions unchanged. */
  lemma NoHyphensUnchanged(s: string)
    requires !Contains(s, HyphensProperty)
    ensures StripDoubleCondition(s) == s
    ensures StripSingleCondition(s) == s
  {
    forall i: nat | i < |s|
      ensures !MatchesAt(DoubleCondition, s, i) && !MatchesAt(SingleCondition, s, i)
    {
      LeadingLiteralHoldsHyphens(s, i);
      if MatchesAt(DoubleCondition, s, i) {
        MatchAtStartsWithLiteral(DoubleCondition, s, i);
      }
      if MatchesAt(SingleCondition, s, i) {
        MatchAtStartsWithLiteral(SingleCondition, s, i);
      }
    }
    StripNoMatch(DoubleCondition, s);
    StripNoMatch(SingleCondition, s);
  }

  /**
   * The first pass deletes `((-webkit-hyphens:` WS `none))` WS `and` WS
   * together; the scan goes on with the text after the last run.
   */
  lemma DoubleConditionDeleted(w1: string, w2: string, w3: string, rest: string)
    requires AllWs(w1) && AllWs(w2) && AllWs(w3) && (rest == [] || !IsWs(rest[0]))
    ensures StripDoubleCondition("((-webkit-hyphens:" + w1 + "none))" + w2 + "and" + w3 + rest)
         == StripDoubleCondition(rest)
  {
    var s := "((-webkit-hyphens:" + w1 + "none))" + w2 + "and" + w3 + rest;
    ThreeLiteralsMatch("((-webkit-hyphens:", "none))", "and", w1, w2, w3, rest, DoubleCondition, s);
    assert s[0..] == s;
  }

  /** The second pass deletes `(-webkit-hyphens:` WS `none)` WS `and` WS together. */
  lemma SingleConditionDeleted(w1: string, w2: string, w3: string, rest: string)
    requires AllWs(w1) && AllWs(w2) && AllWs(w3) && (rest == [] || !IsWs(rest[0]))
    ensures StripSingleCondition("(-webkit-hyphens:" + w1 + "none)" + w2 + "and" + w3 + rest)
         == StripSingleCondition(rest)
  {
    var s := "(-webkit-hyphens:" + w1 + "none)" + w2 + "and" + w3 + rest;
    ThreeLiteralsMatch("(-webkit-hyphens:", "none)", "and", w1, w2, w3, rest, SingleCondition, s);
    assert s[0..] == s;
  }

  /**
   * A `(-webkit-hyphens:` WS `none)` condition that is not followed by
   * WS `and` starts no match of either pass, and no match starts inside it
   * either, so both passes copy the whole condition and go on after it.
   */
  lemma UnjoinedConditionKept(w1: string, w2: string, rest: string)
    requires AllWs(w1) && AllWs(w2) && (rest == [] || !IsWs(rest[0])) && !OccursAt(rest, "and", 0)
    ensures !MatchesAt(SingleCondition, "(-webkit-hyphens:" + w1 + "none)" + w2 + rest, 0)
    ensures !MatchesAt(DoubleCondition, "(-webkit-hyphens:" + w1 + "none)" + w2 + rest, 0)
    ensures StripSingleCondition("(-webkit-hyphens:" + w1 + "none)" + w2 + rest)
         == "(-webkit-hyphens:" + w1 + "none)" + w2 + StripSingleCondition(rest)
    ensures StripDoubleCondition("(-webkit-hyphens:" + w1 + "none)" + w2 + rest)
         == "(-webkit-hyphens:" + w1 + "none)" + w2 + StripDoubleCondition(rest)
  {
    var c := "(-webkit-hyphens:" + w1 + "none)" + w2;
    var s := c + rest;
    UnjoinedNoSingle(w1, w2, rest, s);
    UnjoinedNoDouble(w1, w2, rest, s);
    ConditionOpensOnce(w1, w2, c);
    UnjoinedCopied(SingleCondition, c, rest);
    UnjoinedCopied(DoubleCondition, c, rest);
  }

  /** Past its opening parenthesis a condition holds no `(`: its runs are spaces. */
  lemma ConditionOpensOnce(w1: string, w2: string, c: string)
    requires AllWs(w1) && AllWs(w2)
    requires c == "(-webkit-hyphens:" + w1 + "none)" + w2
    ensures forall i :: 1 <= i < |c| ==> c[i] != '('
  {
    var a := "(-webkit-hyphens:";
    var b := "none)";
    assert forall i :: 1 <= i < |a| ==> a[i] != '(';
    assert forall i :: 0 <= i < |b| ==> b[i] != '(';
    forall i | 1 <= i < |c|
      ensures c[i] != '('
    {
      if i < |a| {
        assert c[i] == a[i];
      } else if i < |a| + |w1| {
        assert c[i] == w1[i - |a|];
      } else if i < |a| + |w1| + |b| {
        assert c[i] == b[i - |a| - |w1|];
      } else {
        assert c[i] == w2[i - |a| - |w1| - |b|];
      }
    }
  }

  /**
   * A pass whose pattern opens with `(` copies a text with no match at its
   * start and no `(` after it, and goes on with what follows.
   */
  lemma UnjoinedCopied(p: Regex, c: string, rest: string)
    requires p != [] && p[0].Lit? && p[0].text != [] && p[0].text[0] == '('
    requires c != [] && !MatchesAt(p, c + rest, 0)
    requires forall i :: 1 <= i < |c| ==> c[i] != '('
    ensures Strip(p, c + rest) == c + Strip(p, rest)
  {
    forall i: nat | i < |c|
      ensures !MatchesAt(p, c + rest, i)
    {
      if i > 0 {
        NoMatchAtChar(p, c + rest, i);
      }
    }
    StripSkipsPrefix(p, c, rest);
  }

  lemma UnjoinedNoSingle(w1: string, w2: string, rest: string, s: string)
    requires AllWs(w1) && AllWs(w2) && (rest == [] || !IsWs(rest[0])) && !OccursAt(rest, "and", 0)
    requires s == "(-webkit-hyphens:" + w1 + "none)" + w2 + rest
    ensures !MatchesAt(SingleCondition, s, 0)
  {
    ThirdLiteralMissing("(-webkit-hyphens:", "none)", "and", w1, w2, rest, SingleCondition, s);
    assert s[0..] == s;
  }

  lemma UnjoinedNoDouble(w1: string, w2: string, rest: string, s: string)
    requires s == "(-webkit-hyphens:" + w1 + "none)" + w2 + rest
    ensures !MatchesAt(DoubleCondition, s, 0)
  {
    assert s[1] == '-';
    NoDoubleWithoutSecondParen(s, 0);
  }

  /** A match of the first pass opens with two parentheses. */
  lemma NoDoubleWithoutSecondParen(s: string, i: nat)
    requires i + 1 < |s| && s[i + 1] != '('
    ensures !MatchesAt(DoubleCondition, s, i)
  {
    NoMatchWithoutLiteral(DoubleCondition, s, i);
  }

  /** A match of the second pass opens with `(-`. */
  lemma NoSingleWithoutDash(s: string, i: nat)
    requires i + 1 < |s| && s[i + 1] != '-'
    ensures !MatchesAt(SingleCondition, s, i)
  {
    NoMatchWithoutLiteral(SingleCondition, s, i);
  }

  /** Text with no `w` holds no `-webkit-hyphens`, so both passes copy it. */
  lemma WithoutWUnchanged(s: string)
    requires forall i :: 0 <= i < |s| ==> s[i] != 'w'
    ensures StripDoubleCondition(s) == s && StripSingleCondition(s) == s
  {
    MissingCharNotContains(s, HyphensProperty, 1);
    NoHyphensUnchanged(s);
  }

  /** Both patterns open with `(`, so text without one is copied whole. */
  lemma WithoutParenUnchanged(s: string)
    requires forall i :: 0 <= i < |s| ==> s[i] != '('
    ensures StripDoubleCondition(s) == s && StripSingleCondition(s) == s
  {
    NoLeadCharUnchanged(DoubleCondition, s);
    NoLeadCharUnchanged(SingleCondition, s);
  }

  /** The at-rule keyword in front of a condition is copied by both passes. */
  lemma SupportsKeywordKept(t: string)
    ensures StripDoubleCondition("@supports " + t) == "@supports " + StripDoubleCondition(t)
    ensures StripSingleCondition("@supports " + t) == "@supports " + StripSingleCondition(t)
  {
    KeepsPrefix(DoubleCondition, "@supports ", t);
    KeepsPrefix(SingleCondition, "@supports ", t);
  }

  /** The first pass deletes a condition spelled with single spaces, after the keyword. */
  lemma SupportsDoubleConditionDeleted(css: string, t: string, rest: string)
    requires css == "@supports " + t && t == "((-webkit-hyphens: none)) and " + rest
    requires rest == [] || !IsWs(rest[0])
    ensures StripDoubleCondition(css) == "@supports " + StripDoubleCondition(rest)
  {
    SupportsKeywordKept(t);
    DoubleSpacedDeleted("((-webkit-hyphens: none)) and ", rest);
  }

  /** The double-parenthesised condition spelled with single spaces, in its pieces. */
  lemma DoubleSpacedPieces(c: string)
    requires c == "((-webkit-hyphens: none)) and "
    ensures c == "((-webkit-hyphens:" + " " + "none))" + " " + "and" + " "
  {
  }

  /** The double-parenthesised condition spelled with single spaces, as the first pass deletes it. */
  lemma DoubleSpacedDeleted(c: string, r: string)
    requires c == "((-webkit-hyphens: none)) and "
    requires r == [] || !IsWs(r[0])
    ensures StripDoubleCondition(c + r) == StripDoubleCondition(r)
  {
    DoubleSpacedPieces(c);
    DoubleConditionDeleted(" ", " ", " ", r);
  }

  /**
   * Tailwind's guard on a rule: the first pass removes the hyphens test and
   * its `and`, leaving the other condition.
   */
  lemma DoubleConditionExample(css: string, cond: string, other: string)
    requires cond == "((-webkit-hyphens: none)) and "
    requires other == "(margin-trim: inline) {"
    requires css == "@supports " + cond + other
    ensures StripDoubleCondition(css) == "@supports " + other
  {
    assert css == "@supports " + (cond + other);
    SupportsDoubleConditionDeleted(css, cond + other, other);
    MarginTrimKept(other);
  }

  /** The other condition of the example holds no hyphens test. */
  lemma MarginTrimKept(other: string)
    requires other == "(margin-trim: inline) {"
    ensures StripDoubleCondition(other) == other
  {
    WithoutWUnchanged(other);
  }

  /** A condition spelled with single spaces, as the second pass deletes it. */
  lemma SingleSpacedDeleted(y: string, r: string)
    requires y == "(-webkit-hyphens: none) and "
    requires r == [] || !IsWs(r[0])
    ensures StripSingleCondition(y + r) == StripSingleCondition(r)
  {
    SingleSpacedPieces(y);
    SingleConditionDeleted(" ", " ", " ", r);
  }

  /** The single-parenthesised condition spelled with single spaces, in its pieces. */
  lemma SingleSpacedPieces(c: string)
    requires c == "(-webkit-hyphens: none) and "
    ensures c == "(-webkit-hyphens:" + " " + "none)" + " " + "and" + " "
  {
  }

  /**
   * After a `(` the first pass never matches a text that opens with `(-`
   * but not `((`, and the second pass never matches one that opens with `((`.
   */
  lemma ParenKept(s: string)
    requires |s| >= 2 && s[0] == '('
    ensures s[1] != '(' ==> StripDoubleCondition(s) == [s[0]] + StripDoubleCondition(s[1..])
    ensures s[1] != '-' ==> StripSingleCondition(s) == [s[0]] + StripSingleCondition(s[1..])
  {
    if s[1] != '(' {
      NoDoubleWithoutSecondParen(s, 0);
      CopiesHead(DoubleCondition, s);
    }
    if s[1] != '-' {
      NoSingleWithoutDash(s, 0);
      CopiesHead(SingleCondition, s);
    }
  }

  /**
   * `((-webkit-hyphens:` WS `none)` followed by anything but a second `)`
   * is not the double-parenthesised condition.
   */
  lemma NotDoubleCondition(x: string, rest: string)
    requires |rest| > 5 && rest[..5] == "none)" && rest[5] != ')'
    requires x == "((-webkit-hyphens:" + " " + rest
    ensures !MatchesAt(DoubleCondition, x, 0)
  {
    assert rest[..6][5] != "none))"[5];
    SecondLiteralMissing("((-webkit-hyphens:", "none))", "and", " ", rest, DoubleCondition, x);
    assert x[0..] == x;
  }

  /** The counterexample below is `(` + y + tail, where y is `(` + tail and is a whole condition. */
  lemma CounterexampleInner(y: string, tail: string)
    requires tail == "-webkit-hyphens: none) and "
    requires y == "(" + tail
    ensures y == "(-webkit-hyphens: none) and "
  {
  }

  lemma CounterexampleSuffixes(x: string, y: string, tail: string)
    requires tail == "-webkit-hyphens: none) and "
    requires y == "(" + tail
    requires x == "(" + y + tail
    ensures x[1..] == y + tail && (y + tail)[1..] == tail + tail && y[1..] == tail
  {
  }

  lemma CounterexampleOuter(x: string, y: string, tail: string)
    requires tail == "-webkit-hyphens: none) and "
    requires y == "(" + tail
    requires x == "(" + y + tail
    ensures x == "((-webkit-hyphens:" + " " + ("none) and " + tail)
  {
    assert "((-webkit-hyphens:" + " " + ("none) and " + tail) == "(" + "(" + tail + tail;
  }

  lemma CounterexampleTailUnchanged(tail: string)
    requires tail == "-webkit-hyphens: none) and "
    ensures StripDoubleCondition(tail) == tail && StripSingleCondition(tail) == tail
    ensures StripDoubleCondition(tail + tail) == tail + tail
  {
    assert forall i :: 0 <= i < |tail + tail| ==> (tail + tail)[i] != '(';
    WithoutParenUnchanged(tail);
    WithoutParenUnchanged(tail + tail);
  }

  /** The first pass finds nothing in the counterexample. */
  lemma CounterexampleFirstPass(x: string, y: string, tail: string)
    requires tail == "-webkit-hyphens: none) and "
    requires y == "(" + tail
    requires x == "(" + y + tail
    ensures StripDoubleCondition(x) == x
    ensures StripDoubleCondition(y) == y
  {
    CounterexampleSuffixes(x, y, tail);
    CounterexampleOuterNoMatch(x, y, tail);
    CounterexampleTailUnchanged(tail);
    FirstPassCopies(x, y, tail);
  }

  /** The whole counterexample is not a double-parenthesised condition: its test closes with a single `)`. */
  lemma CounterexampleOuterNoMatch(x: string, y: string, tail: string)
    requires tail == "-webkit-hyphens: none) and "
    requires y == "(" + tail
    requires x == "(" + y + tail
    ensures !MatchesAt(DoubleCondition, x, 0)
  {
    CounterexampleOuter(x, y, tail);
    NotDoubleCondition(x, "none) and " + tail);
  }

  /**
   * The first pass copies `(` + y + tail when it matches at none of the
   * three opening parentheses and passes over the tails.
   */
  lemma FirstPassCopies(x: string, y: string, tail: string)
    requires tail != [] && tail[0] == '-' && y == "(" + tail
    requires x != [] && x[0] == '(' && x[1..] == y + tail && (y + tail)[1..] == tail + tail && y[1..] == tail
    requires !MatchesAt(DoubleCondition, x, 0)
    requires StripDoubleCondition(tail) == tail && StripDoubleCondition(tail + tail) == tail + tail
    ensures StripDoubleCondition(x) == x
    ensures StripDoubleCondition(y) == y
  {
    CopiesHead(DoubleCondition, x);
    ParenKept(y + tail);
    ParenKept(y);
  }

  /** The second pass finds the inner condition of the counterexample, and then the one it brings together. */
  lemma CounterexampleSecondPass(x: string, y: string, tail: string)
    requires tail == "-webkit-hyphens: none) and "
    requires y == "(" + tail
    requires x == "(" + y + tail
    ensures StripSingleCondition(x) == y
    ensures StripSingleCondition(y) == []
  {
    CounterexampleInner(y, tail);
    CounterexampleSuffixes(x, y, tail);
    ParenKept(x);
    SingleSpacedDeleted(y, tail);
    CounterexampleTailUnchanged(tail);
    SingleSpacedDeleted(y, []);
    assert y + [] == y;
  }

  /**
   * The two passes together are not idempotent: deleting the inner condition
   * of `((-webkit-hyphens: none) and -webkit-hyphens: none) and ` joins a
   * `(` to the rest and forms a new condition, which a second run deletes.
   */
  lemma DeletionNotIdempotent(x: string, y: string, tail: string)
    requires tail == "-webkit-hyphens: none) and "
    requires y == "(" + tail
    requires x == "(" + y + tail
    ensures StripSingleCondition(StripDoubleCondition(x)) == y
    ensures StripSingleCondition(StripDoubleCondition(y)) == []
  {
    CounterexampleFirstPass(x, y, tail);
    CounterexampleSecondPass(x, y, tail);
  }

  /** The pieces of a guard whose hyphens test is not joined to another condition. */
  lemma LoneGuardShape(t: string, rest: string)
    requires rest == "{ .a { hyphens: auto; } }"
    requires t == "((-webkit-hyphens:" + " " + "none))" + " " + rest
    ensures |t| > 2 && t[1] == '(' && t[1..][1] == '-' && t[1..][1..] == t[2..]
    ensures forall i :: 0 <= i < |t[2..]| ==> t[2..][i] != '('
  {
  }

  lemma LoneGuardInner(t: string, rest: string)
    requires rest == "{ .a { hyphens: auto; } }"
    requires t == "((-webkit-hyphens:" + " " + "none))" + " " + rest
    ensures t[1..] == "(-webkit-hyphens:" + " " + "none)" + [] + (") " + rest)
  {
  }

  lemma LoneGuardNoAnd(rest: string)
    requires rest == "{ .a { hyphens: auto; } }"
    ensures !OccursAt(rest, "and", 0) && !OccursAt(") " + rest, "and", 0)
  {
    assert rest[0] != "and"[0];
    assert (") " + rest)[0] != "and"[0];
  }

  /** A parenthesised hyphens test followed by `{` instead of `and` is kept by the first pass. */
  lemma LoneGuardFirstPass(t: string, rest: string)
    requires rest == "{ .a { hyphens: auto; } }"
    requires t == "((-webkit-hyphens:" + " " + "none))" + " " + rest
    ensures StripDoubleCondition(t) == t
  {
    LoneGuardShape(t, rest);
    LoneGuardNoAnd(rest);
    ThirdLiteralMissing("((-webkit-hyphens:", "none))", "and", " ", " ", rest, DoubleCondition, t);
    assert t[0..] == t;
    CopiesHead(DoubleCondition, t);
    ParenKept(t[1..]);
    WithoutParenUnchanged(t[2..]);
  }

  /** The same guard is kept by the second pass. */
  lemma LoneGuardSecondPass(t: string, rest: string)
    requires rest == "{ .a { hyphens: auto; } }"
    requires t == "((-webkit-hyphens:" + " " + "none))" + " " + rest
    ensures StripSingleCondition(t) == t
  {
    LoneGuardShape(t, rest);
    LoneGuardInner(t, rest);
    LoneGuardNoAnd(rest);
    ParenKept(t);
    UnjoinedConditionKept(" ", [], ") " + rest);
    CopiesHead(SingleCondition, t[1..]);
    WithoutParenUnchanged(t[2..]);
  }

  /**
   * `@supports ((-webkit-hyphens: none)) { .a { hyphens: auto; } }` passes
   * both deletions unchanged: each pattern needs an `and` after the test,
   * and neither pass unwraps the at-rule's block.
   */
  lemma LoneGuardKept(css: string, t: string, rest: string)
    requires rest == "{ .a { hyphens: auto; } }"
    requires t == "((-webkit-hyphens:" + " " + "none))" + " " + rest
    requires css == "@supports " + t
    ensures StripSingleCondition(StripDoubleCondition(css)) == css
  {
    SupportsKeywordKept(t);
    LoneGuardFirstPass(t, rest);
    LoneGuardSecondPass(t, rest);
  }

  /**
   * `@supports (-webkit-hyphens: none) and (foo: bar) {`, cut off before its
   * block closes: the first pass finds no `((` and copies it, the second
   * deletes the hyphens test and its `and`. Neither looks for the closing brace.
   */
  lemma UnterminatedGuardPasses(code: string, cond: string, other: string)
    requires cond == "(-webkit-hyphens: none) and "
    requires other == "(foo: bar) {"
    requires code == "@supports " + (cond + other)
    ensures StripDoubleCondition(code) == code
    ensures StripSingleCondition(code) == "@supports " + other
  {
    OpensSingleCondition(cond);
    OtherConditionKept(other);
    SingleSpacedDeleted(cond, other);
    GuardPasses(code, cond + other, cond, other);
  }

  /** The condition after the hyphens test starts with `(` and holds no hyphens test. */
  lemma OtherConditionKept(other: string)
    requires other == "(foo: bar) {"
    ensures other != [] && !IsWs(other[0])
    ensures StripDoubleCondition(other) == other && StripSingleCondition(other) == other
  {
    WithoutWUnchanged(other);
  }

  /**
   * Behind the keyword, a condition that opens with `(-` and holds no other
   * `(` is copied by the first pass; the second pass does what it does to
   * the condition and the text after it.
   */
  lemma GuardPasses(code: string, t: string, cond: string, other: string)
    requires code == "@supports " + t && t == cond + other
    requires |cond| > 1 && cond[0] == '(' && cond[1] == '-'
    requires forall i :: 1 <= i < |cond| ==> cond[i] != '('
    requires StripSingleCondition(cond + other) == StripSingleCondition(other)
    requires StripDoubleCondition(other) == other && StripSingleCondition(other) == other
    ensures StripDoubleCondition(code) == code
    ensures StripSingleCondition(code) == "@supports " + other
  {
    SupportsKeywordKept(t);
    FirstPassCopiesCondition(cond, other);
  }

  /** The first pass copies such a condition and goes on after it. */
  lemma FirstPassCopiesCondition(cond: string, other: string)
    requires |cond| > 1 && cond[0] == '(' && cond[1] == '-'
    requires forall i :: 1 <= i < |cond| ==> cond[i] != '('
    ensures StripDoubleCondition(cond + other) == cond + StripDoubleCondition(other)
  {
    NoDoubleWithoutSecondParen(cond + other, 0);
    UnjoinedCopied(DoubleCondition, cond, other);
  }

  /** The single-spaced condition opens with `(-` and holds no other `(`. */
  lemma OpensSingleCondition(cond: string)
    requires cond == "(-webkit-hyphens: none) and "
    ensures |cond| > 1 && cond[0] == '(' && cond[1] == '-'
    ensures forall i :: 1 <= i < |cond| ==> cond[i] != '('
  {
  }
}
