/**
 * The regular expressions the deletion passes use: a sequence of literal
 * texts and `\s*` runs, matched at one position, and a global replacement
 * by the empty string (`String.prototype.replace` with a `/g` regex and '').
 *
 * JavaScript matches `\s*` greedily and backtracks. When every `\s*` of a
 * pattern is followed by a literal that starts with a non-space character,
 * or ends the pattern, the only run that can succeed is the longest one,
 * so the match at a position is the longest prefix in the pattern's
 * language. MatchLen computes it without backtracking; MatchLenSound and
 * MatchLenLongest prove it is exactly that longest prefix.
 */
module Pattern {
  import opened Text

  datatype Option<T> = None | Some(value: T)

  /** One element of a pattern: a literal text, or `\s*`. */
  datatype Token = Lit(text: string) | Spaces

  type Regex = seq<Token>

  /** Every `\s*` ends the pattern or is followed by a literal that starts with a non-space. */
  predicate WellFormed(p: Regex) {
    forall i :: 0 <= i < |p| - 1 && p[i].Spaces? ==>
      p[i + 1].Lit? && p[i + 1].text != [] && !IsWs(p[i + 1].text[0])
  }

  /** The language of `p`: the texts that match the whole pattern. */
  ghost predicate InLang(p: Regex, w: string)
    decreases |p|
  {
    if p == [] then w == []
    else match p[0]
      case Lit(l) => |l| <= |w| && w[..|l|] == l && InLang(p[1..], w[|l|..])
      case Spaces => exists k :: 0 <= k <= |w| && AllWs(w[..k]) && InLang(p[1..], w[k..])
  }

  /** Length of the match of `p` at the start of `s`, taking each `\s*` as far as it goes. */
  function MatchLen(p: Regex, s: string): (r: Option<nat>)
    ensures r.Some? ==> r.value <= |s|
    decreases |p|
  {
    if p == [] then Some(0)
    else match p[0]
      case Lit(l) =>
        if |l| <= |s| && s[..|l|] == l then Shift(MatchLen(p[1..], s[|l|..]), |l|) else None
      case Spaces =>
        var k := WsRun(s);
        Shift(MatchLen(p[1..], s[k..]), k)
  }

  /** A match of the rest of the pattern, moved `k` characters on. */
  function Shift(m: Option<nat>, k: nat): Option<nat> {
    match m
    case Some(n) => Some(k + n)
    case None => None
  }

  /** A non-empty match of `p` starts at offset `i` of `s`. */
  predicate MatchesAt(p: Regex, s: string, i: nat) {
    i <= |s| && var m := MatchLen(p, s[i..]); m.Some? && m.value > 0
  }

  /**
   * `s.replace(/p/g, '')`: scan left to right; where a match starts delete
   * it and go on after it, otherwise keep the character and move one on.
   * An empty match deletes nothing, so it is treated like no match.
   */
  function Strip(p: Regex, s: string): (r: string)
    ensures |r| <= |s|
    decreases |s|
  {
    if s == [] then []
    else if MatchesAt(p, s, 0) then Strip(p, s[MatchLen(p, s).value..])
    else [s[0]] + Strip(p, s[1..])
  }

  /** The shape of both deletion patterns is well formed when the second and third literals start with non-spaces. */
  lemma ThreeLiteralsWellFormed(a: string, b: string, c: string, p: Regex)
    requires p == [Lit(a), Spaces, Lit(b), Spaces, Lit(c), Spaces]
    requires b != [] && !IsWs(b[0]) && c != [] && !IsWs(c[0])
    ensures WellFormed(p)
  {
  }

  lemma WellFormedTail(p: Regex)
    requires p != [] && WellFormed(p)
    ensures WellFormed(p[1..])
  {
    forall i | 0 <= i < |p[1..]| - 1 && p[1..][i].Spaces?
      ensures p[1..][i + 1].Lit? && p[1..][i + 1].text != [] && !IsWs(p[1..][i + 1].text[0])
    {
      assert p[1..][i] == p[i + 1] && p[1..][i + 1] == p[i + 2];
    }
  }

  /** What MatchLen reports is a match: the reported prefix is in the language. */
  lemma {:induction false} MatchLenSound(p: Regex, s: string)
    requires MatchLen(p, s).Some?
    ensures InLang(p, s[..MatchLen(p, s).value])
    decreases |p|
  {
    if p != [] {
      var n := MatchLen(p, s).value;
      var w := s[..n];
      var k := if p[0].Lit? then |p[0].text| else WsRun(s);
      var n' := MatchLen(p[1..], s[k..]).value;
      assert n == k + n';
      MatchLenSound(p[1..], s[k..]);
      assert w[k..] == s[k..][..n'];
      if p[0].Lit? {
        assert w[..k] == s[..k];
      } else {
        assert w[..k] == s[..k];
        assert 0 <= k <= |w| && AllWs(w[..k]) && InLang(p[1..], w[k..]);
      }
    }
  }

  /** No prefix of `s` in the language is longer than what MatchLen reports, and if one exists MatchLen finds a match. */
  lemma {:induction false} MatchLenLongest(p: Regex, s: string, m: nat)
    requires WellFormed(p)
    requires m <= |s| && InLang(p, s[..m])
    ensures MatchLen(p, s).Some? && m <= MatchLen(p, s).value
    decreases |p|
  {
    if p != [] {
      WellFormedTail(p);
      if p[0].Lit? {
        var n := |p[0].text|;
        LongestLitStep(p, s, m);
        MatchLenLongest(p[1..], s[n..], m - n);
        UnfoldLit(p, s);
      } else {
        var n := WsRun(s);
        LongestSpacesStep(p, s, m, n);
        UnfoldSpaces(p, s);
        if n <= m {
          MatchLenLongest(p[1..], s[n..], m - n);
        }
      }
    }
  }

  /** A prefix in the language of a pattern opening with a literal starts with it, and the rest matches the tail. */
  lemma LongestLitStep(p: Regex, s: string, m: nat)
    requires p != [] && p[0].Lit?
    requires m <= |s| && InLang(p, s[..m])
    ensures |p[0].text| <= m && OccursAt(s, p[0].text, 0)
    ensures InLang(p[1..], s[|p[0].text|..][..m - |p[0].text|])
  {
    var w := s[..m];
    var l := p[0].text;
    assert s[..|l|] == w[..|l|];
    assert w[|l|..] == s[|l|..][..m - |l|];
  }

  /**
   * For a prefix in the language of a pattern opening with `\s*`, either the
   * greedy run stops inside it and the rest matches the tail, or the run
   * is the whole pattern and covers the prefix.
   */
  lemma LongestSpacesStep(p: Regex, s: string, m: nat, n: nat)
    requires WellFormed(p) && p != [] && p[0].Spaces?
    requires m <= |s| && InLang(p, s[..m]) && n == WsRun(s)
    ensures n <= m ==> InLang(p[1..], s[n..][..m - n])
    ensures n > m ==> p[1..] == []
  {
    var k := SplitAtRun(p, s[..m]);
    if k < m {
      RunStopsInside(p, s, m, k);
      SameLang(p[1..], s[k..][..m - k], s[n..][..m - n]);
    } else {
      TrailingRun(p, s, m);
      if n <= m {
        SameLang(p[1..], [], s[n..][..m - n]);
      }
    }
  }

  lemma SameLang(q: Regex, u: string, v: string)
    requires InLang(q, u) && u == v
    ensures InLang(q, v)
  {
  }

  /** A text in the language of a pattern opening with `\s*` splits into a run and a text in the tail's language. */
  lemma SplitAtRun(p: Regex, w: string) returns (k: nat)
    requires p != [] && p[0].Spaces? && InLang(p, w)
    ensures k <= |w| && AllWs(w[..k]) && InLang(p[1..], w[k..])
  {
    k :| 0 <= k <= |w| && AllWs(w[..k]) && InLang(p[1..], w[k..]);
  }

  /** A run that ends inside the prefix is where the greedy run stops, and the tail matches the rest. */
  lemma RunStopsInside(p: Regex, s: string, m: nat, k: nat)
    requires WellFormed(p) && p != [] && p[0].Spaces?
    requires k < m <= |s| && AllWs(s[..m][..k]) && InLang(p[1..], s[..m][k..])
    ensures WsRun(s) == k && InLang(p[1..], s[k..][..m - k])
  {
    assert s[..m][..k] == s[..k];
    RunStopsAtLiteral(p, s, m, k);
    SliceSwap(s, m, k);
  }

  lemma SliceSwap(s: string, m: nat, k: nat)
    requires k <= m <= |s|
    ensures s[..m][k..] == s[k..][..m - k]
  {
  }

  /** A run that matches to the end of the prefix is the last token, and the greedy run covers the prefix. */
  lemma TrailingRun(p: Regex, s: string, m: nat)
    requires WellFormed(p) && p != [] && p[0].Spaces?
    requires m <= |s| && AllWs(s[..m][..m]) && InLang(p[1..], s[..m][m..])
    ensures p[1..] == [] && m <= WsRun(s)
  {
    assert s[..m][..m] == s[..m];
    RunCovers(s, m);
  }

  /**
   * A run that a longer match continues past is followed by a literal whose
   * first character is not a space, so the greedy run stops exactly there.
   */
  lemma RunStopsAtLiteral(p: Regex, s: string, m: nat, k: nat)
    requires WellFormed(p) && p != [] && p[0].Spaces?
    requires k < m <= |s| && AllWs(s[..k]) && InLang(p[1..], s[..m][k..])
    ensures WsRun(s) == k
  {
    var w := s[..m][k..];
    assert |p| > 1;
    var l := p[1].text;
    assert p[1].Lit? && l != [] && !IsWs(l[0]);
    assert p[1..][0] == Lit(l);
    assert w[..|l|] == l;
    assert s[k] == w[..|l|][0];
    RunEndsAt(s, k);
  }

  lemma RunEndsAt(s: string, k: nat)
    requires k < |s| && AllWs(s[..k]) && !IsWs(s[k])
    ensures WsRun(s) == k
  {
  }

  lemma {:induction false} RunCovers(s: string, k: nat)
    requires k <= |s| && AllWs(s[..k])
    ensures k <= WsRun(s)
    decreases k
  {
    if k > 0 {
      assert IsWs(s[..k][0]);
      assert s[1..][..k - 1] == s[..k][1..];
      RunCovers(s[1..], k - 1);
    }
  }

  /**
   * Matching a literal and the run of spaces after it: the run ends where
   * the remaining text starts with a non-space.
   */
  lemma MatchLitSpaces(l: string, q: Regex, w: string, r: string, p: Regex, s: string)
    requires AllWs(w) && (r == [] || !IsWs(r[0]))
    requires p == [Lit(l), Spaces] + q && s == l + w + r
    ensures MatchLen(p, s) == Shift(MatchLen(q, r), |l| + |w|)
  {
    assert p == [Lit(l)] + ([Spaces] + q);
    assert s == l + (w + r);
    MatchLitThenRest(l, [Spaces] + q, w + r, p, s);
    MatchSpacesThenRest(q, w, r);
    ShiftShift(MatchLen(q, r), |w|, |l|);
  }

  /** Matching a literal at the start of a text that begins with it. */
  lemma MatchLitThenRest(l: string, q: Regex, r: string, p: Regex, s: string)
    requires p == [Lit(l)] + q && s == l + r
    ensures MatchLen(p, s) == Shift(MatchLen(q, r), |l|)
  {
    assert p[0] == Lit(l) && p[1..] == q;
    assert s[..|l|] == l && s[|l|..] == r;
    UnfoldLit(p, s);
  }

  /**
   * The shape of both deletion patterns, literal / run / literal / run /
   * literal / run, against a text of that shape: the match covers it all.
   */
  lemma ThreeLiteralsMatch(a: string, b: string, c: string, w1: string, w2: string, w3: string, rest: string, p: Regex, s: string)
    requires p == [Lit(a), Spaces, Lit(b), Spaces, Lit(c), Spaces]
    requires s == a + w1 + b + w2 + c + w3 + rest
    requires b != [] && !IsWs(b[0]) && c != [] && !IsWs(c[0])
    requires AllWs(w1) && AllWs(w2) && AllWs(w3) && (rest == [] || !IsWs(rest[0]))
    ensures MatchLen(p, s) == Some(|a| + |w1| + |b| + |w2| + |c| + |w3|)
    ensures s[|a| + |w1| + |b| + |w2| + |c| + |w3|..] == rest
  {
    Regroup(a, w1, b, w2, c, w3, rest);
    NestedThreeLiteralsMatch(a, b, c, w1, w2, w3, rest, p);
  }

  /** ThreeLiteralsMatch with the text grouped from the right, as matching consumes it. */
  lemma NestedThreeLiteralsMatch(a: string, b: string, c: string, w1: string, w2: string, w3: string, rest: string, p: Regex)
    requires p == [Lit(a), Spaces, Lit(b), Spaces, Lit(c), Spaces]
    requires b != [] && !IsWs(b[0]) && c != [] && !IsWs(c[0])
    requires AllWs(w1) && AllWs(w2) && AllWs(w3) && (rest == [] || !IsWs(rest[0]))
    ensures MatchLen(p, a + w1 + (b + w2 + (c + w3 + rest))) == Some(|a| + |w1| + |b| + |w2| + |c| + |w3|)
  {
    var q2: Regex := [Lit(b), Spaces, Lit(c), Spaces];
    var s2 := b + w2 + (c + w3 + rest);
    assert p == [Lit(a), Spaces] + q2;
    TwoLiteralsMatch(b, c, w2, w3, rest, q2);
    MatchLitSpaces(a, q2, w1, s2, p, a + w1 + s2);
  }

  /** The last two literal / run pairs of the shape. */
  lemma TwoLiteralsMatch(b: string, c: string, w2: string, w3: string, rest: string, q: Regex)
    requires q == [Lit(b), Spaces, Lit(c), Spaces]
    requires c != [] && !IsWs(c[0])
    requires AllWs(w2) && AllWs(w3) && (rest == [] || !IsWs(rest[0]))
    ensures MatchLen(q, b + w2 + (c + w3 + rest)) == Some(|b| + |w2| + |c| + |w3|)
  {
    var q4: Regex := [Lit(c), Spaces];
    assert q == [Lit(b), Spaces] + q4;
    assert q4 == [Lit(c), Spaces] + [];
    MatchLitSpaces(c, [], w3, rest, q4, c + w3 + rest);
    MatchLitSpaces(b, q4, w2, c + w3 + rest, q, b + w2 + (c + w3 + rest));
  }

  lemma Regroup(a: string, w1: string, b: string, w2: string, c: string, w3: string, rest: string)
    ensures a + w1 + b + w2 + c + w3 + rest == a + w1 + (b + w2 + (c + w3 + rest))
    ensures (a + w1 + b + w2 + c + w3 + rest)[|a| + |w1| + |b| + |w2| + |c| + |w3|..] == rest
  {
  }

  /** The same shape when the text breaks off before the third literal. */
  lemma ThirdLiteralMissing(a: string, b: string, c: string, w1: string, w2: string, rest: string, p: Regex, s: string)
    requires p == [Lit(a), Spaces, Lit(b), Spaces, Lit(c), Spaces]
    requires s == a + w1 + b + w2 + rest
    requires b != [] && !IsWs(b[0])
    requires AllWs(w1) && AllWs(w2) && (rest == [] || !IsWs(rest[0])) && !OccursAt(rest, c, 0)
    ensures MatchLen(p, s) == None
  {
    var s2 := b + w2 + rest;
    var q4: Regex := [Lit(c), Spaces];
    var q2: Regex := [Lit(b), Spaces] + q4;
    assert p == [Lit(a), Spaces] + q2;
    assert s == a + w1 + s2;
    NoLiteralNoMatch(q4, rest);
    MatchLitSpaces(b, q4, w2, rest, q2, s2);
    MatchLitSpaces(a, q2, w1, s2, p, s);
  }

  /** The same shape when the text breaks off before the second literal. */
  lemma SecondLiteralMissing(a: string, b: string, c: string, w1: string, rest: string, p: Regex, s: string)
    requires p == [Lit(a), Spaces, Lit(b), Spaces, Lit(c), Spaces]
    requires s == a + w1 + rest
    requires AllWs(w1) && (rest == [] || !IsWs(rest[0])) && !OccursAt(rest, b, 0)
    ensures MatchLen(p, s) == None
  {
    assert MatchLen(p[2..], rest) == None;
    MatchLitSpaces(a, p[2..], w1, rest, p, s);
  }

  /** A text that does not begin with the pattern's leading literal has no match of it. */
  lemma NoLiteralNoMatch(p: Regex, s: string)
    requires p != [] && p[0].Lit? && !OccursAt(s, p[0].text, 0)
    ensures MatchLen(p, s) == None
  {
    if |p[0].text| <= |s| {
      assert s[..|p[0].text|] == s[0..0 + |p[0].text|];
    }
  }

  lemma ShiftShift(m: Option<nat>, a: nat, b: nat)
    ensures Shift(Shift(m, a), b) == Shift(m, b + a)
  {
  }

  lemma MatchSpacesThenRest(q: Regex, w: string, r: string)
    requires AllWs(w) && (r == [] || !IsWs(r[0]))
    ensures MatchLen([Spaces] + q, w + r) == Shift(MatchLen(q, r), |w|)
  {
    RunOfSpaces(w, r);
    assert ([Spaces] + q)[1..] == q && ([Spaces] + q)[0] == Spaces;
    UnfoldSpaces([Spaces] + q, w + r);
  }

  /** A run of spaces followed by a non-space is exactly what `\s*` takes. */
  lemma RunOfSpaces(w: string, r: string)
    requires AllWs(w) && (r == [] || !IsWs(r[0]))
    ensures WsRun(w + r) == |w| && (w + r)[|w|..] == r
  {
    if r == [] {
      assert w + r == w;
      RunCovers(w + r, |w|);
    } else {
      assert (w + r)[..|w|] == w && (w + r)[|w|] == r[0];
      RunEndsAt(w + r, |w|);
    }
  }

  lemma UnfoldLit(p: Regex, s: string)
    requires p != [] && p[0].Lit? && OccursAt(s, p[0].text, 0)
    ensures MatchLen(p, s) == Shift(MatchLen(p[1..], s[|p[0].text|..]), |p[0].text|)
  {
    assert s[..|p[0].text|] == s[0..0 + |p[0].text|];
  }

  lemma UnfoldSpaces(p: Regex, s: string)
    requires p != [] && p[0].Spaces?
    ensures MatchLen(p, s) == Shift(MatchLen(p[1..], s[WsRun(s)..]), WsRun(s))
  {
  }

  /** Deleting matches leaves a subsequence of the input. */
  lemma {:induction false} StripSubsequence(p: Regex, s: string)
    ensures IsSubsequence(Strip(p, s), s)
    decreases |s|
  {
    if s != [] {
      if MatchesAt(p, s, 0) {
        var n := MatchLen(p, s).value;
        StripSubsequence(p, s[n..]);
        SubsequenceOfSuffix(Strip(p, s), s, n);
      } else {
        StripSubsequence(p, s[1..]);
      }
    }
  }

  /** Whether a match starts at an offset depends only on the text from there on. */
  lemma MatchesAtShift(p: Regex, s: string, n: nat, i: nat)
    requires n <= |s|
    ensures MatchesAt(p, s, n + i) <==> MatchesAt(p, s[n..], i)
  {
    if n + i <= |s| {
      assert s[n + i..] == s[n..][i..];
    }
  }

  /** Where no match starts inside `a`, the pass copies `a` and goes on with `b`. */
  lemma {:induction false} StripSkipsPrefix(p: Regex, a: string, b: string)
    requires forall i: nat :: i < |a| ==> !MatchesAt(p, a + b, i)
    ensures Strip(p, a + b) == a + Strip(p, b)
    decreases |a|
  {
    if a != [] {
      SkipOne(p, a, b);
      StripSkipsPrefix(p, a[1..], b);
      assert [a[0]] + (a[1..] + Strip(p, b)) == a + Strip(p, b);
    }
  }

  /** One step of StripSkipsPrefix: copy the first character of `a`; no match starts in the rest of `a` either. */
  lemma SkipOne(p: Regex, a: string, b: string)
    requires a != []
    requires forall i: nat :: i < |a| ==> !MatchesAt(p, a + b, i)
    ensures Strip(p, a + b) == [a[0]] + Strip(p, a[1..] + b)
    ensures forall i: nat :: i < |a[1..]| ==> !MatchesAt(p, a[1..] + b, i)
  {
    var s := a + b;
    CopiesHead(p, s);
    assert s[1..] == a[1..] + b;
    forall i: nat | i < |a[1..]|
      ensures !MatchesAt(p, a[1..] + b, i)
    {
      MatchesAtShift(p, s, 1, i);
    }
  }

  /** A pass over text in which no match starts changes nothing. */
  lemma StripNoMatch(p: Regex, s: string)
    requires forall i: nat :: i < |s| ==> !MatchesAt(p, s, i)
    ensures Strip(p, s) == s
  {
    assert s + [] == s;
    StripSkipsPrefix(p, s, []);
  }

  /** A match begins with the pattern's leading literal. */
  lemma MatchStartsWithLiteral(p: Regex, s: string)
    requires p != [] && p[0].Lit? && MatchLen(p, s).Some?
    ensures |p[0].text| <= |s| && s[..|p[0].text|] == p[0].text
  {
  }

  /** A match starting at offset `i` begins with the pattern's leading literal. */
  lemma MatchAtStartsWithLiteral(p: Regex, s: string, i: nat)
    requires p != [] && p[0].Lit? && MatchesAt(p, s, i)
    ensures OccursAt(s, p[0].text, i)
  {
    MatchStartsWithLiteral(p, s[i..]);
    assert s[i..][..|p[0].text|] == s[i..i + |p[0].text|];
  }

  /** No match starts where the pattern's leading literal does not occur. */
  lemma NoMatchWithoutLiteral(p: Regex, s: string, i: nat)
    requires p != [] && p[0].Lit? && !OccursAt(s, p[0].text, i)
    ensures !MatchesAt(p, s, i)
  {
    if MatchesAt(p, s, i) {
      MatchAtStartsWithLiteral(p, s, i);
    }
  }

  /** No match starts at a character other than the first one of the pattern's leading literal. */
  lemma NoMatchAtChar(p: Regex, s: string, i: nat)
    requires p != [] && p[0].Lit? && p[0].text != []
    requires i < |s| && s[i] != p[0].text[0]
    ensures !MatchesAt(p, s, i)
  {
    OccursAtHead(s, p[0].text, i);
    NoMatchWithoutLiteral(p, s, i);
  }

  /** Where the pattern's leading literal does not start, the character is copied. */
  lemma KeepsHead(p: Regex, s: string)
    requires s != [] && p != [] && p[0].Lit? && !OccursAt(s, p[0].text, 0)
    ensures Strip(p, s) == [s[0]] + Strip(p, s[1..])
  {
    if MatchesAt(p, s, 0) {
      MatchStartsWithLiteral(p, s);
    }
  }

  /** Where no match starts, the character is copied and the scan moves one on. */
  lemma CopiesHead(p: Regex, s: string)
    requires s != [] && !MatchesAt(p, s, 0)
    ensures Strip(p, s) == [s[0]] + Strip(p, s[1..])
  {
  }

  /** Text without the pattern's first character is copied whole. */
  lemma NoLeadCharUnchanged(p: Regex, s: string)
    requires p != [] && p[0].Lit? && p[0].text != []
    requires forall i :: 0 <= i < |s| ==> s[i] != p[0].text[0]
    ensures Strip(p, s) == s
  {
    assert s + [] == s;
    KeepsPrefix(p, s, []);
  }

  /** A prefix with no occurrence of the pattern's first character is copied. */
  lemma {:induction false} KeepsPrefix(p: Regex, a: string, b: string)
    requires p != [] && p[0].Lit? && p[0].text != []
    requires forall i :: 0 <= i < |a| ==> a[i] != p[0].text[0]
    ensures Strip(p, a + b) == a + Strip(p, b)
    decreases |a|
  {
    if a != [] {
      assert (a + b)[1..] == a[1..] + b;
      assert (a + b)[0] == a[0];
      KeepsHead(p, a + b);
      KeepsPrefix(p, a[1..], b);
    }
  }
}
