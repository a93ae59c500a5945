/**
 * The selector rewrite of the transform hook (src/index.ts:39):
 * `code.replace(/:root\b/g, ':host')`. A shadow tree has no document root,
 * and `:host` selects the element the shadow root is attached to.
 *
 * `\b` after the `t` of `:root` holds exactly when the next character is
 * missing or is not a word character, so whether a match starts at an
 * offset depends only on the text from that offset on.
 */
module RootHost {
  import opened Text

  const Root: string := ":root"
  const Host: string := ":host"

  /** `/:root\b/` matches at offset `i` of `s`. */
  predicate RootAt(s: string, i: nat) {
    i + 5 <= |s| && s[i] == ':' && s[i + 1] == 'r' && s[i + 2] == 'o' && s[i + 3] == 'o' && s[i + 4] == 't'
    && (i + 5 == |s| || !IsWord(s[i + 5]))
  }

  /** RootAt reads the characters of `:root` one by one. */
  lemma RootAtOccurs(s: string, i: nat)
    ensures RootAt(s, i) <==> OccursAt(s, Root, i) && (i + |Root| == |s| || !IsWord(s[i + |Root|]))
  {
    if i + |Root| <= |s| && RootAt(s, i) {
      assert s[i..i + |Root|] == Root;
    }
  }

  /** `s` holds no whole-word `:root`. */
  predicate NoRoot(s: string) {
    forall i: nat | i <= |s| :: !RootAt(s, i)
  }

  /**
   * `s.replace(/:root\b/g, ':host')`: scan left to right, replace each match
   * and go on after it.
   */
  function RewriteRoot(s: string): (r: string)
    ensures |r| == |s|
  {
    if s == [] then []
    else if RootAt(s, 0) then Host + RewriteRoot(s[|Root|..])
    else [s[0]] + RewriteRoot(s[1..])
  }

  /** Whether a match starts at an offset depends only on the text from there on. */
  lemma RootAtShift(s: string, n: nat, j: nat)
    requires n <= |s|
    ensures RootAt(s, n + j) <==> RootAt(s[n..], j)
  {
    if n + j + |Root| <= |s| {
      assert s[n..][j..j + |Root|] == s[n + j..n + j + |Root|];
    }
  }

  /** Two matches never overlap: the letters of `root` are not `:`. */
  lemma RootsApart(s: string, j: nat, i: nat)
    requires RootAt(s, j) && j < i < j + |Root|
    ensures !RootAt(s, i)
  {
    assert s[i] == s[j..j + |Root|][i - j];
  }

  /** The rewrite writes the `k - j`th character of `:host` at `k` when a match starting at `j` covers `k`. */
  ghost predicate HostAt(s: string, k: nat)
    requires k < |s|
  {
    forall j: nat :: j <= k < j + |Root| && RootAt(s, j) ==> RewriteRoot(s)[k] == Host[k - j]
  }

  /** The rewrite copies the character at `k` when no match covers `k`. */
  ghost predicate CopiedAt(s: string, k: nat)
    requires k < |s|
  {
    (forall j: nat :: j <= k < j + |Root| ==> !RootAt(s, j)) ==> RewriteRoot(s)[k] == s[k]
  }

  /** Inside the match at the start, only that match covers the offset. */
  lemma InLeadingMatch(s: string, k: nat)
    requires RootAt(s, 0) && k < |Root|
    ensures HostAt(s, k) && CopiedAt(s, k)
  {
    forall j: nat | 0 < j < |Root| ensures !RootAt(s, j) { RootsApart(s, 0, j); }
  }

  /** Past the match at the start, a match covering the offset lies in the rest of the text. */
  lemma HostAfterLeadingMatch(s: string, k: nat)
    requires RootAt(s, 0) && |Root| <= k < |s|
    requires HostAt(s[|Root|..], k - |Root|)
    ensures HostAt(s, k)
  {
    forall j: nat | j <= k < j + |Root| && RootAt(s, j)
      ensures RewriteRoot(s)[k] == Host[k - j]
    {
      HostFromRest(s, k, j);
    }
  }

  /** A match after the one at the start is a match of the rest of the text, which writes the offset. */
  lemma HostFromRest(s: string, k: nat, j: nat)
    requires RootAt(s, 0) && |Root| <= k < |s|
    requires HostAt(s[|Root|..], k - |Root|)
    requires j <= k < j + |Root| && RootAt(s, j)
    ensures RewriteRoot(s)[k] == Host[k - j]
  {
    if j < |Root| {
      RootsApart(s, 0, j);
    } else {
      HostFromLaterMatch(s, k, j);
    }
  }

  /** A match that starts past the one at the start is a match of the rest of the text. */
  lemma HostFromLaterMatch(s: string, k: nat, j: nat)
    requires RootAt(s, 0) && |Root| <= j <= k < j + |Root| && k < |s|
    requires HostAt(s[|Root|..], k - |Root|) && RootAt(s, j)
    ensures RewriteRoot(s)[k] == Host[k - j]
  {
    var t := s[|Root|..];
    RootAtShift(s, |Root|, j - |Root|);
    HostInRest(t, k - |Root|, j - |Root|);
    LeadingMatchIndex(s, k);
  }

  /** The instance of HostAt for one match. */
  lemma HostInRest(t: string, k: nat, i: nat)
    requires k < |t| && HostAt(t, k)
    requires i <= k < i + |Root| && RootAt(t, i)
    ensures RewriteRoot(t)[k] == Host[k - i]
  {
  }

  /** Past the match at the start, an offset no match covers is covered by none in the rest of the text. */
  lemma CopiedAfterLeadingMatch(s: string, k: nat)
    requires RootAt(s, 0) && |Root| <= k < |s|
    requires CopiedAt(s[|Root|..], k - |Root|)
    ensures CopiedAt(s, k)
  {
    var t := s[|Root|..];
    var n := |Root|;
    LeadingMatchIndex(s, k);
    if forall j: nat :: j <= k < j + n ==> !RootAt(s, j) {
      forall j: nat | j <= k - n < j + n
        ensures !RootAt(t, j)
      {
        RootAtShift(s, n, j);
      }
    }
  }

  /** Past the match at the start, offsets behave as they do in the rest of the text. */
  lemma AfterLeadingMatch(s: string, k: nat)
    requires RootAt(s, 0) && |Root| <= k < |s|
    requires HostAt(s[|Root|..], k - |Root|) && CopiedAt(s[|Root|..], k - |Root|)
    ensures HostAt(s, k) && CopiedAt(s, k)
  {
    HostAfterLeadingMatch(s, k);
    CopiedAfterLeadingMatch(s, k);
  }

  /** Past the match at the start, the output continues with the rewrite of the rest. */
  lemma LeadingMatchIndex(s: string, k: nat)
    requires RootAt(s, 0) && |Root| <= k < |s|
    ensures RewriteRoot(s)[k] == RewriteRoot(s[|Root|..])[k - |Root|]
  {
    assert RewriteRoot(s) == Host + RewriteRoot(s[|Root|..]);
  }

  /** Past a first character that starts no match, offsets behave as they do in the rest of the text. */
  lemma AfterLeadingChar(s: string, k: nat)
    requires s != [] && !RootAt(s, 0) && 1 <= k < |s|
    requires HostAt(s[1..], k - 1) && CopiedAt(s[1..], k - 1)
    ensures HostAt(s, k) && CopiedAt(s, k)
  {
    var t := s[1..];
    var n := |Root|;
    assert RewriteRoot(s) == [s[0]] + RewriteRoot(t);
    assert RewriteRoot(s)[k] == RewriteRoot(t)[k - 1];
    forall j: nat | j <= k < j + n && RootAt(s, j)
      ensures RewriteRoot(s)[k] == Host[k - j]
    {
      RootAtShift(s, 1, j - 1);
    }
    if forall j: nat :: j <= k < j + n ==> !RootAt(s, j) {
      forall j: nat | j <= k - 1 < j + n
        ensures !RootAt(t, j)
      {
        RootAtShift(s, 1, j);
      }
    }
  }

  /**
   * What the rewrite does at each offset: inside a whole-word `:root` it
   * writes the matching character of `:host`, everywhere else it copies.
   */
  lemma {:induction false} RewriteRootAt(s: string, k: nat)
    requires k < |s|
    ensures forall j: nat :: j <= k < j + |Root| && RootAt(s, j) ==> RewriteRoot(s)[k] == Host[k - j]
    ensures (forall j: nat :: j <= k < j + |Root| ==> !RootAt(s, j)) ==> RewriteRoot(s)[k] == s[k]
  {
    RewriteRootPointwise(s, k);
  }

  /** RewriteRootAt by induction on the text, passing the two facts along as predicates. */
  lemma {:induction false} RewriteRootPointwise(s: string, k: nat)
    requires k < |s|
    ensures HostAt(s, k) && CopiedAt(s, k)
    decreases |s|
  {
    if RootAt(s, 0) && |Root| <= k {
      RewriteRootPointwise(s[|Root|..], k - |Root|);
    } else if !RootAt(s, 0) && 1 <= k {
      RewriteRootPointwise(s[1..], k - 1);
    }
    PointwiseStep(s, k);
  }

  /** One step of RewriteRootPointwise, given the facts for the text after the first match or character. */
  lemma PointwiseStep(s: string, k: nat)
    requires k < |s|
    requires RootAt(s, 0) && |Root| <= k ==> HostAt(s[|Root|..], k - |Root|) && CopiedAt(s[|Root|..], k - |Root|)
    requires !RootAt(s, 0) && 1 <= k ==> HostAt(s[1..], k - 1) && CopiedAt(s[1..], k - 1)
    ensures HostAt(s, k) && CopiedAt(s, k)
  {
    if RootAt(s, 0) {
      if k < |Root| {
        InLeadingMatch(s, k);
      } else {
        AfterLeadingMatch(s, k);
      }
    } else if k >= 1 {
      AfterLeadingChar(s, k);
    } else {
      AtUnmatchedStart(s);
    }
  }

  /** A first character that starts no match is copied, and no match covers it. */
  lemma AtUnmatchedStart(s: string)
    requires s != [] && !RootAt(s, 0)
    ensures HostAt(s, 0) && CopiedAt(s, 0)
  {
    assert RewriteRoot(s) == [s[0]] + RewriteRoot(s[1..]);
  }

  /** Every whole-word `:root` of the input reads `:host` in the output. */
  lemma RootBecomesHost(s: string, j: nat)
    requires RootAt(s, j)
    ensures OccursAt(RewriteRoot(s), Host, j)
  {
    var r := RewriteRoot(s);
    forall k | j <= k < j + |Host|
      ensures r[k] == Host[k - j]
    {
      RewriteRootAt(s, k);
    }
    assert r[j..j + |Host|] == Host;
  }

  /** The first character of the output is `:` exactly when the input's is, and otherwise it is copied. */
  lemma RewriteHead(t: string)
    requires t != []
    ensures (RewriteRoot(t)[0] == ':') == (t[0] == ':')
    ensures t[0] != ':' ==> RewriteRoot(t) == [t[0]] + RewriteRoot(t[1..])
  {
    if RootAt(t, 0) {
      assert RewriteRoot(t) == Host + RewriteRoot(t[|Root|..]);
      assert t[0] == t[..|Root|][0];
    }
  }

  /** After the rewrite no whole-word `:root` is left. */
  lemma {:induction false} RewriteLeavesNoRoot(s: string)
    ensures NoRoot(RewriteRoot(s))
    decreases |s|
  {
    var r := RewriteRoot(s);
    if s == [] {
    } else if RootAt(s, 0) {
      var t := s[|Root|..];
      RewriteLeavesNoRoot(t);
      assert r[..|Host|] == Host;
      forall i: nat ensures !RootAt(r, i) {
        if i >= |Root| {
          RootAtShift(r, |Root|, i - |Root|);
          assert r[|Root|..] == RewriteRoot(t);
        } else if i + |Root| <= |r| {
          // Inside the written `:host`: no `:` after its start, no `r` after its colon.
          if i == 0 {
            assert r[i..i + |Root|][1] != Root[1];
          } else {
            assert r[i..i + |Root|][0] == Host[i] != Root[0];
          }
        }
      }
    } else {
      var t := s[1..];
      RewriteLeavesNoRoot(t);
      forall i: nat ensures !RootAt(r, i) {
        if i >= 1 {
          RootAtShift(r, 1, i - 1);
          assert r[1..] == RewriteRoot(t);
        } else {
          RootAfterColon(s);
        }
      }
    }
  }

  /**
   * If copying the first character and rewriting the rest starts with a
   * whole-word `:root`, the rest read `root` followed by the end or a
   * non-word character in the input too, so the input starts with one.
   */
  lemma RootAfterColon(s: string)
    requires s != []
    ensures RootAt([s[0]] + RewriteRoot(s[1..]), 0) ==> RootAt(s, 0)
  {
    var r := [s[0]] + RewriteRoot(s[1..]);
    if RootAt(r, 0) {
      assert r[..|Root|] == Root;
      var t0 := s[1..];
      assert r[1] == 'r' && r[2] == 'o' && r[3] == 'o' && r[4] == 't';
      RewriteHead(t0);
      var t1 := t0[1..];
      RewriteHead(t1);
      var t2 := t1[1..];
      RewriteHead(t2);
      var t3 := t2[1..];
      RewriteHead(t3);
      assert s[..|Root|] == Root;
      if |s| > |Root| {
        var t4 := t3[1..];
        RewriteHead(t4);
        assert s[|Root|] == t4[0];
      }
      assert RootAt(s, 0);
    }
  }

  /** Text without a whole-word `:root` is copied. */
  lemma {:induction false} NoRootUnchanged(s: string)
    requires NoRoot(s)
    ensures RewriteRoot(s) == s
    decreases |s|
  {
    if s != [] {
      assert !RootAt(s, 0);
      forall i: nat ensures !RootAt(s[1..], i) {
        RootAtShift(s, 1, i);
      }
      NoRootUnchanged(s[1..]);
    }
  }

  /** Rewriting twice is rewriting once. */
  lemma RewriteIdempotent(s: string)
    ensures RewriteRoot(RewriteRoot(s)) == RewriteRoot(s)
  {
    RewriteLeavesNoRoot(s);
    NoRootUnchanged(RewriteRoot(s));
  }

  /** The rewrite changes the text exactly when it holds a whole-word `:root`. */
  lemma RewriteChangesIffRoot(s: string)
    ensures RewriteRoot(s) == s <==> NoRoot(s)
  {
    if NoRoot(s) {
      NoRootUnchanged(s);
    } else {
      var j: nat :| j <= |s| && RootAt(s, j);
      RootBecomesHost(s, j);
      assert RewriteRoot(s)[j..j + |Host|][1] != s[j..j + |Root|][1];
    }
  }

  /** Both selectors have five characters; a match needs an `r` after the colon. */
  lemma WithoutRNoRoot(s: string)
    requires forall i :: 0 <= i < |s| ==> s[i] != 'r'
    ensures NoRoot(s)
  {
    forall i: nat | i <= |s| ensures !RootAt(s, i) {
      if i + |Root| <= |s| {
        assert s[i..i + |Root|][1] == s[i + 1];
      }
    }
  }

  /** A match needs a `:` directly followed by `r`; text where no `:` is followed by `r` holds none. */
  lemma NoColonBeforeR(s: string)
    requires forall i :: 0 <= i < |s| - 1 ==> s[i] != ':' || s[i + 1] != 'r'
    ensures NoRoot(s)
  {
    forall i: nat | i <= |s|
      ensures !RootAt(s, i)
    {
      if i + 1 < |s| {
        assert s[i] != ':' || s[i + 1] != 'r';
      }
    }
  }

  /** A text without `:` followed by one without `r` holds no whole-word `:root`. */
  lemma NoRootAcross(a: string, b: string)
    requires forall i :: 0 <= i < |a| ==> a[i] != ':'
    requires forall i :: 0 <= i < |b| ==> b[i] != 'r'
    ensures NoRoot(a + b)
  {
    var s := a + b;
    forall i | 0 <= i < |s| - 1
      ensures s[i] != ':' || s[i + 1] != 'r'
    {
      if i < |a| {
        assert s[i] == a[i];
      } else {
        assert s[i + 1] == b[i + 1 - |a|];
      }
    }
    NoColonBeforeR(s);
  }

  /**
   * The rewrite creates no occurrence of a text that has no `:` and does not
   * start with a letter of `host`: such an occurrence cannot overlap a
   * written `:host`, so it was in the input already.
   */
  lemma RewriteCreatesNo(s: string, t: string)
    requires t != [] && t[0] !in "host"
    requires forall k :: 0 <= k < |t| ==> t[k] != ':'
    requires !Contains(s, t)
    ensures !Contains(RewriteRoot(s), t)
  {
    var r := RewriteRoot(s);
    forall i: nat | i <= |r| && OccursAt(r, t, i)
      ensures OccursAt(s, t, i)
    {
      forall k | i <= k < i + |t|
        ensures r[k] == s[k]
      {
        CopiedInOccurrence(s, t, i, k);
      }
      assert s[i..i + |t|] == r[i..i + |t|];
    }
  }

  /** Inside such an occurrence in the output no match of the input is replaced. */
  lemma CopiedInOccurrence(s: string, t: string, i: nat, k: nat)
    requires t != [] && t[0] !in "host"
    requires forall k :: 0 <= k < |t| ==> t[k] != ':'
    requires OccursAt(RewriteRoot(s), t, i) && i <= k < i + |t|
    ensures RewriteRoot(s)[k] == s[k]
  {
    var r := RewriteRoot(s);
    RewriteRootAt(s, k);
    RewriteRootAt(s, i);
    assert r[i] == t[0];
    forall j: nat | j <= k < j + |Root|
      ensures !RootAt(s, j)
    {
      if j >= i {
        RewriteRootAt(s, j);
        assert r[j] == t[j - i];
      }
    }
  }

  /** `:rootless` continues the word, so it is no whole-word `:root` and is copied. */
  lemma RootlessKept(s: string)
    requires s == ":rootless"
    ensures RewriteRoot(s) == s
  {
    forall i: nat | i <= |s| ensures !RootAt(s, i) {
      if i + |Root| <= |s| {
        assert s[i..i + |Root|][0] == s[i];
      }
    }
    NoRootUnchanged(s);
  }
}
