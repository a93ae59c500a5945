/**
 * The `transform(code, id)` hook of the Vite plugin (src/index.ts:28-49):
 * for a CSS module imported with a query, delete the hyphens support tests
 * and scope `:root` rules to the shadow host; hand back the new code only
 * when it differs from the old.
 */
module ShadowDom {
  import opened Text
  import opened Hyphens
  import opened RootHost

  /** What the hook returns: `null`, or `{code, map: null}`. */
  datatype TransformResult = Unchanged | Rewritten(code: string)

  const InlineSuffix: string := ".css?inline"
  const CssQuery: string := ".css?"

  /** The gate at src/index.ts:30 lets the module through unless both tests fail. */
  predicate Eligible(id: string) {
    EndsWith(id, InlineSuffix) || Contains(id, CssQuery)
  }

  /** The chain of replacements: the double-parenthesised test, the single one, then `:root`. */
  function Normalize(code: string): string {
    RewriteRoot(StripSingleCondition(StripDoubleCondition(code)))
  }

  function Transform(code: string, id: string): (r: TransformResult)
    ensures r.Rewritten? ==> r.code != code
  {
    if !Eligible(id) then Unchanged
    else
      var transformed := Normalize(code);
      if transformed != code then Rewritten(transformed) else Unchanged
  }

  /** Ending with `.css?inline` already means containing `.css?`, so the gate tests only the latter. */
  lemma EligibleIffQuery(id: string)
    ensures Eligible(id) <==> Contains(id, CssQuery)
  {
    if EndsWith(id, InlineSuffix) {
      var i := |id| - |InlineSuffix|;
      assert OccursAt(id, InlineSuffix, i);
      assert OccursAt(InlineSuffix, CssQuery, 0);
      OccursWithin(id, InlineSuffix, CssQuery, i, 0);
    }
  }

  /** A module id without `.css?` is never rewritten, whatever its code. */
  lemma IneligibleUnchanged(code: string, id: string)
    requires !Contains(id, CssQuery)
    ensures Transform(code, id) == Unchanged
  {
    EligibleIffQuery(id);
  }

  /**
   * The hook returns `null` exactly when the id lacks `.css?` or the chain
   * leaves the code as it was; otherwise it returns the chain's output.
   */
  lemma TransformCases(code: string, id: string)
    ensures Transform(code, id) == Unchanged <==> !Contains(id, CssQuery) || Normalize(code) == code
    ensures Transform(code, id).Rewritten? ==> Transform(code, id).code == Normalize(code)
  {
    EligibleIffQuery(id);
  }

  /**
   * The chain never lengthens the code and leaves no whole-word `:root`;
   * the two deletion passes, which run before the `:root` rewrite, only
   * delete characters.
   */
  lemma NormalizeShape(code: string)
    ensures |Normalize(code)| <= |code|
    ensures NoRoot(Normalize(code))
    ensures IsSubsequence(StripSingleCondition(StripDoubleCondition(code)), code)
  {
    PassesOnlyDelete(code);
    RewriteLeavesNoRoot(StripSingleCondition(StripDoubleCondition(code)));
  }

  /** For CSS without `-webkit-hyphens` the chain is the `:root` rewrite alone. */
  lemma NoHyphensOnlyRoot(code: string)
    requires !Contains(code, HyphensProperty)
    ensures Normalize(code) == RewriteRoot(code)
    ensures Normalize(code) == code <==> NoRoot(code)
  {
    NoHyphensUnchanged(code);
    RewriteChangesIffRoot(code);
  }

  /**
   * On CSS without `-webkit-hyphens` the hook is idempotent: its output has
   * no hyphens test and no whole-word `:root` left to change.
   */
  lemma NormalizeIdempotentWithoutHyphens(code: string)
    requires !Contains(code, HyphensProperty)
    ensures Normalize(Normalize(code)) == Normalize(code)
  {
    NoHyphensOnlyRoot(code);
    assert HyphensProperty[0] == '-';
    RewriteCreatesNo(code, HyphensProperty);
    NoHyphensOnlyRoot(RewriteRoot(code));
    RewriteIdempotent(code);
  }

  /** The counterexample's condition holds no `r`, so the `:root` rewrite copies it. */
  lemma CounterexampleWithoutRoot(y: string, tail: string)
    requires tail == "-webkit-hyphens: none) and "
    requires y == "(" + tail
    ensures RewriteRoot(y) == y && y != []
  {
    CounterexampleInner(y, tail);
    WithoutRNoRoot(y);
    NoRootUnchanged(y);
  }

  /** The chain sends the nested counterexample to a condition, and that condition to the empty text. */
  lemma NormalizeNotIdempotent(x: string, y: string, tail: string)
    requires tail == "-webkit-hyphens: none) and "
    requires y == "(" + tail
    requires x == "(" + y + tail
    ensures Normalize(x) == y && Normalize(y) == []
    ensures Normalize(Normalize(x)) != Normalize(x)
  {
    DeletionNotIdempotent(x, y, tail);
    CounterexampleWithoutRoot(y, tail);
  }

  /**
   * With hyphens tests the hook is not idempotent: run on its own output it
   * can change the code again.
   */
  lemma TransformNotIdempotent(x: string, y: string, tail: string, id: string)
    requires tail == "-webkit-hyphens: none) and "
    requires y == "(" + tail
    requires x == "(" + y + tail
    requires Contains(id, CssQuery)
    ensures Transform(x, id) == Rewritten(y)
    ensures Transform(y, id) == Rewritten([])
  {
    NormalizeNotIdempotent(x, y, tail);
    assert |x| > |y|;
    TransformCases(x, id);
    TransformCases(y, id);
  }

  /** `:root { --x: 1; }` from an eligible module becomes `:host { --x: 1; }`. */
  lemma RootRuleExample(code: string, body: string, id: string)
    requires body == " { --x: 1; }"
    requires code == ":root" + body
    requires Contains(id, CssQuery)
    ensures Transform(code, id) == Rewritten(":host" + body)
  {
    RootRuleNormalized(code, body);
    assert (":host" + body)[1] != code[1];
    TransformCases(code, id);
  }

  /** The chain on the example: no hyphens test, one whole-word `:root`. */
  lemma RootRuleNormalized(code: string, body: string)
    requires body == " { --x: 1; }"
    requires code == ":root" + body
    ensures Normalize(code) == ":host" + body
  {
    WithoutWUnchanged(code);
    RootRuleRewritten(code, body);
  }

  /** The `:root` rewrite on the example. */
  lemma RootRuleRewritten(code: string, body: string)
    requires body == " { --x: 1; }"
    requires code == ":root" + body
    ensures RewriteRoot(code) == ":host" + body
  {
    assert code[|Root|..] == body;
    assert RootAt(code, 0);
    WithoutRNoRoot(body);
    NoRootUnchanged(body);
  }

  /**
   * An unterminated `@supports (-webkit-hyphens: none) and (foo: bar) {`
   * loses its hyphens test, so the hook reports a change for it.
   */
  lemma UnterminatedGuardRewritten(code: string, cond: string, other: string, id: string)
    requires cond == "(-webkit-hyphens: none) and "
    requires other == "(foo: bar) {"
    requires code == "@supports " + (cond + other)
    requires Contains(id, CssQuery)
    ensures Transform(code, id) == Rewritten("@supports " + other)
  {
    UnterminatedGuardPasses(code, cond, other);
    UnterminatedOutputKept("@supports " + other, other);
    assert |code| > |"@supports " + other|;
    TransformCases(code, id);
  }

  /** The output of the unterminated guard holds no `:` followed by `r`. */
  lemma UnterminatedOutputKept(out: string, other: string)
    requires other == "(foo: bar) {"
    requires out == "@supports " + other
    ensures RewriteRoot(out) == out
  {
    assert forall i :: 0 <= i < |out| - 1 ==> out[i] != ':' || out[i + 1] != 'r';
    NoColonBeforeR(out);
    NoRootUnchanged(out);
  }

  /**
   * `@supports ((-webkit-hyphens: none)) { .a { hyphens: auto; } }` from an
   * eligible module comes back as `null`: no pass changes it.
   */
  lemma LoneGuardUnchanged(css: string, t: string, rest: string, id: string)
    requires rest == "{ .a { hyphens: auto; } }"
    requires t == "((-webkit-hyphens:" + " " + "none))" + " " + rest
    requires css == "@supports " + t
    requires Contains(id, CssQuery)
    ensures Transform(css, id) == Unchanged
  {
    LoneGuardKept(css, t, rest);
    LoneGuardRootless(css, t, rest);
    TransformCases(css, id);
  }

  /** The lone guard: a keyword without `:`, then a condition and block without `r`. */
  lemma LoneGuardRootless(css: string, t: string, rest: string)
    requires rest == "{ .a { hyphens: auto; } }"
    requires t == "((-webkit-hyphens:" + " " + "none))" + " " + rest
    requires css == "@supports " + t
    ensures RewriteRoot(css) == css
  {
    KeywordWithoutColon("@supports ");
    LoneGuardWithoutR(t, rest);
    NoRootAcross("@supports ", t);
    NoRootUnchanged(css);
  }

  lemma KeywordWithoutColon(a: string)
    requires a == "@supports "
    ensures forall i :: 0 <= i < |a| ==> a[i] != ':'
  {
  }

  lemma LoneGuardWithoutR(t: string, rest: string)
    requires rest == "{ .a { hyphens: auto; } }"
    requires t == "((-webkit-hyphens:" + " " + "none))" + " " + rest
    ensures forall i :: 0 <= i < |t| ==> t[i] != 'r'
  {
  }
}
