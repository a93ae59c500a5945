# Tailwind CSS for Shadow DOM: a Dafny model of the `transform` hook

`vite-plugin-tailwind-shadowdom` is a Vite plugin. Its only behaviour is the
`transform(code, id)` hook. The hook takes CSS that Tailwind generated for a
module imported with a query (`foo.css?inline`) and rewrites it so that it
works inside a shadow root:

1. **Gate.** Modules whose id neither ends with `.css?inline` nor contains
   `.css?` are passed over (`null`).
2. **Two deletion passes.** The first deletes every
   `((-webkit-hyphens:` WS `none))` WS `and` WS. The second, run on the
   first's output, deletes every `(-webkit-hyphens:` WS `none)` WS `and` WS.
   WS is JavaScript's `\s*`, taken greedily. Tailwind guards rules with these
   support tests, and those tests fail inside a shadow root.
3. **Selector rewrite.** Every `:root` that ends a word becomes `:host`.
4. **Result.** The hook returns `{code, map: null}` when the text changed,
   and `null` otherwise.

The model is pure: datatypes, recursive functions and lemmas, matching the
source, which has no loops, fields or mutation.

- `text.dfy` (`Text`): the `\s` and `\w` classes, `includes`/`endsWith`, and
  "is a subsequence of".
- `pattern.dfy` (`Pattern`): the fragment of regular expressions the passes
  use, as literals and `\s*` runs.
  - `MatchLen` is the deterministic greedy matcher, and `MatchLenLongest`
    proves that it gives the longest prefix in the pattern's language. The
    proof needs `WellFormed`: every `\s*` ends the pattern or is followed by
    a literal that starts with a non-space. For such patterns a greedy run
    never has to give characters back, so this longest match is the one
    JavaScript's backtracking finds. `Hyphens.ConditionsWellFormed` shows
    that both deletion patterns are well formed.
  - `Strip` is `.replace(re, '')` with the `g` flag.
- `hyphens.dfy` (`Hyphens`): the two deletion passes, with examples and a
  counterexample.
- `root.dfy` (`RootHost`): the `:root\b` → `:host` rewrite.
- `transform.dfy` (`ShadowDom`): the gate, the chain and the result.

The hook does not locate, brace-match or unwrap `@supports` blocks. It
deletes only the two condition prefixes and leaves the rest of the at-rule
in place. In particular:

- Running the hook again on its own output is not always a no-op.
  `ShadowDom.TransformNotIdempotent` gives the input.
- For `@supports ((-webkit-hyphens: none)) { .a { hyphens: auto; } }` the
  hook returns `null` (`ShadowDom.LoneGuardUnchanged`).
- `@supports ((-webkit-hyphens: none)) and (foo: bar) { … }` keeps its
  wrapper and loses only the hyphens test and its `and`
  (`Hyphens.SupportsDoubleConditionDeleted`).
- An unterminated `@supports (-webkit-hyphens: none) and (foo: bar) {` is
  changed in the same way: the hook returns `@supports (foo: bar) {`
  (`ShadowDom.UnterminatedGuardRewritten`).

## Model

| member | source | states |
|---|---|---|
| Pattern.MatchLen | src/index.ts:36-37 | One regex match at the start of the text, each `\s*` taken as far as it goes; a reported length never exceeds the text (soundness and maximality are the two lemmas below) |
| Pattern.Strip | src/index.ts:36-37 | `.replace(re, '')` with the `g` flag: scan left to right, delete each match and go on after it; the output is never longer than the input (what it deletes is characterised by `Pattern.StripSubsequence` and the `Hyphens` lemmas) |
| Pattern.MatchLenSound | src/index.ts:36-37 | Every match the greedy matcher reports is a prefix in the pattern's language |
| Pattern.MatchLenLongest | src/index.ts:36-37 | For a well-formed pattern, every prefix in the language is no longer than the reported match, so greedy `\s*` never has to backtrack |
| Pattern.StripSubsequence | src/index.ts:36-37 | A global replacement with the empty string yields a subsequence of its input |
| Hyphens.StripDoubleCondition | src/index.ts:36 | None of its own: the first pass is `Pattern.Strip` with the token list of the line-36 regex; its properties are `Hyphens.DoubleConditionMatch`, `Hyphens.DoubleConditionDeleted` and `Hyphens.PassesOnlyDelete` |
| Hyphens.StripSingleCondition | src/index.ts:37 | None of its own: the second pass is `Pattern.Strip` with the token list of the line-37 regex; its properties are `Hyphens.SingleConditionMatch`, `Hyphens.SingleConditionDeleted` and `Hyphens.PassesOnlyDelete` |
| Hyphens.ConditionsWellFormed | src/index.ts:36-37 | Both deletion patterns are well formed: each `\s*` is followed by a literal starting with a non-space or ends the pattern |
| Hyphens.DoubleConditionMatch | src/index.ts:36 | At each offset, the first pass deletes the longest prefix matching `\(\(-webkit-hyphens:\s*none\)\)\s*and\s*` |
| Hyphens.SingleConditionMatch | src/index.ts:37 | The same for `\(-webkit-hyphens:\s*none\)\s*and\s*` |
| Hyphens.PassesOnlyDelete | src/index.ts:36-37 | Each pass, and the two in sequence, output a subsequence of the input that is no longer than it |
| Hyphens.NoHyphensUnchanged | src/index.ts:36-37 | CSS without `-webkit-hyphens` passes both deletions unchanged |
| Hyphens.DoubleConditionDeleted | src/index.ts:36 | The first pass deletes `((-webkit-hyphens:` WS `none))` WS `and` WS for any whitespace runs, and goes on with the text after them |
| Hyphens.SingleConditionDeleted | src/index.ts:37 | The second pass deletes `(-webkit-hyphens:` WS `none)` WS `and` WS, and goes on with the text after them |
| Hyphens.UnjoinedConditionKept | src/index.ts:36-37 | A `(-webkit-hyphens:` WS `none)` WS test not followed by `and` starts no match of either pass, and both passes copy the whole test and go on with the text after it |
| Hyphens.SupportsKeywordKept | src/index.ts:36-37 | The `@supports ` keyword in front of a condition is copied by both passes |
| Hyphens.SupportsDoubleConditionDeleted | src/index.ts:36 | `@supports ((-webkit-hyphens: none)) and ` + rest becomes `@supports ` followed by the first pass applied to rest |
| Hyphens.DoubleConditionExample | src/index.ts:36 | `@supports ((-webkit-hyphens: none)) and (margin-trim: inline) {` becomes `@supports (margin-trim: inline) {` |
| Hyphens.LoneGuardKept | src/index.ts:36-37 | `@supports ((-webkit-hyphens: none)) { .a { hyphens: auto; } }` passes both deletions unchanged |
| Hyphens.UnterminatedGuardPasses | src/index.ts:36-37 | The first pass copies `@supports (-webkit-hyphens: none) and (foo: bar) {`; the second turns it into `@supports (foo: bar) {` without looking for a closing brace |
| Hyphens.DeletionNotIdempotent | src/index.ts:36-37 | The passes turn `((-webkit-hyphens: none) and -webkit-hyphens: none) and ` into `(-webkit-hyphens: none) and `, which a second run deletes entirely |
| RootHost.RootAt | src/index.ts:39 | None of its own: where `/:root\b/` matches, read character by character; `RootHost.RootAtOccurs` states what it means |
| RootHost.RootAtOccurs | src/index.ts:39 | A match of `:root\b` at an offset is an occurrence of `:root` there followed by the end of the text or a non-word character |
| RootHost.RewriteRoot | src/index.ts:39 | The rewrite keeps the length of the text |
| RootHost.RewriteRootAt | src/index.ts:39 | Inside a whole-word `:root` the output holds the matching character of `:host`; every other character is copied |
| RootHost.RootBecomesHost | src/index.ts:39 | Each whole-word `:root` of the input reads `:host` at the same offset of the output |
| RootHost.RewriteLeavesNoRoot | src/index.ts:39 | The output holds no `:root` followed by the end or by a non-word character |
| RootHost.NoRootUnchanged | src/index.ts:39 | Text without a whole-word `:root` is copied |
| RootHost.RewriteIdempotent | src/index.ts:39 | Rewriting twice is rewriting once |
| RootHost.RewriteChangesIffRoot | src/index.ts:39 | The rewrite leaves the text unchanged exactly when it holds no whole-word `:root` |
| RootHost.WithoutRNoRoot | src/index.ts:39 | Text without `r` holds no whole-word `:root` |
| RootHost.NoColonBeforeR | src/index.ts:39 | Text in which no `:` is directly followed by `r` holds no whole-word `:root` |
| RootHost.RewriteCreatesNo | src/index.ts:39 | The rewrite creates no occurrence of a text that has no `:` and does not begin with a letter of `host`, such as `-webkit-hyphens` |
| RootHost.RootlessKept | src/index.ts:39 | `:rootless` continues the word and is left untouched |
| Text.IsWs | src/index.ts:36-37 | None of its own: the members of JavaScript's `\s` (WhiteSpace and LineTerminator code points), which `Text.WsRun` and the `\s*` token use |
| Text.IsWord | src/index.ts:39 | None of its own: the members of `\w`, `[A-Za-z0-9_]`, on which `\b` depends; see `RootHost.RootAtOccurs` and `RootHost.RootlessKept` |
| Text.Contains | src/index.ts:30 | None of its own: `includes`, an occurrence at some offset; used by `ShadowDom.EligibleIffQuery` |
| Text.EndsWith | src/index.ts:30 | None of its own: `endsWith`, the text ends with the suffix; used by `ShadowDom.EligibleIffQuery` |
| ShadowDom.Eligible | src/index.ts:30 | None of its own: the negation of the `null` test on line 30; `ShadowDom.EligibleIffQuery` proves it equals containing `.css?` |
| ShadowDom.Normalize | src/index.ts:34-39 | None of its own: the chain first pass, second pass, `:root` rewrite; its properties are `ShadowDom.NormalizeShape` and the lemmas after it |
| ShadowDom.EligibleIffQuery | src/index.ts:30 | The gate passes exactly the ids that contain `.css?`; the `.css?inline` test adds no case |
| ShadowDom.IneligibleUnchanged | src/index.ts:30-32 | An id without `.css?` yields `null` for every code |
| ShadowDom.Transform | src/index.ts:41-46 | A non-null result carries code different from the input |
| ShadowDom.TransformCases | src/index.ts:28-48 | The result is `null` exactly when the id lacks `.css?` or the chain leaves the code unchanged; otherwise it carries the chain's output |
| ShadowDom.NormalizeShape | src/index.ts:34-39 | The chain (first pass, second pass, then `:root`) never lengthens the code and leaves no whole-word `:root`; up to the selector rewrite it only deletes |
| ShadowDom.NoHyphensOnlyRoot | src/index.ts:34-39 | For CSS without `-webkit-hyphens`, the chain is the `:root` rewrite alone, and changes the code exactly when it holds a whole-word `:root` |
| ShadowDom.NormalizeIdempotentWithoutHyphens | src/index.ts:34-39 | For CSS without `-webkit-hyphens`, applying the chain twice is applying it once |
| ShadowDom.NormalizeNotIdempotent | src/index.ts:34-39 | With hyphens tests, the chain applied to its own output can change it again |
| ShadowDom.TransformNotIdempotent | src/index.ts:28-48 | For an eligible id, the hook rewrites the nested counterexample, and rewrites its own output once more, to the empty text |
| ShadowDom.LoneGuardUnchanged | src/index.ts:28-48 | For an eligible id, `@supports ((-webkit-hyphens: none)) { .a { hyphens: auto; } }` yields `null`: no pass changes it |
| ShadowDom.UnterminatedGuardRewritten | src/index.ts:28-48 | For an eligible id, the unterminated `@supports (-webkit-hyphens: none) and (foo: bar) {` yields `Rewritten("@supports (foo: bar) {")` |
| ShadowDom.RootRuleExample | src/index.ts:28-48 | `:root { --x: 1; }` from an eligible module yields `Rewritten(":host { --x: 1; }")` |

## Left out

- Plugin registration (src/index.ts:1, 23-26, 50-53): the `Plugin` type
  import, `name`, `enforce: 'post'` and the export. They are metadata with no
  behaviour; the model starts at the hook.
- Source maps: the non-null result's `map` is always `null`
  (src/index.ts:44). `TransformResult.Rewritten` carries only the code.
- Strings are sequences of Unicode scalar values, while JavaScript strings
  are UTF-16 code units. Every pattern character is ASCII and every `\s`
  member lies in the Basic Multilingual Plane. So matches start and end at
  the same characters in both readings. Surrogate pairs are not modelled
  separately.
- Brace matching and unwrapping of whole `@supports` blocks: the code has no
  such logic, so there is nothing to model. The properties that depend on it
  are listed above with what the code does instead.
- Vite's calling of the hook, including the order of plugins and caching, is
  outside the hook and is not part of this model.
