/** `generate_masked_text`: the prompt that wraps the caller's text, the
    language model as an opaque function from prompt to completion, and the
    extraction of the masked text from the completion. */
module Masking {
  import opened Text

  /** Heading of the section holding the caller's text; also the stop sequence
      handed to the model. */
  const BEFORE_MASK: string := "### before_mask:"

  /** Heading the model is asked to continue after; the extraction splits the
      completion on it. */
  const AFTER_MASK: string := "### after_mask:"

  /** The instruction text that opens the prompt: the masking task, the seven
      categories of personal data with their placeholders, and the rule that
      everything else is to be left unchanged. */
  const INSTRUCTIONS: string :=
    "\n"
    + "# 個人情報マスキングタスク\n"
    + "\n"
    + "あなたは個人情報のマスキングを行うAIアシスタントです。日本語テキスト内の個人情報のみを正確にマスキングしてください。\n"
    + "\n"
    + "## マスキング対象の個人情報と形式\n"
    + "- 人名: <マスキング済みの氏名>\n"
    + "- 会社名: <マスキング済みの会社名>\n"
    + "- 住所: <マスキング済みの住所>\n"
    + "- メールアドレス: <マスキング済みのemailアドレス>\n"
    + "- 電話番号: <マスキング済みの電話番号>\n"
    + "- 生年月日: <マスキング済みの生年月日>\n"
    + "- 郵便番号: <マスキング済みの郵便番号>\n"
    + "\n"
    + "## 制約条件\n"
    + "- before_mask の個人情報以外の部分は一切変更しないでください。\n"
    + "- before_mask のテキスト構造と文脈を完全に保持したまま個人情報のみをマスキングし、after_mask に出力してください。\n"
    + "\n"

  /** Everything before the caller's text. */
  const PREFIX: string := INSTRUCTIONS + BEFORE_MASK + "\n"

  /** Everything after the caller's text: a blank line and the output heading. */
  const SUFFIX: string := "\n\n" + AFTER_MASK + "\n"

  /** The prompt: the instructions, the `### before_mask:` heading, the
      caller's text, a blank line and the `### after_mask:` heading. */
  function Prompt(input: string): (p: string)
    ensures |p| == |PREFIX| + |input| + |SUFFIX|
  {
    PREFIX + input + SUFFIX
  }

  /** The caller's text sits unchanged in the prompt, on the lines right after
      the `### before_mask:` heading, and is followed by a blank line and the
      `### after_mask:` heading that ends the prompt; nothing else in the
      prompt depends on it. */
  lemma PromptLayout(input: string)
    ensures var p := Prompt(input);
            && |p| == |PREFIX| + |input| + |SUFFIX|
            && p[..|PREFIX|] == PREFIX
            && p[|PREFIX|..|PREFIX| + |input|] == input
            && p[|PREFIX| + |input|..] == SUFFIX
  {
    ConcatSlices(PREFIX, input, SUFFIX);
  }

  /** The line before the caller's text is the `### before_mask:` heading,
      and the prompt ends with the `### after_mask:` heading line. */
  lemma PromptHeadings(input: string)
    ensures var p := Prompt(input);
            && p[|INSTRUCTIONS|..|PREFIX|] == BEFORE_MASK + "\n"
            && p[|p| - |AFTER_MASK| - 1..] == AFTER_MASK + "\n"
  {
    var p := Prompt(input);
    PromptLayout(input);
    ConcatSlices(INSTRUCTIONS, BEFORE_MASK, "\n");
    assert PREFIX[|INSTRUCTIONS|..] == BEFORE_MASK + "\n";
    SliceOfSlice(p, 0, |PREFIX|, |INSTRUCTIONS|, |PREFIX|);
    assert SUFFIX[2..] == AFTER_MASK + "\n";
    assert p[|p| - |AFTER_MASK| - 1..] == SUFFIX[2..];
  }

  /** Recovers the caller's text from a prompt, or `None` when the string does
      not have the prompt's shape. */
  function PromptInput(p: string): (r: Option<string>)
    ensures r.Some? ==> |p| == |PREFIX| + |r.value| + |SUFFIX|
  {
    if |PREFIX| + |SUFFIX| <= |p| && p[..|PREFIX|] == PREFIX && p[|p| - |SUFFIX|..] == SUFFIX
    then Some(p[|PREFIX|..|p| - |SUFFIX|])
    else None
  }

  /** The caller's text can be read back out of the prompt. */
  lemma PromptRoundTrip(input: string)
    ensures PromptInput(Prompt(input)) == Some(input)
  {
    PromptLayout(input);
  }

  /** Every string read back from a prompt rebuilds that prompt. */
  lemma PromptInputSound(p: string)
    requires PromptInput(p).Some?
    ensures Prompt(PromptInput(p).value) == p
  {
    ConcatOfSlices(p, |PREFIX|, |p| - |SUFFIX|);
  }

  /** Different texts give different prompts. */
  lemma PromptInjective(a: string, b: string)
    requires Prompt(a) == Prompt(b)
    ensures a == b
  {
    PromptRoundTrip(a);
    PromptRoundTrip(b);
  }

  /** The end of the text after the first marker: the start of the next
      occurrence at or after `from`, or the end of the completion. */
  function SectionEnd(g: string, from: nat): (e: nat)
    requires from <= |g|
    ensures from <= e <= |g|
    ensures e == |g| || OccursAt(g, AFTER_MASK, e)
    ensures forall k :: from <= k < e ==> !OccursAt(g, AFTER_MASK, k)
  {
    match FindFrom(g, AFTER_MASK, from)
    case None => |g|
    case Some(e) => e
  }

  /** With the marker present, the second piece of the split is the text
      between the first occurrence and the next one (or the end). */
  lemma MarkerSection(g: string)
    requires Contains(g, AFTER_MASK)
    ensures FindFrom(g, AFTER_MASK, 0).Some?
    ensures var i := FindFrom(g, AFTER_MASK, 0).value;
            && i + |AFTER_MASK| <= |g|
            && |Split(g, AFTER_MASK)| >= 2
            && Split(g, AFTER_MASK)[1] == g[i + |AFTER_MASK|..SectionEnd(g, i + |AFTER_MASK|)]
  {
    SplitSecondFound(g, AFTER_MASK);
  }

  /** The body of the marker branch keeps what `Extract` promises. */
  lemma MarkerBranch(g: string)
    requires Contains(g, AFTER_MASK)
    ensures |Split(g, AFTER_MASK)| >= 2
    ensures var r := Strip(Split(g, AFTER_MASK)[1]);
            && !Contains(r, AFTER_MASK)
            && exists i, j :: 0 <= i <= j <= |g| && r == g[i..j]
  {
    MarkerSection(g);
    var i := FindFrom(g, AFTER_MASK, 0).value;
    var start := i + |AFTER_MASK|;
    var e := SectionEnd(g, start);
    var piece := Split(g, AFTER_MASK)[1];
    SplitPiecesFree(g, AFTER_MASK);
    StripNotContains(piece, AFTER_MASK);
    StripOfSlice(g, start, e);
  }

  /** The masked text taken out of the model's completion: when the
      `### after_mask:` marker occurs, the stripped text between its first and
      its second occurrence (or the end); otherwise the stripped completion. */
  function Extract(generated: string): (r: string)
    ensures Trimmed(r)
    ensures !Contains(r, AFTER_MASK)
    ensures exists i, j :: 0 <= i <= j <= |generated| && r == generated[i..j]
  {
    if Contains(generated, AFTER_MASK) then
      MarkerBranch(generated);
      StripTrimmed(Split(generated, AFTER_MASK)[1]);
      Strip(Split(generated, AFTER_MASK)[1])
    else
      StripTrimmed(generated);
      StripNotContains(generated, AFTER_MASK);
      assert generated[0..|generated|] == generated;
      StripOfSlice(generated, 0, |generated|);
      Strip(generated)
  }

  /** Without the marker, the result is the completion with its maximal
      leading and trailing whitespace runs removed. */
  lemma ExtractWithoutMarker(g: string, i: int, j: int, r: string)
    requires !Contains(g, AFTER_MASK)
    requires StrippedAt(g, i, j, r)
    ensures Extract(g) == r
  {
    StripUnique(g, i, j, r);
  }

  /** With the marker first occurring at `i`, and `e` the next occurrence after
      it (or the end), the result is `g[i + |AFTER_MASK|..e]` with its maximal
      leading and trailing whitespace runs removed. */
  lemma ExtractWithMarker(g: string, i: nat, e: nat, a: int, b: int, r: string)
    requires OccursAt(g, AFTER_MASK, i)
    requires forall k :: 0 <= k < i ==> !OccursAt(g, AFTER_MASK, k)
    requires i + |AFTER_MASK| <= e <= |g|
    requires e == |g| || OccursAt(g, AFTER_MASK, e)
    requires forall k :: i + |AFTER_MASK| <= k < e ==> !OccursAt(g, AFTER_MASK, k)
    requires StrippedAt(g[i + |AFTER_MASK|..e], a, b, r)
    ensures Extract(g) == r
  {
    assert Contains(g, AFTER_MASK);
    SplitSecond(g, AFTER_MASK, i, e);
    StripUnique(g[i + |AFTER_MASK|..e], a, b, r);
  }

  /** Extracting from an extracted text gives it back unchanged. */
  lemma ExtractIdempotent(g: string)
    ensures Extract(Extract(g)) == Extract(g)
  {
    StripOfTrimmed(Extract(g));
  }

  /** A second marker ends the extracted text: whatever follows it is dropped. */
  lemma ExtractStopsAtSecondMarker(a: string, b: string)
    requires !Contains(a, AFTER_MASK) && Trimmed(a)
    ensures Extract(AFTER_MASK + a + AFTER_MASK + b) == a
  {
    var g := AFTER_MASK + a + AFTER_MASK + b;
    var m := |AFTER_MASK|;
    assert g[..m] == AFTER_MASK;
    assert g[m + |a|..m + |a| + m] == AFTER_MASK;
    forall k | m <= k < m + |a| ensures !OccursAt(g, AFTER_MASK, k) {
      if OccursAt(g, AFTER_MASK, k) {
        if k + m <= m + |a| {
          assert g[k..k + m] == a[k - m..k];
          assert OccursAt(a, AFTER_MASK, k - m);
        } else {
          var q := k - |a| - 1;
          assert g[k..k + m][m - 1] == g[k + m - 1] == AFTER_MASK[q];
          MarkerColonLast(q);
        }
        assert false;
      }
    }
    assert g[m..m + |a|] == a;
    assert a[0..|a|] == a;
    ExtractWithMarker(g, 0, m + |a|, 0, |a|, a);
  }

  /** The marker has its colon only at the end, so no proper suffix of it is
      also a prefix of it. */
  lemma MarkerColonLast(q: int)
    requires 0 <= q < |AFTER_MASK| - 1
    ensures AFTER_MASK[q] != ':'
  {
  }

  /** What `generate_masked_text` returns, for a model given as a function from
      prompt to completion. */
  function MaskText(llm: string -> string, input: string): (r: string)
    ensures Trimmed(r)
    ensures !Contains(r, AFTER_MASK)
    ensures exists i, j :: 0 <= i <= j <= |llm(Prompt(input))| && r == llm(Prompt(input))[i..j]
  {
    Extract(llm(Prompt(input)))
  }
}
