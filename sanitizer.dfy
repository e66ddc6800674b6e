/**
 * The Markdown-fence cleanup that fetch_questions.py applies to the model's
 * reply before decoding it as JSON: the reply is stripped, then a leading
 * "```" line (or bare "```") is cut off, then one trailing "```", with a
 * `strip()` after each cut.
 */
module Sanitizer {
  import opened Text

  const Fence: string := "```"

  /**
   * The first conditional (lines 59-64). Text without a leading fence is kept.
   * After a leading fence, the newline kept by `content[first_newline:]` is
   * stripped away, so what remains is the stripped text after the first
   * newline; with no newline at all, the stripped text after the three
   * backticks. Either way the result has no surrounding whitespace.
   */
  function CutLeadingFence(content: string): (r: string)
    ensures !StartsWith(content, Fence) ==> r == content
    ensures StartsWith(content, Fence) && '\n' in content ==>
      r == Strip(content[Find(content, '\n') + 1..])
    ensures StartsWith(content, Fence) && '\n' !in content ==> r == Strip(content[3..])
    ensures StartsWith(content, Fence) ==> IsTrimmed(r) && |r| < |content|
  {
    if StartsWith(content, Fence) then
      var firstNewline := Find(content, '\n');
      if firstNewline != -1 then
        StripSkipsLeadingSpace(content[firstNewline..]);
        assert content[firstNewline..][1..] == content[firstNewline + 1..];
        Strip(content[firstNewline..])
      else Strip(content[3..])
    else content
  }

  /**
   * The second conditional (lines 65-66). Text without a trailing fence is
   * kept; otherwise the result is the stripped text before the last three
   * characters, so it is shorter by at least the fence and has no surrounding
   * whitespace.
   */
  function CutTrailingFence(content: string): (r: string)
    ensures !EndsWith(content, Fence) ==> r == content
    ensures EndsWith(content, Fence) ==>
      r == Strip(content[..|content| - 3]) && IsTrimmed(r) && |r| <= |content| - 3
  {
    if EndsWith(content, Fence) then Strip(content[..|content| - 3]) else content
  }

  /**
   * Both cuts, in the script's order. The result is a contiguous piece of the
   * input, and on an input that is already stripped it has no surrounding whitespace.
   */
  function Clean(content: string): (r: string)
    ensures |r| <= |content|
    ensures IsSliceOf(r, content)
    ensures IsTrimmed(content) ==> IsTrimmed(r)
  {
    var lead := CutLeadingFence(content);
    LeadingCutIsSlice(content);
    TrailingCutIsSlice(lead);
    SliceOfSlice(CutTrailingFence(lead), lead, content);
    CutTrailingFence(lead)
  }

  /** The whole cleanup: the `strip()` of the reply followed by `Clean`. */
  function Sanitize(reply: string): (r: string)
    ensures |r| <= |reply|
    ensures IsSliceOf(r, reply)
    ensures IsTrimmed(r)
  {
    var content := Strip(reply);
    StripIsSlice(reply);
    SliceOfSlice(Clean(content), content, reply);
    Clean(content)
  }

  lemma LeadingCutIsSlice(content: string)
    ensures IsSliceOf(CutLeadingFence(content), content)
    ensures IsTrimmed(content) ==> IsTrimmed(CutLeadingFence(content))
  {
    if StartsWith(content, Fence) {
      var i := Find(content, '\n');
      var k := if i != -1 then i else 3;
      SuffixAndPrefixAreSlices(content, k);
      StripIsSlice(content[k..]);
      SliceOfSlice(CutLeadingFence(content), content[k..], content);
    } else {
      SuffixAndPrefixAreSlices(content, 0);
      assert content[0..] == content;
    }
  }

  lemma TrailingCutIsSlice(content: string)
    ensures IsSliceOf(CutTrailingFence(content), content)
    ensures IsTrimmed(content) ==> IsTrimmed(CutTrailingFence(content))
  {
    if EndsWith(content, Fence) {
      SuffixAndPrefixAreSlices(content, |content| - 3);
      StripIsSlice(content[..|content| - 3]);
      SliceOfSlice(CutTrailingFence(content), content[..|content| - 3], content);
    } else {
      SuffixAndPrefixAreSlices(content, 0);
      assert content[0..] == content;
    }
  }

  /** Text with no fence at either end passes through unchanged. */
  lemma CleanWithoutFences(content: string)
    requires !StartsWith(content, Fence) && !EndsWith(content, Fence)
    ensures Clean(content) == content
  {
  }

  /**
   * A leading fence followed somewhere by a newline: the first step leaves the
   * stripped text after the first newline.
   */
  lemma LeadingFenceLine(content: string, i: nat)
    requires StartsWith(content, Fence)
    requires i < |content| && content[i] == '\n' && '\n' !in content[..i]
    ensures CutLeadingFence(content) == Strip(content[i + 1..])
  {
    assert Find(content, '\n') == i;
  }

  /**
   * Only one trailing fence is cut: a payload followed by two fences keeps the
   * second one (for instance "x``````" becomes "x```").
   */
  lemma OneTrailingFenceOnly(p: string)
    requires IsTrimmed(p) && p != [] && p[0] != '`'
    ensures Clean(p + Fence + Fence) == p + Fence
    ensures EndsWith(Clean(p + Fence + Fence), Fence)
  {
    TwoTrailingFences(p);
    var r := p + Fence;
    assert r[|r| - 3..] == Fence;
  }

  lemma TwoTrailingFences(p: string)
    requires IsTrimmed(p) && p != [] && p[0] != '`'
    ensures Clean(p + Fence + Fence) == p + Fence
  {
    NoLeadingFence(p + Fence + Fence);
    FenceCloseCut(p + Fence + Fence, p + Fence);
    TrimmedThenFence(p);
  }

  lemma NoLeadingFence(content: string)
    requires content != [] && content[0] != '`'
    ensures CutLeadingFence(content) == content
  {
    assert !StartsWith(content, Fence) by {
      if |content| >= 3 { assert content[..3][0] == content[0]; }
    }
  }

  lemma TrimmedThenFence(p: string)
    requires IsTrimmed(p) && p != []
    ensures Strip(p + Fence) == p + Fence
  {
    var t := p + Fence;
    assert t[0] == p[0] && t[|t| - 1] == '`';
    StripFixesExactlyTrimmed(t);
  }

  /** A text ending in a fence: the trailing step leaves the stripped text before it. */
  lemma FenceCloseCut(content: string, body: string)
    requires content == body + Fence
    ensures CutTrailingFence(content) == Strip(body)
  {
    assert content[|content| - 3..] == Fence;
    assert content[..|content| - 3] == body;
  }

  /**
   * Cleaning is not idempotent: a fence that the trailing step uncovers at the
   * front is left for a second pass. With p = "x", "```\n```x```" is cleaned to
   * "```x", and that to "x".
   */
  lemma CleanNotIdempotent(p: string)
    requires IsTrimmed(p) && '\n' !in p && !EndsWith(p, Fence)
    ensures Clean(Fence + "\n" + Fence + p + Fence) == Fence + p
    ensures Clean(Clean(Fence + "\n" + Fence + p + Fence)) == p
    ensures Fence + p != p
  {
    NotIdempotentLeading(p);
    NotIdempotentTrailing(p);
    NotIdempotentSecondPass(p);
  }

  lemma NotIdempotentLeading(p: string)
    requires '\n' !in p
    ensures CutLeadingFence(Fence + "\n" + Fence + p + Fence) == Fence + p + Fence
  {
    FenceLineCut(Fence + "\n" + Fence + p + Fence, "", Fence + p + Fence);
    FencedTextIsTrimmed(p);
  }

  lemma FencedTextIsTrimmed(p: string)
    ensures Strip(Fence + p + Fence) == Fence + p + Fence
  {
    var t := Fence + p + Fence;
    assert t[0] == '`' && t[|t| - 1] == '`';
    StripFixesExactlyTrimmed(t);
  }

  lemma NotIdempotentTrailing(p: string)
    requires IsTrimmed(p)
    ensures CutTrailingFence(Fence + p + Fence) == Fence + p
  {
    FenceCloseCut(Fence + p + Fence, Fence + p);
    StripFixesExactlyTrimmed(Fence + p);
  }

  lemma NotIdempotentSecondPass(p: string)
    requires IsTrimmed(p) && '\n' !in p && !EndsWith(p, Fence)
    ensures Clean(Fence + p) == p
  {
    var once := Fence + p;
    assert once[..3] == Fence;
    assert '\n' !in once;
    assert once[3..] == p;
    StripFixesExactlyTrimmed(p);
  }

  /**
   * A payload on its own line between an opening fence (with any language tag)
   * and a closing fence comes out of the whole cleanup as exactly the payload,
   * even a payload that itself ends in a fence, since only one is cut.
   */
  lemma FencedBlockUnwrapped(tag: string, p: string)
    requires '\n' !in tag && IsTrimmed(p) && p != []
    ensures Sanitize(Fence + tag + "\n" + p + "\n" + Fence) == p
  {
    StripFixesExactlyTrimmed(Fence + tag + "\n" + p + "\n" + Fence);
    FencedBlockLeading(tag, p);
    FencedBlockTrailing(p);
  }

  lemma FencedBlockLeading(tag: string, p: string)
    requires '\n' !in tag && IsTrimmed(p) && p != []
    ensures CutLeadingFence(Fence + tag + "\n" + p + "\n" + Fence) == p + "\n" + Fence
  {
    FenceLineCut(Fence + tag + "\n" + p + "\n" + Fence, tag, p + "\n" + Fence);
    PayloadThenFenceIsTrimmed(p);
  }

  lemma PayloadThenFenceIsTrimmed(p: string)
    requires IsTrimmed(p) && p != []
    ensures Strip(p + "\n" + Fence) == p + "\n" + Fence
  {
    var t := p + "\n" + Fence;
    assert t[0] == p[0] && t[|t| - 1] == '`';
    StripFixesExactlyTrimmed(t);
  }

  /** An opening fence line with tag `tag`: the leading step leaves the stripped rest. */
  lemma FenceLineCut(reply: string, tag: string, rest: string)
    requires reply == Fence + tag + "\n" + rest && '\n' !in tag
    ensures CutLeadingFence(reply) == Strip(rest)
  {
    var i := |tag| + 3;
    assert reply[..3] == Fence;
    assert reply[i] == '\n';
    assert reply[..i] == Fence + tag;
    assert '\n' !in Fence;
    assert reply[i + 1..] == rest;
    LeadingFenceLine(reply, i);
  }

  lemma FencedBlockTrailing(p: string)
    requires IsTrimmed(p)
    ensures CutTrailingFence(p + "\n" + Fence) == p
  {
    var cut := p + "\n";
    FenceCloseCut(p + "\n" + Fence, cut);
    StripSkipsTrailingSpace(cut);
    assert cut[..|cut| - 1] == p;
    StripFixesExactlyTrimmed(p);
  }

  /** The usual wrapped reply: a "```json" block around an empty question list. */
  lemma JsonBlockScenario()
    ensures Sanitize("```json\n{\"questions\":[]}\n```") == "{\"questions\":[]}"
  {
    var p := "{\"questions\":[]}";
    assert p[|p| - 1] == '}';
    assert Fence + "json" + "\n" + p + "\n" + Fence == "```json\n{\"questions\":[]}\n```";
    FencedBlockUnwrapped("json", p);
  }
}
