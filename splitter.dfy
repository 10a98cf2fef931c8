/**
 * The response splitter of the chat application: `extract_thinking_and_answer`
 * cuts a raw completion into the model's reasoning ("thinking") and the
 * visible answer by looking for the literal tags `<think>` and `</think>`.
 *
 * `Extract` is the function as written. `SplitIntended` is the intended
 * splitter: the reasoning and the answer when both tags are present in order,
 * otherwise the result of the function's own `except` fallback, no reasoning
 * and the whole text (trimmed here, a choice of this model, so that both
 * splitters return trimmed parts); the lemmas below show where the two differ.
 */
module Splitter {
  import opened PyStr

  const OpenTag: string := "<think>"
  const CloseTag: string := "</think>"

  /** The start and end markers of the reasoning in the response format the system prompt asks for. */
  const FormatOpen: string := "<div class=\"think\">"
  const FormatClose: string := "</div>"

  /** The `(thinking, answer)` pair the function returns. */
  datatype Parts = Parts(thinking: string, answer: string)

  /**
   * `extract_thinking_and_answer(response_text)` for a `str` argument: both
   * tags are looked up with `find`, whose -1 for a missing tag is used as an
   * index without any check.
   */
  function Extract(s: string): (r: Parts)
    ensures Trimmed(r.thinking) && Trimmed(r.answer)
    ensures IsInfix(r.thinking, s) && IsInfix(r.answer, s)
  {
    Cut(s, Find(s, OpenTag), Find(s, CloseTag))
  }

  /**
   * The slicing step of `extract_thinking_and_answer` once the two `find`
   * results are known: the reasoning is `s[open + 7:close]` and the answer
   * `s[close + 8:]`, both stripped. The offsets 7 and 8 are the lengths of
   * the two tags.
   */
  function Cut(s: string, open: int, close: int): (r: Parts)
    ensures Trimmed(r.thinking) && Trimmed(r.answer)
    ensures IsInfix(r.thinking, s) && IsInfix(r.answer, s)
  {
    var thinkingSlice := Slice(s, open + 7, close);
    var answerSlice := Slice(s, close + 8, |s|);
    SliceSpec(s, open + 7, close);
    SliceSpec(s, close + 8, |s|);
    StripInfix(s, thinkingSlice);
    StripInfix(s, answerSlice);
    Parts(Strip(thinkingSlice), Strip(answerSlice))
  }

  /** The two tags cannot overlap: wherever both occur, one ends before the other starts. */
  lemma TagsApart(s: string, i: int, j: int)
    requires OccursAt(s, OpenTag, i) && OccursAt(s, CloseTag, j)
    ensures i + |OpenTag| <= j || j + |CloseTag| <= i
  {
    CharAt(s, OpenTag, i, 0);
    CharAt(s, OpenTag, i, 1);
    CharAt(s, CloseTag, j, 0);
    CharAt(s, CloseTag, j, 1);
    NotInsideOccurrence(s, OpenTag, i, '<', j);
    NotInsideOccurrence(s, CloseTag, j, '<', i);
  }

  /** Opening tag first and closing tag after it: reasoning is what lies between them, the answer what follows the closing tag. */
  lemma ExtractTagged(s: string, i: int, j: int)
    requires i == Find(s, OpenTag) && j == Find(s, CloseTag) && 0 <= i < j
    ensures i + 7 <= j
    ensures Extract(s).thinking == Strip(s[i + 7..j])
    ensures Extract(s).answer == Strip(s[j + 8..])
  {
    TagsApart(s, i, j);
    FindFits(s, CloseTag);
    CutThinking(s, i, j);
    CutAnswer(s, i, j);
  }

  lemma CutThinking(s: string, open: int, close: int)
    ensures var lo, hi := SliceBound(open + 7, |s|), SliceBound(close, |s|);
      Cut(s, open, close).thinking == if lo < hi then Strip(s[lo..hi]) else ""
  {
    SliceAdjusted(s, open + 7, close);
    StripEmpty();
  }

  lemma CutAnswer(s: string, open: int, close: int)
    requires -1 <= close
    ensures Cut(s, open, close).answer == if close + 8 <= |s| then Strip(s[close + 8..]) else ""
  {
    if close + 8 <= |s| {
      SliceFrom(s, close + 8);
    } else {
      SliceEmpty(s, close + 8, |s|);
      StripEmpty();
    }
  }

  /** Closing tag before the opening tag: the reasoning slice is inverted, so it is empty; the answer still follows the closing tag. */
  lemma ExtractMisordered(s: string, i: int, j: int)
    requires i == Find(s, OpenTag) && j == Find(s, CloseTag) && 0 <= j < i
    ensures Extract(s).thinking == ""
    ensures Extract(s).answer == Strip(s[j + 8..])
  {
    FindFits(s, OpenTag);
    FindFits(s, CloseTag);
    CutThinking(s, i, j);
    CutAnswer(s, i, j);
  }

  /**
   * Opening tag only: the reasoning runs to the last character but one
   * (the stop bound -1 means `len(s) - 1`), and the answer is the text with
   * its first 7 characters dropped (the start bound is -1 + 8).
   */
  lemma ExtractUnclosed(s: string, i: int)
    requires i == Find(s, OpenTag) >= 0 && Find(s, CloseTag) == -1
    ensures Extract(s).thinking == if i + 7 < |s| - 1 then Strip(s[i + 7..|s| - 1]) else ""
    ensures Extract(s).answer == Strip(s[7..])
  {
    FindFits(s, OpenTag);
    CutThinking(s, i, -1);
    CutAnswer(s, i, -1);
  }

  /** Closing tag only: the reasoning starts at index 6 (-1 + 7) and runs up to the closing tag. */
  lemma ExtractUnopened(s: string, j: int)
    requires Find(s, OpenTag) == -1 && j == Find(s, CloseTag) >= 0
    ensures Extract(s).thinking == if 6 < j then Strip(s[6..j]) else ""
    ensures Extract(s).answer == Strip(s[j + 8..])
  {
    FindFits(s, CloseTag);
    CutThinking(s, -1, j);
    CutAnswer(s, -1, j);
  }

  /** Neither tag: the reasoning is the text from index 6 up to the last character but one, stripped. */
  lemma ExtractUntaggedThinking(s: string)
    requires Find(s, OpenTag) == -1 && Find(s, CloseTag) == -1
    ensures Extract(s).thinking == if 6 < |s| - 1 then Strip(s[6..|s| - 1]) else ""
  {
    CutThinking(s, -1, -1);
  }

  /** Without the closing tag: the answer is the text from index 7, stripped, so its first seven characters are dropped. */
  lemma ExtractUntaggedAnswer(s: string)
    requires Find(s, CloseTag) == -1
    ensures Extract(s).answer == if 7 <= |s| then Strip(s[7..]) else ""
  {
    CutAnswer(s, Find(s, OpenTag), -1);
  }

  /** Where the pieces of `a + "<think>" + t + "</think>" + b` sit. */
  lemma TaggedPieces(a: string, t: string, b: string)
    ensures var s := a + OpenTag + t + CloseTag + b;
      && s[|a| + 7..|a| + 7 + |t|] == t
      && s[|a| + 15 + |t|..] == b
      && s == a + (OpenTag + t + CloseTag + b)
  {
    var s := a + OpenTag + t + CloseTag + b;
    var lo, hi := |a| + 7, |a| + 15 + |t|;
    assert forall k :: 0 <= k < |t| ==> s[lo..lo + |t|][k] == t[k];
    assert forall k :: 0 <= k < |b| ==> s[hi..][k] == b[k];
    var rest := OpenTag + t + CloseTag + b;
    assert forall k :: 0 <= k < |s| ==> s[k] == (a + rest)[k];
  }

  /** The tail of `"<think>" + t + "</think>" + b` after its first character, and its two tag prefixes. */
  lemma TaggedTail(t: string, b: string)
    ensures (OpenTag + t + CloseTag + b)[1..] == OpenTag[1..] + t + (CloseTag + b)
    ensures (OpenTag + t + CloseTag + b)[..7] == OpenTag
    ensures (CloseTag + b)[..8] == CloseTag
    ensures '<' !in OpenTag[1..]
  {
    assert OpenTag + t + CloseTag + b == OpenTag + (t + CloseTag + b);
  }

  /** In `"<think>" + t + "</think>" + b` with no `<` in `t`, the tags are found at 0 and at `7 + |t|`. */
  lemma TaggedFinds(t: string, b: string)
    requires '<' !in t
    ensures Find(OpenTag + t + CloseTag + b, OpenTag) == 0
    ensures Find(OpenTag + t + CloseTag + b, CloseTag) == 7 + |t|
  {
    var rest := OpenTag + t + CloseTag + b;
    TaggedTail(t, b);
    assert OccursAt(rest, OpenTag, 0);
    FindFirst(rest, OpenTag, 0);
    assert rest[..|CloseTag|][1] != CloseTag[1];
    FindStep(rest, CloseTag);
    assert OccursAt(CloseTag + b, CloseTag, 0);
    FindFirst(CloseTag + b, CloseTag, 0);
    FindAfterPrefix(OpenTag[1..] + t, CloseTag + b, CloseTag);
  }

  /** In `a + "<think>" + t + "</think>" + b` with no `<` in `a` or `t`, the tags are found right after `a` and right after `t`. */
  lemma ShapeFinds(a: string, t: string, b: string)
    requires '<' !in a && '<' !in t
    ensures Find(a + OpenTag + t + CloseTag + b, OpenTag) == |a|
    ensures Find(a + OpenTag + t + CloseTag + b, CloseTag) == |a| + 7 + |t|
  {
    var rest := OpenTag + t + CloseTag + b;
    TaggedPieces(a, t, b);
    TaggedFinds(t, b);
    FindAfterPrefix(a, rest, OpenTag);
    FindAfterPrefix(a, rest, CloseTag);
  }

  /**
   * A completion in the requested shape splits back into its parts: the
   * text between the tags and the text after them, each stripped. The
   * preamble `a` and the reasoning `t` hold no `<`, so neither contains a tag.
   */
  lemma ExtractTaggedShape(a: string, t: string, b: string)
    requires '<' !in a && '<' !in t
    ensures Extract(a + OpenTag + t + CloseTag + b).thinking == Strip(t)
    ensures Extract(a + OpenTag + t + CloseTag + b).answer == Strip(b)
  {
    ShapeFinds(a, t, b);
    TaggedPieces(a, t, b);
    ExtractBetween(a + OpenTag + t + CloseTag + b, |a|, |a| + 7 + |t|, t, b);
  }

  /** The tagged case restated for a known reasoning text `t` and answer text `b`. */
  lemma ExtractBetween(s: string, i: int, j: int, t: string, b: string)
    requires i == Find(s, OpenTag) && j == Find(s, CloseTag) && 0 <= i < j
    requires i + 7 <= j && j + 8 <= |s| && s[i + 7..j] == t && s[j + 8..] == b
    ensures Extract(s).thinking == Strip(t) && Extract(s).answer == Strip(b)
  {
    ExtractTagged(s, i, j);
  }

  /** Where the pieces of `"</think>" + b + "<think>" + c` sit, and where its tags are found when `b` holds no `<`. */
  lemma MisorderedFinds(b: string, c: string)
    requires '<' !in b
    ensures var s := CloseTag + b + OpenTag + c;
      && Find(s, CloseTag) == 0
      && Find(s, OpenTag) == 8 + |b|
      && s[8..] == b + OpenTag + c
  {
    var s := CloseTag + b + OpenTag + c;
    assert s == CloseTag + (b + OpenTag + c);
    assert s[..8] == CloseTag;
    assert OccursAt(s, CloseTag, 0);
    FindFirst(s, CloseTag, 0);
    assert s[..7][1] != OpenTag[1];
    FindStep(s, OpenTag);
    assert s[1..] == (CloseTag[1..] + b) + (OpenTag + c);
    assert '<' !in CloseTag[1..] + b;
    assert (OpenTag + c)[..7] == OpenTag;
    assert OccursAt(OpenTag + c, OpenTag, 0);
    FindFirst(OpenTag + c, OpenTag, 0);
    FindAfterPrefix(CloseTag[1..] + b, OpenTag + c, OpenTag);
  }

  /**
   * A closing tag before the opening one: no reasoning, and the answer is
   * everything after the closing tag, the later opening tag included.
   */
  lemma ExtractMisorderedShape(b: string, c: string)
    requires '<' !in b
    ensures Extract(CloseTag + b + OpenTag + c).thinking == ""
    ensures Extract(CloseTag + b + OpenTag + c).answer == Strip(b + OpenTag + c)
  {
    var s := CloseTag + b + OpenTag + c;
    MisorderedFinds(b, c);
    ExtractMisordered(s, 8 + |b|, 0);
  }

  /** Neither tag occurs in `"</div>" + b` when `b` holds no `<`. */
  lemma FormatCloseFinds(b: string)
    requires '<' !in b
    ensures Find(FormatClose + b, OpenTag) == -1 && Find(FormatClose + b, CloseTag) == -1
  {
    var w := FormatClose + b;
    assert w[1..] == FormatClose[1..] + b;
    assert '<' !in w[1..];
    FindMissingHead(w[1..], OpenTag);
    FindMissingHead(w[1..], CloseTag);
    assert |w| >= 7 ==> w[..7][1] != OpenTag[1];
    assert |w| >= 8 ==> w[..8][2] != CloseTag[2];
    FindStep(w, OpenTag);
    FindStep(w, CloseTag);
  }

  /** The shape of a completion in the requested format. */
  lemma FormatPieces(t: string, b: string)
    ensures var s := FormatOpen + t + FormatClose + b;
      && |s| >= 8 && s[1] == 'd'
      && s[1..] == FormatOpen[1..] + t + (FormatClose + b)
  {
    var s := FormatOpen + t + FormatClose + b;
    assert s == FormatOpen + (t + FormatClose + b);
  }

  /** Neither tag occurs in a completion in the requested format whose reasoning `t` and answer `b` hold no `<`. */
  lemma FormatFinds(t: string, b: string)
    requires '<' !in t && '<' !in b
    ensures Find(FormatOpen + t + FormatClose + b, OpenTag) == -1
    ensures Find(FormatOpen + t + FormatClose + b, CloseTag) == -1
  {
    FormatPieces(t, b);
    FormatCloseFinds(b);
    FormatFindsTag(t, b, OpenTag);
    FormatFindsTag(t, b, CloseTag);
  }

  /** One tag at a time: a tag that starts with `<` and not with `<d` is missing from the format when it is missing from its end. */
  lemma FormatFindsTag(t: string, b: string, tag: string)
    requires '<' !in t && |tag| >= 2 && tag[0] == '<' && tag[1] != 'd'
    requires Find(FormatClose + b, tag) == -1
    ensures Find(FormatOpen + t + FormatClose + b, tag) == -1
  {
    var s := FormatOpen + t + FormatClose + b;
    var u := FormatOpen[1..] + t;
    FormatPieces(t, b);
    assert '<' !in u;
    FindAfterPrefix(u, FormatClose + b, tag);
    assert |s| < |tag| || s[..|tag|][1] != tag[1];
    FindStep(s, tag);
  }

  /**
   * A completion that follows the format the system prompt requests, with
   * `<div class="think">` and `</div>` around the reasoning, carries neither
   * tag the splitter looks for: it is split like untagged text, and the answer
   * keeps the marker's tail, from the eighth character on.
   */
  lemma ExtractRequestedFormat(t: string, b: string)
    requires '<' !in t && '<' !in b
    ensures var s := FormatOpen + t + FormatClose + b;
      && Extract(s).thinking == (if 6 < |s| - 1 then Strip(s[6..|s| - 1]) else "")
      && Extract(s).answer == Strip(s[7..])
  {
    var s := FormatOpen + t + FormatClose + b;
    FormatFinds(t, b);
    ExtractUntaggedThinking(s);
    ExtractUntaggedAnswer(s);
  }

  /** Facts about the text `"just an answer"` the untagged example needs. */
  lemma UntaggedExampleText(s: string)
    requires s == "just an answer"
    ensures s[6..13] == "n answe" && s[7..] == " answer" && '<' !in s && Trimmed(s)
  {
    assert s[0] == 'j' && s[|s| - 1] == 'r';
    ConcatPieces("just a", "n answe", "r");
    assert s == "just a" + "n answe" + "r";
    ConcatPieces("just an", " answer", "");
    assert s == "just an" + " answer" + "";
  }

  /** The stripped forms of the two slices of the untagged example. */
  lemma UntaggedExampleStrips(x: string, y: string)
    requires x == "n answe" && y == " answer"
    ensures Strip(x) == x && Strip(y) == "answer"
  {
    StripOfTrimmed(x);
    assert y[1..7] == "answer";
    StripExact(y, 1, 7);
  }

  /** An untagged completion loses its first seven characters and gains a bogus reasoning part. */
  lemma ExtractUntaggedExample(s: string)
    requires s == "just an answer"
    ensures Extract(s).thinking == "n answe"
    ensures Extract(s).answer == "answer"
  {
    UntaggedExampleText(s);
    FindMissingHead(s, OpenTag);
    FindMissingHead(s, CloseTag);
    ExtractUntaggedThinking(s);
    ExtractUntaggedAnswer(s);
    UntaggedExampleStrips(s[6..13], s[7..]);
  }

  /**
   * The intended splitter: reasoning and answer only when the opening tag
   * precedes the closing one, otherwise what the `except` fallback returns,
   * no reasoning and the whole text, here trimmed.
   */
  function SplitIntended(s: string): (r: Parts)
    ensures Trimmed(r.thinking) && Trimmed(r.answer)
    ensures IsInfix(r.thinking, s) && IsInfix(r.answer, s)
  {
    var i, j := Find(s, OpenTag), Find(s, CloseTag);
    if 0 <= i < j then Cut(s, i, j)
    else
      InfixOfSlice(s, 0, 0);
      assert s[0..0] == "";
      Parts("", Strip(s))
  }

  /** With the opening tag before the closing one, the intended splitter returns what lies between and after the tags, as the source does. */
  lemma SplitIntendedTagged(s: string, i: int, j: int)
    requires i == Find(s, OpenTag) && j == Find(s, CloseTag) && 0 <= i < j
    ensures i + 7 <= j
    ensures SplitIntended(s).thinking == Strip(s[i + 7..j]) == Extract(s).thinking
    ensures SplitIntended(s).answer == Strip(s[j + 8..]) == Extract(s).answer
  {
    ExtractTagged(s, i, j);
  }

  /** Otherwise the intended splitter returns no reasoning and the whole text, trimmed. */
  lemma SplitIntendedFallback(s: string)
    requires !(0 <= Find(s, OpenTag) < Find(s, CloseTag))
    ensures SplitIntended(s).thinking == ""
    ensures SplitIntended(s).answer == Strip(s)
  {
  }

  /** The intended splitter keeps an untagged completion whole, and one without surrounding whitespace unchanged. */
  lemma SplitIntendedUntagged(s: string)
    requires '<' !in s
    ensures SplitIntended(s).thinking == ""
    ensures SplitIntended(s).answer == Strip(s)
    ensures Trimmed(s) ==> SplitIntended(s).answer == s
  {
    FindMissingHead(s, OpenTag);
    if Trimmed(s) {
      StripOfTrimmed(s);
    }
  }

  /** The untagged example under the intended splitter: the text is returned whole. */
  lemma SplitIntendedUntaggedExample(s: string)
    requires s == "just an answer"
    ensures SplitIntended(s).thinking == ""
    ensures SplitIntended(s).answer == "just an answer"
  {
    UntaggedExampleText(s);
    SplitIntendedUntagged(s);
  }
}
