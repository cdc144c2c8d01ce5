/** The flattening accumulators and the offset arithmetic of the rule
    handlers: emitted text parts with their length in text units, the
    spannables over the flattened text, and the helpers that measure what a
    snapshot index splits off. */
module TextParts {

  /** One emitted fragment and its length in text units (`characters_count`);
      the unit is left abstract, so the helpers fit both byte and code-unit
      lengths. */
  datatype TextPart = TextPart(text: string, charactersCount: nat)

  datatype PostLink = Quote(postNo: nat) | Dead(postNo: nat)

  datatype SpannableData = GreenText | Spoiler | PostLinkData(link: PostLink)

  datatype Spannable = Spannable(start: nat, len: nat, data: SpannableData)

  /** A spannable over no text is discarded. */
  predicate IsValid(s: Spannable) {
    s.len > 0
  }

  /** The two accumulators one flattening pass grows. */
  datatype Accumulators = Accumulators(textParts: seq<TextPart>, spannables: seq<Spannable>)

  /** Every part's recorded length is the length of its text. */
  predicate CountsMatchText(parts: seq<TextPart>) {
    forall k :: 0 <= k < |parts| ==> parts[k].charactersCount == |parts[k].text|
  }

  /** Sum of `characters_count` over the parts. */
  function TotalLength(parts: seq<TextPart>): nat
    decreases |parts|
  {
    if parts == [] then 0 else parts[0].charactersCount + TotalLength(parts[1..])
  }

  /** The parts' texts, joined. */
  function AllText(parts: seq<TextPart>): string
    decreases |parts|
  {
    if parts == [] then [] else parts[0].text + AllText(parts[1..])
  }

  lemma {:induction false} TotalLengthAppend(a: seq<TextPart>, b: seq<TextPart>)
    ensures TotalLength(a + b) == TotalLength(a) + TotalLength(b)
    decreases |a|
  {
    if a != [] {
      assert (a + b)[1..] == a[1..] + b;
      TotalLengthAppend(a[1..], b);
    } else {
      assert a + b == b;
    }
  }

  lemma {:induction false} AllTextAppend(a: seq<TextPart>, b: seq<TextPart>)
    ensures AllText(a + b) == AllText(a) + AllText(b)
    decreases |a|
  {
    if a != [] {
      assert (a + b)[1..] == a[1..] + b;
      AllTextAppend(a[1..], b);
    } else {
      assert a + b == b;
    }
  }

  /** With matching counts the total length is the length of the joined text. */
  lemma {:induction false} TotalLengthIsTextLength(parts: seq<TextPart>)
    requires CountsMatchText(parts)
    ensures TotalLength(parts) == |AllText(parts)|
    decreases |parts|
  {
    if parts != [] {
      TotalLengthIsTextLength(parts[1..]);
    }
  }

  /** `get_out_text_parts_diff_len`: the length of everything emitted before
      the snapshot index, i.e. where the element's own text starts. */
  function DiffLen(parts: seq<TextPart>, index: nat): (n: nat)
    requires index <= |parts|
    ensures index == 0 ==> n == 0
    ensures n <= TotalLength(parts)
    ensures n + TotalLength(parts[index..]) == TotalLength(parts)
  {
    TotalLengthAppend(parts[..index], parts[index..]);
    assert parts[..index] + parts[index..] == parts;
    if index == 0 then 0 else TotalLength(parts[..index])
  }

  /** `get_out_text_parts_new_len`: the length of everything emitted from the
      snapshot index on; together with `DiffLen` it covers the whole text. */
  function NewLen(parts: seq<TextPart>, index: nat): (n: nat)
    requires index <= |parts|
    ensures DiffLen(parts, index) + n == TotalLength(parts)
    ensures index == |parts| ==> n == 0
  {
    TotalLength(parts[index..])
  }

  /** `get_out_text_parts_diff_text`: the text emitted from the snapshot
      index on; it is the tail of the whole text after the text before the
      index, and its length is `NewLen` when counts match the texts. */
  function DiffText(parts: seq<TextPart>, index: nat): (t: string)
    requires index <= |parts|
    ensures AllText(parts[..index]) + t == AllText(parts)
    ensures CountsMatchText(parts) ==> |t| == NewLen(parts, index)
  {
    AllTextAppend(parts[..index], parts[index..]);
    assert parts[..index] + parts[index..] == parts;
    SuffixCountsMatch(parts, index);
    AllText(parts[index..])
  }

  lemma SuffixCountsMatch(parts: seq<TextPart>, index: nat)
    requires index <= |parts|
    ensures CountsMatchText(parts) ==> TotalLength(parts[index..]) == |AllText(parts[index..])|
  {
    if CountsMatchText(parts) {
      assert CountsMatchText(parts[index..]) by {
        forall k | 0 <= k < |parts[index..]|
          ensures parts[index..][k].charactersCount == |parts[index..][k].text|
        {
          assert parts[index..][k] == parts[index + k];
        }
      }
      TotalLengthIsTextLength(parts[index..]);
    }
  }

  /** Appending parts keeps the earlier measurements: the text before an old
      snapshot index measures the same afterwards. */
  lemma DiffLenStable(parts: seq<TextPart>, more: seq<TextPart>, index: nat)
    requires index <= |parts|
    ensures DiffLen(parts + more, index) == DiffLen(parts, index)
  {
    assert (parts + more)[..index] == parts[..index];
  }
}
