/** The rule handler for the spoiler tag `<s>`: nothing before the children,
    one spoiler spannable over all of their text after them. */
module SpoilerRule {
  import opened Results
  import opened TextParts
  import SpanRule

  /** `pre_handle`: never handles the element itself and emits nothing. */
  function PreHandle(): (r: SpanRule.PreOutcome)
    ensures !r.handled && r.request.None?
  {
    SpanRule.PreOutcome(false, None)
  }

  /** `post_handle`: nothing when no text part was added since the snapshot;
      otherwise one spoiler spannable from where the element's text starts
      to the current end of the text, kept only if valid. The text parts are
      never touched. */
  function PostHandle(textIndex: nat, acc: Accumulators): (r: Accumulators)
    requires textIndex <= |acc.textParts|
    ensures r.textParts == acc.textParts
    ensures textIndex == |acc.textParts| ==> r.spannables == acc.spannables
    ensures r.spannables == acc.spannables ||
      (|r.spannables| == |acc.spannables| + 1 && r.spannables[..|acc.spannables|] == acc.spannables)
    ensures |r.spannables| == |acc.spannables| + 1 ==>
      var s := r.spannables[|r.spannables| - 1];
      && s.data == Spoiler
      && IsValid(s)
      && s.start == DiffLen(acc.textParts, textIndex)
      && s.len == NewLen(acc.textParts, textIndex)
      && s.start + s.len == TotalLength(acc.textParts)
    ensures TotalLength(acc.textParts[textIndex..]) > 0 ==> |r.spannables| == |acc.spannables| + 1
  {
    if textIndex == |acc.textParts| then acc
    else
      var start := TotalLength(acc.textParts[..textIndex]);
      var len := TotalLength(acc.textParts[textIndex..]);
      var spannable := Spannable(start, len, Spoiler);
      if IsValid(spannable) then Accumulators(acc.textParts, acc.spannables + [spannable]) else acc
  }
}
