/** The rule handler for `span` elements: class `deadlink` is handled
    entirely before the children (a `>>N` post reference), class `quote`
    (greentext) after them. The element's classes are given as the set of
    names `has_class` answers true for, the thread's posts as the set of
    numbers `is_internal_thread_post` answers true for, and entity decoding
    as the `decode` parameter. */
module SpanRule {
  import opened Results
  import opened Markup
  import opened TextParts
  import opened Decimal

  /** The arguments the handler hands to `handle_single_post_quote`, which
      appends the quote's text part and its link spannable. */
  datatype QuoteRequest = QuoteRequest(link: PostLink, quoteText: string, start: nat)

  /** What `pre_handle` reports: whether the element is fully handled, and
      the post quote to emit if there is one. The handler itself writes to
      neither accumulator. */
  datatype PreOutcome = PreOutcome(handled: bool, request: Option<QuoteRequest>)

  /** The one panic of the handler: a `deadlink` element with no child. */
  datatype HandlerError = DeadlinkWithoutChild

  predicate StartsWithQuoteMarker(s: string) {
    |s| >= 2 && s[0] == '>' && s[1] == '>'
  }

  /** The classification of a parsed post number. */
  function ResolveLink(postNo: nat, internalPosts: set<nat>): (link: PostLink)
    ensures link.postNo == postNo
    ensures link.Quote? <==> postNo in internalPosts
  {
    if postNo in internalPosts then Quote(postNo) else Dead(postNo)
  }

  /** `handle_deadlink_class`: the single text child, entity-decoded, must be
      `>>` followed by a `u64`; every other shape is skipped. */
  function HandleDeadlink(element: Element<string>, internalPosts: set<nat>, decode: string -> string, parts: seq<TextPart>)
    : (r: Result<Option<QuoteRequest>, HandlerError>)
    ensures r.Failure? <==> element.children == []
    ensures |element.children| > 1 ==> r == Success(None)
    ensures |element.children| == 1 && element.children[0].ElementNode? ==> r == Success(None)
    ensures r.Success? && r.value.Some? ==>
      && |element.children| == 1 && element.children[0].Text?
      && var text := decode(element.children[0].content);
      && StartsWithQuoteMarker(text)
      && ParseU64(text[2..]) == Some(r.value.value.link.postNo)
      && r.value.value.quoteText == text
      && r.value.value.start == TotalLength(parts)
      && (r.value.value.link.Quote? <==> r.value.value.link.postNo in internalPosts)
    ensures |element.children| == 1 && element.children[0].Text? ==>
      var text := decode(element.children[0].content);
      (r.Success? && r.value.Some? <==> StartsWithQuoteMarker(text) && ParseU64(text[2..]).Some?)
  {
    if |element.children| > 1 then Success(None)
    else if element.children == [] then Failure(DeadlinkWithoutChild)
    else match element.children[0]
      case ElementNode(_) => Success(None)
      case Text(raw) =>
        var text := decode(raw);
        if !StartsWithQuoteMarker(text) then Success(None)
        else match ParseU64(text[2..])
          case None => Success(None)
          case Some(postNo) =>
            Success(Some(QuoteRequest(ResolveLink(postNo, internalPosts), text, TotalLength(parts))))
  }

  /** `pre_handle`: a `deadlink` element is always fully handled (even when
      it is skipped); any other element proceeds to its children. */
  function PreHandle(element: Element<string>, classes: set<string>, internalPosts: set<nat>,
                     decode: string -> string, parts: seq<TextPart>)
    : (r: Result<PreOutcome, HandlerError>)
    ensures r.Success? ==> (r.value.handled <==> "deadlink" in classes)
    ensures "deadlink" !in classes ==> r == Success(PreOutcome(false, None))
    ensures r.Failure? <==> "deadlink" in classes && element.children == []
  {
    if "deadlink" in classes then
      var request :- HandleDeadlink(element, internalPosts, decode, parts);
      Success(PreOutcome(true, request))
    else
      Success(PreOutcome(false, None))
  }

  /** `post_handle`: nothing when no text part was added since the snapshot;
      otherwise, for class `quote`, one greentext spannable from where the
      element's text starts over all of it, kept only if valid. The text
      parts are never touched. */
  function PostHandle(classes: set<string>, textIndex: nat, acc: Accumulators): (r: Accumulators)
    requires textIndex <= |acc.textParts|
    ensures r.textParts == acc.textParts
    ensures textIndex == |acc.textParts| || "quote" !in classes ==> r.spannables == acc.spannables
    ensures r.spannables == acc.spannables ||
      (|r.spannables| == |acc.spannables| + 1 && r.spannables[..|acc.spannables|] == acc.spannables)
    ensures |r.spannables| == |acc.spannables| + 1 ==>
      var s := r.spannables[|r.spannables| - 1];
      && "quote" in classes
      && s.data == GreenText
      && IsValid(s)
      && s.start == TotalLength(acc.textParts[..textIndex])
      && s.start + s.len == TotalLength(acc.textParts)
    ensures "quote" in classes && TotalLength(acc.textParts[textIndex..]) > 0 ==>
      |r.spannables| == |acc.spannables| + 1
  {
    if textIndex == |acc.textParts| then acc
    else if "quote" in classes then
      HandleQuote(textIndex, acc)
    else
      acc
  }

  /** `handle_quote_class`. */
  function HandleQuote(textIndex: nat, acc: Accumulators): (r: Accumulators)
    requires textIndex <= |acc.textParts|
    ensures r.textParts == acc.textParts
    ensures r.spannables == acc.spannables ||
      r.spannables == acc.spannables + [Spannable(DiffLen(acc.textParts, textIndex), NewLen(acc.textParts, textIndex), GreenText)]
    ensures |r.spannables| > |acc.spannables| <==> NewLen(acc.textParts, textIndex) > 0
  {
    var start := DiffLen(acc.textParts, textIndex);
    var len := NewLen(acc.textParts, textIndex);
    var spannable := Spannable(start, len, GreenText);
    if IsValid(spannable) then Accumulators(acc.textParts, acc.spannables + [spannable]) else acc
  }

  /** A `deadlink` element whose one text child decodes to `>>` and a post
      number yields a request for that number, a quote when the thread holds
      the post and a dead link otherwise, over the decoded text, starting at
      the current end of the flattened text. */
  lemma DeadlinkRequestsPost(element: Element<string>, internalPosts: set<nat>, decode: string -> string,
                             parts: seq<TextPart>, postNo: nat)
    requires postNo <= U64Max
    requires |element.children| == 1 && element.children[0].Text?
    requires decode(element.children[0].content) == ">>" + DecimalString(postNo)
    ensures var link := if postNo in internalPosts then Quote(postNo) else Dead(postNo);
      PreHandle(element, {"deadlink"}, internalPosts, decode, parts) ==
        Success(PreOutcome(true, Some(QuoteRequest(link, ">>" + DecimalString(postNo), TotalLength(parts)))))
  {
    var text := ">>" + DecimalString(postNo);
    assert text[2..] == DecimalString(postNo);
    ParseDecimalString(postNo);
  }
}
