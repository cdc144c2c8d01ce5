/** The pre/post hook protocol every rule handler follows, for the two
    handlers modelled. The walk that dispatches elements to handlers is not
    part of this model; `VisitElement` is the one step of it the protocol
    fixes: snapshot, `pre_handle`, children, `post_handle`. The children's
    flattening and `handle_single_post_quote` are parameters. */
module RuleProtocol {
  import opened Results
  import opened Markup
  import opened TextParts
  import SpanRule
  import SpoilerRule

  datatype RuleHandler = SpanHandler | SpoilerHandler

  function PreHandle(h: RuleHandler, element: Element<string>, classes: set<string>, internalPosts: set<nat>,
                     decode: string -> string, parts: seq<TextPart>)
    : (r: Result<SpanRule.PreOutcome, SpanRule.HandlerError>)
    ensures r.Success? && r.value.handled ==> h.SpanHandler? && "deadlink" in classes
    ensures r.Success? && r.value.request.Some? ==> r.value.handled && r.value.request.value.start == TotalLength(parts)
  {
    match h
    case SpanHandler => SpanRule.PreHandle(element, classes, internalPosts, decode, parts)
    case SpoilerHandler => Success(SpoilerRule.PreHandle())
  }

  /** Whatever the handler, `post_handle` leaves the text parts alone and
      appends at most one valid spannable, which starts where the text
      before the snapshot ends and ends at the current end of the text. */
  function PostHandle(h: RuleHandler, classes: set<string>, textIndex: nat, acc: Accumulators): (r: Accumulators)
    requires textIndex <= |acc.textParts|
    ensures r.textParts == acc.textParts
    ensures acc.spannables <= r.spannables && |r.spannables| <= |acc.spannables| + 1
    ensures forall k :: |acc.spannables| <= k < |r.spannables| ==>
      && IsValid(r.spannables[k])
      && r.spannables[k].start == TotalLength(acc.textParts[..textIndex])
      && r.spannables[k].start + r.spannables[k].len == TotalLength(acc.textParts)
    ensures textIndex == |acc.textParts| ==> r.spannables == acc.spannables
  {
    match h
    case SpanHandler => SpanRule.PostHandle(classes, textIndex, acc)
    case SpoilerHandler => SpoilerRule.PostHandle(textIndex, acc)
  }

  /** `b` grew from `a` by appending only. */
  predicate Extends(a: Accumulators, b: Accumulators) {
    a.textParts <= b.textParts && a.spannables <= b.spannables
  }

  /** One element under the protocol. A fully handled element emits at most
      the requested post quote; otherwise the children are flattened and the
      handler measures what they added. */
  function VisitElement(h: RuleHandler, element: Element<string>, classes: set<string>, internalPosts: set<nat>,
                        decode: string -> string, acc: Accumulators,
                        children: Accumulators -> Accumulators,
                        anchor: (Accumulators, SpanRule.QuoteRequest) -> Accumulators)
    : (r: Result<Accumulators, SpanRule.HandlerError>)
    requires Extends(acc, children(acc))
    ensures r.Failure? <==> h.SpanHandler? && "deadlink" in classes && element.children == []
    ensures h.SpoilerHandler? || "deadlink" !in classes ==>
      var after := children(acc);
      && r.Success?
      && r.value.textParts == after.textParts
      && Extends(acc, r.value)
      && after.spannables <= r.value.spannables
      && |r.value.spannables| <= |after.spannables| + 1
      && (forall k :: |after.spannables| <= k < |r.value.spannables| ==>
            && IsValid(r.value.spannables[k])
            && r.value.spannables[k].start == TotalLength(acc.textParts)
            && r.value.spannables[k].start + r.value.spannables[k].len == TotalLength(after.textParts))
      && (|after.textParts| == |acc.textParts| ==> r.value.spannables == after.spannables)
    ensures h.SpanHandler? && "deadlink" in classes && r.Success? ==>
      var request := SpanRule.HandleDeadlink(element, internalPosts, decode, acc.textParts);
      && request.Success?
      && (request.value.None? ==> r.value == acc)
      && (request.value.Some? ==> r.value == anchor(acc, request.value.value))
  {
    var textIndex := |acc.textParts|;
    var pre :- PreHandle(h, element, classes, internalPosts, decode, acc.textParts);
    if pre.handled then
      match pre.request
      case Some(request) => Success(anchor(acc, request))
      case None => Success(acc)
    else
      var after := children(acc);
      assert after.textParts[..textIndex] == acc.textParts;
      Success(PostHandle(h, classes, textIndex, after))
  }

  /** `<s>secret</s>` at the start of a post: one spoiler over all six
      characters of the child text. */
  lemma SpoilerExample(element: Element<string>, internalPosts: set<nat>, decode: string -> string,
                       anchor: (Accumulators, SpanRule.QuoteRequest) -> Accumulators)
    ensures var empty := Accumulators([], []);
      var secret := Accumulators([TextPart("secret", 6)], []);
      VisitElement(SpoilerHandler, element, {}, internalPosts, decode, empty, _ => secret, anchor)
        == Success(Accumulators([TextPart("secret", 6)], [Spannable(0, 6, Spoiler)]))
  {
    var parts := [TextPart("secret", 6)];
    assert parts[..0] == [] && parts[0..] == parts;
    assert TotalLength(parts) == 6 by {
      assert parts[1..] == [];
    }
  }

  /** A `quote` span whose child text is `>implying`: one greentext over its
      nine characters, placed after the text already flattened. */
  lemma GreentextExample(element: Element<string>, internalPosts: set<nat>, decode: string -> string,
                         anchor: (Accumulators, SpanRule.QuoteRequest) -> Accumulators)
    ensures var before := Accumulators([TextPart("hi ", 3)], []);
      var after := Accumulators([TextPart("hi ", 3), TextPart(">implying", 9)], []);
      VisitElement(SpanHandler, element, {"quote"}, internalPosts, decode, before, _ => after, anchor)
        == Success(Accumulators(after.textParts, [Spannable(3, 9, GreenText)]))
  {
    var parts := [TextPart("hi ", 3), TextPart(">implying", 9)];
    assert parts[..1] == [TextPart("hi ", 3)] && parts[1..] == [TextPart(">implying", 9)];
    assert TotalLength([TextPart("hi ", 3)]) == 3 by {
      assert [TextPart("hi ", 3)][1..] == [];
    }
    assert TotalLength([TextPart(">implying", 9)]) == 9 by {
      assert [TextPart(">implying", 9)][1..] == [];
    }
  }
}
