/** The offset-driven tokenizer both parser variants share: `ParseNodes`
    models `parse_internal`, `ParseTag` models `parse_tag`, and `SkipTagEnd`
    models `skip_tag_end`. The two variants differ only in how a raw opening
    tag becomes a tag head, so that step is the `build` parameter. */
module Tokenizer {
  import opened Results
  import opened Markup

  datatype Parsed<V> = Parsed(nodes: seq<Node<V>>, offset: nat)

  datatype TagParsed<V> = TagParsed(element: Element<V>, offset: nat)

  /** Index of the first `c` at or after `start`, or `|html|` when there is none. */
  function FindFrom(html: string, start: nat, c: char): (e: nat)
    requires start <= |html|
    ensures start <= e <= |html|
    ensures e < |html| ==> html[e] == c
    ensures forall j :: start <= j < e ==> html[j] != c
    decreases |html| - start
  {
    if start == |html| || html[start] == c then start else FindFrom(html, start + 1, c)
  }

  /** Offset just past the next `>`; fatal when the input ends first. */
  function SkipTagEnd(html: string, start: nat): (r: Result<nat, ParseError>)
    requires start <= |html|
    ensures r.Success? <==> exists j :: start <= j < |html| && html[j] == '>'
    ensures r.Success? ==>
      && start < r.value <= |html|
      && html[r.value - 1] == '>'
      && (forall j :: start <= j < r.value - 1 ==> html[j] != '>')
    ensures r.Failure? ==> r.error == TagEndNotFound
  {
    var e := FindFrom(html, start, '>');
    if e < |html| then Success(e + 1) else Failure(TagEndNotFound)
  }

  /** Parses nodes from `start` until the input ends or a closing tag hands
      control back; returns the nodes and the offset to resume at. A run of
      code units other than `<` becomes one text node (the source buffers
      them and flushes at `<` and at the end of input). */
  function ParseNodes<V>(build: string -> Result<TagHead<V>, ParseError>, html: string, start: nat)
    : (r: Result<Parsed<V>, ParseError>)
    requires start <= |html| + 1
    ensures r.Success? ==> start <= r.value.offset <= |html| + 1
    ensures r.Success? ==> WellFormedNodes(r.value.nodes)
    ensures start + 1 == |html| && html[start] == '<' ==> r == Failure(OpenBracketAtEnd)
    ensures start + 1 < |html| && html[start] == '<' && html[start + 1] == '/' ==>
      && (r.Success? <==> exists j :: start + 1 <= j < |html| && html[j] == '>')
      && (r.Success? ==> r.value.nodes == [] && r.value.offset == FindFrom(html, start + 1, '>') + 1)
    decreases |html| + 1 - start, 0
  {
    if start >= |html| then
      Success(Parsed([], start))
    else if html[start] == '<' then
      if start + 1 >= |html| then
        Failure(OpenBracketAtEnd)
      else if html[start + 1] == '/' then
        var offset :- SkipTagEnd(html, start + 1);
        Success(Parsed([], offset))
      else
        var tag :- ParseTag(build, html, start + 1);
        var rest :- ParseNodes(build, html, tag.offset);
        var nodes := [ElementNode(tag.element)] + rest.nodes;
        assert nodes[0] == ElementNode(tag.element) && nodes[1..] == rest.nodes;
        Success(Parsed(nodes, rest.offset))
    else
      var textEnd := FindFrom(html, start, '<');
      var text := html[start..textEnd];
      assert '<' !in text by {
        forall j | 0 <= j < |text| ensures text[j] != '<' {
          assert text[j] == html[start + j];
        }
      }
      var rest :- ParseNodes(build, html, textEnd);
      var nodes := [Text(text)] + rest.nodes;
      assert nodes[0] == Text(text) && nodes[1..] == rest.nodes;
      Success(Parsed(nodes, rest.offset))
  }

  /** Parses one opening tag whose name starts at `start` (just past `<`):
      the raw tag runs to the next `>` or to the end of input; a void element
      returns right after it, any other element takes as children what a
      nested `ParseNodes` returns from just past `>`. */
  function ParseTag<V>(build: string -> Result<TagHead<V>, ParseError>, html: string, start: nat)
    : (r: Result<TagParsed<V>, ParseError>)
    requires start <= |html|
    ensures var e := FindFrom(html, start, '>');
      && (build(html[start..e]).Failure? ==> r == Failure(build(html[start..e]).error))
      && (r.Success? ==>
            var head := build(html[start..e]);
            && head.Success?
            && r.value.element.tagName == head.value.name
            && r.value.element.attributes == head.value.attributes
            && r.value.element.isVoid == head.value.isVoid
            && (r.value.element.isVoid ==> r.value.element.children == [] && r.value.offset == e + 1)
            && (!r.value.element.isVoid ==> r.value.offset >= e + 1))
    ensures r.Success? && !r.value.element.isVoid ==>
      ParseNodes(build, html, FindFrom(html, start, '>') + 1) == Success(Parsed(r.value.element.children, r.value.offset))
    ensures r.Failure? ==> var e := FindFrom(html, start, '>'); var head := build(html[start..e]);
      head.Failure? || (!head.value.isVoid && ParseNodes(build, html, e + 1) == Failure(r.error))
    ensures r.Success? ==> start < r.value.offset <= |html| + 1
    ensures r.Success? ==> WellFormedNode(ElementNode(r.value.element))
    decreases |html| + 1 - start, 1
  {
    var e := FindFrom(html, start, '>');
    var head :- build(html[start..e]);
    if head.isVoid then
      Success(TagParsed(Element(head.name, head.attributes, [], true), e + 1))
    else
      var children :- ParseNodes(build, html, e + 1);
      Success(TagParsed(Element(head.name, head.attributes, children.nodes, false), children.offset))
  }

  /** The whole input from offset 0; the source discards the final offset. */
  function Parse<V>(build: string -> Result<TagHead<V>, ParseError>, html: string)
    : (r: Result<seq<Node<V>>, ParseError>)
    ensures r.Success? ==> WellFormedNodes(r.value)
  {
    var parsed :- ParseNodes(build, html, 0);
    Success(parsed.nodes)
  }

  /** Input with no `<` from `start` on is one text node running to the end. */
  lemma PlainTextIsOneNode<V>(build: string -> Result<TagHead<V>, ParseError>, html: string, start: nat)
    requires start < |html|
    requires forall j :: start <= j < |html| ==> html[j] != '<'
    ensures ParseNodes(build, html, start) == Success(Parsed([Text(html[start..])], |html|))
  {
    assert FindFrom(html, start, '<') == |html|;
    assert ParseNodes(build, html, |html|) == Success(Parsed([], |html|));
    assert html[start..|html|] == html[start..];
    var single: seq<Node<V>> := [Text(html[start..])];
    assert single + [] == single;
  }

  /** An opening tag with no `>` after it takes the rest of the input as
      raw tag text; when the builder accepts that text the tag succeeds,
      childless, and the offset handed back is one past the end. */
  lemma UnterminatedTagEndsPastInput<V>(build: string -> Result<TagHead<V>, ParseError>, html: string, start: nat)
    requires start <= |html|
    requires forall j :: start <= j < |html| ==> html[j] != '>'
    requires build(html[start..]).Success?
    ensures FindFrom(html, start, '>') == |html|
    ensures ParseTag(build, html, start).Success?
    ensures ParseTag(build, html, start).value.offset == |html| + 1
    ensures ParseTag(build, html, start).value.element.children == []
  {
    assert html[start..|html|] == html[start..];
  }

  /** An element that is never closed, such as `<div>hello`: the element
      takes the text after `>` as its child, and parsing stops at the end of
      the input (not past it) rather than failing. */
  lemma UnclosedElement<V>(build: string -> Result<TagHead<V>, ParseError>, name: string, text: string)
    requires build(name) == Success(TagHead(name, [], false))
    requires |name| > 0 ==> name[0] != '/'
    requires forall j :: 0 <= j < |name| ==> name[j] != '>'
    requires text != [] && forall j :: 0 <= j < |text| ==> text[j] != '<'
    ensures var html := "<" + name + ">" + text;
      ParseNodes(build, html, 0) ==
        Success(Parsed([ElementNode(Element(name, [], [Text(text)], false))], |html|))
  {
    var html := "<" + name + ">" + text;
    var element: Element<V> := Element(name, [], [Text(text)], false);
    UnclosedElementTag(build, name, text);
    assert html[1] != '/';
    OpenTagStep(build, html, 0);
    FinishedLevel(build, html, [ElementNode(element)], |html|);
  }

  lemma UnclosedElementTag<V>(build: string -> Result<TagHead<V>, ParseError>, name: string, text: string)
    requires build(name) == Success(TagHead(name, [], false))
    requires forall j :: 0 <= j < |name| ==> name[j] != '>'
    requires text != [] && forall j :: 0 <= j < |text| ==> text[j] != '<'
    ensures var html := "<" + name + ">" + text;
      ParseTag(build, html, 1) == Success(TagParsed(Element(name, [], [Text(text)], false), |html|))
  {
    var html := "<" + name + ">" + text;
    var e := |name| + 1;
    assert html[e] == '>';
    assert forall j :: 1 <= j < e ==> html[j] == name[j - 1];
    assert FindFrom(html, 1, '>') == e;
    assert html[1..e] == name;
    assert html[e + 1..] == text;
    PlainTextIsOneNode(build, html, e + 1);
  }

  /** A closing tag `</` starts at offset `j`. */
  predicate ClosingTagAt(html: string, j: nat) {
    j + 1 < |html| && html[j] == '<' && html[j + 1] == '/'
  }

  /** No closing tag `</` at or after offset `start`. */
  predicate NoClosingTag(html: string, start: nat) {
    forall j :: start <= j < |html| ==> !ClosingTagAt(html, j)
  }

  /** Without a closing tag ahead, a successful `ParseNodes` never hands
      control back early: it consumes the rest of the input. */
  lemma {:induction false} NoClosingTagConsumesAll<V>(build: string -> Result<TagHead<V>, ParseError>, html: string, start: nat)
    requires start <= |html| + 1
    requires NoClosingTag(html, start)
    requires ParseNodes(build, html, start).Success?
    ensures ParseNodes(build, html, start).value.offset >= |html|
    decreases |html| + 1 - start, 0
  {
    if start < |html| {
      if html[start] == '<' {
        assert !ClosingTagAt(html, start);
        var tag := ParseTag(build, html, start + 1);
        NoClosingTagTagConsumesAll(build, html, start + 1);
        NoClosingTagConsumesAll(build, html, tag.value.offset);
      } else {
        NoClosingTagConsumesAll(build, html, FindFrom(html, start, '<'));
      }
    }
  }

  /** The same for a tag: without a closing tag ahead, a non-void element's
      children run to the end of the input. */
  lemma {:induction false} NoClosingTagTagConsumesAll<V>(build: string -> Result<TagHead<V>, ParseError>, html: string, start: nat)
    requires start <= |html|
    requires NoClosingTag(html, start)
    requires ParseTag(build, html, start).Success?
    ensures !ParseTag(build, html, start).value.element.isVoid ==>
      ParseTag(build, html, start).value.offset >= |html|
    decreases |html| + 1 - start, 1
  {
    if !ParseTag(build, html, start).value.element.isVoid {
      NoClosingTagConsumesAll(build, html, FindFrom(html, start, '>') + 1);
    }
  }

  /** The builder never reports a missing tag end. */
  ghost predicate NoTagEndErrors<V>(build: string -> Result<TagHead<V>, ParseError>) {
    forall s :: build(s).Failure? ==> build(s).error != TagEndNotFound
  }

  /** Without a closing tag ahead, `TagEndNotFound` can only come from the
      builder: an unclosed element never fails for want of a `>`. */
  lemma {:induction false} NoClosingTagNoTagEndError<V>(build: string -> Result<TagHead<V>, ParseError>, html: string, start: nat)
    requires start <= |html| + 1
    requires NoClosingTag(html, start)
    requires NoTagEndErrors(build)
    ensures ParseNodes(build, html, start).Failure? ==> ParseNodes(build, html, start).error != TagEndNotFound
    decreases |html| + 1 - start, 0
  {
    if start < |html| {
      if html[start] == '<' {
        if start + 1 < |html| {
          assert !ClosingTagAt(html, start);
          NoClosingTagTagNoTagEndError(build, html, start + 1);
          var tag := ParseTag(build, html, start + 1);
          if tag.Success? {
            NoClosingTagNoTagEndError(build, html, tag.value.offset);
          }
        }
      } else {
        NoClosingTagNoTagEndError(build, html, FindFrom(html, start, '<'));
      }
    }
  }

  lemma {:induction false} NoClosingTagTagNoTagEndError<V>(build: string -> Result<TagHead<V>, ParseError>, html: string, start: nat)
    requires start <= |html|
    requires NoClosingTag(html, start)
    requires NoTagEndErrors(build)
    ensures ParseTag(build, html, start).Failure? ==> ParseTag(build, html, start).error != TagEndNotFound
    decreases |html| + 1 - start, 1
  {
    var e := FindFrom(html, start, '>');
    assert build(html[start..e]).Failure? ==> build(html[start..e]).error != TagEndNotFound;
    if build(html[start..e]).Success? && !build(html[start..e]).value.isVoid {
      NoClosingTagNoTagEndError(build, html, e + 1);
    }
    TagErrorFrom(build, html, start);
  }

  /** A tag fails with `TagEndNotFound` only when its raw text or, for a
      non-void element, its children fail with it. */
  lemma TagErrorFrom<V>(build: string -> Result<TagHead<V>, ParseError>, html: string, start: nat)
    requires start <= |html|
    requires build(html[start..FindFrom(html, start, '>')]).Failure? ==>
      build(html[start..FindFrom(html, start, '>')]).error != TagEndNotFound
    requires (&& build(html[start..FindFrom(html, start, '>')]).Success?
              && !build(html[start..FindFrom(html, start, '>')]).value.isVoid
              && ParseNodes(build, html, FindFrom(html, start, '>') + 1).Failure?) ==>
      ParseNodes(build, html, FindFrom(html, start, '>') + 1).error != TagEndNotFound
    ensures ParseTag(build, html, start).Failure? ==> ParseTag(build, html, start).error != TagEndNotFound
  {
  }

  /** The builder accepts the raw text of every opening tag that starts at
      or after `start`: the code units between a `<` and the next `>` (or
      the end of input). */
  predicate TagsBuild<V>(build: string -> Result<TagHead<V>, ParseError>, html: string, start: nat) {
    forall i :: start <= i < |html| ==> OpeningBuilds(build, html, i)
  }

  /** When an opening tag's `<` sits at `i`, the builder accepts its raw
      text. */
  predicate OpeningBuilds<V>(build: string -> Result<TagHead<V>, ParseError>, html: string, i: nat) {
    i + 1 < |html| && html[i] == '<' ==> build(html[i + 1..FindFrom(html, i + 1, '>')]).Success?
  }

  /** With no closing tag ahead, no `<` as the last code unit and every
      opening tag accepted by the builder, parsing does not fail: an element
      that is never closed simply takes the rest of the input. */
  lemma {:induction false} NoClosingTagParses<V>(build: string -> Result<TagHead<V>, ParseError>, html: string, start: nat)
    requires start <= |html| + 1
    requires NoClosingTag(html, start)
    requires TagsBuild(build, html, start)
    requires html == [] || html[|html| - 1] != '<'
    ensures ParseNodes(build, html, start).Success?
    ensures ParseNodes(build, html, start).value.offset >= |html|
    decreases |html| + 1 - start, 0
  {
    if start < |html| {
      if html[start] == '<' {
        assert !ClosingTagAt(html, start);
        assert start + 1 < |html| && html[start + 1] != '/';
        NoClosingTagTagParses(build, html, start + 1);
        NoClosingTagParses(build, html, ParseTag(build, html, start + 1).value.offset);
      } else {
        NoClosingTagParses(build, html, FindFrom(html, start, '<'));
      }
    }
  }

  /** `NoClosingTagParses` for the whole input: `parse` succeeds. */
  lemma UnclosedInputParses<V>(build: string -> Result<TagHead<V>, ParseError>, html: string)
    requires NoClosingTag(html, 0)
    requires TagsBuild(build, html, 0)
    requires html == [] || html[|html| - 1] != '<'
    ensures Parse(build, html).Success?
  {
    NoClosingTagParses(build, html, 0);
  }

  /** The same for the tag whose `<` sits just before `start`. */
  lemma {:induction false} NoClosingTagTagParses<V>(build: string -> Result<TagHead<V>, ParseError>, html: string, start: nat)
    requires 1 <= start <= |html| && html[start - 1] == '<'
    requires NoClosingTag(html, start)
    requires TagsBuild(build, html, start - 1)
    requires html[|html| - 1] != '<'
    ensures ParseTag(build, html, start).Success?
    ensures !ParseTag(build, html, start).value.element.isVoid ==> ParseTag(build, html, start).value.offset >= |html|
    decreases |html| + 1 - start, 1
  {
    assert OpeningBuilds(build, html, start - 1);
    if !build(html[start..FindFrom(html, start, '>')]).value.isVoid {
      ChildrenReachEnd(build, html, start);
    }
    TagReachesEnd(build, html, start);
  }

  /** The children of that tag, when it is not void, parse to the end. */
  lemma {:induction false} ChildrenReachEnd<V>(build: string -> Result<TagHead<V>, ParseError>, html: string, start: nat)
    requires 1 <= start <= |html|
    requires NoClosingTag(html, start)
    requires TagsBuild(build, html, start - 1)
    requires html[|html| - 1] != '<'
    ensures ParseNodes(build, html, FindFrom(html, start, '>') + 1).Success?
    ensures ParseNodes(build, html, FindFrom(html, start, '>') + 1).value.offset >= |html|
    decreases |html| + 1 - start, 0
  {
    NoClosingTagParses(build, html, FindFrom(html, start, '>') + 1);
  }

  /** A tag whose raw text builds succeeds when, for a non-void element, the
      nested `ParseNodes` does; a non-void one ends where its children do. */
  lemma TagReachesEnd<V>(build: string -> Result<TagHead<V>, ParseError>, html: string, start: nat)
    requires start <= |html|
    requires build(html[start..FindFrom(html, start, '>')]).Success?
    requires !build(html[start..FindFrom(html, start, '>')]).value.isVoid ==>
      && ParseNodes(build, html, FindFrom(html, start, '>') + 1).Success?
      && ParseNodes(build, html, FindFrom(html, start, '>') + 1).value.offset >= |html|
    ensures ParseTag(build, html, start).Success?
    ensures !ParseTag(build, html, start).value.element.isVoid ==> ParseTag(build, html, start).value.offset >= |html|
  {
    var e := FindFrom(html, start, '>');
    var head := build(html[start..e]).value;
    if head.isVoid {
      assert ParseTag(build, html, start) == Success(TagParsed(Element(head.name, head.attributes, [], true), e + 1));
    } else {
      var children := ParseNodes(build, html, e + 1).value;
      assert ParseTag(build, html, start) ==
        Success(TagParsed(Element(head.name, head.attributes, children.nodes, false), children.offset));
    }
  }

  /** `nodes` in front of whatever `r` parsed; failures pass through. */
  function Prepend<V>(nodes: seq<Node<V>>, r: Result<Parsed<V>, ParseError>): Result<Parsed<V>, ParseError> {
    match r
    case Success(p) => Success(Parsed(nodes + p.nodes, p.offset))
    case Failure(e) => Failure(e)
  }

  lemma PrependTwice<V>(a: seq<Node<V>>, b: seq<Node<V>>, r: Result<Parsed<V>, ParseError>)
    ensures Prepend(a, Prepend(b, r)) == Prepend(a + b, r)
  {
    if r.Success? {
      assert a + (b + r.value.nodes) == (a + b) + r.value.nodes;
    }
  }

  lemma PrependNothing<V>(r: Result<Parsed<V>, ParseError>)
    ensures Prepend([], r) == r
  {
    if r.Success? {
      assert [] + r.value.nodes == r.value.nodes;
    }
  }

  /** A run of text ending at `<` or at the end of input is one text node in
      front of what follows. */
  lemma TextRunStep<V>(build: string -> Result<TagHead<V>, ParseError>, html: string, runStart: nat, runEnd: nat)
    requires runStart < runEnd <= |html|
    requires runEnd < |html| ==> html[runEnd] == '<'
    requires '<' !in html[runStart..runEnd]
    ensures ParseNodes(build, html, runStart) == Prepend([Text(html[runStart..runEnd])], ParseNodes(build, html, runEnd))
  {
    assert FindFrom(html, runStart, '<') == runEnd by {
      forall j | runStart <= j < runEnd ensures html[j] != '<' {
        assert html[j] == html[runStart..runEnd][j - runStart];
      }
    }
  }

  /** An opening tag is one element node in front of what follows it. */
  lemma OpenTagStep<V>(build: string -> Result<TagHead<V>, ParseError>, html: string, at: nat)
    requires at + 1 < |html| && html[at] == '<' && html[at + 1] != '/'
    ensures var tag := ParseTag(build, html, at + 1);
      ParseNodes(build, html, at) ==
        if tag.Failure? then Failure(tag.error)
        else Prepend([ElementNode(tag.value.element)], ParseNodes(build, html, tag.value.offset))
  {
  }

  /** A closing tag ends the level with no further nodes. */
  lemma CloseTagStep<V>(build: string -> Result<TagHead<V>, ParseError>, html: string, at: nat)
    requires at + 1 < |html| && html[at] == '<' && html[at + 1] == '/'
    ensures var skipped := SkipTagEnd(html, at + 1);
      ParseNodes(build, html, at) ==
        if skipped.Failure? then Failure(skipped.error) else Success(Parsed([], skipped.value))
  {
  }

  /** Growing a `<`-free run by one more code unit other than `<`. */
  /** The text buffer of `parse_internal` grows by one code unit that is
      not `<`. */
  lemma BufferGrows(html: string, runStart: nat, at: nat, buffer: string)
    requires runStart <= at < |html| && html[at] != '<'
    requires buffer == if runStart < at then html[runStart..at] else []
    requires '<' !in buffer
    ensures buffer + [html[at]] == html[runStart..at + 1]
    ensures '<' !in buffer + [html[at]]
  {
    if runStart < at {
      RunGrows(html, runStart, at);
    } else {
      assert html[at..at + 1] == [html[at]];
    }
  }

  lemma RunGrows(html: string, runStart: nat, runEnd: nat)
    requires runStart <= runEnd < |html|
    requires '<' !in html[runStart..runEnd] && html[runEnd] != '<'
    ensures html[runStart..runEnd + 1] == html[runStart..runEnd] + [html[runEnd]]
    ensures '<' !in html[runStart..runEnd + 1]
  {
    assert html[runStart..runEnd + 1] == html[runStart..runEnd] + [html[runEnd]];
  }

  /** Appending a node to the front of an empty, finished parse. */
  lemma FinishedLevel<V>(build: string -> Result<TagHead<V>, ParseError>, html: string, nodes: seq<Node<V>>, at: nat)
    requires |html| <= at <= |html| + 1
    ensures Prepend(nodes, ParseNodes(build, html, at)) == Success(Parsed(nodes, at))
  {
    assert nodes + [] == nodes;
  }

  /** One `<` met by the loop of `parse_internal`: either the level ends
      (end of input, a closing tag, a failing tag) with `r`, or an element is
      appended to `nodes` and parsing resumes at `next`. */
  method OpenBracket<V>(build: string -> Result<TagHead<V>, ParseError>, html: string, at: nat, nodes: seq<Node<V>>)
    returns (stop: bool, r: Result<Parsed<V>, ParseError>, nodesAfter: seq<Node<V>>, next: nat)
    requires at < |html| && html[at] == '<'
    ensures stop ==> r == Prepend(nodes, ParseNodes(build, html, at))
    ensures !stop ==> at < next <= |html| + 1
    ensures !stop ==> Prepend(nodesAfter, ParseNodes(build, html, next)) == Prepend(nodes, ParseNodes(build, html, at))
  {
    nodesAfter, next := nodes, at + 1;
    if at + 1 >= |html| {
      return true, Failure(OpenBracketAtEnd), nodesAfter, next;
    }
    if html[at + 1] == '/' {
      CloseTagStep(build, html, at);
      var skipped := SkipTagEnd(html, at + 1);
      if skipped.Failure? {
        return true, Failure(skipped.error), nodesAfter, next;
      }
      assert nodes + [] == nodes;
      return true, Success(Parsed(nodes, skipped.value)), nodesAfter, next;
    }
    OpenTagStep(build, html, at);
    var tag := ParseTag(build, html, at + 1);
    if tag.Failure? {
      return true, Failure(tag.error), nodesAfter, next;
    }
    PrependTwice(nodes, [ElementNode(tag.value.element)], ParseNodes(build, html, tag.value.offset));
    return false, Success(Parsed([], next)), nodes + [ElementNode(tag.value.element)], tag.value.offset;
  }

  /** Flushing the text buffer at `<` or at the end of input: a non-empty
      run becomes one text node, and the parse that remains is unchanged. */
  method FlushText<V>(build: string -> Result<TagHead<V>, ParseError>, html: string, ghost runStart: nat, at: nat,
                      nodes: seq<Node<V>>, buffer: string)
    returns (nodesAfter: seq<Node<V>>)
    requires runStart <= at <= |html| + 1
    requires runStart < at ==> at <= |html| && (at < |html| ==> html[at] == '<')
    requires buffer == if runStart < at then html[runStart..at] else []
    requires '<' !in buffer
    ensures nodesAfter == if buffer == [] then nodes else nodes + [Text(buffer)]
    ensures Prepend(nodesAfter, ParseNodes(build, html, at)) == Prepend(nodes, ParseNodes(build, html, runStart))
  {
    nodesAfter := nodes;
    if |buffer| > 0 {
      TextRunStep(build, html, runStart, at);
      PrependTwice(nodes, [Text(buffer)], ParseNodes(build, html, at));
      nodesAfter := nodes + [Text(buffer)];
    }
  }

  /** A `<` met by the loop of `parse_internal`: the buffered text is
      flushed, then the bracket either ends the level with `r` or appends an
      element and resumes at `next`. */
  method AtBracket<V>(build: string -> Result<TagHead<V>, ParseError>, html: string, ghost runStart: nat, at: nat,
                      nodes: seq<Node<V>>, buffer: string)
    returns (stop: bool, r: Result<Parsed<V>, ParseError>, nodesAfter: seq<Node<V>>, next: nat)
    requires runStart <= at < |html| && html[at] == '<'
    requires buffer == if runStart < at then html[runStart..at] else []
    requires '<' !in buffer
    ensures stop ==> r == Prepend(nodes, ParseNodes(build, html, runStart))
    ensures !stop ==> at < next <= |html| + 1
    ensures !stop ==> Prepend(nodesAfter, ParseNodes(build, html, next)) == Prepend(nodes, ParseNodes(build, html, runStart))
  {
    var flushed := FlushText(build, html, runStart, at, nodes, buffer);
    stop, r, nodesAfter, next := OpenBracket(build, html, at, flushed);
  }

  /** The loop of `parse_internal` as the source writes it, with its text
      buffer flushed at `<` and at the end of input; nested tags go through
      `ParseTag`. It computes what `ParseNodes` computes. */
  method ParseInternal<V>(build: string -> Result<TagHead<V>, ParseError>, html: string, start: nat)
    returns (r: Result<Parsed<V>, ParseError>)
    requires start <= |html| + 1
    ensures r == ParseNodes(build, html, start)
  {
    var offset := start;
    var nodes: seq<Node<V>> := [];
    var buffer: string := [];
    ghost var bufStart := start;
    ghost var goal := ParseNodes(build, html, start);
    PrependNothing(goal);
    while offset < |html|
      invariant start <= bufStart <= offset <= |html| + 1
      invariant bufStart < offset ==> offset <= |html|
      invariant buffer == if bufStart < offset then html[bufStart..offset] else []
      invariant '<' !in buffer
      invariant Prepend(nodes, ParseNodes(build, html, bufStart)) == goal
      decreases |html| + 1 - offset
    {
      var ch := html[offset];
      if ch == '<' {
        var stop, result;
        stop, result, nodes, offset := AtBracket(build, html, bufStart, offset, nodes, buffer);
        if stop {
          return result;
        }
        buffer := [];
        bufStart := offset;
      } else {
        BufferGrows(html, bufStart, offset, buffer);
        buffer := buffer + [ch];
        offset := offset + 1;
      }
    }
    nodes := FlushText(build, html, bufStart, offset, nodes, buffer);
    FinishedLevel(build, html, nodes, offset);
    return Success(Parsed(nodes, offset));
  }
}
