/** The older byte parser variant: the same tokenizer and the same
    quote-aware space split for tag parts, but an attribute part is split on
    every `=` with no quote handling, the second piece is stored verbatim
    (quotes kept) as `Some(value)`, and empty names or values are kept. */
module ByteParser {
  import opened Results
  import opened Markup
  import opened Split
  import Tokenizer

  /** Name and value of one attribute part: the first and second pieces of
      the plain split on `=`. */
  function ParseAttribute(part: string): (r: (string, Option<string>))
    requires '=' in part
    ensures '=' !in r.0 && r.1.Some? && '=' !in r.1.value
    ensures part == r.0 + "=" + r.1.value || r.0 + "=" + r.1.value + "=" <= part
  {
    var pieces := SplitEvery(part, '=');
    assert JoinSep(pieces, '=') == pieces[0] + "=" + JoinSep(pieces[1..], '=');
    assert |pieces| > 2 ==> part == (pieces[0] + "=" + pieces[1] + "=") + JoinSep(pieces[2..], '=') by {
      if |pieces| > 2 {
        assert JoinSep(pieces[1..], '=') == pieces[1] + "=" + JoinSep(pieces[2..], '=');
      }
    }
    (pieces[0], Some(pieces[1]))
  }

  /** What the builder stores for one part: the name and value of an
      attribute part, nothing for a name part. */
  function StoredAttribute(part: string): (a: Option<(string, Option<string>)>)
    ensures a.Some? <==> '=' in part
  {
    if '=' in part then Some(ParseAttribute(part)) else None
  }

  /** The loop of `create_tag` over the parts from index `i`: a part without
      `=` becomes the tag name (a later one overwrites it), any other part
      is stored as an attribute. */
  function CollectParts(parts: seq<string>, i: nat, name: Option<string>, attrs: seq<(string, Option<string>)>)
    : (r: (Option<string>, seq<(string, Option<string>)>))
    requires i <= |parts|
    ensures r.0 == (var later := LastName(parts[i..]); if later.Some? then later else name)
    ensures forall key :: key in Keys(attrs) ==> key in Keys(r.1)
    ensures forall k :: i <= k < |parts| && '=' in parts[k] ==> ParseAttribute(parts[k]).0 in Keys(r.1)
    ensures UniqueKeys(attrs) ==> UniqueKeys(r.1)
    decreases |parts| - i
  {
    if i == |parts| then
      (name, attrs)
    else
      assert parts[i..][1..] == parts[i + 1..];
      if '=' !in parts[i] then
        CollectParts(parts, i + 1, Some(parts[i]), attrs)
      else
        var a := ParseAttribute(parts[i]);
        InsertKeepsKeys(attrs, a.0, a.1);
        CollectParts(parts, i + 1, name, Insert(attrs, a.0, a.1))
  }

  /** The value each key ends up with: the one from the last attribute part
      with that name, or what was stored before the loop when no later part
      names it. */
  lemma {:induction false} CollectedValues(parts: seq<string>, i: nat, name: Option<string>, attrs: seq<(string, Option<string>)>)
    requires i <= |parts|
    ensures forall key ::
      Lookup(CollectParts(parts, i, name, attrs).1, key) ==
      (var last := LastValue(parts[i..], StoredAttribute, key); if last.Some? then last else Lookup(attrs, key))
    decreases |parts| - i
  {
    if i < |parts| {
      assert parts[i..][1..] == parts[i + 1..] && parts[i..][0] == parts[i];
      if '=' !in parts[i] {
        CollectedValues(parts, i + 1, Some(parts[i]), attrs);
      } else {
        var a := ParseAttribute(parts[i]);
        CollectedValues(parts, i + 1, name, Insert(attrs, a.0, a.1));
        forall key ensures Lookup(Insert(attrs, a.0, a.1), key) == if key == a.0 then Some(a.1) else Lookup(attrs, key) {
          LookupInsert(attrs, a.0, a.1, key);
        }
      }
    }
  }

  /** The loop keeps the attributes in the order in which the parts last
      stored their keys. */
  lemma {:induction false} CollectedOrder(parts: seq<string>, i: nat, name: Option<string>, attrs: seq<(string, Option<string>)>)
    requires i <= |parts|
    requires InLastStoredOrder(attrs, parts[..i], StoredAttribute)
    ensures InLastStoredOrder(CollectParts(parts, i, name, attrs).1, parts, StoredAttribute)
    decreases |parts| - i
  {
    if i == |parts| {
      assert parts[..i] == parts;
    } else {
      assert parts[..i + 1] == parts[..i] + [parts[i]];
      StoreKeepsOrder(attrs, parts[..i], StoredAttribute, parts[i]);
      if '=' !in parts[i] {
        CollectedOrder(parts, i + 1, Some(parts[i]), attrs);
      } else {
        var a := ParseAttribute(parts[i]);
        CollectedOrder(parts, i + 1, name, Insert(attrs, a.0, a.1));
      }
    }
  }

  /** Builds the tag head for the raw text between `<` and `>`. Fatal only
      when the text splits into no parts (only for empty text) or every part
      holds `=`. */
  function CreateTag(raw: string): (r: Result<TagHead<Option<string>>, ParseError>)
    ensures raw == [] <==> r == Failure(EmptyTag)
    ensures r.Failure? ==> r.error in {EmptyTag, TagHasNoName}
    ensures r == Failure(TagHasNoName) <==>
      raw != [] && forall k :: 0 <= k < |SplitParts(raw, ' ')| ==> '=' in SplitParts(raw, ' ')[k]
    ensures r.Success? ==> LastName(SplitParts(raw, ' ')) == Some(r.value.name)
    ensures r.Success? ==> (r.value.isVoid <==> r.value.name in VoidElements)
    ensures r.Success? ==> UniqueKeys(r.value.attributes)
    ensures r.Success? ==> forall p :: p in SplitParts(raw, ' ') && '=' in p ==>
      ParseAttribute(p).0 in Keys(r.value.attributes)
    ensures r.Success? ==> forall key ::
      Lookup(r.value.attributes, key) == LastValue(SplitParts(raw, ' '), StoredAttribute, key)
    ensures r.Success? ==> forall a :: a in r.value.attributes ==>
      exists p :: p in SplitParts(raw, ' ') && '=' in p && ParseAttribute(p) == a
    ensures r.Success? ==> InLastStoredOrder(r.value.attributes, SplitParts(raw, ' '), StoredAttribute)
  {
    var parts := SplitParts(raw, ' ');
    SplitPartsSpec(raw, ' ');
    if parts == [] then Failure(EmptyTag)
    else
      CollectedFromStart(parts);
      var (name, attrs) := CollectParts(parts, 0, None, []);
      if name.None? then Failure(TagHasNoName)
      else Success(TagHead(name.value, attrs, IsVoidElement(name.value)))
  }

  /** The loop over all parts from no name and no attributes: the name is
      the last `=`-free part, every attribute part's name is stored with
      the last value given for it, in last-stored order, and every pair is
      some part's parse. */
  lemma CollectedFromStart(parts: seq<string>)
    ensures var c := CollectParts(parts, 0, None, []);
      && c.0 == LastName(parts)
      && UniqueKeys(c.1)
      && (forall p :: p in parts && '=' in p ==> ParseAttribute(p).0 in Keys(c.1))
      && LastStored(c.1, parts, StoredAttribute)
      && (forall a :: a in c.1 ==> exists p :: p in parts && '=' in p && ParseAttribute(p) == a)
  {
    assert parts[0..] == parts;
    assert parts[..0] == [];
    var c := CollectParts(parts, 0, None, []);
    CollectedValues(parts, 0, None, []);
    CollectedOrder(parts, 0, None, []);
    PairsFromParts(c.1, parts, StoredAttribute);
    forall a | a in c.1 ensures exists p :: p in parts && '=' in p && ParseAttribute(p) == a {
      var k :| 0 <= k < |parts| && StoredAttribute(parts[k]) == Some(a);
      assert parts[k] in parts;
    }
  }

  /** A built tag's attributes are the only mapping that holds each key's
      last stored value and lists the keys in the order the parts last
      stored them. */
  lemma CreateTagAttributesDetermined(raw: string, attrs: seq<(string, Option<string>)>)
    requires CreateTag(raw).Success?
    ensures attrs == CreateTag(raw).value.attributes <==> LastStored(attrs, SplitParts(raw, ' '), StoredAttribute)
  {
    var parts := SplitParts(raw, ' ');
    var built := CreateTag(raw).value.attributes;
    assert LastStored(built, parts, StoredAttribute);
    LastStoredDetermined(attrs, built, parts, StoredAttribute);
  }

  /** Raw tag text with a name: some space-separated part holds no `=`. */
  predicate Named(raw: string) {
    exists k :: 0 <= k < |SplitParts(raw, ' ')| && '=' !in SplitParts(raw, ' ')[k]
  }

  lemma NamedBuilds(raw: string)
    requires Named(raw)
    ensures CreateTag(raw).Success?
  {
    SplitPartsSpec(raw, ' ');
  }

  /** Without a closing tag and with no `<` as the last code unit, the byte
      parser succeeds whenever every opening tag has a name: elements that
      are never closed take the rest of the input. */
  lemma UnclosedParses(html: string)
    requires Tokenizer.NoClosingTag(html, 0)
    requires html == [] || html[|html| - 1] != '<'
    requires forall i :: 0 <= i && i + 1 < |html| && html[i] == '<' ==>
      Named(html[i + 1..Tokenizer.FindFrom(html, i + 1, '>')])
    ensures Parse(html).Success?
  {
    TagsBuildWhenNamed(html);
    Tokenizer.UnclosedInputParses(CreateTag, html);
  }

  lemma TagsBuildWhenNamed(html: string)
    requires forall i :: 0 <= i && i + 1 < |html| && html[i] == '<' ==>
      Named(html[i + 1..Tokenizer.FindFrom(html, i + 1, '>')])
    ensures Tokenizer.TagsBuild(CreateTag, html, 0)
  {
    forall i | 0 <= i && i + 1 < |html| && html[i] == '<'
      ensures CreateTag(html[i + 1..Tokenizer.FindFrom(html, i + 1, '>')]).Success?
    {
      NamedBuilds(html[i + 1..Tokenizer.FindFrom(html, i + 1, '>')]);
    }
  }

  /** `parse` of the byte variant. */
  function Parse(html: string): (r: Result<seq<Node<Option<string>>>, ParseError>)
    ensures r.Success? ==> WellFormedNodes(r.value)
  {
    Tokenizer.Parse(CreateTag, html)
  }
}
