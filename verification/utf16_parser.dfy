/** The UTF-16 parser variant: the input is a sequence of UTF-16 code units,
    tag parts are split on spaces outside double quotes, attribute parts are
    split on `=` outside double quotes, one leading and one trailing quote
    are stripped from a value, and empty attributes are dropped. */
module Utf16Parser {
  import opened Results
  import opened Markup
  import opened Split
  import Tokenizer


  /** Removes at most one leading `"` and then at most one trailing `"`. */
  function StripQuotes(v: string): (r: string)
    ensures v == r || v == ['"'] + r || v == r + ['"'] || v == ['"'] + r + ['"']
    ensures |v| >= 2 && v[0] == '"' && v[|v| - 1] == '"' ==> v == ['"'] + r + ['"']
    ensures var leading := |v| > 0 && v[0] == '"';
      var left := if leading then v[1..] else v;
      && (left == r || left == r + ['"'])
      && (left == r + ['"'] <==> |left| > 0 && left[|left| - 1] == '"')
  {
    var unopened := if |v| > 0 && v[0] == '"' then v[1..] else v;
    if |unopened| > 0 && unopened[|unopened| - 1] == '"' then unopened[..|unopened| - 1] else unopened
  }

  /** Name and value of one attribute part (a part holding `=`). Taking the
      second piece fails when the quote-aware split yields fewer than two. */
  function ParseAttribute(part: string): (r: Result<(string, string), ParseError>)
    ensures r.Failure? <==> |SplitParts(part, '=')| < 2
    ensures r.Failure? ==> r.error == AttributeValueMissing
    ensures r.Success? ==>
      var name := r.value.0;
      && |name| < |part|
      && part[..|name|] == name
      && SplitsAt(part, '=', false, |name|)
      && (forall j :: 0 <= j < |name| ==> !SplitsAt(part, '=', false, j))
  {
    var pieces := SplitParts(part, '=');
    if |pieces| < 2 then Failure(AttributeValueMissing)
    else
      PiecesHeadPrefix(part, '=', false);
      PiecesHeadNext(part, '=', false);
      forall j | 0 <= j < |pieces[0]| ensures !SplitsAt(part, '=', false, j) {
        PiecesHeadNoSplit(part, '=', false, j);
      }
      Success((pieces[0], StripQuotes(pieces[1])))
  }

  /** The loop of `create_tag` over the parts from index `i`: a part without
      `=` becomes the tag name (a later one overwrites it), any other part
      is an attribute, stored unless its name or value is empty. */
  function CollectParts(parts: seq<string>, i: nat, name: Option<string>, attrs: seq<(string, string)>)
    : (r: Result<(Option<string>, seq<(string, string)>), ParseError>)
    requires i <= |parts|
    ensures r.Success? ==>
      r.value.0 == (var later := LastName(parts[i..]); if later.Some? then later else name)
    ensures r.Failure? <==> exists k :: i <= k < |parts| && '=' in parts[k] && ParseAttribute(parts[k]).Failure?
    ensures r.Failure? ==> r.error == AttributeValueMissing
    decreases |parts| - i
  {
    if i == |parts| then
      Success((name, attrs))
    else
      assert parts[i..][1..] == parts[i + 1..];
      if '=' !in parts[i] then
        CollectParts(parts, i + 1, Some(parts[i]), attrs)
      else
        var a :- ParseAttribute(parts[i]);
        if a.0 == [] || a.1 == [] then
          CollectParts(parts, i + 1, name, attrs)
        else
          CollectParts(parts, i + 1, name, Insert(attrs, a.0, a.1))
  }

  /** Every stored attribute has a non-empty name and value, and keys stay
      unique. */
  lemma {:induction false} CollectedAttributesNonEmpty(parts: seq<string>, i: nat, name: Option<string>, attrs: seq<(string, string)>)
    requires i <= |parts|
    requires CollectParts(parts, i, name, attrs).Success?
    requires UniqueKeys(attrs)
    requires forall k :: 0 <= k < |attrs| ==> attrs[k].0 != [] && attrs[k].1 != []
    ensures var out := CollectParts(parts, i, name, attrs).value.1;
      && UniqueKeys(out)
      && forall k :: 0 <= k < |out| ==> out[k].0 != [] && out[k].1 != []
    decreases |parts| - i
  {
    if i < |parts| {
      if '=' !in parts[i] {
        CollectedAttributesNonEmpty(parts, i + 1, Some(parts[i]), attrs);
      } else {
        var a := ParseAttribute(parts[i]).value;
        if a.0 == [] || a.1 == [] {
          CollectedAttributesNonEmpty(parts, i + 1, name, attrs);
        } else {
          var ins := Insert(attrs, a.0, a.1);
          forall k | 0 <= k < |ins| ensures ins[k].0 != [] && ins[k].1 != [] {
            if k < |ins| - 1 {
              assert ins[k] in ins[..|ins| - 1];
            }
          }
          CollectedAttributesNonEmpty(parts, i + 1, name, ins);
        }
      }
    }
  }

  /** Every key already stored survives, and every attribute part with a
      non-empty name and value leaves its name among the keys. */
  lemma {:induction false} CollectedAttributesKeepKeys(parts: seq<string>, i: nat, name: Option<string>, attrs: seq<(string, string)>)
    requires i <= |parts|
    requires CollectParts(parts, i, name, attrs).Success?
    ensures var out := CollectParts(parts, i, name, attrs).value.1;
      && (forall key :: key in Keys(attrs) ==> key in Keys(out))
      && (forall k :: i <= k < |parts| && '=' in parts[k] ==>
            var a := ParseAttribute(parts[k]).value;
            a.0 != [] && a.1 != [] ==> a.0 in Keys(out))
    decreases |parts| - i
  {
    if i < |parts| {
      if '=' !in parts[i] {
        CollectedAttributesKeepKeys(parts, i + 1, Some(parts[i]), attrs);
      } else {
        var a := ParseAttribute(parts[i]).value;
        if a.0 == [] || a.1 == [] {
          CollectedAttributesKeepKeys(parts, i + 1, name, attrs);
        } else {
          InsertKeepsKeys(attrs, a.0, a.1);
          CollectedAttributesKeepKeys(parts, i + 1, name, Insert(attrs, a.0, a.1));
        }
      }
    }
  }

  /** Pair `a` is what some attribute part from index `i` on parses to. */
  predicate ParsedFrom(parts: seq<string>, i: nat, a: (string, string)) {
    exists k :: i <= k < |parts| && '=' in parts[k] && ParseAttribute(parts[k]) == Success(a)
  }

  /** Every stored attribute was already stored or is the name and value
      some attribute part parses to. */
  lemma {:induction false} CollectedAttributesFromParts(parts: seq<string>, i: nat, name: Option<string>, attrs: seq<(string, string)>)
    requires i <= |parts|
    requires CollectParts(parts, i, name, attrs).Success?
    ensures var out := CollectParts(parts, i, name, attrs).value.1;
      forall a :: a in out ==> a in attrs || ParsedFrom(parts, i, a)
    decreases |parts| - i
  {
    if i < |parts| {
      var out := CollectParts(parts, i, name, attrs).value.1;
      if '=' !in parts[i] {
        CollectedAttributesFromParts(parts, i + 1, Some(parts[i]), attrs);
        forall p | p in out && ParsedFrom(parts, i + 1, p) ensures ParsedFrom(parts, i, p) {
          var k :| i + 1 <= k < |parts| && '=' in parts[k] && ParseAttribute(parts[k]) == Success(p);
        }
      } else {
        var a := ParseAttribute(parts[i]).value;
        var next := if a.0 == [] || a.1 == [] then attrs else Insert(attrs, a.0, a.1);
        assert out == CollectParts(parts, i + 1, name, next).value.1;
        CollectedAttributesFromParts(parts, i + 1, name, next);
        forall p | p in out ensures p in attrs || ParsedFrom(parts, i, p) {
          if ParsedFrom(parts, i + 1, p) {
            var k :| i + 1 <= k < |parts| && '=' in parts[k] && ParseAttribute(parts[k]) == Success(p);
            assert i <= k;
          } else if p !in attrs {
            assert p in next;
            assert next == next[..|next| - 1] + [next[|next| - 1]];
            assert p == a;
            assert ParseAttribute(parts[i]) == Success(p);
          }
        }
      }
    }
  }

  /** What the builder stores for one part: the name and value of an
      attribute part when both are non-empty, nothing otherwise. */
  function StoredAttribute(part: string): Option<(string, string)> {
    if '=' in part && ParseAttribute(part).Success? && ParseAttribute(part).value.0 != [] &&
      ParseAttribute(part).value.1 != []
    then Some(ParseAttribute(part).value)
    else None
  }

  /** The value each key ends up with: the one from the last stored
      attribute part with that name, or what was stored before the loop
      when no later part names it. */
  lemma CollectedValues(parts: seq<string>, i: nat, name: Option<string>, attrs: seq<(string, string)>)
    requires i <= |parts|
    ensures CollectParts(parts, i, name, attrs).Success? ==> forall key ::
      Lookup(CollectParts(parts, i, name, attrs).value.1, key) ==
      (var last := LastValue(parts[i..], StoredAttribute, key); if last.Some? then last else Lookup(attrs, key))
  {
    forall key ensures CollectParts(parts, i, name, attrs).Success? ==>
      Lookup(CollectParts(parts, i, name, attrs).value.1, key) ==
      (var last := LastValue(parts[i..], StoredAttribute, key); if last.Some? then last else Lookup(attrs, key))
    {
      CollectedValue(parts, i, name, attrs, key);
    }
  }

  /** `CollectedValues` for one key, by induction over the parts. */
  lemma {:induction false} CollectedValue(parts: seq<string>, i: nat, name: Option<string>, attrs: seq<(string, string)>, key: string)
    requires i <= |parts|
    ensures CollectParts(parts, i, name, attrs).Success? ==>
      Lookup(CollectParts(parts, i, name, attrs).value.1, key) ==
      (var last := LastValue(parts[i..], StoredAttribute, key); if last.Some? then last else Lookup(attrs, key))
    decreases |parts| - i
  {
    if i < |parts| && CollectParts(parts, i, name, attrs).Success? {
      var out := CollectParts(parts, i, name, attrs).value.1;
      var rest := parts[i..];
      assert rest[1..] == parts[i + 1..] && rest[0] == parts[i];
      LastValueStep(rest, StoredAttribute, key);
      if '=' !in parts[i] {
        CollectedValue(parts, i + 1, Some(parts[i]), attrs, key);
        assert StoredAttribute(rest[0]).None?;
      } else {
        var a := ParseAttribute(parts[i]).value;
        var next := if a.0 == [] || a.1 == [] then attrs else Insert(attrs, a.0, a.1);
        assert out == CollectParts(parts, i + 1, name, next).value.1;
        CollectedValue(parts, i + 1, name, next, key);
        if a.0 == [] || a.1 == [] {
          assert StoredAttribute(rest[0]).None?;
        } else {
          LookupInsert(attrs, a.0, a.1, key);
          assert StoredAttribute(rest[0]) == Some(a);
        }
      }
    }
  }

  /** The loop keeps the attributes in the order in which the parts last
      stored their keys. */
  lemma {:induction false} CollectedOrder(parts: seq<string>, i: nat, name: Option<string>, attrs: seq<(string, string)>)
    requires i <= |parts|
    requires InLastStoredOrder(attrs, parts[..i], StoredAttribute)
    ensures CollectParts(parts, i, name, attrs).Success? ==>
      InLastStoredOrder(CollectParts(parts, i, name, attrs).value.1, parts, StoredAttribute)
    decreases |parts| - i
  {
    if i == |parts| {
      assert parts[..i] == parts;
    } else if CollectParts(parts, i, name, attrs).Success? {
      assert parts[..i + 1] == parts[..i] + [parts[i]];
      StoreKeepsOrder(attrs, parts[..i], StoredAttribute, parts[i]);
      if '=' !in parts[i] {
        CollectedOrder(parts, i + 1, Some(parts[i]), attrs);
      } else {
        var a := ParseAttribute(parts[i]).value;
        if a.0 == [] || a.1 == [] {
          CollectedOrder(parts, i + 1, name, attrs);
        } else {
          CollectedOrder(parts, i + 1, name, Insert(attrs, a.0, a.1));
        }
      }
    }
  }

  /** Builds the tag head for the raw text between `<` and `>`. Fatal when
      the text splits into no parts (only for empty text), when an
      attribute part has no second piece, or when every part holds `=`
      (the tag has no name). */
  function CreateTag(raw: string): (r: Result<TagHead<string>, ParseError>)
    ensures raw == [] <==> r == Failure(EmptyTag)
    ensures r.Success? ==> LastName(SplitParts(raw, ' ')) == Some(r.value.name)
    ensures r.Success? ==> (r.value.isVoid <==> r.value.name in VoidElements)
    ensures r == Failure(TagHasNoName) ==> forall k :: 0 <= k < |SplitParts(raw, ' ')| ==> '=' in SplitParts(raw, ' ')[k]
    ensures r == Failure(AttributeValueMissing) <==>
      exists k :: 0 <= k < |SplitParts(raw, ' ')| && '=' in SplitParts(raw, ' ')[k] &&
        ParseAttribute(SplitParts(raw, ' ')[k]).Failure?
    ensures r.Failure? ==> r.error in {EmptyTag, TagHasNoName, AttributeValueMissing}
    ensures r.Success? <==>
      && raw != []
      && LastName(SplitParts(raw, ' ')).Some?
      && forall k :: 0 <= k < |SplitParts(raw, ' ')| && '=' in SplitParts(raw, ' ')[k] ==>
           ParseAttribute(SplitParts(raw, ' ')[k]).Success?
    ensures r.Success? ==> InLastStoredOrder(r.value.attributes, SplitParts(raw, ' '), StoredAttribute)
  {
    var parts := SplitParts(raw, ' ');
    SplitPartsSpec(raw, ' ');
    if parts == [] then Failure(EmptyTag)
    else
      assert parts[0..] == parts;
      assert parts[..0] == [];
      CollectedOrder(parts, 0, None, []);
      var collected :- CollectParts(parts, 0, None, []);
      var (name, attrs) := collected;
      if name.None? then Failure(TagHasNoName)
      else Success(TagHead(name.value, attrs, IsVoidElement(name.value)))
  }

  /** `CreateTag` in terms of its loop, for a text that splits into parts. */
  lemma CreateTagFromLoop(raw: string)
    requires SplitParts(raw, ' ') != []
    ensures var collected := CollectParts(SplitParts(raw, ' '), 0, None, []);
      CreateTag(raw) ==
        if collected.Failure? then Failure(collected.error)
        else if collected.value.0.None? then Failure(TagHasNoName)
        else Success(TagHead(collected.value.0.value, collected.value.1, collected.value.0.value in VoidElements))
  {
    var parts := SplitParts(raw, ' ');
    assert parts[0..] == parts;
  }

  /** A built tag's attributes are what the loop over its parts stored. */
  lemma BuiltFromLoop(raw: string)
    requires CreateTag(raw).Success?
    ensures CollectParts(SplitParts(raw, ' '), 0, None, []).Success?
    ensures CreateTag(raw).value.attributes == CollectParts(SplitParts(raw, ' '), 0, None, []).value.1
  {
    SplitPartsSpec(raw, ' ');
    CreateTagFromLoop(raw);
  }

  /** The attributes of a built tag: unique non-empty names with non-empty
      values, each parsed from one of the tag's parts, and every attribute
      part with a non-empty name and value leaves its name among the keys. */
  lemma CreateTagAttributes(raw: string)
    ensures CreateTag(raw).Success? ==> var attrs := CreateTag(raw).value.attributes;
      && UniqueKeys(attrs)
      && (forall k :: 0 <= k < |attrs| ==> attrs[k].0 != [] && attrs[k].1 != [])
      && (forall a :: a in attrs ==>
            exists p :: p in SplitParts(raw, ' ') && '=' in p && ParseAttribute(p) == Success(a))
      && (forall p :: p in SplitParts(raw, ' ') && '=' in p ==>
            var a := ParseAttribute(p).value;
            a.0 != [] && a.1 != [] ==> a.0 in Keys(attrs))
  {
    if CreateTag(raw).Failure? {
      return;
    }
    var parts := SplitParts(raw, ' ');
    BuiltFromLoop(raw);
    CollectedAttributesNonEmpty(parts, 0, None, []);
    CollectedAttributesKeepKeys(parts, 0, None, []);
    CollectedAttributesFromParts(parts, 0, None, []);
    var attrs := CreateTag(raw).value.attributes;
    forall p | p in parts && '=' in p
      ensures var a := ParseAttribute(p).value; a.0 != [] && a.1 != [] ==> a.0 in Keys(attrs)
    {
      var k :| 0 <= k < |parts| && parts[k] == p;
    }
  }

  /** A repeated attribute keeps the value of its last stored occurrence:
      every key of a built tag holds what the last attribute part with that
      name (and a non-empty value) parses to. */
  lemma CreateTagValues(raw: string)
    ensures CreateTag(raw).Success? ==> forall key ::
      Lookup(CreateTag(raw).value.attributes, key) == LastValue(SplitParts(raw, ' '), StoredAttribute, key)
  {
    var parts := SplitParts(raw, ' ');
    if CreateTag(raw).Success? {
      assert parts[0..] == parts;
      CollectedValues(parts, 0, None, []);
      assert CreateTag(raw).value.attributes == CollectParts(parts, 0, None, []).value.1;
    }
  }

  /** A built tag's attributes are the only mapping that holds each key's
      last stored value and lists the keys in the order the parts last
      stored them. */
  lemma CreateTagAttributesDetermined(raw: string, attrs: seq<(string, string)>)
    requires CreateTag(raw).Success?
    ensures attrs == CreateTag(raw).value.attributes <==> LastStored(attrs, SplitParts(raw, ' '), StoredAttribute)
  {
    var parts := SplitParts(raw, ' ');
    var built := CreateTag(raw).value.attributes;
    CreateTagValues(raw);
    assert LastStored(built, parts, StoredAttribute);
    LastStoredDetermined(attrs, built, parts, StoredAttribute);
  }

  /** The value is the text between the first outside-quote `=` and the next
      outside-quote one (or the end of the part), with at most one quote
      removed at each end. */
  lemma AttributeValueSpan(part: string)
    requires ParseAttribute(part).Success?
    ensures var (name, value) := ParseAttribute(part).value;
      value == StripQuotes(part[|name| + 1..NextSplit(part, '=', |name| + 1)])
  {
    var p := SplitParts(part, '=');
    assert ParseAttribute(part).value == (p[0], StripQuotes(p[1]));
    SecondPartToNextSplit(part, '=');
  }

  /** Plain text for a tag or attribute name: no space, `=` or quote. */
  predicate PlainName(s: string) {
    s != [] && forall j :: 0 <= j < |s| ==> s[j] != ' ' && s[j] != '=' && s[j] != '"'
  }

  /** A double-quoted attribute value stays one attribute whatever spaces or
      `=` it holds, loses its quotes, and is dropped when it is empty. */
  lemma QuotedAttributeValue(name: string, key: string, v: string)
    requires PlainName(name) && PlainName(key)
    requires forall j :: 0 <= j < |v| ==> v[j] != '"'
    ensures CreateTag(name + " " + key + "=\"" + v + "\"") ==
      Success(TagHead(name, if v == [] then [] else [(key, v)], name in VoidElements))
  {
    var attr := key + (['='] + (['"'] + (v + ['"'])));
    var raw := name + ([' '] + attr);
    assert name + " " + key + "=\"" + v + "\"" == raw;
    QuotedAttributeTagParts(name, key, v);
    QuotedAttributeParts(key, v);
    assert attr[|key|] == '=';
    assert '=' !in name by {
      forall j | 0 <= j < |name| ensures name[j] != '=' {}
    }
    NameThenAttribute(name, attr, (key, v));
    CreateTagFromLoop(raw);
  }

  /** The loop over a name part and one attribute part: the name is kept,
      and the pair is stored unless its name or value is empty. */
  lemma NameThenAttribute(name: string, attr: string, a: (string, string))
    requires '=' !in name && '=' in attr
    requires ParseAttribute(attr) == Success(a)
    ensures CollectParts([name, attr], 0, None, []) ==
      Success((Some(name), if a.0 == [] || a.1 == [] then [] else [a]))
  {
    var parts := [name, attr];
    var stored: seq<(string, string)> := if a.0 == [] || a.1 == [] then [] else [a];
    assert CollectParts(parts, 2, Some(name), stored) == Success((Some(name), stored));
    assert Insert([], a.0, a.1) == [a];
    assert CollectParts(parts, 1, Some(name), []) == Success((Some(name), stored));
  }

  lemma QuotedAttributeTagParts(name: string, key: string, v: string)
    requires PlainName(name) && PlainName(key)
    requires forall j :: 0 <= j < |v| ==> v[j] != '"'
    ensures var attr := key + (['='] + (['"'] + (v + ['"'])));
      SplitParts(name + ([' '] + attr), ' ') == [name, attr]
  {
    var q := ['"'] + (v + ['"']);
    var attr := key + (['='] + q);
    var none: string := [];
    assert Pieces(none, ' ', false) == [[]];
    PiecesQuotedPrefix(v, none, ' ');
    assert ['"'] + (v + (['"'] + none)) == q;
    assert Pieces(q, ' ', false) == [q];
    PiecesPlainPrefix(['='], q, ' ', false);
    PiecesPlainPrefix(key, ['='] + q, ' ', false);
    assert Pieces(attr, ' ', false) == [attr];
    PiecesSepPrefix(attr, ' ');
    PiecesPlainPrefix(name, [' '] + attr, ' ', false);
    assert name + none == name;
  }

  lemma QuotedAttributeParts(key: string, v: string)
    requires PlainName(key)
    requires forall j :: 0 <= j < |v| ==> v[j] != '"'
    ensures ParseAttribute(key + (['='] + (['"'] + (v + ['"'])))) == Success((key, v))
  {
    var q := ['"'] + (v + ['"']);
    QuotedAttributePieces(key, v);
    assert q[1..] == v + ['"'];
    assert StripQuotes(q) == v;
  }

  lemma QuotedAttributePieces(key: string, v: string)
    requires PlainName(key)
    requires forall j :: 0 <= j < |v| ==> v[j] != '"'
    ensures var q := ['"'] + (v + ['"']);
      SplitParts(key + (['='] + q), '=') == [key, q]
  {
    var q := ['"'] + (v + ['"']);
    var attr := key + (['='] + q);
    var none: string := [];
    assert Pieces(none, '=', false) == [[]];
    PiecesQuotedPrefix(v, none, '=');
    assert ['"'] + (v + (['"'] + none)) == q;
    assert Pieces(q, '=', false) == [q];
    PiecesSepPrefix(q, '=');
    PiecesPlainPrefix(key, ['='] + q, '=', false);
    assert key + none == key;
    assert Pieces(attr, '=', false) == [key, q];
  }

  /** Nothing between `<` and `>` is fatal. */
  lemma EmptyTagIsFatal()
    ensures CreateTag("") == Failure(EmptyTag)
  {
  }

  /** A tag whose only part is an attribute has no name, which is fatal. */
  lemma NamelessTagIsFatal(key: string, value: string)
    requires PlainName(key) && PlainName(value)
    ensures CreateTag(key + "=" + value) == Failure(TagHasNoName)
  {
    var attr := key + "=" + value;
    PlainAttribute(key, value);
    assert PlainWord(attr, ' ');
    assert JoinSep([attr], ' ') == attr;
    SplitJoinedWords([attr], ' ');
    assert '=' in attr by { assert attr[|key|] == '='; }
    assert CollectParts([attr], 0, None, []).value.0 == None;
  }

  /** A plain name, `=` and a plain value parse to that pair. */
  lemma PlainAttribute(key: string, value: string)
    requires PlainName(key) && PlainName(value)
    ensures PlainWord(key + "=" + value, ' ')
    ensures ParseAttribute(key + "=" + value) == Success((key, value))
  {
    var attr := key + "=" + value;
    assert PlainWord(key, '=') && PlainWord(value, '=');
    assert JoinSep([key, value], '=') == attr;
    SplitJoinedWords([key, value], '=');
    forall j | 0 <= j < |attr| ensures attr[j] != '"' && attr[j] != ' ' {
      if j < |key| {
        assert attr[j] == key[j];
      } else if j > |key| {
        assert attr[j] == value[j - |key| - 1];
      }
    }
  }

  /** A repeated attribute is stored once, with the value of its last
      occurrence. */
  lemma RepeatedAttributeKeepsLast(name: string, key: string, first: string, last: string)
    requires PlainName(name) && PlainName(key) && PlainName(first) && PlainName(last)
    ensures CreateTag(name + " " + (key + "=" + first) + " " + (key + "=" + last)) ==
      Success(TagHead(name, [(key, last)], name in VoidElements))
  {
    var a1 := key + "=" + first;
    var a2 := key + "=" + last;
    var raw := name + " " + a1 + " " + a2;
    PlainAttribute(key, first);
    PlainAttribute(key, last);
    RepeatedAttributeTagParts(name, a1, a2);
    assert '=' in a1 by { assert a1[|key|] == '='; }
    assert '=' in a2 by { assert a2[|key|] == '='; }
    assert '=' !in name by {
      forall j | 0 <= j < |name| ensures name[j] != '=' {}
    }
    TwoAttributesOneKey(name, a1, a2, key, first, last);
    CreateTagFromLoop(raw);
  }

  lemma RepeatedAttributeTagParts(name: string, a1: string, a2: string)
    requires PlainWord(name, ' ') && PlainWord(a1, ' ') && PlainWord(a2, ' ')
    ensures SplitParts(name + " " + a1 + " " + a2, ' ') == [name, a1, a2]
  {
    var parts := [name, a1, a2];
    assert JoinSep(parts[2..], ' ') == a2;
    assert JoinSep(parts[1..], ' ') == a1 + [' '] + a2;
    assert JoinSep(parts, ' ') == name + [' '] + (a1 + [' '] + a2);
    assert name + " " + a1 + " " + a2 == name + [' '] + (a1 + [' '] + a2);
    assert PlainWord(parts[0], ' ') && PlainWord(parts[1], ' ') && PlainWord(parts[2], ' ');
    SplitJoinedWords(parts, ' ');
  }

  /** The loop over a name part and two attribute parts with the same
      non-empty key keeps only the second value. */
  lemma TwoAttributesOneKey(name: string, a1: string, a2: string, key: string, first: string, last: string)
    requires '=' !in name && '=' in a1 && '=' in a2
    requires key != [] && first != [] && last != []
    requires ParseAttribute(a1) == Success((key, first)) && ParseAttribute(a2) == Success((key, last))
    ensures CollectParts([name, a1, a2], 0, None, []) == Success((Some(name), [(key, last)]))
  {
    var parts := [name, a1, a2];
    assert Insert([], key, first) == [(key, first)];
    assert Insert([(key, first)], key, last) == [(key, last)];
    assert CollectParts(parts, 3, Some(name), [(key, last)]) == Success((Some(name), [(key, last)]));
    assert CollectParts(parts, 2, Some(name), [(key, first)]) == Success((Some(name), [(key, last)]));
    assert CollectParts(parts, 1, Some(name), []) == Success((Some(name), [(key, last)]));
  }

  /** An attribute with nothing after `=` indexes past the split pieces,
      which is fatal. */
  lemma MissingAttributeValueIsFatal(name: string, key: string)
    requires PlainWord(name, ' ')
    requires PlainWord(key, ' ') && PlainWord(key, '=')
    ensures CreateTag(name + " " + key + "=") == Failure(AttributeValueMissing)
  {
    var attr := key + "=";
    var words := [name, attr];
    assert PlainWord(attr, ' ') by {
      forall j | 0 <= j < |attr| ensures attr[j] != '"' && attr[j] != ' ' {
        if j < |key| { assert attr[j] == key[j]; }
      }
    }
    assert JoinSep(words, ' ') == name + " " + key + "=";
    SplitJoinedWords(words, ' ');
    EmptyValueAttribute(key);
    assert '=' in attr by { assert attr[|key|] == '='; }
  }

  /** A name followed by `=` and nothing else has no value, which is fatal. */
  lemma EmptyValueAttribute(name: string)
    requires PlainWord(name, '=')
    ensures ParseAttribute(name + "=") == Failure(AttributeValueMissing)
  {
    EmptyValueSplit(name);
  }

  /** A name followed by `=` and nothing else splits on `=` into the name
      alone. */
  lemma EmptyValueSplit(name: string)
    requires PlainWord(name, '=')
    ensures SplitParts(name + "=", '=') == [name]
  {
    var none: string := [];
    PiecesPlainPrefix(name, "=", '=', false);
    PiecesSepPrefix(none, '=');
    assert "=" == ['='] + none;
    assert name + none == name;
  }

  /** Without a closing tag, the UTF-16 parser never fails for want of a
      `>`: an element that is never closed is not an error. */
  lemma UnclosedNeverMissesTagEnd(html: string)
    requires Tokenizer.NoClosingTag(html, 0)
    ensures Parse(html).Failure? ==> Parse(html).error != TagEndNotFound
  {
    assert Tokenizer.NoTagEndErrors(CreateTag);
    Tokenizer.NoClosingTagNoTagEndError(CreateTag, html, 0);
  }

  /** Raw tag text the UTF-16 builder accepts: some space-separated part
      holds no `=`, and every part that does hold one has a value piece. */
  predicate Accepted(raw: string) {
    && (exists k :: 0 <= k < |SplitParts(raw, ' ')| && '=' !in SplitParts(raw, ' ')[k])
    && forall k :: 0 <= k < |SplitParts(raw, ' ')| && '=' in SplitParts(raw, ' ')[k] ==>
         |SplitParts(SplitParts(raw, ' ')[k], '=')| >= 2
  }

  lemma AcceptedBuilds(raw: string)
    requires Accepted(raw)
    ensures CreateTag(raw).Success?
  {
    var parts := SplitParts(raw, ' ');
    SplitPartsSpec(raw, ' ');
    assert raw != [];
    assert LastName(parts).Some?;
    forall k | 0 <= k < |parts| && '=' in parts[k] ensures ParseAttribute(parts[k]).Success? {
      assert |SplitParts(parts[k], '=')| >= 2;
    }
  }

  /** Without a closing tag and with no `<` as the last code unit, the UTF-16
      parser succeeds whenever every opening tag is accepted: elements that
      are never closed take the rest of the input. */
  lemma UnclosedParses(html: string)
    requires Tokenizer.NoClosingTag(html, 0)
    requires html == [] || html[|html| - 1] != '<'
    requires forall i :: 0 <= i && i + 1 < |html| && html[i] == '<' ==>
      Accepted(html[i + 1..Tokenizer.FindFrom(html, i + 1, '>')])
    ensures Parse(html).Success?
  {
    TagsBuildWhenAccepted(html);
    Tokenizer.UnclosedInputParses(CreateTag, html);
  }

  lemma TagsBuildWhenAccepted(html: string)
    requires forall i :: 0 <= i && i + 1 < |html| && html[i] == '<' ==>
      Accepted(html[i + 1..Tokenizer.FindFrom(html, i + 1, '>')])
    ensures Tokenizer.TagsBuild(CreateTag, html, 0)
  {
    forall i | 0 <= i && i + 1 < |html| && html[i] == '<'
      ensures CreateTag(html[i + 1..Tokenizer.FindFrom(html, i + 1, '>')]).Success?
    {
      AcceptedBuilds(html[i + 1..Tokenizer.FindFrom(html, i + 1, '>')]);
    }
  }

  /** A tag that is just a plain name builds a head with that name and no
      attributes. */
  lemma PlainTag(name: string)
    requires PlainName(name)
    ensures CreateTag(name) == Success(TagHead(name, [], name in VoidElements))
  {
    var none: string := [];
    PiecesPlainPrefix(name, none, ' ', false);
    assert name + none == name;
    assert SplitParts(name, ' ') == [name];
    assert [name][0..] == [name];
    assert '=' !in name by {
      forall j | 0 <= j < |name| ensures name[j] != '=' {}
    }
    assert CollectParts([name], 0, None, []) == Success((Some(name), []));
  }

  /** `<div>hello` and its kind: an element that is never closed takes the
      text after `>` as its child, and the parse succeeds. */
  lemma UnclosedElement(name: string, text: string)
    requires PlainName(name) && name !in VoidElements && name[0] != '/'
    requires forall j :: 0 <= j < |name| ==> name[j] != '>'
    requires text != [] && forall j :: 0 <= j < |text| ==> text[j] != '<'
    ensures Parse("<" + name + ">" + text) == Success([ElementNode(Element(name, [], [Text(text)], false))])
  {
    PlainTag(name);
    Tokenizer.UnclosedElement(CreateTag, name, text);
  }

  /** `parse` of the UTF-16 variant. */
  function Parse(html: string): (r: Result<seq<Node<string>>, ParseError>)
    ensures r.Success? ==> WellFormedNodes(r.value)
  {
    Tokenizer.Parse(CreateTag, html)
  }
}
