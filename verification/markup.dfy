/** The parsed tree shared by both parser variants: text and element nodes,
    the fixed void-element table, the fatal parse errors and the ordered
    attribute mapping. */
module Markup {
  import opened Results

  /** Attribute values are `string` in the UTF-16 parser and
      `Option<string>` in the byte parser. */
  datatype Node<V> = Text(content: string) | ElementNode(element: Element<V>)

  datatype Element<V> = Element(
    tagName: string,
    attributes: seq<(string, V)>,
    children: seq<Node<V>>,
    isVoid: bool)

  /** What the tag grammar produces for one opening tag, before children
      are attached. */
  datatype TagHead<V> = TagHead(name: string, attributes: seq<(string, V)>, isVoid: bool)

  /** The conditions under which the source panics (or indexes out of
      bounds) while parsing. */
  datatype ParseError =
    | OpenBracketAtEnd        // `<` is the last code unit
    | TagEndNotFound          // `</` with no `>` after it
    | EmptyTag                // the opening tag splits into no parts
    | TagHasNoName            // every part of the opening tag contains `=`
    | AttributeValueMissing   // an attribute part yields no second piece

  const VoidElements: set<string> :=
    {"area", "base", "br", "wbr", "col", "hr", "img", "input", "link", "meta", "param"}

  predicate IsVoidElement(name: string) {
    name in VoidElements
  }

  /** Keys of an ordered attribute mapping. */
  function Keys<V>(attrs: seq<(string, V)>): (ks: seq<string>)
    ensures |ks| == |attrs|
    ensures forall i :: 0 <= i < |attrs| ==> ks[i] == attrs[i].0
  {
    if attrs == [] then [] else [attrs[0].0] + Keys(attrs[1..])
  }

  predicate UniqueKeys<V>(attrs: seq<(string, V)>) {
    forall i, j :: 0 <= i < j < |attrs| ==> attrs[i].0 != attrs[j].0
  }

  /** Removes every pair with `key`; the other pairs keep their order. */
  function Remove<V(!new)>(attrs: seq<(string, V)>, key: string): (r: seq<(string, V)>)
    ensures forall p :: p in r <==> p in attrs && p.0 != key
    ensures key !in Keys(attrs) ==> r == attrs
    ensures UniqueKeys(attrs) ==> UniqueKeys(r)
  {
    if attrs == [] then []
    else
      assert Keys(attrs) == [attrs[0].0] + Keys(attrs[1..]);
      if attrs[0].0 == key then Remove(attrs[1..], key)
      else [attrs[0]] + Remove(attrs[1..], key)
  }

  /** Removal distributes over concatenation, so the remaining pairs keep
      their relative order. */
  lemma {:induction false} RemoveConcat<V(!new)>(a: seq<(string, V)>, b: seq<(string, V)>, key: string)
    ensures Remove(a + b, key) == Remove(a, key) + Remove(b, key)
    decreases |a|
  {
    if a == [] {
      assert a + b == b;
    } else {
      assert (a + b)[0] == a[0] && (a + b)[1..] == a[1..] + b;
      RemoveConcat(a[1..], b, key);
    }
  }

  /** Insertion into a linked hash map: a new key goes to the back; an
      existing key gets the new value and also moves to the back. */
  function Insert<V(!new)>(attrs: seq<(string, V)>, key: string, value: V): (r: seq<(string, V)>)
    ensures |r| > 0 && r[|r| - 1] == (key, value)
    ensures forall p :: p in r[..|r| - 1] <==> p in attrs && p.0 != key
    ensures key !in Keys(attrs) ==> r == attrs + [(key, value)]
    ensures UniqueKeys(attrs) ==> UniqueKeys(r)
  {
    Remove(attrs, key) + [(key, value)]
  }

  /** Re-inserting a key already at position `j` takes that pair out and puts
      the new pair at the back; every other pair keeps its place in order. */
  lemma InsertExisting<V(!new)>(attrs: seq<(string, V)>, j: nat, key: string, value: V)
    requires UniqueKeys(attrs)
    requires j < |attrs| && attrs[j].0 == key
    ensures Insert(attrs, key, value) == attrs[..j] + attrs[j + 1..] + [(key, value)]
  {
    RemoveExisting(attrs, j, key);
  }

  /** With unique keys, removing the key at position `j` drops exactly that
      pair. */
  lemma RemoveExisting<V(!new)>(attrs: seq<(string, V)>, j: nat, key: string)
    requires UniqueKeys(attrs)
    requires j < |attrs| && attrs[j].0 == key
    ensures Remove(attrs, key) == attrs[..j] + attrs[j + 1..]
  {
    KeyOnlyAt(attrs, j);
    SplitAround(attrs, j);
    RemoveBetween(attrs[..j], attrs[j], attrs[j + 1..], key);
  }

  lemma SplitAround<T>(s: seq<T>, j: nat)
    requires j < |s|
    ensures s == s[..j] + ([s[j]] + s[j + 1..])
  {
  }

  /** Removing a key found only in the middle pair leaves the pairs around
      it. */
  lemma RemoveBetween<V(!new)>(before: seq<(string, V)>, pair: (string, V), after: seq<(string, V)>, key: string)
    requires pair.0 == key && key !in Keys(before) && key !in Keys(after)
    ensures Remove(before + ([pair] + after), key) == before + after
  {
    assert [pair][1..] == [];
    assert Remove([pair], key) == [];
    RemoveConcat([pair], after, key);
    RemoveConcat(before, [pair] + after, key);
  }

  /** With unique keys, the key at position `j` appears nowhere else. */
  lemma KeyOnlyAt<V>(attrs: seq<(string, V)>, j: nat)
    requires UniqueKeys(attrs)
    requires j < |attrs|
    ensures attrs[j].0 !in Keys(attrs[..j])
    ensures attrs[j].0 !in Keys(attrs[j + 1..])
  {
    var before := attrs[..j];
    var after := attrs[j + 1..];
    forall i | 0 <= i < |before| ensures Keys(before)[i] != attrs[j].0 {
      assert before[i] == attrs[i];
    }
    forall i | 0 <= i < |after| ensures Keys(after)[i] != attrs[j].0 {
      assert after[i] == attrs[j + 1 + i];
    }
  }

  /** Insertion keeps every key already present and adds the new one. */
  lemma InsertKeepsKeys<V(!new)>(attrs: seq<(string, V)>, key: string, value: V)
    ensures key in Keys(Insert(attrs, key, value))
    ensures forall k :: k in Keys(attrs) ==> k in Keys(Insert(attrs, key, value))
  {
    var r := Insert(attrs, key, value);
    assert Keys(r)[|r| - 1] == key;
    forall k | k in Keys(attrs)
      ensures k in Keys(r)
    {
      var i :| 0 <= i < |attrs| && Keys(attrs)[i] == k;
      if k != key {
        assert attrs[i] in r[..|r| - 1];
        var j :| 0 <= j < |r| - 1 && r[..|r| - 1][j] == attrs[i];
        assert Keys(r)[j] == k;
      }
    }
  }

  /** Reference for the tag name: the last part that contains no `=`. */
  function LastName(parts: seq<string>): (r: Option<string>)
    ensures r.None? <==> forall k :: 0 <= k < |parts| ==> '=' in parts[k]
    ensures r.Some? ==>
      exists k :: 0 <= k < |parts| && parts[k] == r.value && '=' !in parts[k] &&
        (forall j :: k < j < |parts| ==> '=' in parts[j])
    decreases |parts|
  {
    if parts == [] then None
    else
      var later := LastName(parts[1..]);
      if later.Some? then
        ghost var k :| 0 <= k < |parts[1..]| && parts[1..][k] == later.value && '=' !in parts[1..][k]
          && forall j :: k < j < |parts[1..]| ==> '=' in parts[1..][j];
        assert parts[k + 1] == later.value;
        later
      else if '=' !in parts[0] then Some(parts[0])
      else None
  }

  /** The value stored under `key`: that of the first pair with the key. */
  function Lookup<V>(attrs: seq<(string, V)>, key: string): (r: Option<V>)
    ensures r.Some? <==> key in Keys(attrs)
    ensures r.Some? ==> (key, r.value) in attrs
    ensures UniqueKeys(attrs) ==> forall j :: 0 <= j < |attrs| && attrs[j].0 == key ==> r == Some(attrs[j].1)
    decreases |attrs|
  {
    if attrs == [] then None
    else
      assert Keys(attrs) == [attrs[0].0] + Keys(attrs[1..]);
      assert forall j :: 1 <= j < |attrs| ==> attrs[j] == attrs[1..][j - 1];
      if attrs[0].0 == key then Some(attrs[0].1) else Lookup(attrs[1..], key)
  }

  lemma {:induction false} LookupConcat<V>(a: seq<(string, V)>, b: seq<(string, V)>, key: string)
    ensures Lookup(a + b, key) == if Lookup(a, key).Some? then Lookup(a, key) else Lookup(b, key)
    decreases |a|
  {
    if a == [] {
      assert a + b == b;
    } else {
      assert (a + b)[0] == a[0] && (a + b)[1..] == a[1..] + b;
      LookupConcat(a[1..], b, key);
    }
  }

  lemma {:induction false} LookupRemove<V(!new)>(attrs: seq<(string, V)>, k: string, key: string)
    ensures Lookup(Remove(attrs, k), key) == if key == k then None else Lookup(attrs, key)
    decreases |attrs|
  {
    if attrs != [] {
      LookupRemove(attrs[1..], k, key);
      if attrs[0].0 != k {
        assert Remove(attrs, k) == [attrs[0]] + Remove(attrs[1..], k);
      }
    }
  }

  /** After inserting `(k, v)` the key `k` holds `v`; every other key holds
      what it held before. */
  lemma LookupInsert<V(!new)>(attrs: seq<(string, V)>, k: string, v: V, key: string)
    ensures Lookup(Insert(attrs, k, v), key) == if key == k then Some(v) else Lookup(attrs, key)
  {
    LookupConcat(Remove(attrs, k), [(k, v)], key);
    LookupRemove(attrs, k, key);
  }

  /** `LookupInsert` for every key at once. */
  lemma InsertLookups<V(!new)>(attrs: seq<(string, V)>, k: string, v: V)
    ensures forall key :: Lookup(Insert(attrs, k, v), key) == if key == k then Some(v) else Lookup(attrs, key)
  {
    forall key ensures Lookup(Insert(attrs, k, v), key) == if key == k then Some(v) else Lookup(attrs, key) {
      LookupInsert(attrs, k, v, key);
    }
  }

  /** Part `part` is turned by `attr` into a pair with name `key`. */
  predicate Gives<V>(attr: string -> Option<(string, V)>, part: string, key: string) {
    attr(part).Some? && attr(part).value.0 == key
  }

  /** Reference for the value a key ends up with: the value of the last part
      that `attr` turns into a pair with that key. */
  function LastValue<V>(parts: seq<string>, attr: string -> Option<(string, V)>, key: string): (r: Option<V>)
    ensures r.None? <==> forall k :: 0 <= k < |parts| ==> !Gives(attr, parts[k], key)
    ensures r.Some? ==>
      exists k :: 0 <= k < |parts| && attr(parts[k]) == Some((key, r.value)) &&
        (forall j :: k < j < |parts| ==> !Gives(attr, parts[j], key))
    decreases |parts|
  {
    if parts == [] then None
    else
      var later := LastValue(parts[1..], attr, key);
      assert forall j :: 1 <= j < |parts| ==> parts[j] == parts[1..][j - 1];
      if later.Some? then
        ghost var k :| 0 <= k < |parts[1..]| && attr(parts[1..][k]) == Some((key, later.value)) &&
          forall j :: k < j < |parts[1..]| ==> !Gives(attr, parts[1..][j], key);
        assert attr(parts[k + 1]) == Some((key, later.value));
        later
      else if Gives(attr, parts[0], key) then Some(attr(parts[0]).value.1)
      else None
  }

  /** One step of `LastValue`: a later part decides, otherwise the first. */
  lemma LastValueStep<V>(parts: seq<string>, attr: string -> Option<(string, V)>, key: string)
    requires parts != []
    ensures LastValue(parts, attr, key) ==
      (var later := LastValue(parts[1..], attr, key);
       if later.Some? then later
       else if Gives(attr, parts[0], key) then Some(attr(parts[0]).value.1)
       else None)
  {
  }

  /** A mapping whose lookups agree with `LastValue` holds only pairs that
      some part produced. */
  lemma PairsFromParts<V>(attrs: seq<(string, V)>, parts: seq<string>, attr: string -> Option<(string, V)>)
    requires UniqueKeys(attrs)
    requires forall key :: Lookup(attrs, key) == LastValue(parts, attr, key)
    ensures forall a :: a in attrs ==> exists k :: 0 <= k < |parts| && attr(parts[k]) == Some(a)
  {
    forall a | a in attrs ensures exists k :: 0 <= k < |parts| && attr(parts[k]) == Some(a) {
      var j :| 0 <= j < |attrs| && attrs[j] == a;
      assert Lookup(attrs, a.0) == Some(a.1);
      assert LastValue(parts, attr, a.0) == Some(a.1);
    }
  }

  /** Reference for where a key was last stored: the index of the last part
      that `attr` turns into a pair with that key, or -1 when there is none. */
  function LastPosition<V>(parts: seq<string>, attr: string -> Option<(string, V)>, key: string): (r: int)
    ensures -1 <= r < |parts|
    ensures r == -1 <==> forall k :: 0 <= k < |parts| ==> !Gives(attr, parts[k], key)
    ensures r >= 0 ==> Gives(attr, parts[r], key) && forall j :: r < j < |parts| ==> !Gives(attr, parts[j], key)
    decreases |parts|
  {
    if parts == [] then -1
    else if Gives(attr, parts[|parts| - 1], key) then |parts| - 1
    else LastPosition(parts[..|parts| - 1], attr, key)
  }

  /** Keys strictly increase under `pos`. */
  predicate OrderedBy<V>(attrs: seq<(string, V)>, pos: string -> int) {
    forall i, j :: 0 <= i < j < |attrs| ==> pos(attrs[i].0) < pos(attrs[j].0)
  }

  /** The pairs are in the order in which `parts` last stored their keys,
      which is the iteration order of a linked hash map filled from them. */
  predicate InLastStoredOrder<V>(attrs: seq<(string, V)>, parts: seq<string>, attr: string -> Option<(string, V)>) {
    OrderedBy(attrs, LastPositions(parts, attr))
  }

  /** Each key's `LastPosition` in `parts`, as a function of the key. */
  function LastPositions<V>(parts: seq<string>, attr: string -> Option<(string, V)>): string -> int {
    key => LastPosition(parts, attr, key)
  }

  /** A pair in front of an ordered mapping whose keys all come later. */
  lemma OrderedCons<V>(x: (string, V), rest: seq<(string, V)>, pos: string -> int)
    requires OrderedBy(rest, pos)
    requires forall p :: p in rest ==> pos(x.0) < pos(p.0)
    ensures OrderedBy([x] + rest, pos)
  {
    var r := [x] + rest;
    forall i, j | 0 <= i < j < |r| ensures pos(r[i].0) < pos(r[j].0) {
      assert r[j] == rest[j - 1];
      if i > 0 {
        assert r[i] == rest[i - 1];
      }
    }
  }

  /** Removal keeps the remaining pairs in their order. */
  lemma {:induction false} RemoveKeepsOrder<V(!new)>(attrs: seq<(string, V)>, pos: string -> int, key: string)
    requires OrderedBy(attrs, pos)
    ensures OrderedBy(Remove(attrs, key), pos)
    decreases |attrs|
  {
    if attrs != [] {
      var tail := attrs[1..];
      OrderedTail(attrs, pos);
      RemoveKeepsOrder(tail, pos, key);
      if attrs[0].0 != key {
        var rest := Remove(tail, key);
        forall p | p in rest ensures pos(attrs[0].0) < pos(p.0) {
          var m :| 0 <= m < |tail| && tail[m] == p;
          assert attrs[m + 1] == p;
        }
        OrderedCons(attrs[0], rest, pos);
      }
    }
  }

  /** One more part moves the key it stores (if any) to the last position
      and leaves every other key where it was. */
  lemma LastPositionAppend<V>(parts: seq<string>, attr: string -> Option<(string, V)>, part: string, key: string)
    ensures LastPosition(parts + [part], attr, key) ==
      if Gives(attr, part, key) then |parts| else LastPosition(parts, attr, key)
  {
    var ext := parts + [part];
    assert ext[..|ext| - 1] == parts && ext[|ext| - 1] == part;
  }

  /** Inserting a key that now sorts after every other key keeps the order;
      the other keys keep their positions. */
  lemma InsertLastKeepsOrder<V(!new)>(attrs: seq<(string, V)>, before: string -> int, after: string -> int, k: string, v: V)
    requires OrderedBy(attrs, before)
    requires forall key :: key != k ==> after(key) == before(key) && before(key) < after(k)
    ensures OrderedBy(Insert(attrs, k, v), after)
  {
    var rem := Remove(attrs, k);
    RemoveKeepsOrder(attrs, before, k);
    var r := Insert(attrs, k, v);
    assert r == rem + [(k, v)];
    forall i, j | 0 <= i < j < |r| ensures after(r[i].0) < after(r[j].0) {
      assert r[i] == rem[i] && r[i] in rem && r[i].0 != k;
      if j < |rem| {
        assert r[j] == rem[j] && r[j] in rem && r[j].0 != k;
        assert before(rem[i].0) < before(rem[j].0);
      }
    }
  }

  /** One more part keeps the order: a part that stores nothing changes no
      position, and a part that stores a key moves that key to the back,
      exactly as `Insert` does. */
  lemma StoreKeepsOrder<V(!new)>(attrs: seq<(string, V)>, parts: seq<string>, attr: string -> Option<(string, V)>, part: string)
    requires InLastStoredOrder(attrs, parts, attr)
    ensures attr(part).None? ==> InLastStoredOrder(attrs, parts + [part], attr)
    ensures attr(part).Some? ==>
      InLastStoredOrder(Insert(attrs, attr(part).value.0, attr(part).value.1), parts + [part], attr)
  {
    var before := LastPositions(parts, attr);
    var after := LastPositions(parts + [part], attr);
    forall key ensures after(key) == if Gives(attr, part, key) then |parts| else before(key) {
      LastPositionAppend(parts, attr, part, key);
    }
    if attr(part).None? {
      forall i, j | 0 <= i < j < |attrs| ensures after(attrs[i].0) < after(attrs[j].0) {
        assert before(attrs[i].0) < before(attrs[j].0);
      }
    } else {
      InsertLastKeepsOrder(attrs, before, after, attr(part).value.0, attr(part).value.1);
    }
  }

  /** Strictly ordered keys are unique. */
  lemma OrderedKeysUnique<V>(attrs: seq<(string, V)>, pos: string -> int)
    requires OrderedBy(attrs, pos)
    ensures UniqueKeys(attrs)
  {
    forall i, j | 0 <= i < j < |attrs| ensures attrs[i].0 != attrs[j].0 {
      assert pos(attrs[i].0) < pos(attrs[j].0);
    }
  }

  lemma OrderedTail<V>(attrs: seq<(string, V)>, pos: string -> int)
    requires attrs != [] && OrderedBy(attrs, pos)
    ensures OrderedBy(attrs[1..], pos)
  {
    var tail := attrs[1..];
    forall i, j | 0 <= i < j < |tail| ensures pos(tail[i].0) < pos(tail[j].0) {
      assert tail[i] == attrs[i + 1] && tail[j] == attrs[j + 1];
    }
  }

  /** Dropping the first pair of a mapping with unique keys removes its key
      and keeps every other lookup. */
  lemma LookupTail<V>(attrs: seq<(string, V)>, key: string)
    requires attrs != [] && UniqueKeys(attrs)
    ensures Lookup(attrs[1..], key) == if key == attrs[0].0 then None else Lookup(attrs, key)
  {
    var tail := attrs[1..];
    if key == attrs[0].0 {
      forall i | 0 <= i < |tail| ensures Keys(tail)[i] != key {
        assert tail[i] == attrs[i + 1];
      }
    }
  }

  /** Two ordered mappings that agree on every lookup start with the same
      pair: each one's first key has the smallest position among the keys
      both hold. */
  lemma SameFirstPair<V>(a: seq<(string, V)>, b: seq<(string, V)>, pos: string -> int)
    requires a != []
    requires OrderedBy(a, pos) && OrderedBy(b, pos)
    requires forall key :: Lookup(a, key) == Lookup(b, key)
    ensures b != [] && a[0] == b[0]
  {
    OrderedKeysUnique(a, pos);
    OrderedKeysUnique(b, pos);
    var k := a[0].0;
    assert Lookup(b, k) == Lookup(a, k);
    var k1 := b[0].0;
    assert Lookup(a, k1) == Lookup(b, k1);
    var m :| 0 <= m < |a| && Keys(a)[m] == k1;
    var n :| 0 <= n < |b| && Keys(b)[n] == k;
    assert m == 0 || pos(k) < pos(k1);
    assert n == 0 || pos(k1) < pos(k);
    assert k1 == k;
    assert Lookup(a, k) == Some(a[0].1) && Lookup(b, k) == Some(b[0].1);
  }

  /** The lookups and the key order together fix the mapping: two mappings
      ordered by the same positions that agree on every key are equal. So a
      builder whose lookups agree with `LastValue` and whose pairs are in
      `InLastStoredOrder` has exactly one possible result. */
  lemma {:induction false} OrderAndLookupsDetermine<V>(a: seq<(string, V)>, b: seq<(string, V)>, pos: string -> int)
    requires OrderedBy(a, pos) && OrderedBy(b, pos)
    requires forall key :: Lookup(a, key) == Lookup(b, key)
    ensures a == b
    decreases |a|
  {
    if b != [] {
      assert Lookup(a, b[0].0) == Lookup(b, b[0].0);
    }
    if a != [] {
      SameFirstPair(a, b, pos);
      OrderedKeysUnique(a, pos);
      OrderedKeysUnique(b, pos);
      forall key ensures Lookup(a[1..], key) == Lookup(b[1..], key) {
        LookupTail(a, key);
        LookupTail(b, key);
      }
      OrderedTail(a, pos);
      OrderedTail(b, pos);
      OrderAndLookupsDetermine(a[1..], b[1..], pos);
      assert a == [a[0]] + a[1..] && b == [b[0]] + b[1..];
    }
  }

  /** `attrs` holds each key's last value and lists the keys in the order
      `parts` last stored them. */
  ghost predicate LastStored<V>(attrs: seq<(string, V)>, parts: seq<string>, attr: string -> Option<(string, V)>) {
    && InLastStoredOrder(attrs, parts, attr)
    && forall key :: Lookup(attrs, key) == LastValue(parts, attr, key)
  }

  /** At most one mapping is `LastStored` for given parts: another one is
      exactly when it is equal. */
  lemma LastStoredDetermined<V>(a: seq<(string, V)>, b: seq<(string, V)>, parts: seq<string>,
                                attr: string -> Option<(string, V)>)
    requires LastStored(b, parts, attr)
    ensures a == b <==> LastStored(a, parts, attr)
  {
    if LastStored(a, parts, attr) {
      forall key ensures Lookup(a, key) == Lookup(b, key) {
        assert Lookup(a, key) == LastValue(parts, attr, key);
      }
      OrderAndLookupsDetermine(a, b, LastPositions(parts, attr));
    }
  }

  predicate WellFormedNode<V>(n: Node<V>)
  {
    match n
    case Text(t) => t != [] && '<' !in t
    case ElementNode(e) => (e.isVoid ==> e.children == []) && WellFormedNodes(e.children)
  }

  /** Every text node is non-empty and holds no `<`; every void element is
      childless; recursively. */
  predicate WellFormedNodes<V>(nodes: seq<Node<V>>)
  {
    forall i :: 0 <= i < |nodes| ==> WellFormedNode(nodes[i])
  }
}
