/** Quote-aware splitting of a raw tag into parts (both parser variants split
    on a space; the UTF-16 variant also splits attribute parts on `=`). A
    double quote toggles the "inside a string" state before the separator
    test, and there is no escaping. */
module Split {

  /** Quote state after reading one code unit. */
  function Toggle(inside: bool, c: char): bool {
    if c == '"' then !inside else inside
  }

  /** Quote state after reading all of `t`. */
  function InsideAfter(inside: bool, t: string): bool
    decreases |t|
  {
    if t == [] then inside else InsideAfter(Toggle(inside, t[0]), t[1..])
  }

  /** Position `j` of `s` is a separator the splitter acts on: the separator
      seen while outside double quotes. */
  predicate SplitsAt(s: string, sep: char, inside: bool, j: nat)
    requires j < |s|
  {
    s[j] == sep && !InsideAfter(inside, s[..j + 1])
  }

  /** All pieces between acted-on separators, including a trailing empty
      piece; this is the loop's state read back as a list. */
  function Pieces(s: string, sep: char, inside: bool): (p: seq<string>)
    ensures |p| >= 1
    decreases |s|
  {
    if s == [] then [[]]
    else
      var inside' := Toggle(inside, s[0]);
      var rest := Pieces(s[1..], sep, inside');
      if s[0] == sep && !inside' then [[]] + rest
      else [[s[0]] + rest[0]] + rest[1..]
  }

  /** The parts the splitter returns: the pieces without a trailing empty one. */
  function SplitParts(s: string, sep: char): seq<string>
  {
    var p := Pieces(s, sep, false);
    if p[|p| - 1] == [] then p[..|p| - 1] else p
  }

  /** Reference: `s` with exactly the separators outside double quotes removed. */
  function RemoveOutside(s: string, sep: char, inside: bool): string
    decreases |s|
  {
    if s == [] then []
    else
      var inside' := Toggle(inside, s[0]);
      (if s[0] == sep && !inside' then [] else [s[0]]) + RemoveOutside(s[1..], sep, inside')
  }

  function Concat(parts: seq<string>): string
    decreases |parts|
  {
    if parts == [] then [] else parts[0] + Concat(parts[1..])
  }

  /** The parts glued back together with one separator between neighbours. */
  function JoinSep(parts: seq<string>, sep: char): string
    requires |parts| >= 1
    decreases |parts|
  {
    if |parts| == 1 then parts[0] else parts[0] + [sep] + JoinSep(parts[1..], sep)
  }

  /** Putting a code unit in front of the first part puts it in front of
      the joined text. */
  lemma JoinSepExtendHead(c: char, rest: seq<string>, sep: char)
    requires |rest| >= 1
    ensures JoinSep([[c] + rest[0]] + rest[1..], sep) == [c] + JoinSep(rest, sep)
  {
    var p := [[c] + rest[0]] + rest[1..];
    assert p[1..] == rest[1..];
    if |rest| > 1 {
      assert JoinSep(rest, sep) == rest[0] + [sep] + JoinSep(rest[1..], sep);
    }
  }

  lemma {:induction false} ConcatAppend(parts: seq<string>, last: string)
    ensures Concat(parts + [last]) == Concat(parts) + last
    decreases |parts|
  {
    if parts == [] {
      assert [] + [last] == [last];
      assert [last][1..] == [];
    } else {
      assert (parts + [last])[1..] == parts[1..] + [last];
      ConcatAppend(parts[1..], last);
    }
  }

  lemma InsideAfterCons(inside: bool, c: char, u: string)
    ensures InsideAfter(inside, [c] + u) == InsideAfter(Toggle(inside, c), u)
  {
    assert ([c] + u)[1..] == u;
  }

  /** Concatenating all pieces gives the input with only the outside-quote
      separators removed. */
  lemma {:induction false} PiecesConcat(s: string, sep: char, inside: bool)
    ensures Concat(Pieces(s, sep, inside)) == RemoveOutside(s, sep, inside)
    decreases |s|
  {
    if s != [] {
      var inside' := Toggle(inside, s[0]);
      var rest := Pieces(s[1..], sep, inside');
      PiecesConcat(s[1..], sep, inside');
      if s[0] == sep && !inside' {
        assert ([[]] + rest)[1..] == rest;
      } else {
        var p := [[s[0]] + rest[0]] + rest[1..];
        assert p[1..] == rest[1..];
        assert Concat(rest) == rest[0] + Concat(rest[1..]);
        assert Concat(p) == [s[0]] + rest[0] + Concat(rest[1..]);
      }
    }
  }

  /** Gluing the pieces back with the separator gives the input exactly. */
  lemma {:induction false} PiecesJoin(s: string, sep: char, inside: bool)
    ensures JoinSep(Pieces(s, sep, inside), sep) == s
    decreases |s|
  {
    if s != [] {
      var inside' := Toggle(inside, s[0]);
      var rest := Pieces(s[1..], sep, inside');
      PiecesJoin(s[1..], sep, inside');
      if s[0] == sep && !inside' {
        assert ([[]] + rest)[1..] == rest;
        assert s == [] + [sep] + s[1..];
      } else {
        JoinSepExtendHead(s[0], rest, sep);
        assert s == [s[0]] + s[1..];
      }
    }
  }

  /** The first piece is a prefix of the input, and all of it when there is
      no other piece. */
  lemma {:induction false} PiecesHeadPrefix(s: string, sep: char, inside: bool)
    ensures var p := Pieces(s, sep, inside);
      && |p[0]| <= |s| && p[0] == s[..|p[0]|]
      && (|p| == 1 ==> p[0] == s)
    decreases |s|
  {
    if s != [] {
      var inside' := Toggle(inside, s[0]);
      var rest := Pieces(s[1..], sep, inside');
      if !(s[0] == sep && !inside') {
        PiecesHeadPrefix(s[1..], sep, inside');
        assert Pieces(s, sep, inside)[0] == [s[0]] + rest[0];
        assert s == [s[0]] + s[1..];
      }
    }
  }

  /** No acted-on separator lies inside the first piece. */
  lemma {:induction false} PiecesHeadNoSplit(s: string, sep: char, inside: bool, j: nat)
    requires j < |Pieces(s, sep, inside)[0]|
    ensures j < |s| && !SplitsAt(s, sep, inside, j)
    decreases |s|
  {
    assert s != [];
    var inside' := Toggle(inside, s[0]);
    var t := s[1..];
    var rest := Pieces(t, sep, inside');
    assert !(s[0] == sep && !inside');
    assert Pieces(s, sep, inside)[0] == [s[0]] + rest[0];
    if j == 0 {
      assert s[..1] == [s[0]] + [];
      InsideAfterCons(inside, s[0], []);
    } else {
      PiecesHeadNoSplit(t, sep, inside', j - 1);
      assert s[..j + 1] == [s[0]] + t[..j];
      InsideAfterCons(inside, s[0], t[..j]);
      assert s[j] == t[j - 1];
    }
  }

  /** When there is a second piece, the code unit after the first piece is an
      acted-on separator and the remaining pieces are those of the text after
      it. */
  lemma {:induction false} PiecesHeadNext(s: string, sep: char, inside: bool)
    requires |Pieces(s, sep, inside)| > 1
    ensures var p := Pieces(s, sep, inside);
      && |p[0]| < |s|
      && SplitsAt(s, sep, inside, |p[0]|)
      && p[1..] == Pieces(s[|p[0]| + 1..], sep, InsideAfter(inside, s[..|p[0]| + 1]))
    decreases |s|
  {
    var inside' := Toggle(inside, s[0]);
    var rest := Pieces(s[1..], sep, inside');
    var p := Pieces(s, sep, inside);
    var t := s[1..];
    if s[0] == sep && !inside' {
      assert p == [[]] + rest;
      assert s[..1] == [s[0]] + [];
      InsideAfterCons(inside, s[0], []);
    } else {
      assert p == [[s[0]] + rest[0]] + rest[1..];
      PiecesHeadNext(t, sep, inside');
      var k := |rest[0]|;
      assert s[..k + 2] == [s[0]] + t[..k + 1];
      InsideAfterCons(inside, s[0], t[..k + 1]);
      assert s[k + 2..] == t[k + 1..];
    }
  }

  lemma {:induction false} InsideAfterAppend(inside: bool, a: string, b: string)
    ensures InsideAfter(inside, a + b) == InsideAfter(InsideAfter(inside, a), b)
    decreases |a|
  {
    if a != [] {
      assert (a + b)[1..] == a[1..] + b;
      InsideAfterAppend(Toggle(inside, a[0]), a[1..], b);
    } else {
      assert a + b == b;
    }
  }

  /** Whether the splitter acts at position `m + j` is decided by the text
      from `m` on, read in the quote state reached after `s[..m]`. */
  lemma SplitsAtShift(s: string, sep: char, inside: bool, m: nat, j: nat)
    requires m + j < |s|
    ensures SplitsAt(s, sep, inside, m + j) <==> SplitsAt(s[m..], sep, InsideAfter(inside, s[..m]), j)
  {
    assert s[..m + j + 1] == s[..m] + s[m..][..j + 1];
    InsideAfterAppend(inside, s[..m], s[m..][..j + 1]);
  }

  /** `s[from..end]` runs up to the next acted-on separator: the splitter
      acts nowhere inside it, and at `end` unless the input ends there. */
  predicate RunToNextSplit(s: string, sep: char, from: nat, end: nat) {
    && from <= end <= |s|
    && (forall i :: from <= i < end ==> !SplitsAt(s, sep, false, i))
    && (end == |s| || SplitsAt(s, sep, false, end))
  }

  /** Reference: the first position at or after `from` where the splitter
      acts, or `|s|` when it acts nowhere from there on. */
  function NextSplit(s: string, sep: char, from: nat): (e: nat)
    requires from <= |s|
    ensures RunToNextSplit(s, sep, from, e)
    decreases |s| - from
  {
    if from == |s| || SplitsAt(s, sep, false, from) then from else NextSplit(s, sep, from + 1)
  }

  /** Only one end fits `RunToNextSplit`: the next acted-on separator. */
  lemma RunEndsAtNextSplit(s: string, sep: char, from: nat, end: nat)
    requires from <= |s|
    requires RunToNextSplit(s, sep, from, end)
    ensures end == NextSplit(s, sep, from)
  {
  }

  /** The second part is the text after the first acted-on separator, up to
      the next acted-on separator or the end: the splitter acts at its start
      boundary, nowhere inside it, and at its end unless the input ends
      there. */
  lemma SecondPartSpan(s: string, sep: char)
    requires |SplitParts(s, sep)| >= 2
    ensures var p := SplitParts(s, sep);
      && |p[0]| < |s|
      && SplitsAt(s, sep, false, |p[0]|)
      && var after := s[|p[0]| + 1..];
      && |p[1]| <= |after| && p[1] == after[..|p[1]|]
      && RunToNextSplit(s, sep, |p[0]| + 1, |p[0]| + 1 + |p[1]|)
  {
    var p := Pieces(s, sep, false);
    var sp := SplitParts(s, sep);
    assert |p| >= 2 && sp[0] == p[0] && sp[1] == p[1];
    SecondPartInside(s, sep);
    SecondPartEnd(s, sep);
    assert RunToNextSplit(s, sep, |p[0]| + 1, |p[0]| + 1 + |p[1]|);
  }

  /** The second piece is the start of the text after the first acted-on
      separator and holds no acted-on separator. */
  lemma SecondPartInside(s: string, sep: char)
    requires |Pieces(s, sep, false)| >= 2
    ensures var p := Pieces(s, sep, false);
      && |p[0]| < |s|
      && SplitsAt(s, sep, false, |p[0]|)
      && var after := s[|p[0]| + 1..];
      && |p[1]| <= |after| && p[1] == after[..|p[1]|]
      && (forall i :: |p[0]| + 1 <= i < |p[0]| + 1 + |p[1]| ==> !SplitsAt(s, sep, false, i))
  {
    SecondPartPrefix(s, sep);
    SecondPartNoSplit(s, sep);
  }

  lemma SecondPartPrefix(s: string, sep: char)
    requires |Pieces(s, sep, false)| >= 2
    ensures var p := Pieces(s, sep, false);
      && |p[0]| < |s|
      && SplitsAt(s, sep, false, |p[0]|)
      && p[1] == Pieces(s[|p[0]| + 1..], sep, InsideAfter(false, s[..|p[0]| + 1]))[0]
      && |p[1]| <= |s[|p[0]| + 1..]| && p[1] == s[|p[0]| + 1..][..|p[1]|]
  {
    var p := Pieces(s, sep, false);
    PiecesHeadNext(s, sep, false);
    var m := |p[0]| + 1;
    PiecesHeadPrefix(s[m..], sep, InsideAfter(false, s[..m]));
  }

  lemma SecondPartNoSplit(s: string, sep: char)
    requires |Pieces(s, sep, false)| >= 2
    ensures var p := Pieces(s, sep, false);
      && |p[0]| + 1 + |p[1]| <= |s|
      && forall i :: |p[0]| + 1 <= i < |p[0]| + 1 + |p[1]| ==> !SplitsAt(s, sep, false, i)
  {
    var p := Pieces(s, sep, false);
    SecondPartPrefix(s, sep);
    var m := |p[0]| + 1;
    forall i | m <= i < m + |p[1]| ensures !SplitsAt(s, sep, false, i) {
      NoSplitAfter(s, sep, m, i - m);
    }
  }

  /** A position inside the first piece of the text after `m` is not one
      where the splitter acts on the whole text. */
  lemma NoSplitAfter(s: string, sep: char, m: nat, k: nat)
    requires m <= |s|
    requires k < |Pieces(s[m..], sep, InsideAfter(false, s[..m]))[0]|
    ensures m + k < |s| && !SplitsAt(s, sep, false, m + k)
  {
    PiecesHeadNoSplit(s[m..], sep, InsideAfter(false, s[..m]), k);
    SplitsAtShift(s, sep, false, m, k);
  }

  /** The second piece ends at the next acted-on separator or at the end. */
  lemma SecondPartEnd(s: string, sep: char)
    requires |Pieces(s, sep, false)| >= 2
    ensures var p := Pieces(s, sep, false);
      && |p[0]| + 1 + |p[1]| <= |s|
      && (|p[0]| + 1 + |p[1]| == |s| || SplitsAt(s, sep, false, |p[0]| + 1 + |p[1]|))
  {
    var p := Pieces(s, sep, false);
    PiecesHeadNext(s, sep, false);
    var m := |p[0]| + 1;
    var rest := Pieces(s[m..], sep, InsideAfter(false, s[..m]));
    assert p[1] == rest[0];
    FirstPieceEnd(s, sep, m);
  }

  /** The first piece of the text after `m` ends where the splitter next
      acts on the whole text, or at its end. */
  lemma FirstPieceEnd(s: string, sep: char, m: nat)
    requires m <= |s|
    ensures var r := Pieces(s[m..], sep, InsideAfter(false, s[..m]))[0];
      && m + |r| <= |s|
      && (m + |r| == |s| || SplitsAt(s, sep, false, m + |r|))
  {
    var after := s[m..];
    var inside := InsideAfter(false, s[..m]);
    var rest := Pieces(after, sep, inside);
    PiecesHeadPrefix(after, sep, inside);
    if |rest| > 1 {
      PiecesHeadNext(after, sep, inside);
      SplitsAtShift(s, sep, false, m, |rest[0]|);
    }
  }

  /** The second part is the slice from just after the first acted-on
      separator to the next one (or the end). */
  lemma SecondPartToNextSplit(s: string, sep: char)
    requires |SplitParts(s, sep)| >= 2
    ensures var p := SplitParts(s, sep);
      |p[0]| + 1 <= |s| && p[1] == s[|p[0]| + 1..NextSplit(s, sep, |p[0]| + 1)]
  {
    var p := SplitParts(s, sep);
    SecondPartSpan(s, sep);
    var from := |p[0]| + 1;
    assert RunToNextSplit(s, sep, from, from + |p[1]|);
    RunEndsAtNextSplit(s, sep, from, from + |p[1]|);
  }

  /** The splitter's result: it is empty only for empty input, its parts concatenate to the input minus the
      outside-quote separators, and gluing them back with the separator
      gives the input up to one dropped trailing separator. */
  lemma SplitPartsSpec(s: string, sep: char)
    ensures var parts := SplitParts(s, sep);
      && (parts == [] <==> s == [])
      && Concat(parts) == RemoveOutside(s, sep, false)
      && (parts != [] ==>
            s == JoinSep(parts, sep) || s == JoinSep(parts, sep) + [sep])
      && (s != [] ==> (s == JoinSep(parts, sep) + [sep] <==> SplitsAt(s, sep, false, |s| - 1)))
  {
    var parts := SplitParts(s, sep);
    SplitPartsConcat(s, sep);
    LastPieceEmpty(s, sep, false);
    SplitPartsJoin(s, sep);
    if parts != [] {
      assert |JoinSep(parts, sep) + [sep]| != |JoinSep(parts, sep)|;
    }
  }

  /** Dropping the trailing empty piece does not change the concatenation. */
  lemma SplitPartsConcat(s: string, sep: char)
    ensures Concat(SplitParts(s, sep)) == RemoveOutside(s, sep, false)
  {
    var p := Pieces(s, sep, false);
    PiecesConcat(s, sep, false);
    if p[|p| - 1] == [] {
      assert p == p[..|p| - 1] + [[]];
      ConcatAppend(p[..|p| - 1], []);
    }
  }

  /** Joining the parts gives the input back, with the separator appended
      exactly when the last piece is the dropped empty one. */
  lemma SplitPartsJoin(s: string, sep: char)
    ensures var p := Pieces(s, sep, false);
      var parts := SplitParts(s, sep);
      && (parts == [] <==> s == [])
      && (parts != [] && p[|p| - 1] == [] ==> s == JoinSep(parts, sep) + [sep])
      && (parts != [] && p[|p| - 1] != [] ==> s == JoinSep(parts, sep))
  {
    var p := Pieces(s, sep, false);
    PiecesJoin(s, sep, false);
    PiecesHeadPrefix(s, sep, false);
    if p[|p| - 1] == [] {
      var q := p[..|p| - 1];
      assert p == q + [[]];
      if q != [] {
        JoinDropEmpty(q, sep);
      }
    }
  }

  /** Past the first code unit, a split position is one of the rest read
      from the quote state after that code unit. */
  lemma SplitsAtTail(s: string, sep: char, inside: bool, j: nat)
    requires 1 <= j < |s|
    ensures SplitsAt(s, sep, inside, j) == SplitsAt(s[1..], sep, Toggle(inside, s[0]), j - 1)
  {
    assert s[..j + 1] == [s[0]] + s[1..][..j];
    InsideAfterCons(inside, s[0], s[1..][..j]);
  }

  /** The last piece is empty exactly when the input is empty or ends with
      an acted-on separator. */
  lemma {:induction false} LastPieceEmpty(s: string, sep: char, inside: bool)
    ensures var p := Pieces(s, sep, inside);
      p[|p| - 1] == [] <==> s == [] || SplitsAt(s, sep, inside, |s| - 1)
    decreases |s|
  {
    if s != [] {
      var inside' := Toggle(inside, s[0]);
      var t := s[1..];
      var rest := Pieces(t, sep, inside');
      var p := Pieces(s, sep, inside);
      assert s[..1] == [s[0]] + [];
      InsideAfterCons(inside, s[0], []);
      if t != [] {
        LastPieceEmpty(t, sep, inside');
        SplitsAtTail(s, sep, inside, |s| - 1);
      }
      if !(s[0] == sep && !inside') && |rest| == 1 {
        PiecesHeadPrefix(t, sep, inside');
      }
    }
  }

  lemma {:induction false} JoinDropEmpty(q: seq<string>, sep: char)
    requires |q| >= 1
    ensures JoinSep(q + [[]], sep) == JoinSep(q, sep) + [sep]
    decreases |q|
  {
    assert (q + [[]])[1..] == q[1..] + [[]];
    if |q| == 1 {
      assert JoinSep([[]], sep) == [];
    } else {
      JoinDropEmpty(q[1..], sep);
    }
  }

  /** Pieces of a text that starts with the code unit `c`: either `c` is an
      acted-on separator and opens a new piece, or it joins the first piece. */
  lemma PiecesCons(c: char, t: string, sep: char, inside: bool)
    ensures var rest := Pieces(t, sep, Toggle(inside, c));
      Pieces([c] + t, sep, inside) ==
        if c == sep && !Toggle(inside, c) then [[]] + rest else [[c] + rest[0]] + rest[1..]
  {
    assert ([c] + t)[0] == c && ([c] + t)[1..] == t;
  }

  /** A prefix with no double quote, and either inside a string or free of
      the separator, becomes the front of the first piece. */
  lemma {:induction false} PiecesPlainPrefix(a: string, b: string, sep: char, inside: bool)
    requires forall j :: 0 <= j < |a| ==> a[j] != '"' && (inside || a[j] != sep)
    ensures var p := Pieces(b, sep, inside);
      Pieces(a + b, sep, inside) == [a + p[0]] + p[1..]
    decreases |a|
  {
    if a == [] {
      var p := Pieces(b, sep, inside);
      assert a + b == b && a + p[0] == p[0];
      assert p == [p[0]] + p[1..];
    } else {
      var t := a[1..];
      assert forall j :: 0 <= j < |t| ==> t[j] == a[j + 1];
      PiecesPlainPrefix(t, b, sep, inside);
      assert a + b == [a[0]] + (t + b);
      assert Toggle(inside, a[0]) == inside;
      PiecesCons(a[0], t + b, sep, inside);
      var p := Pieces(b, sep, inside);
      var q := Pieces(t + b, sep, inside);
      assert q[0] == t + p[0] && q[1..] == p[1..];
      assert a + p[0] == [a[0]] + (t + p[0]);
    }
  }

  /** A double-quoted run (no quote inside it) followed by `b`, read outside a
      string, stays whole in the first piece whatever separators it holds. */
  lemma PiecesQuotedPrefix(v: string, b: string, sep: char)
    requires sep != '"'
    requires forall j :: 0 <= j < |v| ==> v[j] != '"'
    ensures var p := Pieces(b, sep, false);
      Pieces(['"'] + (v + (['"'] + b)), sep, false) == [['"'] + (v + (['"'] + p[0]))] + p[1..]
  {
    PiecesInsideQuotes(v, b, sep);
    PiecesCons('"', v + (['"'] + b), sep, false);
  }

  lemma PiecesInsideQuotes(v: string, b: string, sep: char)
    requires sep != '"'
    requires forall j :: 0 <= j < |v| ==> v[j] != '"'
    ensures var p := Pieces(b, sep, false);
      Pieces(v + (['"'] + b), sep, true) == [v + (['"'] + p[0])] + p[1..]
  {
    var p := Pieces(b, sep, false);
    PiecesCons('"', b, sep, true);
    PiecesPlainPrefix(v, ['"'] + b, sep, true);
  }

  /** An outside separator at the front yields an empty first piece. */
  lemma PiecesSepPrefix(b: string, sep: char)
    requires sep != '"'
    ensures Pieces([sep] + b, sep, false) == [[]] + Pieces(b, sep, false)
  {
    PiecesCons(sep, b, sep, false);
  }

  /** A word with no double quote and no separator. */
  predicate PlainWord(w: string, sep: char) {
    w != [] && forall j :: 0 <= j < |w| ==> w[j] != '"' && w[j] != sep
  }

  /** Plain words joined by single separators come back as the same words:
      the splitter inverts joining. */
  lemma {:induction false} SplitJoinedWords(words: seq<string>, sep: char)
    requires sep != '"' && words != []
    requires forall k :: 0 <= k < |words| ==> PlainWord(words[k], sep)
    ensures SplitParts(JoinSep(words, sep), sep) == words
  {
    PiecesOfJoinedWords(words, sep);
  }

  lemma {:induction false} PiecesOfJoinedWords(words: seq<string>, sep: char)
    requires sep != '"' && words != []
    requires forall k :: 0 <= k < |words| ==> PlainWord(words[k], sep)
    ensures Pieces(JoinSep(words, sep), sep, false) == words
    decreases |words|
  {
    var none: string := [];
    var w := words[0];
    assert PlainWord(w, sep);
    if |words| == 1 {
      PiecesPlainPrefix(w, none, sep, false);
      assert w + none == w;
    } else {
      var tail := JoinSep(words[1..], sep);
      assert forall k :: 0 <= k < |words[1..]| ==> words[1..][k] == words[k + 1];
      PiecesOfJoinedWords(words[1..], sep);
      PiecesSepPrefix(tail, sep);
      PiecesPlainPrefix(w, [sep] + tail, sep, false);
      assert JoinSep(words, sep) == w + ([sep] + tail);
      assert w + none == w;
      assert words == [w] + words[1..];
    }
  }

  /** Splitting on every separator with no quote handling, keeping empty
      pieces (the standard string split the byte parser uses for `=`). */
  function SplitEvery(s: string, sep: char): (p: seq<string>)
    ensures |p| >= 1
    ensures |p| >= 2 <==> sep in s
    ensures forall k :: 0 <= k < |p| ==> sep !in p[k]
    ensures JoinSep(p, sep) == s
    decreases |s|
  {
    if s == [] then [[]]
    else
      var rest := SplitEvery(s[1..], sep);
      if s[0] == sep then
        assert s == [] + [sep] + s[1..];
        [[]] + rest
      else
        var p := [[s[0]] + rest[0]] + rest[1..];
        assert p[1..] == rest[1..];
        assert s == [s[0]] + s[1..];
        assert sep in s <==> sep in s[1..];
        JoinSepExtendHead(s[0], rest, sep);
        p
  }

  /** Without double quotes the quote-aware pieces are the plain split. */
  lemma {:induction false} PiecesWithoutQuotes(s: string, sep: char)
    requires forall j :: 0 <= j < |s| ==> s[j] != '"'
    ensures Pieces(s, sep, false) == SplitEvery(s, sep)
    decreases |s|
  {
    if s != [] {
      PiecesWithoutQuotes(s[1..], sep);
    }
  }

  /** The splitter as the source writes it: one pass with a quote flag, a
      current part and the parts emitted so far. */
  method SplitIntoParts(s: string, sep: char) returns (parts: seq<string>)
    ensures parts == SplitParts(s, sep)
  {
    var inside := false;
    var offset := 0;
    var current: string := [];
    parts := [];
    assert s[offset..] == s;
    ghost var p0 := Pieces(s, sep, false);
    assert |p0| >= 1;
    ghost var empty: string := [];
    assert empty + p0[0] == p0[0];
    assert p0 == [p0[0]] + p0[1..];
    while offset < |s|
      invariant 0 <= offset <= |s|
      invariant var p := Pieces(s[offset..], sep, inside);
        parts + [current + p[0]] + p[1..] == Pieces(s, sep, false)
    {
      var ch := s[offset];
      ghost var t := s[offset..];
      ghost var p := Pieces(t, sep, inside);
      ghost var rest := Pieces(s[offset + 1..], sep, Toggle(inside, ch));
      assert t[0] == ch && t[1..] == s[offset + 1..];
      if ch == '"' {
        inside := !inside;
      }
      if ch == sep && !inside {
        assert p == [[]] + rest;
        assert rest == [rest[0]] + rest[1..];
        assert empty + rest[0] == rest[0];
        assert p[0] == [] && p[1..] == rest;
        assert current + p[0] == current;
        assert parts + [current + p[0]] + p[1..] == (parts + [current]) + [[] + rest[0]] + rest[1..];
        parts := parts + [current];
        current := [];
        offset := offset + 1;
        continue;
      }
      assert p == [[ch] + rest[0]] + rest[1..];
      assert current + p[0] == (current + [ch]) + rest[0];
      current := current + [ch];
      offset := offset + 1;
    }
    assert s[offset..] == [];
    assert Pieces(s[offset..], sep, inside) == [[]];
    assert current + empty == current;
    assert parts + [current] == Pieces(s, sep, false);
    if |current| > 0 {
      parts := parts + [current];
    } else {
      assert parts == (parts + [current])[..|parts|];
    }
  }
}
