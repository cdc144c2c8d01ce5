/** How the two tag builders relate: both take the last part without `=`
    as the name, the byte builder never fails on an attribute, and on
    quote-free attribute parts the two agree on name and value. */
module ParserComparison {
  import opened Results
  import opened Markup
  import opened Split
  import Utf16Parser
  import ByteParser

  /** When both builders succeed they agree on the name and the void flag. */
  lemma SameNameAndVoidness(raw: string)
    requires Utf16Parser.CreateTag(raw).Success? && ByteParser.CreateTag(raw).Success?
    ensures Utf16Parser.CreateTag(raw).value.name == ByteParser.CreateTag(raw).value.name
    ensures Utf16Parser.CreateTag(raw).value.isVoid == ByteParser.CreateTag(raw).value.isVoid
  {
  }

  /** The UTF-16 builder fails whenever the byte builder does, with the same
      error for an empty tag. */
  lemma Utf16FailsWheneverByteFails(raw: string)
    ensures ByteParser.CreateTag(raw) == Failure(EmptyTag) <==> Utf16Parser.CreateTag(raw) == Failure(EmptyTag)
    ensures ByteParser.CreateTag(raw).Failure? ==> Utf16Parser.CreateTag(raw).Failure?
  {
  }

  lemma {:induction false} JoinSepHolds(p: seq<string>, sep: char, k: nat, j: nat)
    requires |p| >= 1 && k < |p| && j < |p[k]|
    ensures p[k][j] in JoinSep(p, sep)
    decreases |p|
  {
    if |p| > 1 {
      if k == 0 {
        assert JoinSep(p, sep) == p[0] + ([sep] + JoinSep(p[1..], sep));
        assert JoinSep(p, sep)[j] == p[0][j];
      } else {
        JoinSepHolds(p[1..], sep, k - 1, j);
        var rest := JoinSep(p[1..], sep);
        var i :| 0 <= i < |rest| && rest[i] == p[k][j];
        assert JoinSep(p, sep) == (p[0] + [sep]) + rest;
        assert JoinSep(p, sep)[|p[0]| + 1 + i] == p[k][j];
      }
    }
  }

  /** On an attribute part with no double quote that the UTF-16 builder
      accepts, the byte builder finds the same name and stores the same
      value wrapped in `Some`. */
  lemma QuoteFreeAttributesAgree(part: string)
    requires '=' in part
    requires forall j :: 0 <= j < |part| ==> part[j] != '"'
    requires Utf16Parser.ParseAttribute(part).Success?
    ensures var (name, value) := Utf16Parser.ParseAttribute(part).value;
      ByteParser.ParseAttribute(part) == (name, Some(value))
  {
    PiecesWithoutQuotes(part, '=');
    var pieces := SplitEvery(part, '=');
    assert SplitParts(part, '=')[1] == pieces[1];
    forall j | 0 <= j < |pieces[1]| ensures pieces[1][j] != '"' {
      JoinSepHolds(pieces, '=', 1, j);
    }
  }

  /** An attribute with nothing after `=` is fatal for the UTF-16 builder but
      stored with an empty value by the byte builder. */
  lemma TrailingEqualsDiffers(key: string)
    requires Utf16Parser.PlainName(key)
    ensures Utf16Parser.ParseAttribute(key + "=").Failure?
    ensures '=' in key + "=" && ByteParser.ParseAttribute(key + "=") == (key, Some(""))
  {
    var none: string := [];
    var attr := key + "=";
    PiecesSepPrefix(none, '=');
    assert "=" == ['='] + none;
    assert Pieces(none, '=', false) == [[]];
    PiecesPlainPrefix(key, "=", '=', false);
    assert key + none == key;
    assert Pieces(attr, '=', false) == [key, []];
    assert attr[|key|] == '=';
    PiecesWithoutQuotes(attr, '=');
  }
}
