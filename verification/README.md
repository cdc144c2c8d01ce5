# KurobaEx post parser — a Dafny model of the markup parser and the span rules

The post parser turns the HTML-like markup of an imageboard post into a
flat text plus spannables (greentext, spoilers, post links). This project
models its two lower layers:

- **the markup parser**, in both of its variants:
  - the newer UTF-16 one (`src/new_post_parser_lib/html_parser/parser.rs`);
  - the older byte-level one (`src/html_parser/parser.rs`).

  The variants share one offset-driven tokenizer:
  - `parse_internal` collects text runs and elements until the input ends or
    a closing tag `</…>` hands control back;
  - `parse_tag` reads the raw opening tag up to `>` and builds the element;
    a non-void element recurses for its children;
  - `skip_tag_end` finds the end of a closing tag.

  The variants differ only in the tag grammar (`create_tag` and the
  quote-aware splitter). Here the tokenizer is a single generic module,
  `Tokenizer`, parameterised by the tag builder. `Utf16Parser` and
  `ByteParser` each supply their `CreateTag`. `ParserComparison` proves how
  the two builders relate.
- **the rule handlers' offset arithmetic and hooks**:
  - `rule_handler.rs`: the pre/post protocol and the
    `diff_text`/`diff_len`/`new_len` helpers;
  - `span.rs`: a `deadlink` post reference before the children, greentext
    for class `quote` after them;
  - `spoiler.rs`: one spoiler over the children's text.

Every `panic!`, failed `unwrap` and out-of-bounds index of the parsers and
of the span handler's `deadlink` branch is a `Failure` value of a `Result`.
The tokenizer's errors are the `ParseError` constructors; the handler's
error is `HandlerError`. The slices of the text-part list in
`rule_handler.rs` (lines 37, 46 and 52) and `spoiler.rs` (lines 46 and 50)
panic when the snapshot index exceeds the number of parts. Those are not
`Failure` values: the members that model them require
`textIndex <= |acc.textParts|`, which the protocol guarantees, because the
snapshot is taken before the children only append. The input is a sequence
of code units (`string`). Offsets are unbounded naturals.

Parsing terminates because both `ParseNodes` and `ParseTag` decrease
`|html| + 1 - offset`. `ParseTag` guarantees that its returned offset is
strictly past its start. `ParseNodes` treats a maximal run of non-`<` code
units as one text node, which is what the source's buffer flushes produce.
`Tokenizer.ParseInternal` is the source's loop, with the buffer flushed at
`<` and at the end of input. It is proved to compute exactly `ParseNodes`.
`Split.SplitIntoParts` is likewise the source's splitter loop, proved equal
to the functional `SplitParts`.

Three consequences of the code are worth spelling out:

- The tag name is the **last** part without `=`, because the loop
  overwrites `tag_name_maybe` at each such part.
- An element that is never closed is not an error. `<div>hello` parses to
  one `div` element whose only child is the text `hello`, and the offset
  handed back is the end of the input (`Utf16Parser.UnclosedElement`,
  `Tokenizer.UnclosedElement`). More generally, with no `</` ahead, no `<`
  as the last code unit and every opening tag's text accepted by the
  builder, parsing succeeds and consumes the whole input
  (`Tokenizer.NoClosingTagParses`). For the two real builders that
  condition reads: every tag has a name (`ByteParser.UnclosedParses`), and
  in the UTF-16 variant also every attribute part has a value piece
  (`Utf16Parser.UnclosedParses`). No parse without `</` fails with
  `TagEndNotFound` (`Tokenizer.NoClosingTagNoTagEndError`). Only an opening
  tag with no `>` at all, such as `<div`, hands back the offset
  `|html| + 1`, one past the end (`Tokenizer.UnterminatedTagEndsPastInput`).
- The splitter drops only the last buffered piece when it is empty. A run
  of separators at the end therefore still leaves an empty part: `a␣␣`
  splits into `a` and an empty part. `Split.SplitPartsSpec` states exactly
  what is dropped.

The helpers in `rule_handler.rs` are declared over `Vec<String>` and sum
`String::len`. The greentext handler (`handle_quote_class`) reaches them
with its `TextPart`s. The spoiler handler and the `deadlink` total sum
`characters_count` directly. The model gives every part one abstract length
field (`TextPart.charactersCount`) and uses it for all three, so it does not
distinguish a byte length from a character count. `CountsMatchText` ties
that field to the text's length where a property needs it.

## Model

Source paths are relative to the repository root. "new" is
`src/new_post_parser_lib/html_parser/parser.rs`, "old" is
`src/html_parser/parser.rs`.

| member | source | states |
|---|---|---|
| Markup.Lookup | src/new_post_parser_lib/html_parser/parser.rs:172 | A key has a value exactly when it is among the keys, and with unique keys the value is that key's pair. |
| Markup.LastValue | src/new_post_parser_lib/html_parser/parser.rs:150-172 | Reference for a key's final value: none exactly when no part names the key, otherwise the value from a part after which no part names it. |
| Markup.LastName | src/new_post_parser_lib/html_parser/parser.rs:147-153 | The name the loop keeps is absent exactly when every part contains `=`. Otherwise it is a part without `=` after which every part contains `=` (the last such part). |
| Markup.Remove | src/new_post_parser_lib/html_parser/parser.rs:172 | Removing a key keeps exactly the pairs with other keys, leaves a mapping without the key unchanged, and keeps keys unique. |
| Markup.RemoveConcat | src/new_post_parser_lib/html_parser/parser.rs:172 | Removal distributes over concatenation, so the pairs that stay keep their relative order. |
| Markup.Insert | src/new_post_parser_lib/html_parser/parser.rs:172 | Linked-hash-map insertion: the new pair is last, and the earlier pairs are exactly the old pairs with a different key. A new key is appended to the unchanged mapping. Keys stay unique. |
| Markup.InsertExisting | src/new_post_parser_lib/html_parser/parser.rs:172 | Re-inserting a key already at position j removes that pair and puts the new one at the back; every other pair keeps its order. |
| Markup.LookupInsert | src/new_post_parser_lib/html_parser/parser.rs:172 | After insertion, the inserted key holds the new value and every other key holds what it held before. |
| Markup.PairsFromParts | src/new_post_parser_lib/html_parser/parser.rs:150-172 | A mapping with unique keys whose lookups agree with `LastValue` holds only pairs that some part produced. |
| Markup.InsertKeepsKeys | src/new_post_parser_lib/html_parser/parser.rs:172 | After insertion the new key and every old key are present. |
| Markup.LastPosition | src/new_post_parser_lib/html_parser/parser.rs:150-172 | Reference for a key's place in insertion order: -1 exactly when no part stores the key, otherwise the index of a part that stores it with no later part storing it. |
| Markup.RemoveKeepsOrder | src/new_post_parser_lib/html_parser/parser.rs:172 | Removing a key from a mapping whose keys are in increasing position keeps the rest in increasing position. |
| Markup.InsertLastKeepsOrder | src/new_post_parser_lib/html_parser/parser.rs:172 | Inserting a key whose position moves past every other key's keeps the mapping in increasing position, since the key goes to the back. |
| Markup.LastPositionAppend | src/new_post_parser_lib/html_parser/parser.rs:150-172 | One more part moves a key's last position to that part exactly when the part stores the key, and leaves it unchanged otherwise. |
| Markup.StoreKeepsOrder | src/new_post_parser_lib/html_parser/parser.rs:150-172 | One loop step keeps the mapping in the order its parts last stored the keys: a part that stores nothing leaves it unchanged, and a stored pair is inserted. |
| Markup.OrderAndLookupsDetermine | src/new_post_parser_lib/html_parser/parser.rs:172 | Two mappings in the same strict key order with equal lookups are equal, so order plus values pin a linked hash map down. |
| Markup.LastStoredDetermined | src/new_post_parser_lib/html_parser/parser.rs:150-172 | At most one mapping holds each key's last value in last-stored order: a second such mapping is equal to the first, and conversely. |
| Split.PiecesConcat | src/new_post_parser_lib/html_parser/parser.rs:197-215 | Concatenating all pieces gives the input with exactly the separators outside double quotes removed, so nothing is split inside quotes. |
| Split.PiecesJoin | src/new_post_parser_lib/html_parser/parser.rs:197-215 | Joining the pieces with the separator gives back the input. |
| Split.SplitPartsSpec | src/new_post_parser_lib/html_parser/parser.rs:190-223 | The parts are empty exactly for empty input. They concatenate to the input minus the outside-quote separators. Joined with the separator they give the input, with one separator appended exactly when the input ends with an outside-quote separator (the empty last piece the loop drops). |
| Split.LastPieceEmpty | src/new_post_parser_lib/html_parser/parser.rs:190-223 | The last buffered piece is empty exactly when the input is empty or ends with a separator outside quotes. |
| Split.SplitJoinedWords | src/new_post_parser_lib/html_parser/parser.rs:190-223 | Non-empty words without the separator or a quote, joined by single separators, split back into exactly those words. |
| Split.SplitIntoParts | src/new_post_parser_lib/html_parser/parser.rs:190-223 | The splitter's loop (quote flag toggled before the separator test, final part kept only when non-empty) returns exactly `SplitParts`. |
| Split.SecondPartSpan | src/new_post_parser_lib/html_parser/parser.rs:156-158 | The second part starts just after the first outside-quote separator, contains no outside-quote separator, and ends at the next outside-quote separator or at the end of the input. |
| Split.SplitEvery | src/html_parser/parser.rs:154 | The plain split on every separator: no piece holds the separator, joining the pieces gives back the input, and there are at least two pieces exactly when the separator occurs. |
| Split.PiecesWithoutQuotes | src/new_post_parser_lib/html_parser/parser.rs:200-211 | On text without double quotes, the quote-aware split is the plain split. |
| Tokenizer.FindFrom | src/new_post_parser_lib/html_parser/parser.rs:93-101 | The scan stops at the first occurrence at or after the start, or at the end of input when there is none. |
| Tokenizer.SkipTagEnd | src/new_post_parser_lib/html_parser/parser.rs:126-139 | Succeeds exactly when a `>` follows, with the offset one past the first one; otherwise fails with `TagEndNotFound`. |
| Tokenizer.ParseNodes | src/new_post_parser_lib/html_parser/parser.rs:42-87 | Returned offset is within `start..|html|+1`. Text nodes are non-empty and `<`-free, and void elements are childless. A final `<` fails. On `</` it returns no nodes, one past the next `>`, and fails exactly when there is no `>`. |
| Tokenizer.ParseTag | src/new_post_parser_lib/html_parser/parser.rs:89-124 | The element's name, attributes and void flag are the builder's result for the raw text up to the first `>`, and a builder failure propagates. A void element has no children and resumes just past `>`. A non-void element's children and resume offset are exactly what `ParseNodes` returns when started just past `>`. The tag fails only when the builder fails or, for a non-void element, with the nested `ParseNodes` error; so it succeeds whenever the builder does and the element is void or its children parse. The offset strictly increases. |
| Tokenizer.Parse | src/new_post_parser_lib/html_parser/parser.rs:32-39 | A successful parse from offset 0 yields well-formed nodes. |
| Tokenizer.TextRunStep | src/new_post_parser_lib/html_parser/parser.rs:47-56 | A `<`-free run ending at `<` or at the end of input is one text node in front of what follows. |
| Tokenizer.OpenBracket | src/new_post_parser_lib/html_parser/parser.rs:50-73 | The loop's `<` branch: it either ends the level with what `ParseNodes` gives from the `<`, or appends one element and resumes where parsing from the `<` continues. |
| Tokenizer.FlushText | src/new_post_parser_lib/html_parser/parser.rs:51-56 | Flushing the buffer appends one text node exactly when the buffer is non-empty, and the parse still to come is unchanged. |
| Tokenizer.AtBracket | src/new_post_parser_lib/html_parser/parser.rs:50-73 | A `<` in the loop, buffer flush included: it either ends the level with what `ParseNodes` gives from the buffer's start, or resumes past the `<` with nodes and an offset from which the level's outcome is unchanged. |
| Tokenizer.ParseInternal | src/new_post_parser_lib/html_parser/parser.rs:42-87 | The source's buffered loop computes exactly `ParseNodes`. |
| Tokenizer.PlainTextIsOneNode | src/new_post_parser_lib/html_parser/parser.rs:75-86 | Input with no `<` is one text node, and the offset returned is the end of input. |
| Tokenizer.UnterminatedTagEndsPastInput | src/new_post_parser_lib/html_parser/parser.rs:93-108 | An opening tag with no `>` whose raw text the builder accepts takes the rest of the input as raw tag text, succeeds with no children, and hands back the offset `|html| + 1`. |
| Tokenizer.NoClosingTagConsumesAll | src/new_post_parser_lib/html_parser/parser.rs:47-77 | With no `</` ahead, a successful parse consumes the whole input. |
| Tokenizer.NoClosingTagTagConsumesAll | src/new_post_parser_lib/html_parser/parser.rs:107-123 | With no `</` ahead, a successful unclosed non-void element takes the rest of the input as children. |
| Tokenizer.NoClosingTagNoTagEndError | src/new_post_parser_lib/html_parser/parser.rs:47-77 | With no `</` ahead and a builder that never reports `TagEndNotFound`, parsing never fails with `TagEndNotFound`. |
| Tokenizer.NoClosingTagParses | src/new_post_parser_lib/html_parser/parser.rs:42-124 | With no `</` ahead, no `<` at the very end and the builder accepting the raw text of every opening tag ahead, parsing succeeds and consumes the whole input. |
| Tokenizer.NoClosingTagTagParses | src/new_post_parser_lib/html_parser/parser.rs:89-124 | Under the same conditions, an opening tag succeeds, and a non-void one takes the rest of the input as its children. |
| Tokenizer.UnclosedElement | src/new_post_parser_lib/html_parser/parser.rs:42-124 | `<name>text` with a non-void name and `<`-free text parses to one element holding one text child, ending at the end of the input. |
| Utf16Parser.StripQuotes | src/new_post_parser_lib/html_parser/parser.rs:160-166 | A leading `"` is removed exactly when the value starts with one. A trailing `"` is then removed exactly when what is left ends with one. |
| Utf16Parser.ParseAttribute | src/new_post_parser_lib/html_parser/parser.rs:156-166 | Fails with `AttributeValueMissing` exactly when the split on `=` has fewer than two parts. Otherwise the name is the prefix before the first `=` outside quotes. |
| Utf16Parser.AttributeValueSpan | src/new_post_parser_lib/html_parser/parser.rs:156-166 | The value is the text after the first outside-quote `=`, running to the next outside-quote `=` (none inside it) or the end of the part, minus at most one quote at each end. |
| Utf16Parser.CollectParts | src/new_post_parser_lib/html_parser/parser.rs:150-173 | The name is the last `=`-free part. The loop fails exactly when some attribute part has no second piece. |
| Utf16Parser.CollectedAttributesNonEmpty | src/new_post_parser_lib/html_parser/parser.rs:168-172 | Stored attributes have unique, non-empty names and non-empty values. |
| Utf16Parser.CollectedAttributesKeepKeys | src/new_post_parser_lib/html_parser/parser.rs:150-173 | Keys already stored survive the loop, and every attribute part with a non-empty name and value has its name stored. |
| Utf16Parser.CollectedAttributesFromParts | src/new_post_parser_lib/html_parser/parser.rs:150-173 | Every stored pair was stored before the loop or is what some attribute part parses to. |
| Utf16Parser.CreateTag | src/new_post_parser_lib/html_parser/parser.rs:141-188 | Fails only with `EmptyTag` (exactly for empty raw text), `TagHasNoName` (only when every part holds `=`) or `AttributeValueMissing` (exactly when some attribute part lacks a value). Succeeds exactly when the raw text is non-empty, some part is `=`-free and every attribute part parses. The name is the last `=`-free part, the tag is void exactly for the 11 void names, and the attributes are in the order the parts last stored their keys. |
| Utf16Parser.CreateTagAttributesDetermined | src/new_post_parser_lib/html_parser/parser.rs:148-172 | A built tag's attributes are exactly the mapping that holds each key's last stored value in the order the parts last stored the keys. |
| Utf16Parser.CreateTagAttributes | src/new_post_parser_lib/html_parser/parser.rs:150-172 | The built tag's attributes have unique, non-empty names and non-empty values. Each is drawn from one of the tag's parts, and none that should be stored is missing. |
| Utf16Parser.CollectedValues | src/new_post_parser_lib/html_parser/parser.rs:150-173 | After the loop, each key holds the value of the last stored attribute part with that name, or its earlier value when no later part names it. |
| Utf16Parser.CollectedOrder | src/new_post_parser_lib/html_parser/parser.rs:150-173 | A mapping in last-stored order for the parts seen so far stays in last-stored order for all parts after the loop. |
| Utf16Parser.CreateTagValues | src/new_post_parser_lib/html_parser/parser.rs:150-172 | Each key of a built tag holds what the last attribute part with that name (and a non-empty value) parses to. A key is present exactly when such a part exists. |
| Utf16Parser.RepeatedAttributeKeepsLast | src/new_post_parser_lib/html_parser/parser.rs:150-172 | For any plain tag name, key and two values, `name key=first key=last` stores the single attribute (`key`, `last`). |
| Utf16Parser.QuotedAttributeValue | src/new_post_parser_lib/html_parser/parser.rs:156-172 | A double-quoted value stays one attribute whatever spaces and `=` it holds, loses its quotes, and is dropped when empty. |
| Utf16Parser.EmptyTagIsFatal | src/new_post_parser_lib/html_parser/parser.rs:142-145 | `<>` is fatal. |
| Utf16Parser.NamelessTagIsFatal | src/new_post_parser_lib/html_parser/parser.rs:150-177 | A tag consisting of one attribute `key=value` has no name, which is fatal. |
| Utf16Parser.PlainAttribute | src/new_post_parser_lib/html_parser/parser.rs:156-166 | A name, `=` and a value, neither holding a space, `=` or `"`, parse to exactly that name and value. |
| Utf16Parser.MissingAttributeValueIsFatal | src/new_post_parser_lib/html_parser/parser.rs:156-158 | Any plain name followed by `key=` with nothing after `=` fails at the missing second piece. |
| Utf16Parser.EmptyValueAttribute | src/new_post_parser_lib/html_parser/parser.rs:156-158 | An attribute part `key=` has no second piece, which is fatal. |
| Utf16Parser.Parse | src/new_post_parser_lib/html_parser/parser.rs:32-39 | The UTF-16 parser's output, when it succeeds, is well formed. |
| Utf16Parser.PlainTag | src/new_post_parser_lib/html_parser/parser.rs:141-188 | A tag that is just a plain name builds that name with no attributes, void exactly for the void names. |
| Utf16Parser.UnclosedElement | src/new_post_parser_lib/html_parser/parser.rs:42-124 | `<name>text` with a plain non-void name parses to one element whose only child is the text: an unclosed element is not an error. |
| Utf16Parser.UnclosedParses | src/new_post_parser_lib/html_parser/parser.rs:42-124 | With no `</`, no `<` at the end, and every opening tag named with a value piece in each attribute part, the UTF-16 parse succeeds: unclosed elements take the rest of the input. |
| Utf16Parser.UnclosedNeverMissesTagEnd | src/new_post_parser_lib/html_parser/parser.rs:47-77 | Without a closing tag the UTF-16 parser never fails with `TagEndNotFound`. |
| ByteParser.ParseAttribute | src/html_parser/parser.rs:154-156 | Name and value are the first two pieces of the plain split on `=`. Neither holds `=`, and the part begins with name `=` value. |
| ByteParser.CollectParts | src/html_parser/parser.rs:148-159 | The name is the last `=`-free part. Every attribute part's name is stored, earlier keys survive, and keys stay unique. |
| ByteParser.CreateTag | src/html_parser/parser.rs:139-174 | Fails only with `EmptyTag` (exactly for empty raw text) or `TagHasNoName` (exactly when every part holds `=`). Void exactly for the 11 names. Each key holds `Some` of the second `=`-piece of the last attribute part with that name, so every stored pair is some part's parse and empty values are kept. Keys are unique and in the order the parts last stored them. |
| ByteParser.CollectedValues | src/html_parser/parser.rs:148-159 | After the loop, each key holds the value of the last attribute part with that name, or its earlier value when no later part names it. |
| ByteParser.CollectedFromStart | src/html_parser/parser.rs:145-159 | The loop from no name and no attributes keeps the last `=`-free part as the name, stores every attribute part's name with the last value given for it, in last-stored order, and stores only pairs that some part parses to. |
| ByteParser.CollectedOrder | src/html_parser/parser.rs:148-159 | A mapping in last-stored order for the parts seen so far stays in last-stored order for all parts after the loop. |
| ByteParser.CreateTagAttributesDetermined | src/html_parser/parser.rs:145-170 | A built tag's attributes are exactly the mapping that holds each key's last value in the order the parts last stored the keys. |
| ByteParser.Parse | src/html_parser/parser.rs:35-85 | The byte parser's output, when it succeeds, is well formed: text flushed only when non-empty, void elements childless. |
| ByteParser.UnclosedParses | src/html_parser/parser.rs:44-121 | With no `</`, no `<` at the end, and a name in every opening tag, the byte parse succeeds: unclosed elements take the rest of the input. |
| ParserComparison.SameNameAndVoidness | src/html_parser/parser.rs:145-166 | When both builders succeed, they agree on the tag name and the void flag. |
| ParserComparison.Utf16FailsWheneverByteFails | src/html_parser/parser.rs:139-163 | Both builders fail on empty tags alike. The UTF-16 builder fails whenever the byte builder does. |
| ParserComparison.QuoteFreeAttributesAgree | src/html_parser/parser.rs:154-158 | On quote-free attribute parts accepted by the UTF-16 builder, both builders produce the same name and value (`Some` in the byte variant). |
| ParserComparison.TrailingEqualsDiffers | src/html_parser/parser.rs:154-158 | `key=` is fatal for the UTF-16 builder but stored as (`key`, `Some("")`) by the byte builder. |
| TextParts.TotalLengthIsTextLength | src/new_post_parser_lib/rules/rule_handler.rs:51-55 | When each part's count is its text's length, the summed length is the length of the joined text. |
| TextParts.DiffLen | src/new_post_parser_lib/rules/rule_handler.rs:41-49 | 0 for index 0. Together with the sum from the index on, it gives the total length. |
| TextParts.NewLen | src/new_post_parser_lib/rules/rule_handler.rs:51-55 | `diff_len + new_len` is the total length, and it is 0 at the end index. |
| TextParts.DiffText | src/new_post_parser_lib/rules/rule_handler.rs:36-39 | The text before the index followed by the result is the whole text, and its length is `new_len` when counts match texts. |
| TextParts.DiffLenStable | src/new_post_parser_lib/rules/rule_handler.rs:41-49 | Appending parts does not change the measure of an earlier snapshot index. |
| Decimal.ParseU64 | src/new_post_parser_lib/rules/span.rs:89-98 | `u64` parsing succeeds exactly on an optional `+`, then non-empty ASCII digits (leading zeros allowed) whose value is at most 2^64-1. The result is that value. |
| Decimal.ParseDecimalString | src/new_post_parser_lib/rules/span.rs:89-98 | Every `u64` rendered in decimal parses back to itself. |
| SpanRule.ResolveLink | src/new_post_parser_lib/rules/span.rs:100-104 | The link carries the post number and is a quote exactly when the thread holds the post. |
| SpanRule.HandleDeadlink | src/new_post_parser_lib/rules/span.rs:63-125 | Fails exactly when there are no children. With more than one child or an element child, nothing is emitted. A request is emitted exactly when the decoded text is `>>` plus a `u64`, over that text, at the total emitted length. |
| SpanRule.PreHandle | src/new_post_parser_lib/rules/span.rs:21-26 | Handled exactly for class `deadlink`. Any other element is not handled and emits nothing. |
| SpanRule.PostHandle | src/new_post_parser_lib/rules/span.rs:29-54 | Text parts untouched. Nothing when nothing was added or the class is not `quote`. Otherwise at most one valid greentext spannable from the snapshot's start to the current end, present whenever the new text is non-empty. |
| SpanRule.HandleQuote | src/new_post_parser_lib/rules/span.rs:127-156 | Text parts untouched. The greentext spannable (`diff_len`, `new_len`) is appended exactly when `new_len` is positive, and otherwise nothing is. |
| SpanRule.DeadlinkRequestsPost | src/new_post_parser_lib/rules/span.rs:88-118 | A deadlink whose text decodes to `>>N` requests post N (quote if internal, dead otherwise) with the decoded text at the total emitted length. |
| SpoilerRule.PreHandle | src/new_post_parser_lib/rules/spoiler.rs:17-28 | Never handled, emits nothing. |
| SpoilerRule.PostHandle | src/new_post_parser_lib/rules/spoiler.rs:30-63 | Text parts untouched, and nothing when nothing was added. Otherwise at most one valid spoiler, from `diff_len` with length `new_len`, ending at the current end of the text, and present whenever the new text is non-empty. |
| RuleProtocol.PreHandle | src/new_post_parser_lib/rules/rule_handler.rs:6-13 | Only the span handler on a `deadlink` element handles it, and any request starts at the current end of the text. |
| RuleProtocol.PostHandle | src/new_post_parser_lib/rules/rule_handler.rs:15-24 | For either handler: text parts untouched, at most one valid spannable appended, spanning from the snapshot to the current end, and nothing when nothing was added. |
| RuleProtocol.VisitElement | src/new_post_parser_lib/rules/rule_handler.rs:4-26 | One element under the protocol; it fails exactly for a childless deadlink. A handled deadlink skips children and `post_handle`: the accumulators are unchanged, or they are what `anchor` makes of the deadlink's request. Any other element: the text is what the children emitted, and at most one valid spannable is added, over exactly the children's text. |
| RuleProtocol.SpoilerExample | src/new_post_parser_lib/rules/spoiler.rs:46-62 | `<s>secret</s>` at the start of a post yields one spoiler (0, 6). |
| RuleProtocol.GreentextExample | src/new_post_parser_lib/rules/span.rs:127-155 | A `quote` span with text `>implying` after 3 characters yields one greentext (3, 9). |

## Left out

- Debug printing and concatenation (`debug_*` and `format_depth` in both parsers): console output only.
- `encode_utf16`, `from_utf16_lossy`, `as_bytes` and `String::from_iter`: the input is modelled directly as a sequence of code units. Lossy decoding and byte-to-`char` widening are library conversions.
- `lazy_static` and `HashSet`: the void set is the constant `Markup.VoidElements`.
- `Element::has_class` is replaced by the set of the element's classes, `classes`.
- `PostParserContext::is_internal_thread_post` is replaced by the set of internal post numbers, `internalPosts`.
- `html_escape::decode_html_entities` is the function parameter `decode`.
- `handle_single_post_quote` lives in the anchor module, which is not part of this model. The span handler returns the arguments it would pass (`SpanRule.QuoteRequest`). `RuleProtocol.VisitElement` applies them through the parameter `anchor`, about which nothing is assumed.
- The definitions of `Spannable::is_valid` and `SumBy` are not part of this model. A spannable is valid when its length is positive, and `SumBy` is the recursive sum `TextParts.TotalLength`.
- The tree walker that dispatches elements to handlers is not part of this model. `RuleProtocol.VisitElement` is one step of it: snapshot, `pre_handle`, children, `post_handle`. The children's flattening is the parameter `children`.
- `eprintln!` logging on the skipped deadlink shapes is a side effect only.
- `post_handle`'s `prev_out_spannables_index` argument is unused by both handlers, so it is not a parameter.
- TextParts.DiffLen: the source sums `i32` values and casts the result to `usize`. Overflow past 2^31-1 and the cast of a negative sum are not modelled; lengths are unbounded naturals.
- TextParts.NewLen: the same `i32` sum and cast are not modelled.
- SpoilerRule.PostHandle: the same `i32` sum and cast are not modelled.
- SpanRule.HandleDeadlink: the same `i32` sum and cast of the total text length are not modelled.
- ByteParser.CreateTag: the old parser widens each tag byte to a `char` (src/html_parser/parser.rs:92-97), then `split_tag_raw_into_parts` re-encodes that string with `as_bytes` and widens each byte again (src/html_parser/parser.rs:181-184, 198). A tag byte of 0x80 or more therefore reaches the parts, names and values as two code units; the model keeps it as one. The split structure and void membership are the same either way, but `ParserComparison.SameNameAndVoidness` and `ParserComparison.QuoteFreeAttributesAgree` match the source only for ASCII tag text.
- The tag text handed to `create_tag` is modelled as the exact code units between `<` and `>`. Lossy decoding of an unpaired surrogate would change them.
