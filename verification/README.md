# A model of libvmod-riscv in Dafny

libvmod-riscv runs tenant programs inside Varnish, each request in a RISC-V machine forked from a
master. This project models the parts of it that hold the most state and the most arithmetic, and
proves what they promise:

- **XML** (`Bytes`, `Utf8`, `CharRef`, `Collapsing`, `Decoding`, `StrPair`, `Scanning`, `Escaping`,
  `XmlParser`, `XmlDocument`, `XmlGrammar`, `XmlAccepts`, `XmlSound`, `XmlErrors`, `Spans`,
  `LazyStrings`, `XmlLayout`, `XmlRoundTrip`, `XmlPrinter`, `XmlText`): tinyxml2's parser, its
  in-place string decoding and its printer. The parser accepts exactly the texts of a grammar that
  mentions no parser function, with their meaning, and each error has its exact cause in the text;
  printing a document and parsing the text returns the document; what is printed is a text defined on
  the tree; the strings of a parsed document share one buffer and may be decoded in it in any order.
- **The document object model** (`DomLinks`, `DomDocument`): inserting, moving and deleting nodes in
  intrusive lists, with every allocation and deallocation accounted for.
- **Containers** (`DynArray`, `MemPool`): the growable array and the block allocator under them.
- **Virtual machines** (`ForkMemory`, `RegexCache`, `LiveUpdate`): copy-on-write forks, compiled
  expressions on loan to forks, and replacing a program while requests run.
- **HTTP** (`BodyPull`, `HeaderTable`): response bodies handed over piecewise, and the header table.
- **CRC-32** (`Crc32`): the table-driven form and the division it stands for.

Functions give the meaning of an operation. Classes and methods follow the code where it changes
fields, pointers or buffers, and are proved against those functions. Concurrent parts are systems of
atomic steps, and the results hold for every run.

`dafny verify dfyconfig.toml` checks everything.

## What turned out not to hold

Some properties that one would expect fail for the code. For each there is a member that exhibits a
failing case, and one that gives the exact condition under which the property holds:

| property | failing case | exact condition |
|---|---|---|
| `GetStr` decodes the text: a byte is lost when an unknown entity reference follows a decoded one | `Decoding.UnknownEntityIsMangled` | `Decoding.RewriteIsDecode` |
| A character reference denotes its digits: the 32-bit sum can wrap around, though not with up to 257 digits | `CharRef.LongNumeralWraps` | `CharRef.AcceptedNumerals`, `CharRef.ReferenceRead` |
| The same: a power of the radix above the largest code point is clamped to that | `CharRef.PowerIsClamped` | `CharRef.AcceptedNumerals`, `CharRef.ReferenceRead` |
| The same: an inner radix mark hides what stands before it, no digits count as zero, and a lone `&#` loses its ampersand | `CharRef.InnerMarkIsSkipped`, `CharRef.NothingIsRead`, `Decoding.LoneMarkIsLost` | `CharRef.DigitsDenote`, `CharRef.ReferenceRead` |
| `GetStr` returns the whole decoded text: a reference to the number zero cuts it | `Decoding.ZeroCutsString` | `Decoding.WholeDecoded` |
| `PrintString` prints the whole string: a last run of more than `INT_MAX` bytes is cut | `Escaping.LongRunIsCut` | `Escaping.PrintedIsEscape` |
| Text keeps the printer from breaking lines until its element ends: an element with text of its own lifts that | `XmlText.TextIsForgotten` | `XmlText.QuietExactly`, `XmlText.NodeOnItsLine` |
| `InsertAfterChild` follows no null pointer: it does when the node is the last child and stands directly after the given one | `DomDocument.MoveLastAfterFirst` | `DomDocument.XMLDocument.InsertAfterChild` |
| Inserting keeps the tree a tree: a node can be inserted below itself | `DomLinks.HungCyclic` | `DomDocument.PasteAny` |
| A write overlays what the fork saw: a page that was never read is zeroed first, because `create_writable_pageno` calls the fault handler and not the read handler | `ForkMemory.UnreadPageIsLost` | `ForkMemory.WriteOverlays`, and for runs `ForkMemory.RunOverlays` |
| A fork stays within its byte limit: it can exceed it by part of a page, and a limit below one page is none | `ForkMemory.BudgetsExceeded` | `ForkMemory.WorkspaceRuns`, `ForkMemory.CountedRuns` |
| An expression has the same number in a fork: not after an earlier one was deleted | `RegexCache.HandleShifts` | `RegexCache.SameHandle`, and for runs `RegexCache.ForkHandles` |
| A lookup finds a live expression: a deleted slot can be found again | `RegexCache.DeletedIsFound` | `RegexCache.FoundIsBlank`, `RegexCache.HandleIsLive` |
| A MachineInstance outlives the script that holds it: the comment at `src/script.hpp:142` asks for the reference to be deleted last, but the member declared last is destroyed first; from then on the script itself, another request or an update can release it | `LiveUpdate.ReleasedBeforeMachine`, `LiveUpdate.ReleasedByUpdate` | `LiveUpdate.OutlivesScript` for runs without an exchange, `LiveUpdate.NoneIsSure` for all |
| A failed update has not been applied, as the message at `src/live_update.cpp:120` says: a state transfer that throws comes after the exchange | `LiveUpdate.FailedButApplied` | `LiveUpdate.FailureKeepsSlot` |
| A body ends with its last byte: one call late if the last buffer is empty | `BodyPull.EmptyTailEndsLate` | `BodyPull.SegmentsAreBody`, and for whole transfers `BodyPull.AnyTransfer` |
| Fields that a callback marked are deleted: some can stay | `HeaderTable.SecondMarkIsLost` | `HeaderTable.AllHonoured` |

The comment at `ext/tinyxml2/tinyxml2.cpp:1985` says that duplicate attributes are not detected; the
code before it does detect them, and so does the model.

## Model

| member | source | states |
|---|---|---|
| `Bytes.SkipWhiteSpace` | ext/tinyxml2/tinyxml2.h:549-560 | Stops at the first byte that is no white space, everything before it is white space without a NUL, and the line counter grows by exactly the line feeds passed. |
| `Bytes.SkipSpaceOver` | ext/tinyxml2/tinyxml2.h:549-560 | Skipping a gap of white space before other text leaves that text. |
| `Bytes.CharacterClasses` | ext/tinyxml2/tinyxml2.h:567-589 | Which of the 256 bytes are white space, start a name, or belong to one; bytes from 128 on do. |
| `Utf8.ConvertUTF32ToUTF8` | ext/tinyxml2/tinyxml2.cpp:417-467 | The loop that writes backwards yields the encoding, for every 32-bit input. |
| `Utf8.EncodeCorrect` | ext/tinyxml2/tinyxml2.cpp:417-467 | Up to 21 bits the result is a well-formed UTF-8 sequence that denotes the input, by a decoder defined on its own. |
| `Utf8.DecodeEncode` | ext/tinyxml2/tinyxml2.cpp:417-467 | Every well-formed sequence is the encoding of its character number, so the encoding is unique. |
| `CharRef.GetCharacterRef` | ext/tinyxml2/tinyxml2.cpp:470-556 | The search for the semicolon and the backward digit loop compute the reference: its UTF-8 bytes and its length, or failure. |
| `CharRef.Accumulate` | ext/tinyxml2/tinyxml2.cpp:486-550 | The 32-bit digit loop with a saturating multiplier yields the code point that the digits denote, or none. |
| `CharRef.AddDigit` | ext/tinyxml2/tinyxml2.cpp:508-545 | One digit in 32-bit arithmetic: the sum modulo 2^32, and the next clamped weight. |
| `CharRef.ClampedSumOf` | ext/tinyxml2/tinyxml2.cpp:486-545 | The clamped sum is the value as long as that is a code point; above, it is at least the clamp and meets it exactly for powers of the radix. |
| `CharRef.AcceptedNumerals` | ext/tinyxml2/tinyxml2.cpp:486-550 | A numeral of any length is read as its value, and refused if that is no code point, if and only if its clamped digits do not wrap around to a code point modulo 2^32, and it is no power of the radix above the largest code point; such a power is read as U+10FFFF. |
| `CharRef.ClampedSumIsTotal` | ext/tinyxml2/tinyxml2.cpp:486-545 | The sum of the loop is a closed form of the digits: the low ones at their weight, each higher one at the clamp. |
| `CharRef.ShortNumerals` | ext/tinyxml2/tinyxml2.cpp:486-550 | A numeral of at most 257 digits does not wrap. |
| `CharRef.LeadingZeros` | ext/tinyxml2/tinyxml2.cpp:486-550 | Any number of leading zeros changes neither value nor condition. |
| `CharRef.ClampedSumSplit` | ext/tinyxml2/tinyxml2.cpp:486-545 | For a numeral of any length, the low digits count exactly and each higher one as the clamp. |
| `CharRef.LongNumeralWraps` | ext/tinyxml2/tinyxml2.cpp:530-550 | 3856 ones and seven zeros are accepted as U+FF0F0. |
| `CharRef.DigitsDenote` | ext/tinyxml2/tinyxml2.cpp:470-556 | For any text between radix mark and semicolon: the code point read is that of the digits, or none without digits or with anything else, if and only if the digits neither wrap nor are clamped, or the digits after an inner mark are not accepted. |
| `CharRef.ReferenceRead` | ext/tinyxml2/tinyxml2.cpp:470-556 | Any text that starts with `&#` is replaced as its reference says, or left alone, if and only if something follows and the text before the semicolon meets that condition. |
| `CharRef.PowerIsClamped` | ext/tinyxml2/tinyxml2.cpp:512-545 | `&#10000000;` is read as U+10FFFF. |
| `CharRef.InnerMarkIsSkipped` | ext/tinyxml2/tinyxml2.cpp:530-545 | `&#12#65;` is read as an A. |
| `CharRef.NothingIsRead` | ext/tinyxml2/tinyxml2.cpp:470-556 | `&#;` is read as the number zero, and `&#` at the end of the text loses its ampersand. |
| `CharRef.NumericReference` | ext/tinyxml2/tinyxml2.cpp:470-556 | A whole decimal or hexadecimal reference is replaced by the encoding of what its digits denote, or left alone. |
| `CharRef.ReferenceShrinks` | ext/tinyxml2/tinyxml2.cpp:323-340 | The replacement is never longer than the reference, and the reference ends within the text. |
| `Collapsing.SqueezeIsCollapse` | ext/tinyxml2/tinyxml2.cpp:252-278 | Trimming and squeezing gives the words of the text joined by single spaces. |
| `Collapsing.CollapseFixedPoints` | ext/tinyxml2/tinyxml2.cpp:252-278 | A text is unchanged if and only if it is collapsed already, and every result is. |
| `Collapsing.CollapseSpaced` | ext/tinyxml2/tinyxml2.cpp:252-278 | Any words with any white space before, between and after them become these words with one space between. |
| `Decoding.RewriteExtends` | ext/tinyxml2/tinyxml2.cpp:281-379 | The write pointer never passes the read pointer, and what is written is not touched again. |
| `Decoding.RewriteIsDecode` | ext/tinyxml2/tinyxml2.cpp:281-379 | The in-place loop equals the left-to-right transducer if and only if every byte it passes over without copying is an ampersand at that place. |
| `Decoding.KnownPassesOver` | ext/tinyxml2/tinyxml2.cpp:341-360 | That is so on every text without unknown entity references. |
| `Decoding.UnknownEntityIsMangled` | ext/tinyxml2/tinyxml2.cpp:355-359 | A decoded entity followed by an unknown one loses an ampersand. |
| `Decoding.WholeDecoded` | ext/tinyxml2/tinyxml2.cpp:281-379 | The C string that the loop leaves is the whole decoded text if and only if bytes are passed over at ampersands only and no character reference denotes zero. |
| `Decoding.ZeroCutsString` | ext/tinyxml2/tinyxml2.cpp:323-340 | `a&#0;b` is read as `a`. |
| `Decoding.LoneMarkIsLost` | ext/tinyxml2/tinyxml2.cpp:323-340 | `&#` at the end of a text is read as `#`. |
| `Decoding.RewriteWithoutFlags` | ext/tinyxml2/tinyxml2.cpp:281-379 | Without flags the loop copies the text onto itself. |
| `Decoding.PiecesDecoded` | ext/tinyxml2/tinyxml2.cpp:281-379 | A text made of bytes, line ends in all four forms, named references, and numeric references that are read or refused, is decoded piece by piece into what each piece means, by a definition of its own. |
| `Decoding.Pieces` | ext/tinyxml2/tinyxml2.cpp:281-379 | Every text, under any flags, is made of such pieces, and so is decoded as they say. |
| `Decoding.PiecesRewritten` | ext/tinyxml2/tinyxml2.cpp:281-379 | The same of the in-place loop, if no entity is unknown; and of the string that GetStr returns, which is that up to its first NUL, collapsed if asked for. |
| `Decoding.AnyRewritten` | ext/tinyxml2/tinyxml2.cpp:281-379 | What the in-place loop leaves of any pieces: at an unknown entity the byte that stands at the write pointer, elsewhere what the piece means. |
| `Decoding.NumberDecoded` | ext/tinyxml2/tinyxml2.cpp:323-340 | A decimal or hexadecimal reference to a code point, of any length that neither wraps nor is clamped, is decoded to the UTF-8 bytes of its value, whatever follows. |
| `Decoding.NumberRead` | ext/tinyxml2/tinyxml2.cpp:470-556 | GetCharacterRef gives these bytes and the whole length of the reference. |
| `Decoding.ReferenceDecoded` | ext/tinyxml2/tinyxml2.cpp:323-340 | Any text that starts with `&#` and meets the condition of ReferenceRead: the reference is replaced by what it denotes; one that is refused leaves its ampersand, and decoding goes on behind that. |
| `StrPairs.FindEntity` | ext/tinyxml2/tinyxml2.cpp:341-354 | The table search finds the first entity whose name and semicolon follow the ampersand. |
| `StrPairs.ReadToken` | ext/tinyxml2/tinyxml2.cpp:293-367 | One turn of the decoding loop: which bytes are written and how far the read pointer moves, for newlines, numeric and named references and other bytes; what that makes of whole texts is PiecesRewritten and AnyRewritten. |
| `StrPairs.StrPair.GetStr` | ext/tinyxml2/tinyxml2.cpp:281-379 | The string is StrValue of the text, which PiecesRewritten, NumberRead and WholeDecoded pin for all texts; no byte outside the span changes, and a second call changes nothing. |
| `StrPairs.StrPair.Flush` | ext/tinyxml2/tinyxml2.cpp:281-379 | Terminate, decode, collapse: the string is that of the out-of-place transducer and ends within the span. |
| `StrPairs.StrPair.DecodeText` | ext/tinyxml2/tinyxml2.cpp:283-369 | The decoded text and a NUL are stored from the start pointer on, within the span. |
| `StrPairs.StrPair.RewriteInPlace` | ext/tinyxml2/tinyxml2.cpp:288-369 | The loop over the buffer stores exactly the result of the transducer. |
| `StrPairs.StrPair.CollapseWhitespace` | ext/tinyxml2/tinyxml2.cpp:252-278 | The string becomes its words joined by single spaces, in place. |
| `StrPairs.StrPair.SqueezeInPlace` | ext/tinyxml2/tinyxml2.cpp:256-276 | The copying loop writes the squeezed text over itself. |
| `StrPairs.StrPair.SqueezeGap` | ext/tinyxml2/tinyxml2.cpp:260-271 | White space is skipped, and written as one space unless the text ends there. |
| `Scanning.ParseText` | ext/tinyxml2/tinyxml2.cpp:207-229 | Finds the first occurrence of the end tag before the terminating NUL, and adds the line feeds before it to the line counter. |
| `Scanning.ParseName` | ext/tinyxml2/tinyxml2.cpp:232-249 | The name read is the longest run of name characters that starts with a name start character. |
| `Scanning.FindTagAfter` | ext/tinyxml2/tinyxml2.cpp:207-229 | A tag whose last byte is unique in it is found right after any text that does not contain it. |
| `Scanning.LeadingNameOf` | ext/tinyxml2/tinyxml2.cpp:232-249 | A name followed by a byte that no name contains is read back as that name. |
| `Escaping.PrintString` | ext/tinyxml2/tinyxml2.cpp:2666-2718 | The loop with two pointers writes what Printed says, for every string and context. |
| `Escaping.FlushAndEscape` | ext/tinyxml2/tinyxml2.cpp:2677-2705 | Flushing a run in pieces of INT_MAX bytes and writing the entity escapes one piece more. |
| `Escaping.PrintedIsEscape` | ext/tinyxml2/tinyxml2.cpp:2709-2713 | The output is the escaped string if and only if the last run is at most INT_MAX bytes long. |
| `Escaping.EntityTexts` | ext/tinyxml2/tinyxml2.cpp:142-149 | The five entities with their names, and the characters they stand for. |
| `Escaping.EscapeTable` | ext/tinyxml2/tinyxml2.cpp:2589-2603 | What becomes of each of the 256 bytes, in text and in attributes, with and without apostrophes. |
| `Escaping.EscapeLeavesNone` | ext/tinyxml2/tinyxml2.cpp:2666-2718 | An escaped string has no angle bracket left in text, and no quote in attributes. |
| `Escaping.LongRunIsCut` | ext/tinyxml2/tinyxml2.cpp:2709-2713 | A run of INT_MAX + 1 letters is not printed whole. |
| `Escaping.ReadBack` | ext/tinyxml2/tinyxml2.cpp:281-379 | Decoding an escaped string returns it if and only if it has no carriage return. |
| `Escaping.DecodeEscapeHasNoCR` | ext/tinyxml2/tinyxml2.cpp:297-316 | Decoded printer output has no carriage return and no unknown entity reference. |
| `Escaping.StringRoundTrip` | ext/tinyxml2/tinyxml2.cpp:207-229 | For every NUL-free string of at most INT_MAX bytes: print, scan for the delimiter, decode in place; the string comes back if and only if it has no carriage return. |
| `XmlDocument.XMLDocument.Identify` | ext/tinyxml2/tinyxml2.cpp:702-779 | Which node comes next and where it starts, for every text and white space mode; the line counter is restored for text. |
| `XmlDocument.XMLDocument.ParseLeaf` | ext/tinyxml2/tinyxml2.cpp:1233-1257 | Text, character data, comments, declarations and unknown tags: node, position, errors and line counter as specified; the span set is the one decoded into the node's value. |
| `XmlDocument.XMLDocument.ParseValue` | ext/tinyxml2/tinyxml2.cpp:1442-1467 | The quoted value of an attribute. |
| `XmlDocument.XMLDocument.ParseAttribute` | ext/tinyxml2/tinyxml2.cpp:1442-1467 | Name, equals sign and value; the two spans are set in this order and do not meet. |
| `XmlDocument.XMLDocument.FindAttribute` | ext/tinyxml2/tinyxml2.cpp:1616-1625 | Whether an attribute of that name has been read. |
| `XmlDocument.XMLDocument.ParseAttributes` | ext/tinyxml2/tinyxml2.cpp:1959-2016 | All attributes up to the end of the tag, with the duplicate check. |
| `XmlDocument.XMLDocument.ParseHead` | ext/tinyxml2/tinyxml2.cpp:2075-2093 | One tag: closing, sealed or open, with its name and attributes. |
| `XmlDocument.XMLDocument.ParseElement` | ext/tinyxml2/tinyxml2.cpp:2075-2100 | An element with its children and its end tag, at any depth; a line counter that is one more than the line feeds before the element is so after it. |
| `XmlDocument.XMLDocument.ParseNodes` | ext/tinyxml2/tinyxml2.cpp:1072-1083 | The depth counter is restored on every return and never exceeds 500; the line counter stays one more than the line feeds before the read position. |
| `XmlDocument.XMLDocument.ParseChildElement` | ext/tinyxml2/tinyxml2.cpp:1092-1174 | One element of the sibling loop: end tags, mismatches and errors; for which texts each comes about is FailsExactly. |
| `XmlDocument.XMLDocument.ParseChildLeaf` | ext/tinyxml2/tinyxml2.cpp:1092-1143 | One other node of the sibling loop, with the placement rule for declarations. |
| `XmlDocument.XMLDocument.ParseSiblings` | ext/tinyxml2/tinyxml2.cpp:1084-1186 | The sibling loop: the nodes, how it stopped, the lines read before and after each node; the spans of the nodes lie one after the other and stand for their strings. |
| `XmlDocument.XMLDocument.Parse` | ext/tinyxml2/tinyxml2.cpp:2550-2578 | On every text: termination, at most 500 frames, depth back at zero, the document that ParseDocument gives, which ParsesExactly and FailsExactly tie to the grammar, and spans that are ordered, disjoint and stand for its strings. On success the line counter is one more than the line feeds of the whole C string, or of the part up to the end of the stray end tag that stopped the parser. |
| `XmlDocument.XMLDocument.SkipToBody` | ext/tinyxml2/tinyxml2.cpp:400-414 | Leading white space and the byte order mark are passed, with the lines counted. |
| `XmlGrammar.Spelling` | ext/tinyxml2/tinyxml2.cpp:702-779 | The marks of the grammar, spelled out as character strings. |
| `XmlAccepts.Accepted` | ext/tinyxml2/tinyxml2.cpp:1072-1186 | Every text that a grammar of its own derives, with equal names in start and end tags, no attribute twice, declarations first, and at most 498 open elements deep, is parsed into the document that the derivation means. |
| `XmlSound.Sound` | ext/tinyxml2/tinyxml2.cpp:1072-1186 | Every text that is parsed successfully has such a derivation, which means the nodes that the parser returns. |
| `XmlSound.ParsesExactly` | ext/tinyxml2/tinyxml2.cpp:2550-2578 | On every text and in every mode: the parser succeeds with these nodes if and only if the grammar derives the text with that meaning. No parser function occurs in the grammar. |
| `XmlSound.OneMeaning` | ext/tinyxml2/tinyxml2.cpp:2550-2578 | The grammar is unambiguous: all derivations of a text mean the same document. |
| `XmlErrors.Refused` | ext/tinyxml2/tinyxml2.cpp:1072-1186 | A text that starts like a derivation and then has a flaw (of thirteen kinds, at any depth) is refused with the error of that flaw, and no nodes are left. |
| `XmlErrors.Explained` | ext/tinyxml2/tinyxml2.cpp:1072-1186 | Every text that is refused has such a flaw. |
| `XmlErrors.FailsExactly` | ext/tinyxml2/tinyxml2.cpp:1072-1186 | The parser reports an error if and only if the text has a flaw of that kind: among them end tags of another name, missing end tags, attributes given twice, late declarations and a 499th open element inside one another. |
| `XmlErrors.EmptyExactly` | ext/tinyxml2/tinyxml2.cpp:2550-2564 | The document counts as empty if and only if there is nothing but white space and a byte order mark before the NUL. |
| `Spans.GrewTwice` | ext/tinyxml2/tinyxml2.cpp:1084-1186 | Spans set one after the other stay ordered and disjoint, and stand for the values of both. |
| `LazyStrings.Strings.constructor` | ext/tinyxml2/tinyxml2.cpp:207-249 | The buffer and one pair per span, as the parser leaves them. |
| `LazyStrings.Strings.Get` | ext/tinyxml2/tinyxml2.cpp:281-379 | Asking for one string, at any time and in any order, yields the string of its span, and leaves every other string as it was or will be. |
| `LazyStrings.PairStays` | ext/tinyxml2/tinyxml2.cpp:281-379 | Decoding one span in place leaves the pending text and the decoded strings of all disjoint spans intact. |
| `LazyStrings.Load` | ext/tinyxml2/tinyxml2.cpp:2447-2475 | Parsing and then reading strings lazily gives, string by string, the tree that the specification of the parser gives. |
| `XmlRoundTrip.ValueBack` | ext/tinyxml2/tinyxml2.cpp:2666-2718 | A string written by the printer is read back, collapsed in collapsing mode. |
| `XmlRoundTrip.AttributesBack` | ext/tinyxml2/tinyxml2.cpp:1959-2016 | Written attributes are read back in order. |
| `XmlRoundTrip.HeadBack` | ext/tinyxml2/tinyxml2.cpp:2075-2093 | An open or sealed tag is read back. |
| `XmlRoundTrip.MarkupBack` | ext/tinyxml2/tinyxml2.cpp:702-779 | Comments, declarations, unknown tags and character data are read back as the next sibling, with any gap before them. |
| `XmlRoundTrip.TextBack` | ext/tinyxml2/tinyxml2.cpp:1233-1257 | Text is read back up to the tag after it. |
| `XmlRoundTrip.ElementBack` | ext/tinyxml2/tinyxml2.cpp:2075-2100 | An element is read back with all its children. |
| `XmlRoundTrip.KidsBack` | ext/tinyxml2/tinyxml2.cpp:1072-1186 | A list of nodes is read back as a list of siblings. |
| `XmlRoundTrip.DocumentBack` | ext/tinyxml2/tinyxml2.cpp:2550-2578 | Any layout of a valid document, with or without byte order mark, is parsed into that document. |
| `XmlPrinter.LayValid` | ext/tinyxml2/tinyxml2.cpp:2732-2771 | The white space that the printer adds, compact or indented, never stands next to text. |
| `XmlPrinter.PrintParse` | ext/tinyxml2/tinyxml2.cpp:2750-2771 | Printing any writable document, compact or indented, in any white space mode, and parsing the text returns the document; in collapsing mode with its text collapsed. |
| `XmlText.PrintsCompactly` | ext/tinyxml2/tinyxml2.cpp:2736-2738 | Compact output is a text defined directly on the tree: tags, attributes, children and end tags with nothing in between. |
| `XmlText.PrintsIndented` | ext/tinyxml2/tinyxml2.cpp:2732-2747 | Indented output is one as well: the rule for line feeds and spaces in terms of what stands before a node in the document. |
| `XmlText.NodeOnItsLine` | ext/tinyxml2/tinyxml2.cpp:2732-2747 | Where line feeds are not suppressed from outside, a child other than text stands after one line feed and four spaces for each level, if and only if no text stands before it among its siblings or an element after that text has text; otherwise right after what stands before it. |
| `XmlText.QuietExactly` | ext/tinyxml2/tinyxml2.cpp:2827-2842 | After some children of an element the printer breaks no line, if and only if one of them is text and no element after it has text of its own; or text stood before them in the element around, and none of them has text. |
| `XmlText.TextIsForgotten` | ext/tinyxml2/tinyxml2.cpp:2840-2842 | After text, an element with text of its own makes the printer break lines again, although the text before it is still there. |
| `XmlPrinter.XMLPrinter.constructor` | ext/tinyxml2/tinyxml2.cpp:2581-2607 | The printer starts with an empty buffer at depth zero. |
| `XmlPrinter.XMLPrinter.PrepareForNewNode` | ext/tinyxml2/tinyxml2.cpp:2732-2747 | Seals the open tag and writes the indentation that the layout has; PrintsCompactly and PrintsIndented say where that is. |
| `XmlPrinter.XMLPrinter.SealElementIfJustOpened` | ext/tinyxml2/tinyxml2.cpp:2850-2857 | Writes the bracket owed for an open tag, once. |
| `XmlPrinter.XMLPrinter.PrintString` | ext/tinyxml2/tinyxml2.cpp:2666-2718 | Writes the string escaped, or as it is when entities are off. |
| `XmlPrinter.XMLPrinter.OpenElement` | ext/tinyxml2/tinyxml2.cpp:2750-2760 | Writes the tag and pushes its name. |
| `XmlPrinter.XMLPrinter.PushAttribute` | ext/tinyxml2/tinyxml2.cpp:2763-2771 | Writes the attribute, quoted and escaped. |
| `XmlPrinter.XMLPrinter.CloseElement` | ext/tinyxml2/tinyxml2.cpp:2822-2847 | Writes the seal or the end tag with the name that was pushed, and pops it. |
| `XmlPrinter.XMLPrinter.WriteEnding` | ext/tinyxml2/tinyxml2.cpp:2827-2838 | The seal of an empty element, or indentation and end tag. |
| `XmlPrinter.XMLPrinter.PushText` | ext/tinyxml2/tinyxml2.cpp:2860-2873 | Writes text or character data, and suppresses indentation until the element ends. |
| `XmlPrinter.XMLPrinter.PushMarkup` | ext/tinyxml2/tinyxml2.cpp:2932-2959 | Writes a comment, declaration or unknown tag between its brackets. |
| `XmlPrinter.XMLPrinter.Visit` | ext/tinyxml2/tinyxml2.cpp:2995-3019 | What one node adds to the buffer is the text form of its layout. |
| `XmlPrinter.XMLPrinter.VisitElement` | ext/tinyxml2/tinyxml2.cpp:2972-2992 | The same for an element with its children. |
| `XmlPrinter.XMLPrinter.VisitAll` | ext/tinyxml2/tinyxml2.cpp:2143-2151 | The same for a list of children. |
| `XmlPrinter.XMLPrinter.Print` | ext/tinyxml2/tinyxml2.cpp:2962-2969 | A printed document is the text that PrintParse, PrintsCompactly and PrintsIndented speak of. |
| `DomLinks.UnlinkRepresents` | ext/tinyxml2/tinyxml2.cpp:888-910 | After the assignments of Unlink, the pointers of all nodes represent the child lists with that one node removed. |
| `DomLinks.AttachRepresents` | ext/tinyxml2/tinyxml2.cpp:925-1019 | After the assignments of an insert operation, they represent the lists with the node inserted at that place. |
| `DomLinks.RootedAcyclic` | ext/tinyxml2/tinyxml2.cpp:888-910 | Unlinking keeps the parent pointers free of cycles. |
| `DomLinks.HungAcyclic` | ext/tinyxml2/tinyxml2.cpp:925-1019 | Inserting below a node that is not a descendant keeps them free of cycles. |
| `DomLinks.HungCyclic` | ext/tinyxml2/tinyxml2.cpp:925-1019 | Inserting a node below itself or a descendant makes a cycle, whatever the paths. |
| `DomLinks.FreeRepresents` | ext/tinyxml2/tinyxml2.cpp:1188-1201 | Freeing a childless node outside the tree leaves all lists intact. |
| `DomDocument.GoodCut` | ext/tinyxml2/tinyxml2.cpp:888-910 | Unlinking keeps the whole document state: lists, acyclicity, tracking and counters. |
| `DomDocument.GoodPaste` | ext/tinyxml2/tinyxml2.cpp:925-1019 | Inserting below a node that is not a descendant keeps it. |
| `DomDocument.PasteAny` | ext/tinyxml2/tinyxml2.cpp:925-1019 | Inserting anywhere leaves pointers that represent the new lists; the state is good if and only if the parent is not the node itself or below it, and else there is a cycle. |
| `DomDocument.GoodTake` | ext/tinyxml2/tinyxml2.cpp:2211-2222 | Taking a node out of `_unlinked` by SwapRemove keeps it, with the pool's untracked counter. |
| `DomDocument.GoodFree` | ext/tinyxml2/tinyxml2.h:396-407 | Freeing a node keeps it, with the pool's allocation counter. |
| `DomDocument.XMLDocument.constructor` | ext/tinyxml2/tinyxml2.cpp:2183-2199 | An empty document with the given root, nothing unlinked. |
| `DomDocument.XMLDocument.CreateUnlinkedNode` | ext/tinyxml2/tinyxml2.h:1986-1997 | The node is allocated, in no list, and once in `_unlinked`. |
| `DomDocument.UnlinkPointers` | ext/tinyxml2/tinyxml2.cpp:888-910 | The assignments of Unlink, one by one, change exactly the neighbours and the ends. |
| `DomDocument.AppendPointers` | ext/tinyxml2/tinyxml2.cpp:934-951 | The assignments of InsertEndChild. |
| `DomDocument.PrependPointers` | ext/tinyxml2/tinyxml2.cpp:964-982 | The assignments of InsertFirstChild. |
| `DomDocument.InsertAfterPointers` | ext/tinyxml2/tinyxml2.cpp:1012-1018 | The assignments of InsertAfterChild. |
| `DomDocument.XMLDocument.Unlink` | ext/tinyxml2/tinyxml2.cpp:888-910 | The node leaves its list, and nothing else changes. |
| `DomDocument.XMLDocument.MarkInUse` | ext/tinyxml2/tinyxml2.cpp:2211-2222 | The node is no longer in `_unlinked`; all others still are. |
| `DomDocument.XMLDocument.InsertChildPreamble` | ext/tinyxml2/tinyxml2.cpp:1203-1215 | The node leaves its list, or `_unlinked`, wherever it is. |
| `DomDocument.XMLDocument.InsertEndChild` | ext/tinyxml2/tinyxml2.cpp:925-952 | The node leaves its old list and becomes the last child; the document stays consistent if and only if the new parent is not the node or below it, and else has a cycle. |
| `DomDocument.XMLDocument.InsertFirstChild` | ext/tinyxml2/tinyxml2.cpp:955-983 | The node leaves its old list and becomes the first child; consistent or cyclic under the same condition. |
| `DomDocument.XMLDocument.InsertAfterChild` | ext/tinyxml2/tinyxml2.cpp:986-1019 | The node leaves its old list and stands directly after the given child, consistent or cyclic under the same condition; exactly when it is refused, and exactly when a null pointer is followed. |
| `DomDocument.MoveLastAfterFirst` | ext/tinyxml2/tinyxml2.cpp:1008-1018 | With two children, moving the last to after the first follows a null pointer. |
| `DomDocument.AddChild` | ext/tinyxml2/tinyxml2.cpp:925-952 | Creating a node and inserting it into the document appends it to the children. |
| `DomDocument.XMLDocument.LinkAfter` | ext/tinyxml2/tinyxml2.cpp:1008-1019 | The part after the preamble, when there is a successor. |
| `DomDocument.XMLDocument.DeleteChildren` | ext/tinyxml2/tinyxml2.cpp:878-885 | Everything below the node is freed, once each, and nothing else. |
| `DomDocument.XMLDocument.DeleteChild` | ext/tinyxml2/tinyxml2.cpp:912-921 | The child and everything below it are unlinked and freed. |
| `DomDocument.XMLDocument.Destroy` | ext/tinyxml2/tinyxml2.cpp:1188-1201 | A node outside the tree is freed with everything below it. |
| `DomDocument.XMLDocument.DeleteNode` | ext/tinyxml2/tinyxml2.cpp:2326-2341 | The node and all its descendants leave the document and are freed once each. |
| `DomDocument.XMLDocument.Clear` | ext/tinyxml2/tinyxml2.cpp:2224-2229 | All nodes are gone, all counters are zero, and the multiset of nodes freed equals the multiset of nodes ever allocated. |
| `DomDocument.NothingLeft` | ext/tinyxml2/tinyxml2.cpp:878-885 | When a node has no children left, everything below it has been freed. |
| `DomDocument.OnlyRootLeft` | ext/tinyxml2/tinyxml2.cpp:2224-2229 | If nothing is listed and the document has no children, there are no nodes. |
| `DynArrays.DynArray.constructor` | ext/tinyxml2/tinyxml2.h:206-211 | An empty array with its built-in capacity. |
| `DynArrays.DynArray.EnsureCapacity` | ext/tinyxml2/tinyxml2.h:298-312 | The contents stay; it fails if and only if growing is needed and there is no memory, and then changes nothing; growing doubles the capacity asked for, and what is copied is counted. |
| `DynArrays.DynArray.Push` | ext/tinyxml2/tinyxml2.h:223-228 | One element more at the end, or nothing changed without memory. |
| `DynArrays.DynArray.PushArr` | ext/tinyxml2/tinyxml2.h:230-236 | Room for more elements, the old ones unchanged, or nothing changed without memory. |
| `DynArrays.DynArray.Pop` | ext/tinyxml2/tinyxml2.h:238-242 | The last element is returned and removed. |
| `DynArrays.DynArray.PopArr` | ext/tinyxml2/tinyxml2.h:244-247 | The last elements are removed. |
| `DynArrays.DynArray.SwapRemove` | ext/tinyxml2/tinyxml2.h:277-282 | One element is removed and the last takes its place; the sequence that results, and the multiset. |
| `DynArrays.DynArray.Clear` | ext/tinyxml2/tinyxml2.h:219-221 | No elements. |
| `DynArrays.DynArray.CopyingIsAmortized` | ext/tinyxml2/tinyxml2.h:298-312 | Over any run, at most twice as many elements are copied as the array ever held. |
| `MemPools.MemPool.constructor` | ext/tinyxml2/tinyxml2.h:345-345 | An empty pool; how many items fit a block. |
| `MemPools.MemPool.Alloc` | ext/tinyxml2/tinyxml2.h:370-394 | An item of the pool that nobody has; a new block only if all items are in use; the free list holds exactly the other items, without a cycle; never more blocks than the fullest moment needed; items in use keep what is in them. |
| `MemPools.MemPool.AddBlock` | ext/tinyxml2/tinyxml2.h:371-382 | The items of a new block are the free ones. |
| `MemPools.MemPool.TakeRoot` | ext/tinyxml2/tinyxml2.h:383-384 | The first free item is handed out. |
| `MemPools.LinkBlock` | ext/tinyxml2/tinyxml2.h:376-381 | The linking loop makes one chain of all items of the block and leaves other items alone. |
| `MemPools.MemPool.Free` | ext/tinyxml2/tinyxml2.h:396-407 | The item goes to the front of the free list; all other items in use keep what is in them. |
| `MemPools.MemPool.WriteItem` | ext/tinyxml2/tinyxml2.h:438-441 | What an owner writes into an item does not disturb the pool, although the link is stored there. |
| `MemPools.MemPool.Clear` | ext/tinyxml2/tinyxml2.h:350-361 | No blocks, no items, all counters zero. |
| `MemPools.TightAlloc` | ext/tinyxml2/tinyxml2.h:370-394 | A block is added only when the pool is fuller than ever before. |
| `ForkMemory.StepInv` | src/script.cpp:210-274 | Every operation of every fork keeps the invariant: writable pages have data of their own, all others are the master's. |
| `ForkMemory.StepViews` | src/script.cpp:210-274 | One operation changes no page of the master and no page of another fork; a write changes one page of its own fork. |
| `ForkMemory.MasterUnchanged` | src/script.cpp:210-274 | Over any run of any number of forks the master's memory stays as it is. |
| `ForkMemory.WriteOverlays` | src/libriscv/lib/libriscv/memory_rw.cpp:26-48 | A write overlays the fork's view with the bytes written if and only if the fork has the page or the rest of the page is zero in the master. |
| `ForkMemory.RunView` | src/libriscv/c/libriscv.cpp:560-601 | Over any run that keeps to that condition, a fork's page is its former content overlaid with the fork's own writes. |
| `ForkMemory.ForkIsOverlay` | src/libriscv/c/libriscv.cpp:560-601 | From its creation on, a fork sees the master overlaid with its own writes only. |
| `ForkMemory.RunOverlays` | src/libriscv/lib/libriscv/memory_rw.cpp:26-48 | For every run in which the fork lives on: after each operation every page is its former content overlaid with the writes so far, if and only if each write meets the condition of WriteOverlays. |
| `ForkMemory.ForkOverlays` | src/libriscv/c/libriscv.cpp:560-601 | The same from the creation of a fork, with the pages of the master. |
| `ForkMemory.UnreadPageIsLost` | src/libriscv/lib/libriscv/memory_rw.cpp:40-46 | Writing one byte to a page never read replaces the master's page by zeros. |
| `ForkMemory.WriteRefused` | src/libriscv/lib/libriscv/memory_rw.cpp:26-48 | A write is refused if and only if the fork has the page, has no copy of it, and the master may not write it. |
| `ForkMemory.ReadDecidesWrite` | src/libriscv/c/libriscv.cpp:79-92 | Reading a page that the master lacks makes it read-only for the fork; writing it first does not. |
| `ForkMemory.WriteTakesPlace` | src/script.cpp:212-260 | A write takes place if and only if the fork has a copy of the page already, or there is room in its workspace or its budget and the fork has not looked at the page or the master may write it; only pages that do not come from the workspace are charged. |
| `ForkMemory.StepRead` | src/script.cpp:261-273 | One operation: a page that a fork has keeps its right to be read; one that comes is readable after a write, or as the master's is. |
| `ForkMemory.RightToReadStays` | src/script.cpp:238-273 | No operation of any fork, and no write, takes away the right to read a page. |
| `ForkMemory.RunReads` | src/script.cpp:261-273 | Over any run, a load succeeds if and only if the fork first came to the page by a write of its own or the master may read it, where a page that the master lacks counts as readable. |
| `ForkMemory.ForkReads` | src/script.cpp:261-273 | The same from the creation of a fork. |
| `ForkMemory.AllGivenBack` | src/libriscv/lib/libriscv/page.hpp:103-106 | Over any run: once all forks are gone, there is exactly the page data that there was before the first. |
| `ForkMemory.BudgetHolds` | src/script.cpp:228-235 | In no run does a fork own more pages than its budget affords. |
| `ForkMemory.BudgetReached` | src/script.cpp:228-235 | Every number of pages within the budget is reached by some run, so the bound is exact. |
| `ForkMemory.WorkspaceBudget` | src/script.cpp:251-259 | The page numbers that the handlers of Script afford stay within the configured bytes if and only if these are whole pages. |
| `ForkMemory.WorkspaceRuns` | src/script.cpp:251-259 | In every run from its creation on, a fork of Script owns no more bytes than configured, if and only if these are whole pages. |
| `ForkMemory.CountedBudget` | src/libriscv/c/libriscv.cpp:561-578 | The page numbers that libriscv_fast_fork affords do if and only if at least one page is configured. |
| `ForkMemory.CountedRuns` | src/libriscv/c/libriscv.cpp:561-578 | In every run from its creation on, a libriscv fork owns no more bytes than configured, if and only if these are at least one page. |
| `ForkMemory.LifeWithin` | src/script.cpp:228-235 | A limit holds in all runs of a fork if and only if every affordable number of pages is within it. |
| `ForkMemory.BudgetsExceeded` | src/script.cpp:251-259 | A run in which a fork of Script exceeds one byte, and one in which a libriscv fork exceeds a byte less than a page. |
| `ForkMemory.OwnedPagesActive` | src/libriscv/lib/libriscv/memory_inline_pages.hpp:97-104 | The loop counts the pages that the table owns. |
| `ForkMemory.Forks.constructor` | src/script.cpp:40-57 | No forks yet. |
| `ForkMemory.Forks.Create` | src/script.cpp:40-57 | A new fork has no pages of its own and sees the master. |
| `ForkMemory.Forks.Destroy` | src/libriscv/lib/libriscv/page.hpp:103-106 | What the fork allocated goes with it; all page data of the master stays. |
| `ForkMemory.Forks.TakePageData` | src/script.cpp:214-235 | When page data is granted, and who owns it, under both kinds of limit. |
| `ForkMemory.Forks.PageFault` | src/script.cpp:212-236 | A fresh page, or out of memory. |
| `ForkMemory.Forks.PageWrite` | src/script.cpp:238-260 | The page gets a writable copy of the shared data, or out of memory. |
| `ForkMemory.Forks.CreateWritablePage` | src/libriscv/lib/libriscv/memory_rw.cpp:26-48 | Which handler runs, and that each outcome keeps the invariant. |
| `ForkMemory.Forks.Write` | src/libriscv/lib/libriscv/memory_inline.hpp:91-142 | A store within a page is the step that the run theorems speak of. |
| `ForkMemory.Forks.Memcpy` | src/libriscv/lib/libriscv/memory_helpers_paging.hpp:25-47 | A store of any length at any address: page by page, up to the first page that cannot be written, with its outcome. |
| `ForkMemory.CopiedIsRun` | src/libriscv/lib/libriscv/memory_helpers_paging.hpp:25-47 | Such a store is a run of stores within pages, so that the run theorems hold for it; it succeeds if all of them take place, and otherwise ends with the first that does not, and with its outcome. |
| `ForkMemory.CopiedLands` | src/libriscv/lib/libriscv/memory_helpers_paging.hpp:25-47 | If it succeeds, the fork holds every byte of it at its address. |
| `ForkMemory.CopiedElsewhere` | src/libriscv/lib/libriscv/memory_helpers_paging.hpp:25-47 | Whatever the outcome, it changes no page of another fork and none that it does not reach. |
| `ForkMemory.Forks.GetReadablePage` | src/script.cpp:261-273 | A load returns what the fork sees; it succeeds if and only if the fork may read the page, as RunReads says of runs; an absent page is installed on loan from the master. |
| `RegexCache.Cache.constructor` | src/script_cache.hpp:62-63 | An empty table with at most sixteen slots. |
| `RegexCache.Cache.Find` | src/script_cache.hpp:16-21 | The first slot with this hash, or none. |
| `RegexCache.Cache.Manage` | src/script_cache.hpp:22-31 | A new last slot, or an exception when the table is full. |
| `RegexCache.Cache.Free` | src/script_cache.hpp:32-35 | The slot becomes blank, whatever it held; beyond sixteen an exception. |
| `RegexCache.Cache.LoanFrom` | src/script_cache.hpp:39-52 | The live entries of the source are appended on loan, in order, if and only if they fit. |
| `RegexCache.Cache.FreeOwned` | src/script.cpp:140-146 | Exactly the owned entries are freed, in order. |
| `RegexCache.RegexCompile` | src/script_functions.cpp:879-914 | An expression with a known hash is found, a new one gets the next slot, and errors change nothing. |
| `RegexCache.LoanPosition` | src/script_cache.hpp:39-52 | A live slot i is on loan at i minus the deleted slots before it. |
| `RegexCache.LoanSource` | src/script_cache.hpp:39-52 | Every loan is of such a slot. |
| `RegexCache.SameHandle` | src/script_cache.hpp:39-52 | A table lends an expression under the same number if and only if no slot before it was deleted. |
| `RegexCache.ForkHandles` | src/script.cpp:89-92 | In every reachable state, whatever happened since the fork: while neither has deleted it, a fork knows an expression of its master by the same number if and only if no slot before it was deleted when the fork was made. |
| `RegexCache.RunKeepsSlots` | src/script_cache.hpp:22-35 | Over any run, a slot keeps its number and its entry until it is deleted, and new slots are not loans. |
| `RegexCache.DeletedForGood` | src/script_functions.cpp:1002-1006 | In every reachable state, whatever happens after regex_delete: the slot is blank for as long as the script lives, and an expression of its own is never freed. |
| `RegexCache.HandleShifts` | src/script_cache.hpp:39-52 | With the first of two expressions deleted, the second has number one in the master and zero in the fork. |
| `RegexCache.DeletedIsFound` | src/script_cache.hpp:16-35 | Deleting a slot and looking for hash zero finds that slot. |
| `RegexCache.FoundIsBlank` | src/script_cache.hpp:16-35 | A lookup finds a slot that holds nothing if and only if it is for hash zero and a blank slot comes before any other with that hash. |
| `RegexCache.HandleIsLive` | src/script_cache.hpp:16-35 | In every reachable state and every script, a lookup that finds a slot finds a live expression if and only if it is no such lookup. |
| `RegexCache.StepInv` | src/script.cpp:140-146 | Compiling, deleting, forking and destroying keep the invariant of all scripts; that the tables take these steps is Scripts. |
| `RegexCache.NewTable` | src/script.cpp:133-137 | The table of a script made from a binary is the one after the step Load. |
| `RegexCache.ForkTable` | src/script.cpp:89-92 | The table of a fork is the one after the step Fork; there is none if and only if the loans do not fit. |
| `RegexCache.CompileIn` | src/script_functions.cpp:879-914 | A table after regex_compile is the one after the step Compile; the number answered has that hash, and an exception means that no slot has it and the pattern is bad or the table full. |
| `RegexCache.DeleteIn` | src/script_functions.cpp:1002-1006 | A table after regex_delete is the one after the step Delete. |
| `RegexCache.DestroyTable` | src/script.cpp:140-146 | What the destructor frees is what the step Destroy records. |
| `RegexCache.Scripts.constructor` | src/script.cpp:133-137 | No scripts: the state with which the run theorems begin. |
| `RegexCache.Scripts.Load` | src/script.cpp:133-137 | A new script with a table of its own; all tables together are the state after the step. |
| `RegexCache.Scripts.Fork` | src/script.cpp:89-92 | The same for a fork; when it fails, nothing changes. |
| `RegexCache.Scripts.Compile` | src/script_functions.cpp:879-914 | All tables together are the state after the step; only that of the script is touched. |
| `RegexCache.Scripts.Delete` | src/script_functions.cpp:1002-1006 | The same for regex_delete. |
| `RegexCache.Scripts.Destroy` | src/script.cpp:140-146 | The same for the destructor, and the calls of VRE_free are those that the state records. |
| `RegexCache.FreedOnce` | src/script.cpp:89-92 | Over any run each expression is freed at most once, by the script that compiled it; no table refers to a freed one; no table outgrows its limit. |
| `RegexCache.NothingForgotten` | src/script_functions.cpp:1002-1006 | Once all scripts are gone, an expression has been freed if and only if it was not deleted and had found a slot; together with Scripts this speaks of the tables themselves. |
| `LiveUpdate.DropOk` | src/live_update.cpp:57-66 | Dropping a reference keeps counters and references in agreement; the last one releases. |
| `LiveUpdate.StepInv` | src/live_update.cpp:133-162 | Every atomic step of the updater and of any request keeps the invariant. |
| `LiveUpdate.InstanceOutlivesBody` | src/sandbox_tenant.cpp:125-176 | In every reachable state, a script's instance is not released before the body of its destructor has ended. |
| `LiveUpdate.KeepsInstance` | src/script.hpp:55-55 | Over any run, a script keeps the one instance it was forked from for as long as it exists; until it drops its reference, that reference is to this instance, which is not released. |
| `LiveUpdate.ReleasedForGood` | src/script.hpp:142-143 | A released instance stays so, and no variable refers to it. |
| `LiveUpdate.OnlySwapReplaces` | src/live_update.cpp:56-66 | Only the exchange changes a program slot, and only the one it is for. |
| `LiveUpdate.NoSwapNoChange` | src/live_update.cpp:48-66 | Over any run without an exchange, such as an update whose construction throws, both program slots stay as they are. |
| `LiveUpdate.SwapReplaces` | src/live_update.cpp:161-162 | The exchange installs the new instance and hands the old one to the updater, still alive. |
| `LiveUpdate.LoadTakes` | src/sandbox_tenant.cpp:133-141 | A request can load a program if and only if there is one in the slot for its debug flag, and stays on that one over any run. |
| `LiveUpdate.NewRequestGetsIt` | src/sandbox_tenant.cpp:133-141 | After an exchange, and until the next, each new request for that slot gets the new instance and no other for as long as it lasts; the other slot is as before. |
| `LiveUpdate.UpdateInstalls` | src/live_update.cpp:43-66 | Whenever no update is under way, one of any kind can be carried out for any new instance: it ends up in its slot, constructed with the argv meant for it, and success is reported. |
| `LiveUpdate.ArgvRestored` | src/live_update.cpp:141-159 | In every reachable state argv is the tenant's or that plus one argument, and the tenant's whenever the updater is idle. |
| `LiveUpdate.BuiltWithArgv` | src/script.cpp:308-313 | An instance is constructed with the tenant's argv, plus the argument if there is one. |
| `LiveUpdate.OutlivesScript` | src/script.hpp:142-143 | Over all runs without an exchange and before the script is gone, its instance is never released, if and only if a program slot holds it. |
| `LiveUpdate.NoneIsSure` | src/script.hpp:142-143 | If exchanges may take place, then from every state some run releases the instance before the script is gone. |
| `LiveUpdate.ReleasedByLast` | src/script.hpp:142-143 | One step: destroying a script's reference releases the instance if and only if it was the last. |
| `LiveUpdate.ReleasedByUpdate` | src/live_update.cpp:57-66 | A script drops a reference that is not the last, and an update releases the instance before the script is gone. |
| `LiveUpdate.ReleasedBeforeMachine` | src/script.hpp:116-143 | Then the instance is gone while the script's machine still exists. |
| `LiveUpdate.UpdateDuringRequest` | src/live_update.cpp:57-66 | An update during a request leaves the old program to that request alone. |
| `LiveUpdate.FailureKeepsSlot` | src/live_update.cpp:43-131 | Over any run of one update: it reports failure if and only if the construction threw, or the state transfer threw or the file could not be written; its slot is as before if and only if the construction threw. |
| `LiveUpdate.FailedButApplied` | src/live_update.cpp:117-131 | An update whose state transfer throws reports a failure, but the new program is installed. |
| `BodyPull.FlatEntry.constructor` | src/vmod_riscv_update.c:76-88 | The whole body is still to be handed over. |
| `BodyPull.FlatEntry.Pull` | src/vmod_riscv_update.c:51-69 | As many bytes as fit, END with the last; nothing else is written. |
| `BodyPull.SegmentEntry.constructor` | src/vmod_riscv_backend.c:105-124 | The first buffer is the current one. |
| `BodyPull.SegmentEntry.HandOver` | src/vmod_riscv_backend.c:71-77 | As much of the current buffer as fits. |
| `BodyPull.SegmentEntry.Pull` | src/vmod_riscv_backend.c:52-98 | The loop over the buffers, for any capacity and any buffers, empty ones too. |
| `BodyPull.SegmentsAreBody` | src/vmod_riscv_backend.c:52-98 | The bytes and the rest are those of the one-buffer pull on the whole body; the status is, if and only if the capacity does not end exactly at the body with empty buffers to come. |
| `BodyPull.SameTransfer` | src/vmod_riscv_update.c:51-69 | With no empty buffer, whole transfers are equal call by call, for every sequence of capacities. |
| `BodyPull.TransferIsBody` | src/vmod_riscv_update.c:51-69 | The chunks make up the body from its start, and the transfer has ended if and only if they are all of it, with a last chunk that is not empty. |
| `BodyPull.SegmentTransferIsBody` | src/vmod_riscv_backend.c:52-98 | The same for the producer with many buffers, none of them empty. |
| `BodyPull.AnyTransfer` | src/vmod_riscv_backend.c:52-98 | For any buffers and capacities: the chunks are those of the one-buffer transfer followed by empty ones, and make up the body from its start; it has ended if and only if there was more room than needed, or just enough and then as many calls without room as there are empty buffers at the end. |
| `BodyPull.AtMostOneLate` | src/vmod_riscv_backend.c:52-98 | If every call has room, empty buffers at the end cost at most one call more. |
| `BodyPull.EmptyTailEndsLate` | src/vmod_riscv_backend.c:79-95 | With an empty last buffer the last byte comes with OK, and END with no bytes. |
| `HeaderTable.MoveDown` | src/script_functions.cpp:117-118 | memmove by one place. |
| `HeaderTable.Http.UnsetAt` | src/script_functions.cpp:102-120 | The field is removed, the others keep their order and their flags. |
| `HeaderTable.Http.Collect` | src/script_functions.cpp:559-572 | The fields that are not empty, by index. |
| `HeaderTable.Http.DeletePass` | src/script_functions.cpp:577-590 | For marks in order, the assertions of http_unsetat hold and exactly the honoured marks are removed. |
| `HeaderTable.Http.ForeachHeaderField` | src/script_functions.cpp:545-594 | Of the fields the callback marked, those that are honoured are removed, all others stay in order; never aborts. |
| `HeaderTable.OneMoreDead` | src/script_functions.cpp:577-590 | A field behind all those removed has moved down by as many places. |
| `HeaderTable.HonouredPrefix` | src/script_functions.cpp:585-588 | The honoured marks are the longest prefix with m_k + k below the number of fields. |
| `HeaderTable.AllHonoured` | src/script_functions.cpp:585-588 | All marked fields are removed if and only if the last mark is still in range at its turn. |
| `HeaderTable.SecondMarkIsLost` | src/script_functions.cpp:585-588 | Of two marked fields that are the whole table, one stays. |
| `HeaderTable.Http.UnsetMatching` | src/script_functions.cpp:673-700 | The fields that do not match stay, in order; the result is the number removed. |
| `HeaderTable.NonMatchingSurvive` | src/script_functions.cpp:673-700 | What stays is the table without exactly the indices that match. |
| `HeaderTable.Http.Append` | src/script_functions.cpp:762-786 | A new last field, or nothing when table or workspace is full. |
| `HeaderTable.Http.Unset` | src/script_functions.cpp:858-877 | The field is removed and its index returned; the invalid index is returned as it is; protocol fields and other bad indices raise an exception. |
| `HeaderTable.Http.CopyFrom` | src/script_functions.cpp:623-649 | A new last field with the text that the field of the other table, or of the same one, had before; exactly when it is refused, and when there is no room. |
| `Crc32.TableIsShift8` | src/machine/crc32_embedded.hpp:4-69 | Each of the 256 entries is its index divided by eight more powers. |
| `Crc32.Shift8Xor` | src/machine/crc32_embedded.hpp:71-78 | Division by eight powers is linear in the register. |
| `Crc32.DivideByte` | src/machine/crc32_embedded.hpp:71-78 | Feeding eight bits one by one is adding the byte and shifting eight times. |
| `Crc32.UpdateDivides` | src/machine/crc32_embedded.hpp:74-78 | A step through the table is eight steps of bitwise division. |
| `Crc32.TableDriven` | src/machine/crc32_embedded.hpp:71-85 | For every byte string, the table-driven CRC is the bitwise remainder, inverted before and after. |
| `Crc32.StringCrc` | src/machine/crc32_embedded.hpp:87-99 | On a C string, it is that of the bytes before the NUL, also for literals with a length. |
| `Crc32.Residue` | src/machine/crc32_embedded.hpp:71-85 | The CRC of any byte string followed by its own CRC is 0x2144DF1C. |

## Left out

- Printing to a `FILE` and the pushing of numbers: the printer model writes strings to its own buffer.
- Error texts and error line numbers, and the line number kept in each node; the parser's line counter itself is modelled, without the 32-bit limit.
- The early `GetStr` calls of the parser on names it compares: the parser model reads an immutable text, and `LazyStrings` decodes afterwards. By the contracts of the parser's methods those spans end before the read position, so that the calls write only to text that has been read.
- Attribute lists of elements outside the parser (`FindOrCreateAttribute`, `DeleteAttribute`), the pool of attributes, cloning, and inserting a node of another document, which is refused: they would add easy members only.
- Number, boolean and float conversions, visitors other than the printer, XMLHandle, file loading.
- Utf8.ConvertUTF32ToUTF8: the bit operations on one code unit are written as sums and remainders.
- DynArrays.DynArray.EnsureCapacity: whether there is memory is a parameter; the assertions against overflow of size_t, which are off in release builds, are not modelled.
- MemPools.MemPool.Alloc: counters are unbounded, and a block is named by its number, not by an address.
- DomDocument.XMLDocument.CreateUnlinkedNode: node memory is explicit (addresses and pointer fields as maps), because nodes are freed; the address comes from the pool as a parameter.
- DomDocument.XMLDocument.MarkInUse: includes the SetTracked call that accompanies it in both of its callers when the node is listed.
- libriscv's page caches, traps, `mprotect` and page freeing by the guest, the flat read-write arena, and loads that cross pages. The master does not run while it has forks.
- The native heap of forks (arena watermark) and everything else the CPU does.
- ForkMemory.Forks.Memcpy: addresses are unbounded, so that a store does not wrap around at the end of the address space.
- ForkMemory.Forks.Write: page data from the workspace or the heap is a parameter; a page that will be overwritten as a whole is modelled as zeroed first.
- Matching and compiling expressions are foreign: their results are parameters. The hash is a parameter of the table.
- RegexCache.FreedOnce: like the other results on runs of scripts, assumes that a master outlives its forks (`RegexCache.Enabled` lets a script be destroyed only when no fork of it is left). Script gets this from the reference to its MachineInstance, which owns the master; that the reference is good until the body of the destructor has ended is `LiveUpdate.InstanceOutlivesBody`.
- The debugger, the storage machine, and what is transferred between programs on update (only that the transfer can throw is modelled). An update of an empty binary or a missing file, which fails before it begins. Two updaters at once are not modelled, nor is a tenant being removed.
- LiveUpdate.InstanceOutlivesBody: stated up to the end of the destructor body, because beyond it the instance can be gone.
- HeaderTable.Http.CopyFrom: the text of a header is a value, not a pointer into a workspace; logging is left out.
- Finding a header by name, setting and copying single headers, and the other system calls: easy members.
- Crc32.Table: the 256 entries are kept in sixteen rows of sixteen.
