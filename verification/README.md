# Verified model of HeimWatt's core

This project models the parts of HeimWatt that every plugin message, configuration file and measurement passes
through, and proves what they promise: the JSON text codec and its heap of nodes (the bundled cJSON), the
allocators, the plugin wire, connection routing, plugin supervision, aligned scheduling and the CSV store.

- **JSON text.** `Json` gives values and the text they print to; `Utf`, `Strings` and `Numbers` the literals;
  `ParseSpec` what the parser accepts; `RoundTrip` the theorem that printing and parsing are inverse up to the nesting
  limit. `Grammar` gives the texts of RFC 8259, and a wider grammar, with what they mean, independently of the parser;
  `Acceptance` proves when a text written in either is read and as what, and `Recognition` the other direction: the
  parser accepts exactly the wider grammar, up to the nesting limit and without lone surrogates; `Conformance` proves
  that what is printed is text of RFC 8259 with the meaning of the value, and `Decimals` joins the two ways to value a
  number.
  `Parser` and `Printer` are the imperative codec over a mutable offset, depth and growing buffer, each method
  proved against that meaning; `Minify` the in-place minifier, with the exact condition under which minifying
  formatted text gives the compact text.
- **JSON nodes.** `Nodes` edits sibling lists in place; `Trees` duplicates whole trees, `TreeEdits` edits their
  children; `Compare` proves what comparing two trees decides.
- **Allocators.** `Buffer` (doubling), `Pool` (free list inside the free slots' own bytes), `Arena` (linked
  blocks, oversize blocks in front, reuse after reset).
- **Wire.** `Ipc` frames messages over partial reads and writes; `Terminated` and `Wire` carry values from one
  end to the other, through the loop that reads commands out of a line, and say which runs of events a
  connection survives; `Routing` keeps connections and endpoints.
- **Supervision, schedule, store.** `Supervision` steps plugin states against a process table; `Schedule` is the
  aligned-time arithmetic; `CsvTable` and `CsvStore` are the table, its replay and its range scan.

Code that changes things in place is modelled as classes and methods with loops, each tied by its contract to a
function of the old state; ghost fields record histories (bytes received and written, messages returned and
sent, slots held, regions live, all that the system was asked and its answers) so that a property of the history is a property of every run.

Where the code differs from its documentation or from what one would expect, the code is modelled and the exact
condition is proved; where something one would expect fails, a concrete input shows it:

- `libs/cJSON.h:168` asks for 5 bytes more than needed when printing into a caller's buffer. Two bytes more than
  the text are enough, and necessary (`Printer.PrintPreallocated`).
- A text of RFC 8259 parses to all it means exactly when it is at most 1000 deep, no surrogate in it stands alone, and
  no text or key holds U+0000 (`Acceptance.TextMeans`; `"\ud800"` in `Acceptance.LoneSurrogateIsRefused`, `"\u0000"` in
  `Acceptance.NulIsCut`).
- Beyond RFC 8259 the parser takes a byte order mark, any byte up to the space as a blank, leading zeros, a dot without
  digits on one side, unescaped control characters and the malformed escapes below, and nothing else
  (`Recognition.AcceptedExactly`).
- A `\u` without four hexadecimal digits is read as U+0000 instead of being refused; that is the only way a
  malformed literal is accepted (`Strings.AcceptsMalformed`; `\uzzzz` in `Strings.MalformedExample`).
- Minifying treats a quote after a backslash as escaped even when that backslash is itself escaped. The result
  is still the compact text exactly when no string or key ends in a backslash, or when the only string that does
  is followed by nothing but closing brackets of arrays (`Minify.MinifyIsCompact`; the array of a backslash and
  `null` in `Minify.MinifyFails`).
- Appending a node whose `next` is set keeps a list only if the list was empty; so does inserting at the end
  (`Nodes.AddItemToArray`, `Nodes.InsertItemInArray`; `Nodes.AppendWithSuccessor`).
- Comparing is transitive on integers exactly up to 2^52 in magnitude (`Compare.TransitiveUpToBorder`; the three
  integers around 2^52 in `Compare.BeyondTheBorder`), and not on fractions (`Compare.FractionsAreNotTransitive`). It
  is reflexive exactly on trees in which repeated names agree (`Compare.EqualsItselfExactly`;
  `Compare.DuplicateNamesDiffer`).
- A message that holds a newline arrives as more than one; everything arrives as it was sent exactly when none does
  (`Ipc.Delivery`). The answers to a query for the latest value are such messages
  (`src/core/ipc_handlers.c:231-238`, `Ipc.NewlineInMessage`).
- A connection survives a run of events exactly when there is no error, no write fails and every read event completes
  a line (`Wire.ServedAlive`, `Wire.ServeEvents`); it does not survive a read of part of a line (`Wire.PartialLine`).
- A hello keeps every endpoint with a connected plugin unless it gives up an id that endpoints are registered under
  and no other connection has (`Routing.Server.CmdHello`; `Routing.SecondHello`). A registration does unless the id
  is cut to one that is nobody's (`Routing.Server.CmdRegisterEndpoint`; `Routing.LongId`).
- Starting or restarting a plugin that is STOPPING or RESTARTING loses its process, and nothing else ever does
  (`Supervision.PluginMgr.StartPlugin`, `Supervision.Supervise`; `Supervision.StartWhileStopping`).
- A CSV file that exists but is empty never gets a header, and what the first close writes to it is not read
  back (`CsvStore.CloseAndReopen`; `CsvStore.EmptyFileLoses`).
- The pool does not round item sizes up to a multiple of 8, so its slots, which are written as pointers, are all
  aligned exactly when the item size is a multiple of 8 or less than 8, or there is one slot (`Pool.SlotsAligned`; items
  of 12 bytes in `Pool.TwelveIsNotAligned`).
- A registered endpoint is found again exactly when its path and method are shorter than 128 and 16 bytes
  (`Routing.RegisterAndLookup`).
- The arena clears the `used` count of a block it moves on to, although it is already zero (`Arena.HwArena.NextBlock`).

Run `dafny verify dfyconfig.toml` to check everything.

## Model

| member | source | states |
|---|---|---|
| Json.RenderBytes | libs/cJSON.c:1418-1489 | printed text holds no byte below 32, but for the line breaks and tabs of formatted text; so no NUL, and no newline in compact text |
| Json.RenderStarts | libs/cJSON.c:1418-1489 | the first byte of any printed value is a printable ASCII character other than a closing bracket |
| Json.EscapeIsPrintable | libs/cJSON.c:949-1068 | escaping leaves no control character |
| Json.ShortEscapes | libs/cJSON.c:1025-1062 | exactly seven bytes have an escape of two bytes, each its own; what is not escaped is no control character and printed as it is |
| Json.NestingIsDepth | libs/cJSON.c:1496-1500 | the nesting of a value is how many arrays and objects deep it goes, one inside another |
| Json.ArrayExample | libs/cJSON.c:1613-1637 | an array with an empty object, formatted and compact, byte for byte |
| Json.ObjectExample | libs/cJSON.c:1797-1881 | an object with two members, formatted and compact, byte for byte |
| Json.ValueInt | libs/cJSON.c:386-400 | a number becomes its `valueint` by truncation toward zero, saturated at the ends of `int` |
| Utf.Hex4 | libs/cJSON.c:661-695 | the number four hexadecimal digits stand for, each digit counting as its place in `0123456789abcdef` or `0123456789ABCDEF` and 16 times the next, and 0 as soon as one is bad; at most 16 bits |
| Utf.HexDigits | libs/cJSON.c:666-684 | the digits are exactly the bytes of these two texts, and the value of each is its place |
| Utf.ParseHex4 | libs/cJSON.c:661-694 | the loop with its shifts reads the number four hexadecimal digits stand for, or 0 |
| Utf.SurrogatesRoundTrip | libs/cJSON.c:752-753 | decoding a surrogate pair inverts the encoding of section 2.1 of RFC 2781, for every value beyond the basic plane |
| Utf.LiteralReads | libs/cJSON.c:698-759 | for all bytes: one escape outside the surrogates is its own character, a high surrogate counts exactly with a low one behind it, and then as the pair, a low one on its own never; bad digits are U+0000; nothing is read of less than 6 bytes |
| Utf.Utf8RoundTrip | libs/cJSON.c:761-808 | reading UTF-8 back by section 3 of RFC 3629, shortest forms only, inverts the encoder for every scalar value |
| Utf.FromUtf8Injective | libs/cJSON.c:761-808 | no two byte sequences mean the same character |
| Utf.BitForms | libs/cJSON.c:793-808 | the shifts and masks of the encoder are the quotients and remainders used here |
| Utf.SurrogateBitForm | libs/cJSON.c:752-753 | the masks and shifts that join two surrogates are the arithmetic used here |
| Utf.EncodeUtf8 | libs/cJSON.c:761-812 | the loop that fills the output from the last byte down writes exactly the UTF-8 of the character and nothing else |
| Strings.ScanFindsClosed | libs/cJSON.c:833-854 | the first scan finds the quote behind any literal without a bare quote or an unpaired last backslash |
| Strings.ScanGivesClosed | libs/cJSON.c:833-854 | what the first scan hands to the decoder has neither |
| Strings.StepFits | libs/cJSON.c:867-920 | one decoding round writes no more than the first scan reserved for the bytes it takes, in step with that scan or not |
| Strings.DecodeFits | libs/cJSON.c:833-923 | for every literal, well-formed or not, the decoded bytes and the terminator fit the size computed by the first scan |
| Strings.SkippedOfPieces | libs/cJSON.c:833-859 | on a well-formed literal the first scan counts exactly its escapes, so the size computed is that much less than the literal |
| Strings.Letters | libs/cJSON.c:878-900 | exactly eight letters may follow a backslash, each with its own meaning |
| Strings.DecodeWellFormed | libs/cJSON.c:865-923 | every literal that is well-formed by section 7 of RFC 8259 decodes to what its pieces mean: escapes, code points, surrogate pairs as UTF-8 |
| Strings.DecodeReads | libs/cJSON.c:865-923 | any literal cut into pieces, malformed ones included, decodes to what they mean if and only if no surrogate stands alone |
| Strings.DecodeOnlyReads | libs/cJSON.c:865-923 | whatever is decoded at all is cut into such pieces without a lone surrogate, and decoded to what they mean |
| Strings.DecodeOnlyWellFormed | libs/cJSON.c:865-923 | a literal whose decoding meets only good digits is accepted only if it is well-formed, and then with that meaning |
| Strings.AcceptsMalformed | libs/cJSON.c:681-684 | a literal is accepted without being well-formed if and only if it decodes and meets a `\u` without its four digits |
| Strings.MalformedExample | libs/cJSON.c:681-684 | `\uzzzz` is one |
| Strings.EscapeIsWellFormed | libs/cJSON.c:1008-1068 | escaping any bytes gives a well-formed literal that means those bytes |
| Strings.EscapeRoundTrip | libs/cJSON.c:949-1068 | decoding undoes escaping, for all bytes |
| Numbers.StrtodOfDecimal | libs/cJSON.c:307-408 | the decimal text of an integer, read as a number, is that integer, and all of it is read |
| Numbers.ValueIntOfDecimal | libs/cJSON.c:386-400 | and its `valueint` is that integer again |
| Numbers.NumberRunStops | libs/cJSON.c:325-354 | the bytes taken for a number end where its decimal text ends |
| RoundTrip.ValueParses | libs/cJSON.c:1363-1415 | at any place in a larger text and at any depth: parsing the printed text returns the value and exactly the bytes behind it, or nothing when the value goes deeper than the limit |
| RoundTrip.TextRoundTrip | libs/cJSON.c:1142-1219 | printing then parsing is the identity, compact or formatted, order and duplicate keys kept, if and only if the value is at most 1000 deep |
| RoundTrip.ParsedIsWf | libs/cJSON.c:1363-1415 | whatever the bytes, what parses is within the nesting limit and, if its numbers are 32-bit integers, a value the printer is exact on: C strings for texts and keys |
| RoundTrip.ReprintedParsesSame | libs/cJSON.c:1142-1219 | parsing, printing in either format and parsing again returns the same value |
| Grammar.CutIsWhole | libs/cJSON.c:922-926 | a value whose texts and keys are cut at their first U+0000 is the value itself exactly when none of them holds one |
| Grammar.RfcIsLoose | libs/cJSON.c:1363-1415 | every document of RFC 8259 is one of the wider grammar |
| Decimals.ValueIsScaled | libs/cJSON.c:378 | the value of a number, digit by digit (units, tens, tenths, and ten times or a tenth for each step of the exponent), is all its digits as one integer times a power of ten |
| Acceptance.NumeralReads | libs/cJSON.c:307-408 | every number of section 6 of RFC 8259, and every wider one, is read whole and as its exact value, digit by digit |
| Acceptance.NumbersAreRead | libs/cJSON.c:307-408 | `1.5`, `-0.25` and `1e3` |
| Acceptance.EscapesAreRead | libs/cJSON.c:661-695 | `"\u00E9"` and `"\u00e9"` are both read as the two bytes of U+00E9 |
| Acceptance.LiteralReads | libs/cJSON.c:819-946 | every string, whatever the spelling of its escapes, is read as its text up to the first U+0000, and refused if and only if a surrogate in it stands alone |
| Acceptance.DocParses | libs/cJSON.c:1363-1415 | at any place in a larger text: every value of the wider grammar, with any blanks inside, parses to its meaning, each text up to its first U+0000, and leaves the bytes behind it, unless it is too deep or has a lone surrogate |
| Acceptance.LooseTextParses | libs/cJSON.c:1110-1219 | the same for whole texts of the wider grammar, with a byte order mark or none |
| Acceptance.TextParses | libs/cJSON.c:1142-1219 | every text of RFC 8259, with whitespace around it, is accepted if and only if it is at most 1000 deep and no surrogate stands alone, and then parses to what it means up to the first U+0000 of each text and key |
| Acceptance.TextMeans | libs/cJSON.c:1142-1219 | it parses to all it means if and only if, besides, no text or key holds U+0000 |
| Acceptance.LoneSurrogateIsRefused | libs/cJSON.c:723-734 | `"\ud800"` is a text of RFC 8259 and refused |
| Acceptance.NulIsCut | libs/cJSON.c:922-926 | `"\u0000"` is one, means one character, and parses to the empty text |
| Recognition.NumberIsSpelled | libs/cJSON.c:307-408 | whatever `strtod` takes of a number is a numeral of the wider grammar, with its value |
| Recognition.LiteralIsSpelled | libs/cJSON.c:819-946 | whatever string is accepted is written in pieces that no quote interrupts, and read as what they mean |
| Recognition.ParsedIsSpelled | libs/cJSON.c:1363-1415 | at any depth and for any bytes: what parses is a document of the wider grammar within the limit, without lone surrogates, and parses to its meaning |
| Recognition.TextIsSpelled | libs/cJSON.c:1110-1219 | so is every whole text that is accepted, with blanks in front and a byte order mark or none; behind it are blanks only if that was asked for |
| Recognition.AcceptedExactly | libs/cJSON.c:1142-1219 | a text that must end behind its value parses to a value if and only if it is written in the wider grammar, within the limit and without lone surrogates, and means that value up to the first U+0000 of each text and key |
| Recognition.PrefixAcceptedExactly | libs/cJSON.c:1142-1219 | the same for a text that may go on behind its value |
| Conformance.DecimalIsNumeral | libs/cJSON.c:591-658 | a printed integer is a number of section 6 of RFC 8259, without leading zeros, of that value |
| Conformance.QuotedIsLiteral | libs/cJSON.c:949-1080 | a printed text is a string of section 7 that means the text, with no surrogate alone |
| Conformance.RenderedIsRfc | libs/cJSON.c:1418-1489 | what is printed of a value, compact or formatted, at any depth and place, is a document of RFC 8259 that means this value |
| Conformance.PrintedIsRfc | libs/cJSON.c:1234-1310 | so is the whole text |
| Parser.ParseBuffer.SkipWhitespace | libs/cJSON.c:1085-1108 | skips every byte up to the space, NUL included, and steps back one at the end of the buffer |
| Parser.ParseBuffer.ScanString | libs/cJSON.c:832-854 | finds the closing quote and counts the skipped bytes |
| Parser.ParseBuffer.Utf16ToUtf8 | libs/cJSON.c:698-817 | decodes one or two escapes into the output at its place, or leaves the output alone |
| Parser.ParseBuffer.DecodeOne | libs/cJSON.c:869-919 | one round of the decoding loop, the closing quote read as an escape when the literal ends in a backslash |
| Parser.ParseBuffer.DecodeLiteral | libs/cJSON.c:856-923 | the loop stays inside an output of the computed size, its input never passes the end by more than one, and it yields the decoding |
| Parser.ParseBuffer.ParseString | libs/cJSON.c:819-946 | agrees with what a string literal means, from the same bytes to the same rest |
| Parser.ParseBuffer.ParseNumber | libs/cJSON.c:307-408 | agrees with what a number means |
| Parser.ParseBuffer.ParseValue | libs/cJSON.c:1363-1415 | for every buffer: reads only inside it, terminates, agrees with what the text means, and on success has advanced and restored the depth |
| Parser.ParseBuffer.ParseElement | libs/cJSON.c:1550-1556 | the byte before an element, the blanks and the element |
| Parser.ParseBuffer.ParseArray | libs/cJSON.c:1492-1587 | the same for arrays, with the depth never above the limit, the `offset--` before the loop included |
| Parser.ParseBuffer.ParseMember | libs/cJSON.c:1708-1737 | the same for one key and value |
| Parser.ParseBuffer.ParseObject | libs/cJSON.c:1652-1767 | the same for objects |
| Parser.ParseWithLength | libs/cJSON.c:1142-1219 | a whole buffer: the value and where reading stopped, or a place of the error inside the text |
| Printer.CountEscapes | libs/cJSON.c:976-1000 | the first pass counts exactly the bytes escaping adds |
| Printer.PrintBuffer.Ensure | libs/cJSON.c:485-569 | room for the bytes asked for and one more, or none to be had; what was written is kept across growth, to twice what is needed or to the limit |
| Printer.PrintBuffer.UpdateOffset | libs/cJSON.c:571-581 | the offset moves to the NUL behind the text |
| Printer.PrintBuffer.PrintNumber | libs/cJSON.c:591-658 | the decimal text and its NUL, exactly when there is room for it and one byte more |
| Printer.PrintBuffer.WriteEscaped | libs/cJSON.c:1021-1063 | the second pass writes the escaping |
| Printer.PrintBuffer.PrintString | libs/cJSON.c:949-1080 | the quoted text and its NUL behind what was there, exactly when there is room |
| Printer.PrintBuffer.PrintValue | libs/cJSON.c:1418-1489 | succeeds exactly when the text and two bytes more fit; then earlier bytes are unchanged and the new ones are the rendering |
| Printer.PrintBuffer.PrintItem | libs/cJSON.c:1615-1636 | one round over elements: the offset grows by the rendered length |
| Printer.PrintBuffer.PrintItems | libs/cJSON.c:1613-1637 | the loop over elements |
| Printer.PrintBuffer.PrintArray | libs/cJSON.c:1590-1649 | as for values |
| Printer.PrintBuffer.PrintKey | libs/cJSON.c:1799-1832 | indentation, key and colon |
| Printer.PrintBuffer.PrintMember | libs/cJSON.c:1799-1860 | one round over members |
| Printer.PrintBuffer.PrintMembers | libs/cJSON.c:1797-1861 | the loop over members |
| Printer.PrintBuffer.PrintObject | libs/cJSON.c:1770-1881 | as for values |
| Printer.PrintPreallocated | libs/cJSON.c:1343-1360 | works if and only if the buffer is at least two bytes longer than the text, and then holds the text and a NUL |
| Printer.Print | libs/cJSON.c:1234-1310 | a block of its own with the text and a NUL, unless the text and two bytes exceed `int` |
| Minify.MinifyIsCompact | libs/cJSON.c:2909-2955 | minifying the formatted text of a value gives its compact text if and only if no string or key ends in a backslash, or the only one is a string with nothing but closing array brackets behind it |
| Minify.Removed | libs/cJSON.c:2909-2955 | outside strings: blanks go, a line comment goes with its line break, a block comment with its first end mark, an unended comment with the rest, any other slash goes, every other byte stays |
| Minify.Kept | libs/cJSON.c:2887-2907 | inside strings every byte stays; a quote ends the string unless a backslash is in front of it |
| Minify.MinifyFails | libs/cJSON.c:2887-2907 | one value for which it does not |
| Minify.MinifiesValue | libs/cJSON.c:2909-2955 | the three cases, at any place in a larger text: copied exactly, copied but left inside a string, or different whatever follows |
| Minify.OutsideQuoted | libs/cJSON.c:2887-2907 | a printed string is copied whole, and left again unless it ends in a backslash |
| Minify.SkipOnelineComment | libs/cJSON.c:2860-2871 | reads to behind the next line break or to the end |
| Minify.SkipMultilineComment | libs/cJSON.c:2873-2885 | reads to behind the closing mark or to the end |
| Minify.MinifyString | libs/cJSON.c:2887-2907 | copies a string; the write position does not pass the read position |
| Minify.MinifyInPlace | libs/cJSON.c:2909-2955 | the C string becomes its minified text in place, the write position never passing the read position and nothing behind the old terminator touched |
| Nodes.ListIsUnique | libs/cJSON.c:2012-2043 | the child sequence of a node is determined by its links |
| Nodes.AddItemToArray | libs/cJSON.c:2012-2043 | fails exactly on a missing or self-inserted item; else the links are set, and the children are the old ones and the item, if and only if the list was empty or the item had no successor |
| Nodes.AppendWithSuccessor | libs/cJSON.c:2012-2043 | appending to one child a node that has a successor sets all links but leaves no list of the two |
| Nodes.GetArrayItem | libs/cJSON.c:1907-1934 | the child at that index, if there are that many |
| Nodes.DetachItemViaPointer | libs/cJSON.c:2243-2277 | the children without the item, which is unlinked; a node in no list changes nothing, nor do its links |
| Nodes.DetachItemFromArray | libs/cJSON.c:2279-2287 | the same by index |
| Nodes.InsertItemInArray | libs/cJSON.c:2319-2351 | the children with the item in front of that index; at the end, as for appending, if and only if the list was empty or the item had no successor |
| Nodes.ReplaceItemViaPointer | libs/cJSON.c:2353-2400 | the children with the item replaced, a list again: links agree, no cycle, the head's `prev` is the tail |
| Trees.DuplicateRec | libs/cJSON.c:2774-2858 | a tree of new nodes only, with the same contents all the way down, if and only if the tree is within the depth limit; the original is untouched |
| Trees.HeightIsDepth | libs/cJSON.c:2782-2831 | the height the limit is compared with is how many nodes go down one below another |
| Trees.CopyChildren | libs/cJSON.c:2817-2847 | the children duplicated under the new node, links complete |
| Trees.Link | libs/cJSON.c:2829-2841 | one more child at the end of the list being built |
| Trees.Close | libs/cJSON.c:2844-2847 | setting the head's `prev` completes the tree |
| TreeEdits.AppendTree | libs/cJSON.c:2012-2043 | appending a whole tree to a tree gives the tree with its children and that one |
| TreeEdits.InsertTree | libs/cJSON.c:2319-2351 | inserting one, the tree with it at that place |
| TreeEdits.DetachTree | libs/cJSON.c:2243-2277 | detaching a child gives two trees that share nothing |
| TreeEdits.ReplaceTree | libs/cJSON.c:2353-2400 | replacing a child, the tree with the other one in its place, and the old child as a tree of its own |
| Compare.IntegersCompareExactly | libs/cJSON.c:584-588 | on integers up to 2^52 in magnitude the tolerance is equality, but that the integer at the border equals its neighbour |
| Compare.BorderIsCrossed | libs/cJSON.c:584-588 | beyond it there are three integers of which each equals the next but not the one after |
| Compare.StrcmpComparesLower | libs/cJSON.c:133-154 | the case-insensitive comparison is equality of the lower-case C strings |
| Compare.LowerCase | libs/cJSON.c:145-151 | the 26 capital letters go to their small ones, every other byte stays |
| Compare.SearchFindsFirst | libs/cJSON.c:1936-1966 | the search finds the first member of that name under the case rule; by exact name, if no member without a name comes before |
| Compare.CompareIsMeaning | libs/cJSON.c:3057-3180 | two trees of integers up to 2^52 compare equal if and only if they mean the same and both are consistent: objects as tables from names to values, members of one name meaning the same |
| Compare.PlainTreesCompareExactly | libs/cJSON.c:3057-3137 | trees without objects, of integers below 2^52 and C strings, compare equal if and only if they are equal |
| Compare.ObjectsCompareByName | libs/cJSON.c:3139-3176 | two objects whose names are distinct compare equal if and only if each member of one has an equal member of the same name in the other |
| Compare.EqualsItself | libs/cJSON.c:3057-3180 | such a tree equals a copy of itself exactly when it is consistent |
| Compare.EqualsItselfExactly | libs/cJSON.c:3057-3180 | any tree equals a copy of itself exactly when all members of objects have names and each repeated name has a value equal to the first |
| Compare.CompareIsSymmetric | libs/cJSON.c:3057-3180 | symmetric on all trees, whatever their numbers and names |
| Compare.CompareIsTransitive | libs/cJSON.c:3057-3180 | transitive on trees of integers up to 2^52, duplicate names included |
| Compare.TransitiveUpToBorder | libs/cJSON.c:3057-3180 | transitive on trees of integers of magnitude at most n if and only if n is at most 2^52 |
| Compare.BeyondTheBorder | libs/cJSON.c:584-588 | three number nodes that break transitivity beyond it |
| Compare.DistinctIsConsistent | libs/cJSON.c:3139-3176 | distinct names make a tree consistent |
| Compare.DistinctEqualsItself | libs/cJSON.c:3139-3176 | any tree with distinct names equals a copy of itself, whatever its numbers |
| Compare.DuplicateNamesDiffer | libs/cJSON.c:3139-3176 | an object that does not equal its own copy |
| Compare.FractionsAreNotTransitive | libs/cJSON.c:584-588 | three number nodes with fractions that break transitivity |
| Compare.DuplicateAndCompare | libs/cJSON.c:2769-2772 | a duplicate has the contents of its original, and compares equal to it exactly when repeated names agree, so whenever names are distinct; for integers up to 2^52 exactly when it is consistent |
| Buffer.CapForIsLeast | src/core/memory.c:321-332 | the capacity is the least 256 times a power of two that covers the need |
| Buffer.HwBuffer.EnsureCap | src/core/memory.c:321-350 | the capacity is the one the largest need so far leads to, contents kept, new space zeroed, and all capacities copied so far sum to less than it |
| Buffer.HwBuffer.Append | src/core/memory.c:352-367 | contents are concatenated, with the sentinel behind them |
| Buffer.HwBuffer.Clear | src/core/memory.c:314-319 | no contents, same capacity |
| Pool.PointerFits | src/core/memory.c:82-85 | a pointer read back from its eight bytes is the one stored |
| Pool.SlotsApart | src/core/memory.c:109-117 | slots do not overlap |
| Pool.HwPool.PointersDiffer | src/core/memory.c:109-117 | different slots have different addresses |
| Pool.HeldAndFree | src/core/memory.c:72-80 | live slots and free slots together are all slots |
| Pool.Create | src/core/memory.c:87-121 | all slots free, in order, none smaller than a pointer; in an aligned block all aligned exactly if the item size is a multiple of 8 or less than 8, or there is one slot |
| Pool.SlotsAligned | src/core/memory.c:87-117 | the same for the distances from the block |
| Pool.TwelveIsNotAligned | src/core/memory.c:112-115 | with items of 12 bytes the second slot is 4 bytes off |
| Pool.HwPool.LinkAll | src/core/memory.c:109-119 | the loop links each slot to the next through their own bytes |
| Pool.HwPool.Alloc | src/core/memory.c:123-138 | fails exactly when all slots are held, and is then counted; else the first free slot, held by nobody before, zeroed, all other slots untouched |
| Pool.HwPool.Free | src/core/memory.c:140-150 | a held slot goes to the front of the free list, which stays without cycles and holds exactly the slots not held; null changes nothing |
| Pool.HwPool.OwnerWrites | src/core/memory.c:123-138 | whatever an owner writes to its slot, the free list is unharmed |
| Arena.Aligned | src/core/memory.c:218-219 | the size rounded up to a multiple of 8 |
| Arena.HwArena.constructor | src/core/memory.c:196-212 | one block, of at least 1024 bytes |
| Arena.HwArena.Alloc | src/core/memory.c:214-266 | one more live region: aligned, in bounds, zeroed, disjoint from all others, no other byte of any block changed, from the block the policy says; nothing for size 0 |
| Arena.HwArena.AllocOversize | src/core/memory.c:221-239 | a request larger than a block gets a block of its own in front of the list |
| Arena.HwArena.NextBlock | src/core/memory.c:241-254 | moves on to the next block or a new one; blocks after `current` hold no live region, and their `used` is already 0 |
| Arena.HwArena.Bump | src/core/memory.c:256-265 | the next bytes of `current`, zeroed |
| Arena.HwArena.Reset | src/core/memory.c:268-277 | no region is live, every block empty and kept, allocation starts at the head |
| Ipc.LinesOfPrefix | src/core/ipc.c:205-216 | framing is injective: of two streams one of which starts the other, the messages of one start those of the other |
| Ipc.IpcConn.FindNewline | src/core/ipc.c:158-161 | the first newline in the buffer |
| Ipc.IpcConn.TakeLine | src/core/ipc.c:163-184 | the line leaves the buffer, the rest moves to the front |
| Ipc.IpcConn.Recv | src/core/ipc.c:152-203 | over any sequence of reads: what comes back, what stays buffered and how many reads were made is exactly what the reads make of the buffer; bytes received are the returned messages, each with its newline, then the buffer |
| Ipc.IpcConn.Flush | src/core/ipc.c:222-246 | bytes written and bytes pending are the messages sent, each with its newline; done exactly when nothing is pending; EAGAIN loses nothing |
| Ipc.IpcConn.Send | src/core/ipc.c:205-220 | the message and its newline are queued whatever the write does |
| Ipc.IpcConn.HasPending | src/core/ipc.c:248-250 | true exactly when not everything sent has been written |
| Ipc.Delivery | src/core/ipc.c:152-250 | what a receiver has returned is the first of what was sent, in order, if no message holds a newline; once nothing is on the way it is all of it if and only if none does |
| Ipc.NewlineInMessage | src/core/ipc_handlers.c:237-238 | an answer with a newline of its own is two messages on the wire |
| Terminated.TextKeepsTerminator | libs/cJSON.c:1126-1140 | parsing a C string never consumes its NUL, so there is always a position to go on from |
| Wire.ProcessIncoming | src/server.c:451-470 | the loop terminates and hands on the commands of the text up to its first NUL, one after another up to the first it cannot parse |
| Wire.CommandsOfRendered | src/server.c:451-470 | a line that is one printed value is read as that one command |
| Wire.CommandsOfSeveral | src/server.c:451-470 | any values printed one after another in one text, with gaps between them, are all read, in order |
| Wire.EndToEnd | src/server.c:451-470 | any list of values, each sent compactly as one line, under any partial writes and reads: the commands received are the first of that list, in order, and all of it in the end |
| Wire.HandleClientEvent | src/server.c:504-538 | one event, fully: whether the connection is given up (exactly on an error event, a failed flush, or a read event that does not complete a line), the bytes read, the line returned, its commands, and what stays buffered and pending |
| Wire.PartialLine | src/server.c:519-536 | a new connection that reads only `{` is given up, that byte read and no line returned |
| Wire.ServedAlive | src/server.c:504-538 | a run of events is survived if and only if there is no error, no write fails and every read event completes a line, and then each has returned one |
| Wire.ServeEvents | src/server.c:504-538 | any run of events leaves the connection, the bytes received, the lines returned and the commands exactly as the events make them; if the bytes that arrive start a stream of printed values, the commands are the first of those values, in order |
| Routing.Field | src/core/ipc_handlers.c:255-258 | a text that does not fit its field keeps one byte less than the field has |
| Routing.SwapRemove | src/server.c:489-499 | overwriting with the last element and shortening removes that element and no other |
| Routing.SwapOutAt | src/server.c:480-492 | the last element takes its place, all others stay where they are |
| Routing.OthersStay | src/server.c:487-492 | the loop that takes a plugin out keeps exactly the multiset of other plugins' entries |
| Routing.Server.HandleNewConnection | src/server.c:435-449 | a new connection joins if there are fewer than 32 |
| Routing.Server.CmdHello | src/core/ipc_handlers.c:361-369 | endpoints go on naming connected plugins unless, before the call, the connection has another id that endpoints name and no other connection has |
| Routing.Server.CmdRegisterEndpoint | src/core/ipc_handlers.c:244-263 | one more entry exactly when the caller has an id, path and method are given and there is room; endpoints go on naming connected plugins unless one is added and what its field leaves of the id is nobody's |
| Routing.Server.RemoveEndpoints | src/server.c:486-493 | the loop in place does that to the registry |
| Routing.Server.DisconnectClient | src/server.c:472-502 | one connection less, its plugin's entries gone, all others kept; every entry still names a connected plugin |
| Routing.Server.Lookup | src/server.c:203-220 | a connection of the first matching entry whose plugin is connected; fails exactly when no entry matches, if every entry names a connected plugin |
| Routing.Handle | src/server.c:600-611 | one event does to ids and endpoints exactly what the step function says, and keeps every endpoint with a connected plugin under the discipline of one hello with an id that fits |
| Routing.Serve | src/server.c:585-621 | any run: the tables are what the events make of them, connections distinct and at most 32, and under the discipline every endpoint names a connected plugin |
| Routing.RegisterThenLookup | src/core/ipc_handlers.c:244-263 | a plugin with an id that fits registers: if there is room, a request for that path and method finds a connection if and only if both fit their fields, and it is this plugin's unless an earlier entry serves it |
| Routing.RegisterAndLookup | src/server.c:203-220 | the same after any run of events |
| Routing.SecondHello | src/core/ipc_handlers.c:361-369 | a run with a second hello after which an endpoint names nobody |
| Routing.LongId | src/core/ipc_handlers.c:258 | a run with an id of 64 bytes after which one does |
| Supervision.PluginMgr.constructor | src/core/plugin_mgr.c:48-53 | nothing runs at first |
| Supervision.PluginMgr.StartPlugin | src/core/plugin_mgr.c:355-388 | unless the plugin runs, the system is asked once whether its file is executable, and for a process once exactly if it is; the plugin then runs, with that id, if and only if there was one, and has failed if not; process ids stay tracked, and a process is lost if and only if the handle was STOPPING or RESTARTING, and then that one |
| Supervision.StartsMeans | src/core/plugin_mgr.c:355-388 | what a start can ask and what then becomes of the handle, case by case |
| Supervision.StartOfStopped | src/core/plugin_mgr.c:355-388 | a stopped plugin whose file is executable and whose process gets the id 7 runs with that id, and nothing else |
| Supervision.PluginMgr.StartAll | src/core/plugin_mgr.c:390-404 | every plugin that does not run is started, in order, and runs or has failed as the answers say; the result is how many run, and lost are exactly the processes that were on their way out |
| Supervision.PluginMgr.StopPlugin | src/core/plugin_mgr.c:406-422 | what runs is sent SIGTERM and is STOPPING, or stopped if there is no such process; no process is lost |
| Supervision.PluginMgr.StopAll | src/core/plugin_mgr.c:424-468 | from any reachable state: every running plugin is sent SIGTERM first; what is left is asked after in up to 30 rounds, as long as something is left; a process is sent SIGKILL if and only if it was asked after 30 times and had not ended; in the end no handle keeps a process id, and left are exactly the children no handle had the id of, none if all were accounted for |
| Supervision.DeafAreKilled | src/core/plugin_mgr.c:433-467 | whatever the answers: who is told to end, asked, killed and waited for, each exactly once or 30 times |
| Supervision.PluginMgr.Get | src/core/plugin_mgr.c:509-519 | the first handle of that id |
| Supervision.PluginMgr.Start | src/core/plugin_mgr.c:474-479 | starts the first handle of that id, asking no more than that takes, and touches no other |
| Supervision.PluginMgr.Stop | src/core/plugin_mgr.c:481-487 | the same for stopping |
| Supervision.PluginMgr.Restart | src/core/plugin_mgr.c:489-503 | a running plugin is RESTARTING, any other is started; accounted for if and only if it was not STOPPING or RESTARTING |
| Supervision.PluginMgr.CheckOne | src/core/plugin_mgr.c:597-643 | one handle: asked after if it has a process, and reaped or restarted exactly if that has ended |
| Supervision.PluginMgr.CheckHealth | src/core/plugin_mgr.c:591-646 | from any reachable state: every process is asked after, in order, and exactly those handles change whose process has ended; what is STOPPING is never started; no process is lost; the result is the number of processes started |
| Supervision.HealthStepMeans | src/core/plugin_mgr.c:597-643 | one handle, case by case: not asked after, still running, stopped, or started again exactly as a start goes |
| Supervision.HeldOrNot | src/core/plugin_mgr.c:355-503 | with process ids tracked, the children are the processes of RUNNING, STOPPING and RESTARTING handles and those that no handle has |
| Supervision.Supervise | src/server.c:585-621 | any run of commands and checks, from the manager's state at first to its state at last: each does to handles and children what it is for, asks the system exactly what that takes, process ids stay tracked, and unreaped children are exactly the processes of RUNNING, STOPPING and RESTARTING handles after a command if and only if they were before and it names no plugin on its way out |
| Supervision.SuperviseToEnd | src/core/plugin_mgr.c:424-468 | such a run and the stop of everything: what runs is told to end, killed are exactly the processes asked after 30 times that had not ended, left are exactly the children no handle had the id of, and none if no command named a plugin on its way out |
| Supervision.SupervisedIsHeld | src/core/plugin_mgr.c:355-503 | with process ids tracked, that is so exactly when no child is without a handle |
| Supervision.Lost | src/core/plugin_mgr.c:365-385 | a handle that drops the id of a process nobody waited for loses it |
| Supervision.StartWhileStopping | src/core/plugin_mgr.c:365-385 | with a plugin STOPPING, whatever a start comes to, its process is lost |
| Schedule.MkTimeOfLocalTime | src/core/plugin_mgr.c:755-763 | `mktime` undoes `localtime_r` |
| Schedule.LeastAligned | src/core/plugin_mgr.c:766-785 | the minute computed is the next aligned one |
| Schedule.CalculateNextAlignedTime | src/core/plugin_mgr.c:754-786 | for every time and interval the least instant strictly after now that is, in local time, a full hour for intervals from 3600 seconds on, a full minute below 60, and else a minute of the hour that is a multiple of the whole minutes in the interval |
| Schedule.AlignedMeans | src/core/plugin_mgr.c:759-785 | which instants are aligned, in these three cases |
| CsvTable.CellsOfJoin | src/db/csv_backend.c:124-132 | splitting a line undoes joining its cells |
| CsvTable.CellsOfRow | src/db/csv_backend.c:64-79 | a line written as a row is read as that row |
| CsvTable.ChompEnds | src/db/csv_backend.c:117-123 | a line ends before its first line feed or carriage return |
| CsvTable.ScanOfCells | src/db/csv_backend.c:260-318 | what a scan finds in any line made of cells, 0 in a cell that is no number included |
| CsvTable.ReplayOfCells | src/db/csv_backend.c:123-143 | what replaying any line made of cells leaves in a column |
| CsvTable.ReadingsMean | src/db/csv_backend.c:260-318 | the readings in range are those of exactly the rows at times from the first to the last, both included, that have a value there |
| CsvTable.ReplayFindsLast | src/db/csv_backend.c:117-145 | replaying the rows written leaves in a column what the last row with a value there says, or nothing |
| CsvTable.TokensAppend | src/db/csv_backend.c:218-241 | empty cells are passed over wherever they stand, all others are tokens |
| CsvTable.HeaderExample | src/db/csv_backend.c:51-62 | `timestamp,a,b` |
| CsvTable.ScanFindsReadings | src/db/csv_backend.c:260-318 | scanning the rows written finds, in order, exactly the readings in range |
| CsvTable.QueryFindsReadings | src/db/csv_backend.c:207-323 | so does a whole query in a file that this store began, the column found by its name in the header |
| CsvStore.WriteHeader | src/db/csv_backend.c:51-62 | the time column and one column for each type |
| CsvStore.Csv.FlushRow | src/db/csv_backend.c:64-79 | one more row: the time and the latest value of each column that has one |
| CsvStore.Csv.Open | src/db/csv_backend.c:85-152 | a new file gets a header; one that is there leaves in each column what its last number in that column says |
| CsvStore.Csv.ReplayOne | src/db/csv_backend.c:123-143 | one line of the replay |
| CsvStore.Csv.AfterFlush | src/db/csv_backend.c:117-145 | what a replay finds after one more row |
| CsvStore.Csv.Insert | src/db/csv_backend.c:177-192 | one column changes; refused exactly for an unknown type or the same time again |
| CsvStore.Csv.QueryLatest | src/db/csv_backend.c:194-205 | the column's latest reading, or not found; never one for type 0 |
| CsvStore.Csv.Tick | src/db/csv_backend.c:353-363 | a row once the interval has passed |
| CsvStore.Csv.LatestTime | src/db/csv_backend.c:161-168 | the greatest time of any column if one is positive, else the clock's |
| CsvStore.Csv.Close | src/db/csv_backend.c:154-175 | a last row at that time |
| CsvStore.Csv.FindColumn | src/db/csv_backend.c:218-241 | the first token of that name |
| CsvStore.Csv.ScanOne | src/db/csv_backend.c:260-318 | one line of the scan: the reading in it, if its time is in range and its cell not empty |
| CsvStore.Csv.QueryRange | src/db/csv_backend.c:207-323 | the readings of all lines, in file order, or the error code |
| CsvStore.RunAndQuery | src/db/csv_backend.c:207-323 | any run of inserts and flushes leaves in memory and in the file exactly what the operations make of them, and a range query then finds exactly the readings of the rows written |
| CsvStore.CloseAndReopen | src/db/csv_backend.c:154-175 | closing and opening again restores every present value and no other, at the greatest time before, if and only if the file began with a header or there is nothing to restore |
| CsvStore.EmptyFileLoses | src/db/csv_backend.c:107-145 | with a file that is there but empty, one insert and a close: the row is the only line, and opening again finds nothing |

## Left out

- Json.RenderBytes: numbers are printed through the integer branch only; `%1.15g`, `sscanf`, NaN and infinity are not modelled, and `sprintf` of an integer is its decimal text.
- Printer.PrintBuffer.PrintNumber: likewise.
- Acceptance.NumeralReads: `strtod` is exact over the reals, so rounding of fractions, of integers beyond 2^53 and of huge exponents, and the locale's decimal point, are not modelled; results for integers up to 2^53 are exact in both.
- Numbers.StrtodOfDecimal: likewise.
- Parser.ParseWithLength: the list of nodes a parse builds is a sequence here, and of the position of a parse error only that it lies inside the text is stated.
- Parser.ParseBuffer.ParseString: out-of-memory is not modelled.
- Printer.PrintBuffer.Ensure: a failing allocation is not modelled; the limits of `int` are.
- Nodes.DetachItemViaPointer: the item is a child or in no list; what happens to another list is not stated.
- Nodes.InsertItemInArray: the new item is not the parent and not yet a child.
- Nodes.ReplaceItemViaPointer: the item is a child, and the replacement is that item or not yet a child.
- Compare.CompareIsMeaning: the comparison is on what two trees without a common node hold; a node equals itself at once (`CompareNodes`). Beyond integers up to 2^52 there is no such meaning, since comparing is not transitive.
- Trees.DuplicateRec: reference and constant-key flags, and freeing a partial copy, are not modelled.
- Buffer.HwBuffer.EnsureCap: `size_t` overflow is not modelled.
- Pool.HwPool.Alloc: the counter of refusals does not wrap around.
- Pool.HwPool.Free: handing back a slot that is not held is outside the contract; the code trusts its callers.
- Arena.HwArena.Alloc: `size_t` overflow and out-of-memory are not modelled; that a block's data starts at a multiple of 8 is taken from `malloc`.
- Ipc.IpcConn.Flush: an interrupted write is a failed write, as in the code.
- Wire.EndToEnd: speaks of bytes that arrive; that the server keeps a connection until they do is not claimed, since `Wire.HandleClientEvent` shows when it does not.
- Routing.Server.CmdRegisterEndpoint: a path or method that is not a string is passed to `snprintf` as a null pointer by the code; here it is a text or missing.
- Routing.Serve: what a command sends back and the lock around the tables are not modelled.
- Supervision.PluginMgr.CheckHealth: what a process does by itself is a free choice of the process table; commands from another thread during a check are not modelled.
- Schedule.CalculateNextAlignedTime: the zone's offset is a fixed number of minutes, so changes of daylight saving time are not modelled.
- CsvStore.Csv.Open: the file is its lines, each shorter than the 4096 bytes read at once, which holds for all lines written with the 119 types there are; the spelling of times and numbers is a parameter that reads times back exactly.
- `cJSON_Raw`, references, constant keys and allocation hooks: they do not change the algorithms.
- Null arguments where a method here has an object.
- The per-thread scope arena behind `mem_alloc`.
- Sockets, epoll registration, signals, threads, `fork`, `exec` and the clock: results of reads and writes, process ids, ended processes and times are inputs or free choices.
- The other plugin commands, the HTTP server and client, the DuckDB backend and tier 2 storage.
- `src/core/log_ring.c` (a ring of recent log lines), `src/core/config.c` (reading the configuration file into a record), `src/db/db.c` (handing each call on to the configured backends) and `src/core/semantic_types.c` (a table of names): nothing modelled here depends on them, but for the names of the columns, which are a parameter.
