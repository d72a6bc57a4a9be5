# Verified models of the store's core

This project models the parts of the application store where state, arithmetic and recursion meet, and proves what they
keep on every input and every run. Code that works in place is modelled in place: classes with the source's fields,
arrays that are overwritten, linked nodes that are rewired, loops with their invariants. Each method is proved equal to
a specification function or to a step of a state machine, and the lemmas then say what that function or machine does.

| component | source | modules |
|---|---|---|
| JSON text engine | 3rdparty/cjson/cJSON.c | `Json` (values and rendering), `JsonSyntax` (JSON as texts), `JsonString`, `JsonUnicode`, `JsonNumber`, `JsonNumeral`, `JsonGrammar` (what the parser computes), `JsonParser`, `JsonReading` (which texts it accepts), `JsonPrinter`, `JsonRoundTrip`, `JsonMinify`, `JsonTokens`, `JsonMinifyParse`, `JsonCompare`, `JsonTrees` (linked nodes), `JsonNodes` |
| hash set and map of package ids | ui/id_set.c, ui/id_map.c | `Probing`, `IdSet`, `IdMap` |
| version order and search-result filter | lib/linyaps_dbus_msg.c | `Versions`, `Filter` |
| repository lists | lib/linyaps_dbus_msg.c | `RepoList` |
| requests and tasks | lib/linyaps_task.c, lib/linyaps_context.c | `Tasks` (the code and one step), `TaskRuns` (every run) |
| grid and pagination | ui/store_ui.c, ui/main.c, ui/views/app_grid.c | `Grid`, `Pages` |
| connection-handle pool | lib/linyaps_remote.c | `HandlePool` (the locked sections), `PoolThreads`, `PoolReuse` (any number of threads) |
| shared | | `Bytes`, `Decimals` |

`dafny verify dfyconfig.toml` checks the project.

## Results that differ from what the code seems to promise

* Printing needs two bytes more than the text: it succeeds if and only if `|text| + 2` is within the limit, one byte more
  than text and terminator (`JsonPrinter.Print`).
* A value nested more than 1000 deep is printed but not read back (`JsonRoundTrip.PrintThenParse`,
  `JsonRoundTrip.NestedReadBack`).
* Comparison finds a null member missing and looks repeated keys up as the first of them, so a tree need not be equal to
  its own duplicate (`JsonCompare.NotSelfEqual`). It is if and only if every member is found under its key
  (`JsonCompare.CompareExactly`, `JsonNodes.DuplicateComparesEqual`).
* Minifying reads beyond the terminator if and only if a comment or literal is not closed (`JsonMinify.LeavesExactly`);
  a single quote is enough (`JsonMinify.UnclosedLeaves`). It keeps the value of every text that is accepted up to its end
  (`JsonMinifyParse.MinifyKeepsValue`), but not of text accepted with a rest behind the value
  (`JsonMinifyParse.EndIsNeeded`), and minifying twice is minifying once if and only if no two bytes come together as the
  start of a comment (`JsonTokens.MinifyTwiceExactly`).
* The parser accepts more than JSON: any byte up to the space as white space, control characters in strings, leading
  zeros, a point without digits on one side. `JsonReading.AcceptedExactly` says which texts it accepts. Of a number it
  reads the first 63 bytes only (`JsonNumeral.ReadNumber`).
* A \u escape without four hexadecimal digits is accepted and stands for a NUL (`JsonUnicode.MalformedIsNul`), which ends
  the string (`JsonUnicode.MalformedAccepted`).
* Version comparison is not transitive on arbitrary strings (`Versions.NotTransitive`); `Versions.TransitiveExactly` says
  for which three versions it is not. The filter may then drop the newest entry (`Filter.SurvivorNeedNotBeNewest`). It
  keeps the earliest newest entry of a slot if and only if the slot has a newest entry (`Filter.SurvivorExactlyNewest`),
  which it has if no three of its versions break transitivity, so in particular if they are pairwise regular or canonical.
* The grid of app_grid_spec ignores every score from 1000000 on, the server's page size does not. The page sizes agree if
  and only if the best score is below that or one column is best (`Grid.PageSizesAgree`); otherwise every catalogue of
  more than one page loses items while browsing (`Pages.Browse`). For every spacing there is a window that wide
  (`Grid.SentinelHarms`, `Pages.WideWindowLosesItems`).
* When the server sends no total, every page shows the same head of the list (`Pages.ClientSidePages`), although the
  comment in the source speaks of client-side paging.
* A second TaskAdded for a path that is already running takes another request; one TaskRemoved then leaves a slot running
  (`TaskRuns.RemovedMayStay`). A removed task is gone if and only if at most one task for its path was started and not
  removed since (`TaskRuns.RemovedIsGoneByBalance`).
* A failed request is told the very code of the reply if and only if the 64-bit code fits an int (`TaskRuns.CodeTold`).
* Closing a context makes no callback for requests still queued or running (`TaskRuns.ClosingDrops`).
* If the second header cannot be appended, the list with the first one is lost (`PoolThreads.SecondAppendLeaks`). Nothing
  else leaks (`PoolThreads.NothingLeaks`).

## Parameters and assumptions

* Numbers in JSON are exact reals; a printed value is *printable* when its numbers are integers below 10^15 in magnitude
  and its strings hold no NUL.
* Integers are unbounded except where a width decides something: buffer sizes stop at `INT_MAX`, version numbers saturate
  at 2^63 - 1 as strtoll does, bytes and 16-bit units are bounded types. Bit operations are written as arithmetic.
* The hash is an arbitrary function of the key. The spacing constants DS_SPACE_3 and DS_SPACE_4 are parameters.
* What the bus, the allocator and the HTTP library answer are parameters of the methods and actions. A synchronous bus
  call dispatches no signal before it returns, callbacks do not call back into the context, and memory allocation succeeds
  (except the creation of connection handles and of the nodes of their header lists, which may fail).
* The server returns the slice of the catalogue that was requested, and the window does not change while browsing.

## Model

| member | source | states |
|---|---|---|
| `JsonString.DecodeFitsEstimate` | 3rdparty/cjson/cJSON.c:711-802 | For every byte sequence between the quotes, malformed escapes included, what the decoding pass writes never exceeds what the scanning pass estimated |
| `JsonString.DecodeEscape` | 3rdparty/cjson/cJSON.c:746-946 | Decoding what the printer's escaping wrote gives back the string, for all bytes |
| `JsonString.LiteralEndOfEscape` | 3rdparty/cjson/cJSON.c:711-739 | The scanning pass finds the closing quote of an escaped string exactly behind it |
| `JsonString.DecodeUnits` | 3rdparty/cjson/cJSON.c:540-695 | A literal of \uXXXX escapes, with any mixture of letter cases, decodes to the UTF-8 (section 3 of RFC 3629) of the characters its 16-bit units encode, and is rejected if and only if a surrogate is unpaired (section 7 of RFC 8259) |
| `JsonString.Utf16RoundTrip` | 3rdparty/cjson/cJSON.c:577-640 | Pairing surrogates undoes the UTF-16 encoding of every sequence of Unicode scalar values |
| `JsonString.Utf8Exactly` | 3rdparty/cjson/cJSON.c:640-681 | The UTF-8 bytes of every code point carry its bits, six in each byte but the first, in the one form its size asks for |
| `JsonString.CombineExactly` | 3rdparty/cjson/cJSON.c:577-640 | A surrogate pair stands for ten bits of each half, above the first 0x10000 code points |
| `JsonUnicode.ParseUnits` | 3rdparty/cjson/cJSON.c:698-824 | Wherever it stands, a literal of \uXXXX escapes is read as the UTF-8 of the characters they encode, and rejected if and only if a surrogate is unpaired |
| `JsonUnicode.ParseScalars` | 3rdparty/cjson/cJSON.c:540-824 | Every sequence of non-zero Unicode scalar values written as escapes and surrogate pairs is read as its UTF-8 encoding, up to exactly the closing quote |
| `JsonUnicode.ParsePieces` | 3rdparty/cjson/cJSON.c:698-824 | Wherever it stands, a literal of any bytes, two-byte escapes and \u escapes with any four bytes behind them is read as the bytes its pieces stand for up to the first NUL, and is rejected if and only if some surrogate has not its other half beside it |
| `JsonUnicode.LiteralRead` | 3rdparty/cjson/cJSON.c:698-824 | Nothing else is read as a string: every literal that is accepted is one of such pieces without an unpaired surrogate |
| `JsonUnicode.LetterTable` | 3rdparty/cjson/cJSON.c:761-785 | The eight letters that may stand behind a backslash, and the byte each stands for |
| `JsonUnicode.MalformedIsNul` | 3rdparty/cjson/cJSON.c:540-573 | Four bytes behind \u that are not all hexadecimal digits are not refused: they stand for a NUL |
| `JsonUnicode.MalformedAccepted` | 3rdparty/cjson/cJSON.c:540-573 | The literal "\uZZZZ" is accepted and read as the empty string |
| `JsonString.HexRoundTrip` | 3rdparty/cjson/cJSON.c:540-573 | Four hexadecimal digits, each in either case, read back as the unit they were written for |
| `JsonNumber.StrtodOfDecimal` | 3rdparty/cjson/cJSON.c:266-330 | Converting the decimal text of any integer gives that integer and uses the whole text |
| `JsonNumber.NumberReadBack` | 3rdparty/cjson/cJSON.c:279-333 | A printed integer below 10^15 in magnitude survives the copy into the 64-byte buffer and reads back as itself wherever it stands |
| `JsonNumeral.ReadNumber` | 3rdparty/cjson/cJSON.c:266-340 | The longest number of at most 63 bytes that stands at an offset is read there, with the value that its digits, point and exponent write in decimal notation |
| `JsonNumeral.NumberRead` | 3rdparty/cjson/cJSON.c:266-340 | Nothing else is read as a number: what is accepted is the longest number that stands there, with that value |
| `JsonNumeral.StrtodIsLongest` | 3rdparty/cjson/cJSON.c:314-318 | The conversion takes the longest number at the start of the copied bytes and its decimal value, or nothing if there is no digit |
| `JsonGrammar.ParseValueNesting` | 3rdparty/cjson/cJSON.c:1341-1350 | No accepted value nests deeper than the limit of 1000, counting the levels open around it |
| `JsonReading.AcceptedExactly` | 3rdparty/cjson/cJSON.c:1000-1077 | With a required end a text is accepted as a value if and only if it is a byte order mark or none, white space, a JSON text that writes that value at most 1000 levels deep, and white space; white space is any run of bytes up to the space around every bracket, brace, comma, colon, key and element |
| `JsonReading.PrefixExactly` | 3rdparty/cjson/cJSON.c:1000-1077 | Without a required end a value is read up to an offset if and only if the text begins so up to that offset, a number ending where no longer one stands |
| `JsonReading.ReadDocument` | 3rdparty/cjson/cJSON.c:1000-1077 | Every JSON text with any white space is read as the value written in it, or rejected if and only if that nests more than 1000 deep |
| `JsonReading.DocumentRead` | 3rdparty/cjson/cJSON.c:1000-1077 | Every text accepted up to its end is such a JSON text, and what is read is the value written in it |
| `JsonReading.ReadDoc` | 3rdparty/cjson/cJSON.c:1212-1603 | At any place and depth where the text of a value stands, with any white space inside, the parser reads the value and stops right behind the text, or rejects it if and only if the nesting limit is exceeded |
| `JsonReading.DocRead` | 3rdparty/cjson/cJSON.c:1212-1603 | At any place and depth, what the parser accepts as a value is the text of that value, up to the end it reports |
| `JsonReading.ReadGap` | 3rdparty/cjson/cJSON.c:963-981 | Any run of bytes up to the space in front of another byte or the terminator is skipped, and no more |
| `JsonRoundTrip.LayoutText` | 3rdparty/cjson/cJSON.c:1267-1717 | The rendering of a value is a JSON text that writes it, laid out as the formats say: formatted, a blank behind each comma of an array, a tab behind each colon, a line indented by tabs for every member and for the closing brace; unformatted, no white space at all |
| `JsonRoundTrip.StringLaidOut` | 3rdparty/cjson/cJSON.c:827-946 | A printed string is a literal that means the string, each byte by itself or as its shortest escape |
| `JsonRoundTrip.IntegerLaidOut` | 3rdparty/cjson/cJSON.c:474-537 | A printed integer is a number without point and exponent whose value it is |
| `JsonRoundTrip.NoLeadingZero` | 3rdparty/cjson/cJSON.c:474-537 | Only 0 itself is printed with a leading zero |
| `JsonRoundTrip.ReadBack` | 3rdparty/cjson/cJSON.c:1212-1717 | At any place and depth, parsing the printed text of a value gives that value and stops right behind the text, or is rejected if and only if the nesting limit is exceeded |
| `JsonRoundTrip.PrintThenParse` | 3rdparty/cjson/cJSON.c:1000-1077 | Parsing the formatted or unformatted print of a printable value gives back exactly that value if it nests at most 1000 deep and is rejected otherwise, with and without a required end |
| `JsonRoundTrip.NestedReadBack` | 3rdparty/cjson/cJSON.c:1341-1350 | Every tower of nested arrays and objects, in any mixture, is printed, and read back if and only if it is at most 1000 high |
| `JsonRoundTrip.ParsePrintParse` | 3rdparty/cjson/cJSON.c:1000-1077 | Whatever text was accepted, printing and parsing its printable value again gives the same value and uses the whole print |
| `JsonParser.ParseHex4Digits` | 3rdparty/cjson/cJSON.c:540-573 | The digit loop computes the value of the four digits, and 0 as soon as one is not a hexadecimal digit |
| `JsonParser.EncodeUtf8` | 3rdparty/cjson/cJSON.c:640-681 | The loop that writes backwards from the last byte leaves the UTF-8 bytes of the code point and touches nothing before them |
| `JsonParser.ParseBuffer.SkipWhitespace` | 3rdparty/cjson/cJSON.c:963-981 | The offset moves to the next byte above space, or back to the terminator if there is none |
| `JsonParser.ParseBuffer.Utf16LiteralToUtf8` | 3rdparty/cjson/cJSON.c:577-695 | Consumes and writes exactly what the escape or surrogate pair at the offset means, or nothing when it is malformed or unpaired |
| `JsonParser.ParseBuffer.FindLiteralEnd` | 3rdparty/cjson/cJSON.c:711-739 | The scanning pass succeeds if and only if there is a closing quote, finds it, and its estimate is the number of bytes and escape pairs |
| `JsonParser.ParseBuffer.DecodeLiteral` | 3rdparty/cjson/cJSON.c:746-808 | The decoding pass, in a buffer of the estimated size, writes exactly the decoded bytes, never leaves the buffer, and fails if and only if an escape is invalid |
| `JsonParser.ParseBuffer.ParseString` | 3rdparty/cjson/cJSON.c:698-824 | Equals the grammar's string rule at the offset: same acceptance, same text, same end |
| `JsonParser.ParseBuffer.CopyNumberBytes` | 3rdparty/cjson/cJSON.c:279-312 | The copy loop takes the longest run of at most 63 number bytes |
| `JsonParser.ParseBuffer.ParseNumber` | 3rdparty/cjson/cJSON.c:266-340 | Equals the grammar's number rule: same acceptance, exact value, same end |
| `JsonParser.ParseBuffer.ParseValue` | 3rdparty/cjson/cJSON.c:1212-1264 | Equals the grammar at every offset and depth, and fills the empty node with a tree of new nodes, correctly linked and pairwise disjoint, that stands for the value; on success the depth is back at its entry value and the offset has strictly advanced |
| `JsonParser.ParseBuffer.ParseItemList` | 3rdparty/cjson/cJSON.c:1374-1413 | The element loop, which steps the offset back before it starts, terminates, accepts exactly the grammar's list and leaves its elements in a doubly linked list of new nodes in order |
| `JsonParser.ParseBuffer.ParseItem` | 3rdparty/cjson/cJSON.c:1378-1408 | One round links a new node behind the others before its value is known, and then fills it with the next value; the nodes before it stay as they are |
| `JsonParser.ParseBuffer.ParseArray` | 3rdparty/cjson/cJSON.c:1341-1432 | Equals the grammar's array rule, the nesting limit and the empty array included, hangs the elements below the node and restores the depth |
| `JsonParser.ParseBuffer.ParseMemberList` | 3rdparty/cjson/cJSON.c:1528-1585 | The member loop, which steps the offset back before it starts, terminates, accepts exactly the grammar's list and leaves the members, with their keys, in a doubly linked list of new nodes in order |
| `JsonParser.ParseBuffer.ParseMember` | 3rdparty/cjson/cJSON.c:1532-1579 | One round links a new node behind the others and then gives it the next key and value; the nodes before it stay as they are |
| `JsonParser.ParseBuffer.ParseObject` | 3rdparty/cjson/cJSON.c:1497-1603 | Equals the grammar's object rule, the nesting limit and the empty object included, hangs the members below the node and restores the depth |
| `JsonParser.ParseBuffer.SkipByteOrderMark` | 3rdparty/cjson/cJSON.c:984-997 | Skips three bytes exactly for a UTF-8 byte order mark with room behind it |
| `JsonParser.ParseWithOpts` | 3rdparty/cjson/cJSON.c:1000-1077 | On every C string accepts exactly the documents of the grammar, with that end offset and a tree of new nodes, in no list, that stands for the value; otherwise returns NULL and an offset not beyond the end; NULL is rejected |
| `JsonPrinter.PrintBuffer.Ensure` | 3rdparty/cjson/cJSON.c:373-458 | Grants the bytes asked for if and only if offset + needed + 1 is within the limit (the length if the buffer may not grow, else INT_MAX), and keeps what was written whatever growth happened |
| `JsonPrinter.PrintBuffer.Put` | 3rdparty/cjson/cJSON.c:373-458 | Every single write lies below the end that the last successful grant gave |
| `JsonPrinter.PrintBuffer.UpdateOffset` | 3rdparty/cjson/cJSON.c:461-471 | Searching the terminator moves the offset exactly behind the text just printed |
| `JsonPrinter.PrintBuffer.PrintNumber` | 3rdparty/cjson/cJSON.c:474-537 | Appends the decimal text of the integer, if and only if it fits |
| `JsonPrinter.PrintBuffer.CountEscapes` | 3rdparty/cjson/cJSON.c:854-878 | The counting pass over a string counts exactly the bytes by which the writing pass lengthens it |
| `JsonPrinter.PrintBuffer.WriteEscaped` | 3rdparty/cjson/cJSON.c:900-941 | The writing pass emits exactly the escaped bytes and stays inside the grant |
| `JsonPrinter.PrintBuffer.PrintStringPtr` | 3rdparty/cjson/cJSON.c:827-946 | Both branches (NULL, nothing to escape, escapes) append the quoted string with its terminator, if and only if it fits |
| `JsonPrinter.PrintBuffer.PrintValue` | 3rdparty/cjson/cJSON.c:1267-1338 | For every tree of linked nodes that stands for a printable value appends the rendering of that value at the current depth and a terminator behind it, if and only if it fits; the depth is restored |
| `JsonPrinter.PrintBuffer.PrintItems` | 3rdparty/cjson/cJSON.c:1458-1484 | The element loop follows the next pointers and appends the elements with a separator between any two and none behind the last |
| `JsonPrinter.PrintBuffer.PrintArray` | 3rdparty/cjson/cJSON.c:1435-1494 | Appends the rendering of the array, if and only if it fits; the depth is restored |
| `JsonPrinter.PrintBuffer.PrintMembers` | 3rdparty/cjson/cJSON.c:1633-1698 | The member loop follows the next pointers and appends indentation, key, separator, value, comma and line break of every member in order |
| `JsonPrinter.PrintBuffer.PrintObject` | 3rdparty/cjson/cJSON.c:1606-1717 | Appends the rendering of the object, closing brace indented one level less, if and only if it fits; the depth is restored |
| `JsonPrinter.Print` | 3rdparty/cjson/cJSON.c:1162-1209 | Printing a tree of linked nodes into a caller's buffer, or one that starts at any capacity and grows, leaves exactly the rendered text of its value and a NUL, and succeeds if and only if two bytes beyond the text are within the limit |
| `JsonPrinter.PrintAllocated` | 3rdparty/cjson/cJSON.c:1087-1160 | The allocating printers return exactly the rendered text and a NUL, with and without realloc |
| `JsonMinify.Minify` | 3rdparty/cjson/cJSON.c:2632-2700 | On every C string: the cursor goes beyond the terminator if and only if a comment or literal is not closed; otherwise the in-place rewrite equals the minified text and the write position never overtakes the read position |
| `JsonMinify.MinifyOnce` | 3rdparty/cjson/cJSON.c:2641-2696 | One round moves the cursor exactly as far as the round of the text says, unclosed comments and literals included; inside the text it keeps exactly the bytes it must keep and leaves everything not yet read intact |
| `JsonMinify.CopyLiteral` | 3rdparty/cjson/cJSON.c:2677-2690 | The literal loop and the copy behind it move exactly to behind the closing quote or beyond the terminator; a closed literal is copied byte for byte, escaped quotes included, over text already read |
| `JsonMinify.RoundLeaves` | 3rdparty/cjson/cJSON.c:2641-2696 | One round of the main loop moves the cursor beyond the text if and only if it starts a comment or literal that is not closed |
| `JsonMinify.LeavesExactly` | 3rdparty/cjson/cJSON.c:2632-2700 | Over the whole text, minifying leaves it if and only if the minified text is not defined |
| `JsonMinify.UnclosedLeaves` | 3rdparty/cjson/cJSON.c:2665-2690 | A single quote, the start of a comment, and a literal whose closing quote is escaped make the cursor leave the text |
| `JsonTokens.MinifiedExactly` | 3rdparty/cjson/cJSON.c:2632-2700 | On any text: minifying comes to an end inside it with a given result if and only if the text is a sequence of blanks, comments, closed literals and other bytes, of which the result holds the literals and the other bytes in order |
| `JsonTokens.TokenRound` | 3rdparty/cjson/cJSON.c:2641-2696 | Each such token, whatever follows it, is exactly one round: space, tab, carriage return and line feed go, a line comment goes up to its line end, a block comment up to the next star and slash, a literal stays |
| `JsonTokens.RoundToken` | 3rdparty/cjson/cJSON.c:2641-2696 | Whatever one round reads without leaving the text is such a token |
| `JsonMinifyParse.ShrinksValue` | 3rdparty/cjson/cJSON.c:1435-1717 | In front of any following text, the print of a value in either format minifies to its unformatted print |
| `JsonMinifyParse.MinifyOfPrint` | 3rdparty/cjson/cJSON.c:2632-2700 | Minifying a formatted print gives byte for byte the unformatted print, and minifying that changes nothing |
| `JsonMinifyParse.MinifyThenParse` | 3rdparty/cjson/cJSON.c:2632-2700 | JSON with line and block comments, and with any white space, is minified inside itself to a text that is read as the value written in it, or rejected if and only if that nests more than 1000 deep |
| `JsonMinifyParse.MinifyDocument` | 3rdparty/cjson/cJSON.c:2632-2700 | The minified text of JSON with comments is that of the same document without its comments, blanks, tabs and line ends |
| `JsonMinifyParse.MinifyKeepsValue` | 3rdparty/cjson/cJSON.c:2632-2700 | Every text that is accepted up to its end is minified without the cursor leaving it, the minified text is accepted up to its end as the same value, and minifying it again changes nothing |
| `JsonMinifyParse.DocShrinks` | 3rdparty/cjson/cJSON.c:2632-2700 | Wherever a value stands outside a literal, with any white space and comments inside and whatever follows, minifying leaves exactly its text without comments, blanks, tabs and line ends |
| `JsonMinifyParse.GapShrinks` | 3rdparty/cjson/cJSON.c:2632-2676 | Of any run of white space and comments exactly the control characters stay that are no blank, tab or line end |
| `JsonMinifyParse.EndIsNeeded` | 3rdparty/cjson/cJSON.c:2632-2700 | Without the required end the value may change: "1 2" is read as 1 and minified as 12 |
| `JsonTokens.MinifyTwiceExactly` | 3rdparty/cjson/cJSON.c:2632-2700 | On every text with no comment or literal left open, minifying twice is minifying once if and only if no kept slash gets a slash or star behind it by what is dropped between them |
| `JsonTokens.MinifyTwiceDiffers` | 3rdparty/cjson/cJSON.c:2632-2700 | Text that starts with "/ /" minifies to a line comment, which minifying again drops |
| `JsonCompare.CompareIsEquality` | 3rdparty/cjson/cJSON.c:2802-2925 | For values with distinct keys the case-sensitive comparison of two separate trees succeeds if and only if they are equal up to member order and no object has a null member |
| `JsonCompare.CompareIsRearrangement` | 3rdparty/cjson/cJSON.c:2802-2925 | That is so if and only if one value is the other with the members of its objects, at any depth, in another order, and no object has a null member |
| `JsonCompare.KeysMatchExactly` | 3rdparty/cjson/cJSON.c:96-118 | Keys match if they are equal byte for byte, or without case if they differ in the case of ASCII letters only |
| `JsonCompare.CompareExactly` | 3rdparty/cjson/cJSON.c:2802-2925 | For any two values, repeated keys included, and in either case mode, the comparison of two separate trees succeeds if and only if they are equal up to member order and in both every member is found under its key: the first member with that key is not null and has the same meaning; without case a key stands for all its spellings |
| `JsonCompare.CoherentExactly` | 3rdparty/cjson/cJSON.c:1772-1801 | With distinct keys that condition says that no object has a null member |
| `JsonCompare.NotSelfEqual` | 3rdparty/cjson/cJSON.c:2802-2925 | In either case mode an object with a null member, or with two different members of one key, does not compare equal to a copy of itself |
| `JsonCompare.NullsAgree` | 3rdparty/cjson/cJSON.c:1772-1801 | Whether an object has a null member, which look-up treats as missing, depends only on the value up to member order |
| `JsonNodes.GetArrayItem` | 3rdparty/cjson/cJSON.c:1743-1760 | Returns the node at the index, or NULL beyond the end |
| `JsonNodes.GetArraySize` | 3rdparty/cjson/cJSON.c:1720-1741 | Counts the children |
| `JsonNodes.AddItemToArray` | 3rdparty/cjson/cJSON.c:1847-1874 | Appending a detached node keeps next and prev mutually inverse and appends it to the sequence of children |
| `JsonNodes.InsertItemInArray` | 3rdparty/cjson/cJSON.c:2144-2171 | Inserts in front of the position; a negative position changes nothing and one beyond the end appends; links stay mutually inverse |
| `JsonNodes.DetachItemViaPointer` | 3rdparty/cjson/cJSON.c:2074-2102 | Removes exactly that child, at the head, in the middle or at the end, and leaves it in no list |
| `JsonNodes.DetachItemFromArray` | 3rdparty/cjson/cJSON.c:2104-2112 | Removes the child at the position; a position outside the list detaches nothing |
| `JsonNodes.ReplaceItemViaPointer` | 3rdparty/cjson/cJSON.c:2173-2206 | Puts the replacement in the child's place, detaches the child, and accepts a child as its own replacement |
| `JsonNodes.ReplaceItemInArray` | 3rdparty/cjson/cJSON.c:2208-2216 | Replaces the child at the position; a position outside the list changes nothing |
| `JsonNodes.GetObjectItem` | 3rdparty/cjson/cJSON.c:1772-1801 | Finds the first child whose key matches, in either case mode, unless that child is null |
| `JsonNodes.Compare` | 3rdparty/cjson/cJSON.c:2802-2925 | On any two heap trees, shared nodes included, answers the comparison of trees in which a node equals itself at once; on trees that share no node it answers the comparison of the values they stand for |
| `JsonNodes.SameTreeIsSame` | 3rdparty/cjson/cJSON.c:2802-2925 | For trees that share no node the comparison of trees is the comparison of values |
| `JsonNodes.Duplicate` | 3rdparty/cjson/cJSON.c:2553-2630 | Makes a copy of new nodes only, disjoint from every node there was, linked correctly and holding the same values; without recursion no children |
| `JsonNodes.CopiesSameValue` | 3rdparty/cjson/cJSON.c:2553-2630 | A duplicate stands for the same JSON value as its source |
| `JsonNodes.DuplicateComparesEqual` | 3rdparty/cjson/cJSON.c:2553-2925 | In either case mode a recursive duplicate of any keyed tree compares equal to its source if and only if every member is found under its key; with distinct keys and case, if and only if no object member is null |
| `JsonTrees.DisjointPairs` | 3rdparty/cjson/cJSON.c:2598-2617 | The children of a tree, copied or parsed, are pairwise node-disjoint |
| `JsonTrees.LinkNew` | 3rdparty/cjson/cJSON.c:1389-1404 | A new node becomes the head of the list or is linked behind the last one, next and prev staying mutually inverse, whatever it will hold |
| `Probing.EmptySlot` | ui/id_set.c:74-117 | A table that is not full has an empty slot, so every probe loop has an end |
| `Probing.ProbeStep` | ui/id_set.c:86-116 | A probe step keeps the path from the home slot full and free of the key, and comes closer to any empty slot |
| `Probing.ProbeMisses` | ui/id_set.c:103-117 | A probe that ends at an empty slot has shown that the key is in no slot of the table |
| `Probing.ProbeInserts` | ui/id_set.c:86-101 | Filling the slot where a probe ended adds exactly that key and keeps every key reachable from its home |
| `IdSet.IdSet.Rehash` | ui/id_set.c:19-43 | Doubling re-establishes the invariant in the new table with the same contents |
| `IdSet.IdSet.Clear` | ui/id_set.c:64-72 | Empties the set and keeps the table |
| `IdSet.IdSet.Insert` | ui/id_set.c:74-101 | Adds the key to the set, answers whether it is new, ignores NULL and the empty string, and keeps load and reachability |
| `IdSet.IdSet.Contains` | ui/id_set.c:103-117 | Answers membership in the abstract set for every key, NULL included |
| `IdSet.IdSet.BuildFromPackages` | ui/id_set.c:119-126 | Afterwards a non-empty id is in the set if and only if a linear scan of the list finds it |
| `IdSet.LinearScanExactly` | ui/id_set.c:119-126 | The scan finds an id if and only if some entry of the list that is not NULL has it |
| `IdMap.EntryAdded` | ui/id_map.c:90-100 | Storing a pair where a probe ended adds exactly that pair to the abstract map and keeps reachability |
| `IdMap.EntryUpdated` | ui/id_map.c:101-106 | Replacing the value of a found key updates exactly that key |
| `IdMap.IdMap.Rehash` | ui/id_map.c:19-43 | Moves all entries into the larger table with the same abstract map |
| `IdMap.IdMap.Clear` | ui/id_map.c:66-76 | Empties the map and keeps the table |
| `IdMap.IdMap.Insert` | ui/id_map.c:78-111 | Adds or updates the key in the abstract map; NULL and the empty string are refused as keys, NULL is a value |
| `IdMap.IdMap.Get` | ui/id_map.c:113-127 | Returns what the abstract map holds, or NULL |
| `IdMap.IdMap.BuildFromPackages` | ui/id_map.c:129-136 | Afterwards the map gives for every non-empty id the version of the last entry with that id that has a version |
| `IdMap.LastVersionExactly` | ui/id_map.c:129-136 | What the map gives is the version of an entry with that id behind which no entry with it has a version, and nothing if none has |
| `Versions.ReadVersionNumber` | lib/linyaps_dbus_msg.c:483-492 | The cursor finds the next number, saturated as strtoll does, and the text behind it |
| `Versions.NumbersOfRuns` | lib/linyaps_dbus_msg.c:483-492 | The numbers of a text are those that its runs of decimal digits write, each cut at 2^63 - 1 |
| `Versions.RunsOf` | lib/linyaps_dbus_msg.c:483-492 | Every text is such a sequence of runs of digits with other bytes between them |
| `Versions.CompareVersionsLoop` | lib/linyaps_dbus_msg.c:494-514 | The two-cursor loop computes the comparison of the number lists, then of the bytes, with NULL least |
| `Versions.NullIsLeast` | lib/linyaps_dbus_msg.c:494-501 | NULL is less than every version, and equal to itself |
| `Versions.NumbersDecide` | lib/linyaps_dbus_msg.c:494-514 | The first pair of numbers that differ decides |
| `Versions.BytesDecide` | lib/linyaps_dbus_msg.c:494-514 | If the numbers agree as far as both versions have any, the first pair of bytes that differ decides, an end counting as less than any byte |
| `Versions.CompareIsVersionOrder` | lib/linyaps_dbus_msg.c:494-514 | The comparison agrees with the total order by number list and bytes if and only if the bytes decide in favour of the version whose numbers run out first |
| `Versions.CompareAntisymmetric` | lib/linyaps_dbus_msg.c:494-514 | On all strings and NULL, swapping the arguments flips the sign, and 0 means the same string |
| `Versions.TransitiveExactly` | lib/linyaps_dbus_msg.c:494-514 | For any three versions and NULL with a <= b and b <= c, a <= c holds unless, in the cyclic order a, b, c, one pair lies around the third version in the total order and is the only irregular pair |
| `Versions.CycleExactly` | lib/linyaps_dbus_msg.c:494-514 | Three different versions are ordered in a circle if and only if that is so |
| `Versions.CompareTransitive` | lib/linyaps_dbus_msg.c:494-514 | On pairwise regular versions and NULL the comparison is transitive, strictly where one step is strict |
| `Versions.NumbersOfDotted` | lib/linyaps_dbus_msg.c:483-492 | The numbers of a canonical dotted version are its components |
| `Versions.CompareCanonical` | lib/linyaps_dbus_msg.c:494-514 | Canonical versions are always regular, and on them the comparison is the lexicographic order of the components |
| `Versions.NotTransitive` | lib/linyaps_dbus_msg.c:494-514 | A counterexample on arbitrary strings: 01.5 < 1 < 1.3 but 01.5 > 1.3 |
| `Filter.SameSlot` | lib/linyaps_dbus_msg.c:516-525 | Two packages share a slot if and only if their repository, id and module fields agree, NULL read as empty |
| `Filter.FilterStoreSearchResults` | lib/linyaps_dbus_msg.c:527-559 | The in-place compaction leaves exactly the survivors of the functional filter in front and disposes exactly the entries it frees |
| `Filter.Consider` | lib/linyaps_dbus_msg.c:531-557 | One entry: a develop module is freed, a new slot is appended, a newer version replaces, an older one is freed; what is still to be read is untouched |
| `Filter.NothingLost` | lib/linyaps_dbus_msg.c:527-559 | Every entry that is not NULL is kept once or disposed once, and never both |
| `Filter.KeptOrFreed` | lib/linyaps_dbus_msg.c:527-559 | If no entry stands twice in the list, each is kept or freed, once and not both, and nothing else is |
| `Filter.FilterKeepsBest` | lib/linyaps_dbus_msg.c:527-559 | One survivor for each slot, in the order in which the slots first appear, each the winner of the comparisons within its slot |
| `Filter.SurvivorsBySlot` | lib/linyaps_dbus_msg.c:527-559 | No develop module survives and no two survivors share a slot, whatever the versions are |
| `Filter.OneSurvivor` | lib/linyaps_dbus_msg.c:527-559 | For every entry of the list that is no develop module exactly one survivor has its repository, id and module |
| `Filter.NoDevelopSurvives` | lib/linyaps_dbus_msg.c:532-537 | Every survivor is an entry of the list, and its module is not develop |
| `Filter.SurvivorWinsExactly` | lib/linyaps_dbus_msg.c:527-559 | For all versions: among the entries of the list with its repository, id and module, the survivor is the first of the newest if and only if one of them is unbeaten |
| `Filter.SurvivorWins` | lib/linyaps_dbus_msg.c:527-559 | In particular it is if their versions are NULL or canonical |
| `Filter.BestExactlyNewest` | lib/linyaps_dbus_msg.c:551-556 | For all versions, the winner from left to right is the first of the newest entries if and only if there is a newest entry, one that no other entry compares greater than |
| `Filter.SurvivorExactlyNewest` | lib/linyaps_dbus_msg.c:527-559 | For every list and every slot of it, the survivor is the earliest of the slot's newest entries if and only if the slot has a newest entry |
| `Filter.UnbrokenHasNewest` | lib/linyaps_dbus_msg.c:494-559 | If no three of the entries break transitivity, there is a newest entry |
| `Filter.BestIsNewest` | lib/linyaps_dbus_msg.c:551-556 | Among pairwise regular versions the winner from left to right is a newest one and the first of the newest |
| `Filter.SurvivorIsNewest` | lib/linyaps_dbus_msg.c:527-559 | Each survivor of a slot whose versions are NULL or canonical, or pairwise regular, is the earliest of its newest entries |
| `Filter.SurvivorNeedNotBeNewest` | lib/linyaps_dbus_msg.c:527-559 | A list on which the filter keeps an older entry: of 01.5, 1, 1.3 in one slot the survivor is 1.3, although 01.5 compares greater; none of the three is newest |
| `RepoList.CsvAppend` | lib/linyaps_dbus_msg.c:565-578 | Returns a buffer with the old list, a comma if needed and the new name; NULL and empty names return the old list |
| `RepoList.JoinedExactly` | lib/linyaps_dbus_msg.c:565-578 | Appending any names in turn leaves NULL if all of them are NULL or empty, and else the others in order with one comma between any two |
| `RepoList.NextToken` | lib/linyaps_dbus_msg.c:60-66 | The tokeniser cuts the next piece off in place and leaves the rest of the text to be split unchanged |
| `RepoList.AppendRepos` | lib/linyaps_dbus_msg.c:60-76 | Passes on, in order, the pieces between commas without leading blanks and without empty ones |
| `RepoList.SplitConcat` | lib/linyaps_dbus_msg.c:60-76 | Splitting two lists joined by a comma splits each of them |
| `RepoList.SplitPiece` | lib/linyaps_dbus_msg.c:60-76 | A piece without a comma is passed on without the blanks and tabs it starts with, unless nothing is left |
| `RepoList.SplitJoined` | lib/linyaps_dbus_msg.c:565-578 | Splitting the list built from non-empty, comma-free names that do not start with a blank gives back the names |
| `RepoList.RoundTripExactly` | lib/linyaps_dbus_msg.c:565-578 | Building the list and splitting it is lossless if and only if every name is non-empty, comma-free and does not start with a blank |
| `RepoList.SplitJoinSplit` | lib/linyaps_dbus_msg.c:565-578 | For every repository string, split, join, split equals split |
| `Grid.ComputeSpec` | ui/store_ui.c:112-148 | The loop with the running best score computes the layout specification, the sentinel included |
| `Grid.CurrentItemsPerPage` | ui/main.c:163-214 | The second, independently written loop, which recomputes the best score, computes best columns times rows |
| `Grid.BestColsIsBest` | ui/store_ui.c:126-138 | The column count is the least one that minimises the score |
| `Grid.BestIsUnique` | ui/main.c:192-204 | There is only one least minimiser, so both loops must agree on it |
| `Grid.PageSizesAgree` | ui/main.c:163-214 | Server pages and displayed pages have the same size if and only if the best score is below 1000000 or one column is best |
| `Grid.OneColumnScoreSuffices` | ui/store_ui.c:125-138 | A one-column score below 1000000 is enough for that |
| `Grid.SentinelHarms` | ui/store_ui.c:125-138 | For every spacing and height there is a window so wide that even the best score reaches the sentinel |
| `Grid.WidePagesDiffer` | ui/main.c:163-214 | In that window the server's page size differs from the displayed one, on every page of the navigation |
| `Grid.SpecFits` | ui/store_ui.c:122-148 | Cards and gaps fit the content width, cards are at least 320 wide if there is more than one column, and columns and rows stay in their bounds |
| `Grid.GridOnWidths` | ui/store_ui.c:112-148 | For every window the rows of cards 88 high, with their gaps, fit into the height left below title bar, reserved part, padding and bar, and no more would, up to twelve; the columns are the best that fit into the width left beside side bar and padding, or one if all that fit reach the sentinel |
| `Grid.PageOnWidths` | ui/main.c:163-214 | The server's page holds the rows that fill that height on the page of the navigation times the best columns, without the sentinel |
| `Grid.BestOnWidths` | ui/store_ui.c:126-138 | Of the column counts that fit with cards at least 320 wide, the chosen one has the card width nearest to 380 if any is up to 480, else the narrowest, and no fewer columns do as well |
| `Grid.FillIsUnique` | ui/store_ui.c:140 | There is only one number of rows that fills a height |
| `Grid.BestColumnsUnique` | ui/store_ui.c:126-138 | There is only one best number of columns on widths |
| `Grid.AgreeOnWidths` | ui/main.c:163-214 | The two page sizes agree if and only if some number of columns that fits has cards narrower than 333780, or one column is best |
| `Pages.CategoryOfSection` | ui/main.c:59-88 | Which category each section and tab asks the server for, and that all others ask for none |
| `Pages.SecondPassStays` | ui/views/app_grid.c:214-242 | The second pass never turns pagination back on: the bar is shown if and only if the items exceed one page that has the bar |
| `Pages.LayoutOnWidths` | ui/views/app_grid.c:205-242 | For every window and item count the grid fills the height that is left without the bar, or with it if and only if there is more than one page, its columns are the best that fit, and the pages are as few as hold all items |
| `Pages.BarTakesRoom` | ui/views/app_grid.c:228-232 | A page without the bar holds at least as many items as one with it |
| `Pages.PageCountIsCeiling` | ui/views/app_grid.c:216-225 | The page count is the least number of pages, at least one, that holds all items |
| `Pages.Store.TwoPasses` | ui/views/app_grid.c:205-242 | The two passes of the code settle on that layout |
| `Pages.Store.ViewAppGrid` | ui/views/app_grid.c:179-297 | Clamps the current page and deals the first items of the list, at most a page, out to the rows; the empty list changes nothing |
| `Pages.FillRows` | ui/views/app_grid.c:276-297 | The row-filling loop puts item cols * r + c in row r, column c, and fills up the last row |
| `Pages.EachItemOnce` | ui/views/app_grid.c:276-297 | Each item shown stands in exactly one cell |
| `Pages.RowsSuffice` | ui/views/app_grid.c:276-297 | The items of a page take no more rows than the grid has |
| `Pages.Store.StartRemoteFetch` | ui/main.c:216-231 | The requested page size is the one computed for a page with the bar, and is remembered |
| `Pages.Store.Receive` | ui/main.c:734-766 | A response is taken if and only if its keyword or category and its page are those the store shows now; then its list and total replace the store's, and otherwise nothing changes |
| `Pages.Store.TriggerRemotePage` | ui/main.c:645-650 | A negative index is ignored; any other becomes the current page and page index + 1 is requested |
| `Pages.Store.PressButton` | ui/views/app_grid.c:323-360 | The buttons keep the current page within the pages and request exactly the page they go to, or nothing at the ends |
| `Pages.PagesPartitionCatalogue` | ui/views/app_grid.c:202-297 | The screens of all pages, cut from the requested slices of the catalogue, are the catalogue one after the other if and only if there is one page or the two page sizes agree; truncation then drops nothing |
| `Pages.Browse` | ui/views/app_grid.c:202-360 | Browsing with the store's own methods from the first page on, through every request, the slice it names, the view and the button to the next page, shows exactly the catalogue if and only if there is one page or the two page sizes agree |
| `Pages.ShowPage` | ui/views/app_grid.c:179-297 | When the slice of a page has arrived, the cards of the view, row by row, are the items that the screen of that page should show |
| `Pages.DealtItems` | ui/views/app_grid.c:276-297 | The cards of the filled rows, read row by row, are the head of the list |
| `Pages.NothingBehind` | ui/views/app_grid.c:182-200 | Once a slice is empty, and the view therefore has no buttons, no later page has any item |
| `Pages.WideWindowLosesItems` | ui/views/app_grid.c:202-297 | In the wide window every catalogue of more than one page loses items |
| `Pages.ClientSidePages` | ui/views/app_grid.c:248-254 | Without a total from the server every page shows the head of the list: all items are on the screen if and only if there is one page |
| `Tasks.Context.PendingPush` | lib/linyaps_task.c:9-23 | Appends to the linked queue and keeps head and tail at its ends |
| `Tasks.Context.PendingPop` | lib/linyaps_task.c:25-43 | Takes the first request; the tail is reset when the queue becomes empty |
| `Tasks.Context.PendingPopTail` | lib/linyaps_task.c:45-63 | Removes exactly the last request and relinks the tail |
| `Tasks.Context.AllocTask` | lib/linyaps_task.c:133-140 | Finds the first free slot, and none only when all are active |
| `Tasks.Context.FindTask` | lib/linyaps_task.c:123-131 | Finds the first active slot that runs the path |
| `Tasks.Context.CallTaskMethod` | lib/linyaps_context.c:168-226 | A valid request is queued; if the call, its reply or its code fails, exactly that request leaves the queue again and its callback is told the error; an invalid one is never queued |
| `Tasks.Context.OnTaskAdded` | lib/linyaps_task.c:337-389 | The first queued request gets the first free slot, or is told why not; the slot is clear again after a failed subscription; without a path or a queued request nothing happens |
| `Tasks.Context.OnTaskRemoved` | lib/linyaps_task.c:396-413 | The first slot that runs the path is told and cleared; an unknown path changes nothing |
| `Tasks.Context.Free` | lib/linyaps_context.c:48-66 | Empties the queue and the table and makes no callback |
| `TaskRuns.RequestsConserved` | lib/linyaps_task.c:9-63 | On every run the requests issued are, as a multiset, those queued, those in an active slot and those settled |
| `TaskRuns.ExactlyOnePlace` | lib/linyaps_task.c:337-413 | A request issued once is in exactly one of queue, active slot and settled; one never issued is in none |
| `TaskRuns.BoundInOrder` | lib/linyaps_task.c:337-350 | On every run tasks have taken a prefix of the accepted requests in the order of acceptance, and the queue is the rest |
| `TaskRuns.RefusedLeaveNoTrace` | lib/linyaps_context.c:168-226 | On every run leaving out all failed and invalid requests gives the same queue and table |
| `TaskRuns.LastWordsOnce` | lib/linyaps_task.c:337-413 | On every run each settled request with a callback has got exactly one last callback, in the order of settlement, and no other request has |
| `TaskRuns.TooManyExactlyWhenFull` | lib/linyaps_task.c:350-354 | 'too many active tasks' is said if and only if a task is added for a queued request while all 16 slots are active |
| `TaskRuns.ClosingDrops` | lib/linyaps_context.c:48-66 | Closing after any run: every issued request was settled before or is dropped without its last callback |
| `TaskRuns.RemovedIsGoneExactly` | lib/linyaps_task.c:396-413 | After any run and TaskRemoved for a path, no slot runs the path if and only if at most one did before |
| `TaskRuns.RemovedIsGoneByBalance` | lib/linyaps_task.c:337-413 | That holds if and only if in the run at most one task for the path was started and not removed since, whatever happened to other paths and however often this one was reused |
| `TaskRuns.SlotsAreBalance` | lib/linyaps_task.c:337-413 | On every run the number of slots that run a path is the number of tasks started for it and not removed since |
| `TaskRuns.RemovedIsGone` | lib/linyaps_task.c:396-413 | In particular no slot runs a removed task if no object path is announced twice |
| `TaskRuns.RemovedMayStay` | lib/linyaps_task.c:123-131 | A run with a path announced twice after which the removed path is still running |
| `TaskRuns.CodeTold` | lib/linyaps_context.c:208-217 | A request whose reply holds an error code is told of the failure, never with code 0, and with the very code if and only if the 64-bit code fits an int |
| `TaskRuns.RequestExactly` | lib/linyaps_context.c:168-226 | In every state: a request enters the queue, at its end, if and only if its id is not empty and call, reply and code are all good; otherwise queue and table stay as they are, it is settled, and its callback gets the code of the call if that failed, else of the reply if it could not be read, else the int that holds the low 32 bits of the code |
| `TaskRuns.AddedExactly` | lib/linyaps_task.c:337-389 | In every state: without a path or a queued request TaskAdded changes nothing; else the first request leaves the queue and either is refused because all slots are active, or gets the first free slot and Started with the path, or is refused because a subscription failed and leaves the slot clear |
| `TaskRuns.RemovedExactly` | lib/linyaps_task.c:396-413 | In every state: TaskRemoved clears the first active slot with the path and tells its request Finished with the path, or changes nothing if there is none |
| `TaskRuns.CodesTold` | lib/linyaps_util.c:69-81 | The error code given for each reason: -EINVAL, -ENOSPC, or the code itself, and -1 instead of 0 |
| `HandlePool.CurlPool.Take` | lib/linyaps_remote.c:47-77 | The locked section lends the first idle entry, making its handle once and its headers with two appends, either of which may fail; it changes nothing if there is no handle or the pool is full |
| `HandlePool.TakenExactly` | lib/linyaps_remote.c:47-77 | The pool is found full if and only if all entries are in use; otherwise the first idle entry is lent, a filled one with the handle and headers it has, an empty one with those made for it, and the others stay as they are |
| `HandlePool.CurlPool.Contains` | lib/linyaps_remote.c:115-125 | True if and only if an entry holds the handle |
| `HandlePool.CurlPool.GiveBack` | lib/linyaps_remote.c:91-106 | Marks exactly the entry of the handle idle |
| `HandlePool.GivenBackExactly` | lib/linyaps_remote.c:91-106 | The first entry with the handle becomes idle and keeps its handle and headers; the others, or all if there is none, stay as they are |
| `PoolThreads.StepInv` | lib/linyaps_remote.c:47-211 | Every action of every thread keeps the invariant: each live object in one place (an entry, a thread, or lost by a failed append), each entry in use lent to one thread, every object accounted for |
| `PoolThreads.NeverShared` | lib/linyaps_remote.c:47-112 | For any number of threads and any interleaving no handle, pooled or temporary, is in the hands of two threads, and it is alive |
| `PoolThreads.ContainsIsExact` | lib/linyaps_remote.c:115-125 | curl_pool_contains is true exactly for handles taken from the pool, when asked and ever after until the release |
| `PoolThreads.DestroyedOnce` | lib/linyaps_remote.c:92-112 | Nothing is destroyed twice or while not alive, even if addresses are reused; every object made is alive or was destroyed, not both |
| `PoolThreads.PoolSurvives` | lib/linyaps_remote.c:92-112 | No action of any thread destroys or moves the handle and headers of a filled pool entry |
| `PoolThreads.NothingLeaks` | lib/linyaps_remote.c:60-89 | When all threads are done only the pool's objects are alive if and only if in the run no second append failed after a successful first |
| `PoolThreads.WhatIsLeft` | lib/linyaps_remote.c:180-211 | When all threads are done no entry is in use, and the objects alive are those of the pool and the lost header nodes |
| `PoolThreads.LostExactly` | lib/linyaps_remote.c:63-86 | On every run a node was lost if and only if a second append failed after a successful first |
| `PoolThreads.SecondAppendLeaks` | lib/linyaps_remote.c:63-66 | A run of one thread after which a header node is alive and reachable from nowhere |
| `PoolReuse.TemporaryAfterFull` | lib/linyaps_remote.c:56-89 | On every interleaving, when a thread has a temporary handle, its last acquisition found all four entries in use and lent to other threads |
| `PoolReuse.FilledIsLent` | lib/linyaps_remote.c:56-77 | When the first idle entry has a handle, the next acquisition lends that very handle with its headers and makes nothing |
| `PoolReuse.LentAgain` | lib/linyaps_remote.c:56-106 | From every reachable state, a handle that was given back can be lent again, with its headers |

## Left out

- Numbers that are not integers on output (`%1.15g`, `%1.17g`), rounding of `strtod`, locales: floating point and the C library.
- `cJSON_Raw`, reference items, constant keys, custom hooks and the constructors of items: they add only easy members.
- JsonParser.ParseWithOpts: for a rejected text the reported position is only bounded by the text, and the deletion of the nodes built so far is not modelled.
- `cJSON_Compare` on items of invalid type.
- `cJSON_Delete`, and that nothing is used after it: memory is not reclaimed in the model.
- JsonNodes.ReplaceItemViaPointer: the deletion of the replaced node is not modelled; it ends up in no list.
- JsonNodes.ReplaceItemInArray: likewise.
- JsonMinify.Minify: stops where the code would read beyond the terminator; what it reads and writes there is undefined.
- JsonPrinter.Print: negative sizes, which are refused, and a first size of 0 without realloc, where the manual growth path copies one byte of an empty buffer.
- `id_set_free`, `id_map_free`, the copies of keys and values, and FNV-1a itself.
- Message cursors, builders and reply parsers of sd-bus in lib/linyaps_dbus_msg.c: their meaning is in a library that is not part of this model.
- Search requests (`search_push`, `search_take`), cancelling, interaction and progress signals: they move no request between queue, table and settlement.
- Tasks.Context.CallTaskMethod: `linyaps_update` and `call_task_method` differ only in the message they build and are one method here.
- Pages.Store.ViewAppGrid: the skeleton shown while loading, the drawing calls, the installed marks on cards and the conversion of the page count from long to int are not modelled.
- Pages.Store.Receive: the searching and loading flags it sets and the refetch after a resize are not modelled.
- Changes of section, category or search while a request is under way, paging while searching (the page request carries no keyword) and the ranking page, whose view reserves another header than its fetch.
- Overflow of int in the grid arithmetic.
- `curl_pool_destroy`, which runs at program exit, and the transfer itself.
- HTTP, files, subprocesses, logging, drawing and launching of applications.
