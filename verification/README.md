# Work-item substitution dictionaries and the parameter-section grammar

This project models two parts of a Word/Excel exporter for Azure DevOps work items.

**The parameter-section grammar.** A template section declares one parameter name per line. The grammar is built with
Sprache. A line is one or more characters that are not a line end (an optional `'\r'` then `'\n'`). The line is
wrapped in `Token`, which skips .NET white space on both sides. A section is `Many` such lines. The model spells
these combinators out over strings (`TemplateParser`). It also proves that the parser agrees with a simple
line-by-line reading of the text: split at each line end (`"\n"` or `"\r\n"`), drop lines that are only white space, keep everything else
without its leading white space.

**The substitution dictionary of a work item.** `FillPropertyDictionary` builds a temporary dictionary in this
order:

- the fixed keys `title`, `id`, `description`, `description.txt`, `assignedto` and `createdby`;
- every field, except the one named "description" (ignoring case), under both its name and its reference name;
- the `comments` key, holding the comment thread;
- the state and area-path history: `statechange.<state>.author` / `.date` and `lastareapathchange.author` /
  `.date`.

Each later write to the same key overwrites an earlier one. The entries are then copied, each key prefixed, into the
caller's dictionary. `CreateDictionaryFromWorkItem` does this into a new dictionary that ignores case.

Three things can throw out of the fill, and the model returns each as a `Failure`, in the order the code meets them.
`GetTxtFromHtmlContent` loads HTML outside any `try`, so the first is a description that does not load. The second
is a comment thread that does not load, when HTML fields are skipped. The last is a revision whose change date is
not a date, in the history loop. The caller's dictionary is untouched then, since the copy runs last.

HTML values go through `GenerateHtmlForWordEmbedding`. That function:

- loads the HTML;
- replaces the `src` of every `img` element with a base64 `data:` URI when it can fetch the image;
- when fonts are normalised, removes every `style` attribute and the line-break tags;
- returns either the serialised document or the error prefix followed by the exception's message.

**Modules.**

- `Wrappers`: `Option` and `Result`.
- `Text`: .NET white space, `TrimStart`, `Contains`, case folding, `Trim(char)` and integer-to-decimal.
- `Platform`: the runtime, the regex engine and the tracking store, as function-valued datatype fields. Every
  property therefore holds for any choice of them.
- `HtmlTree`: a toy element tree, with the attribute removal of `RemoveAttributeFromDocument`.
- `ImageEmbedding`: the `src` decision of `DownloadAndEmbedImage`, `GetUrlMatches` and `GenerateHtmlForWordEmbedding`.
- `Dictionaries`: insertion-ordered dictionaries, last-write-wins and the prefixed copy through a comparer.
- `WorkItems`: `GetValue`, the field, comment and history writes, `FillPropertyDictionary` and
  `CreateDictionaryFromWorkItem`.

**Exceptions.** A C# exception that can escape becomes the `Failure` of a `Result`. A `try`/`catch` that swallows an
exception becomes the branch the code takes afterwards.

**White space around a name.** `Token` skips white space on both sides of a line, but the two skips do different
things. The leading skip drops the indentation, so a name never starts with white space. Spaces and tabs after a name
are not line ends, so `AtLeastOnce` reads them as part of the name before `Token`'s trailing skip runs. That skip
then eats only the line end, any blank lines and the next line's indentation. So `"  a  \n\nb\n   \nc"` declares
`"a  "`, `"b"` and `"c"`: the names keep their trailing spaces. `TemplateParser.TrailingWhiteSpaceKept` states this.

## Model

| member | source | states |
|---|---|---|
| TemplateParser.LineEnd | src/WordExporter.Core/Templates/Parser/ParameterSection.cs:23 | `Parse.LineEnd` succeeds exactly at an optional carriage return followed by a line feed; its value is `"\r\n"` when the input starts with the carriage return and `"\n"` otherwise, and the rest is the input after it |
| TemplateParser.NameChar | src/WordExporter.Core/Templates/Parser/ParameterSection.cs:22-23 | `AnyChar.Except(LineEnd)` reads one character exactly when the input is non-empty and not at a line end |
| TemplateParser.NameChars | src/WordExporter.Core/Templates/Parser/ParameterSection.cs:22-24 | the repetition never fails; it reads up to the first line end or the end of the text and never past a line end |
| TemplateParser.NameCharsAtLeastOnce | src/WordExporter.Core/Templates/Parser/ParameterSection.cs:22-24 | `AtLeastOnce` fails exactly on empty input or at a line end; otherwise it reads a non-empty run that stops at a line end or the end of the text |
| TemplateParser.WhiteSpaces | src/WordExporter.Core/Templates/Parser/ParameterSection.cs:25 | the skip of `Token` consumes the longest white-space prefix |
| TemplateParser.Line | src/WordExporter.Core/Templates/Parser/ParameterSection.cs:21-26 | a line succeeds exactly when the rest of the text is not all white space; the name is non-empty, starts with a non-space and holds no line feed; the parser always advances |
| TemplateParser.Lines | src/WordExporter.Core/Templates/Parser/ParameterSection.cs:29 | `Line.Many()` never fails, yields only valid names and leaves only white space behind |
| TemplateParser.Parse | src/WordExporter.Core/Templates/Parser/ParameterSection.cs:28-33 | the section parser always succeeds, every parameter name is valid, and only white space remains |
| TemplateParser.SplitLines | src/WordExporter.Core/Templates/Parser/ParameterSection.cs:23 | splitting at line ends yields at least one line (the reference reading) |
| TemplateParser.BlankDeclaresNothing | src/WordExporter.Core/Templates/Parser/ParameterSection.cs:21-29 | text where `Line` fails, which is all white space, declares no name in the reference reading |
| TemplateParser.LineReadsFirstName | src/WordExporter.Core/Templates/Parser/ParameterSection.cs:21-26 | the name one `Line` reads is the first name the reference reading declares, and the text it leaves declares the rest |
| TemplateParser.LinesAreDeclaredNames | src/WordExporter.Core/Templates/Parser/ParameterSection.cs:21-29 | the names `Line.Many()` reads are exactly those of the line-by-line reading, for every text |
| TemplateParser.ParseIsLineByLine | src/WordExporter.Core/Templates/Parser/ParameterSection.cs:28-33 | the parameter names are the non-blank lines of the text, each with its leading white space dropped, in order |
| TemplateParser.WhiteSpaceDeclaresNothing | src/WordExporter.Core/Templates/Parser/ParameterSection.cs:28-33 | a text of white space only declares no parameter and consumes nothing |
| TemplateParser.SplitJoin | src/WordExporter.Core/Templates/Parser/ParameterSection.cs:23 | joining a non-empty list of names that hold no line feed and do not end in a carriage return with `"\n"`, then splitting again, gives the names back |
| TemplateParser.ParseJoinRoundTrip | src/WordExporter.Core/Templates/Parser/ParameterSection.cs:21-33 | names that start with a non-space, hold no line feed and do not end in a carriage return, written one per line, parse back to the same list |
| TemplateParser.TrailingWhiteSpaceKept | src/WordExporter.Core/Templates/Parser/ParameterSection.cs:21-26 | spaces and tabs after a name stay part of that name; the next line is read as the next name |
| TemplateParser.IndentedName | src/WordExporter.Core/Templates/Parser/ParameterSection.cs:25 | indentation before a name is dropped, and the rest is parsed as if the line were absent |
| TemplateParser.ReadName | src/WordExporter.Core/Templates/Parser/ParameterSection.cs:22-24 | a name running up to a line end is the first declared line of the reference reading |
| TemplateParser.SkipWhiteSpace | src/WordExporter.Core/Templates/Parser/ParameterSection.cs:25 | leading white space, blank lines included, declares nothing in the reference reading |
| Text.TrimStart | src/WordExporter.Core/Templates/Parser/ParameterSection.cs:25 | the leading skip of `Token` drops exactly a white-space prefix and stops at a non-space |
| Text.TrimChar | src/WordExporter.Core/WorkItems/Extensions.cs:246 | `Trim('.')` cuts off a prefix and a suffix made only of '.' and keeps the piece between them, which starts and ends with a character other than '.' (or is empty) |
| Text.IntToDecimal | src/WordExporter.Core/WorkItems/Extensions.cs:240 | `Id.ToString()` is non-empty and starts with a minus sign exactly for a negative id |
| Text.NatToDecimalValue | src/WordExporter.Core/WorkItems/Extensions.cs:240 | reading the printed digits of a number back gives the number |
| Text.NatToDecimalNoLeadingZero | src/WordExporter.Core/WorkItems/Extensions.cs:240 | a printed number starts with '0' only when it is zero |
| Text.IntToDecimalInjective | src/WordExporter.Core/WorkItems/Extensions.cs:240 | two ids with the same text are the same id, so the text comparison finds the attachment with that id |
| HtmlTree.EditElements | src/WordExporter.Core/WorkItems/Extensions.cs:188-198 | editing the attributes of every element keeps the tree's shape and each element's name, and gives each element the edited attributes of its own tag |
| HtmlTree.EditElementsAll | src/WordExporter.Core/WorkItems/Extensions.cs:188-198 | the same, for a list of sibling nodes, element for element in document order |
| HtmlTree.EditElementsIdempotent | src/WordExporter.Core/WorkItems/Extensions.cs:188-198 | an attribute edit that is stable on its own output is stable on a whole tree |
| HtmlTree.EditElementsAllIdempotent | src/WordExporter.Core/WorkItems/Extensions.cs:188-198 | the same, for a list of sibling nodes |
| HtmlTree.EditElementsKeeps | src/WordExporter.Core/WorkItems/Extensions.cs:188-198 | an edit that keeps the attributes of every element of the tree leaves the tree as it is |
| HtmlTree.EditElementsAllKeeps | src/WordExporter.Core/WorkItems/Extensions.cs:188-198 | the same, for a list of sibling nodes |
| HtmlTree.RemoveAttribute | src/WordExporter.Core/WorkItems/Extensions.cs:331-341 | `RemoveAttributeFromDocument` keeps the tree and the element names, removes the attribute from every element that had it, and changes no other attribute |
| HtmlTree.RemoveAttributeIdempotent | src/WordExporter.Core/WorkItems/Extensions.cs:331-341 | removing an attribute a second time changes nothing |
| HtmlTree.RemoveAbsentAttribute | src/WordExporter.Core/WorkItems/Extensions.cs:331-341 | removing an attribute that no element carries changes nothing |
| ImageEmbedding.DigitRun | src/WordExporter.Core/WorkItems/Extensions.cs:234 | the group `\d*` captures the longest run of digits at its position |
| ImageEmbedding.FileIdFrom | src/WordExporter.Core/WorkItems/Extensions.cs:234 | the scan stops at the leftmost occurrence of "FileID=" (ignoring case) from its start position on, or at the end when there is none |
| ImageEmbedding.FileIdMatch | src/WordExporter.Core/WorkItems/Extensions.cs:234-236 | the attachment regex matches exactly when "FileID=" occurs somewhere in the `src`, ignoring case; the captured id is the longest digit run right after the leftmost occurrence |
| ImageEmbedding.FirstFileIdDecides | src/WordExporter.Core/WorkItems/Extensions.cs:234-240 | whichever way the leftmost "FileID=" is found, the id the regex captures is the digit run right after it |
| ImageEmbedding.GetExtension | src/WordExporter.Core/WorkItems/Extensions.cs:253 | `Path.GetExtension` throws exactly on a path holding an invalid character; otherwise the result is non-empty exactly when some '.' that is not the last character has no dot or separator after it, and then it is the suffix starting at that dot |
| ImageEmbedding.ExtensionScan | src/WordExporter.Core/WorkItems/Extensions.cs:253 | the backwards scan finds an extension exactly when a dot that is not the last character has no dot or separator after it, and returns the suffix from that dot |
| ImageEmbedding.ExtensionLabel | src/WordExporter.Core/WorkItems/Extensions.cs:253 | `GetExtension(fileName).Trim('.')` is the extension without its one leading dot |
| ImageEmbedding.FirstWithId | src/WordExporter.Core/WorkItems/Extensions.cs:238-240 | the position found is that of an attachment whose id text equals the captured id, and no earlier attachment has that text; it is past the end only when none has it |
| ImageEmbedding.FindAttachment | src/WordExporter.Core/WorkItems/Extensions.cs:238-241 | `FirstOrDefault` finds nothing exactly when no attachment's id text equals the captured id; otherwise it returns the first such attachment |
| ImageEmbedding.FromAttachment | src/WordExporter.Core/WorkItems/Extensions.cs:236-247 | an image is fetched exactly when an attachment has the captured id and its download succeeds; it is then the downloaded bytes of the first such attachment, labelled with that attachment's extension trimmed of its leading and trailing dots |
| ImageEmbedding.FromUrl | src/WordExporter.Core/WorkItems/Extensions.cs:249-279 | an image is fetched exactly when the matched file name's extension can be taken and the download succeeds (the URL with the session's credentials when it has any, the attachment API otherwise); it is then the downloaded bytes, labelled with that extension trimmed of its leading and trailing dots |
| ImageEmbedding.Resolve | src/WordExporter.Core/WorkItems/Extensions.cs:217-291 | an empty `src`, or one already holding "base64", fetches nothing; otherwise a "FileID=" match takes the attachment branch, else a URL pattern match takes the URL branch, else nothing is fetched |
| ImageEmbedding.DataUri | src/WordExporter.Core/WorkItems/Extensions.cs:289 | the new `src` is "data:image/", the extension, ";base64," and the encoded bytes, in that order and nothing else |
| ImageEmbedding.DataUriIsEmbedded | src/WordExporter.Core/WorkItems/Extensions.cs:289 | the new `src` holds "base64", so the test on line 223 treats it as already embedded |
| ImageEmbedding.EmbeddedSrc | src/WordExporter.Core/WorkItems/Extensions.cs:215-299 | an image that was not fetched keeps its `src`; a fetched one gets `data:image/<extension>;base64,<bytes in base64>`, which is embedded |
| ImageEmbedding.EmbeddedSrcIdempotent | src/WordExporter.Core/WorkItems/Extensions.cs:215-299 | embedding the images of an already processed `src` again changes nothing |
| ImageEmbedding.AttachmentImageEmbedded | src/WordExporter.Core/WorkItems/Extensions.cs:234-290 | an image whose leftmost "FileID=" is followed by the id of an attachment that downloads becomes `data:image/<attachment extension without dots>;base64,<bytes>` |
| ImageEmbedding.UrlBranchResolves | src/WordExporter.Core/WorkItems/Extensions.cs:249-279 | with no "FileID=" and a URL pattern match, the fetched image is the download labelled with the trimmed extension of the matched file name |
| ImageEmbedding.UrlImageEmbedded | src/WordExporter.Core/WorkItems/Extensions.cs:249-290 | such an image becomes `data:image/<extension without its dot>;base64,<bytes>`, the bytes downloaded with the credentials when there are any and through the attachment API otherwise |
| ImageEmbedding.AttachmentBranchIgnoresUrlPatterns | src/WordExporter.Core/WorkItems/Extensions.cs:234-249 | once the "FileID=" regex matches, the URL patterns play no part, even when no attachment has that id |
| ImageEmbedding.GetUrlMatches | src/WordExporter.Core/WorkItems/Extensions.cs:301-311 | a match exists exactly when one of the two patterns matches; the first pattern's match is returned when it has one, and the second pattern's result otherwise |
| ImageEmbedding.UrlPatternOrder | src/WordExporter.Core/WorkItems/Extensions.cs:301-311 | the second URL pattern is only consulted when the first fails; when neither matches (and "FileID=" does not), the `src` is kept |
| ImageEmbedding.FailedFetchKeepsSrc | src/WordExporter.Core/WorkItems/Extensions.cs:295-298 | when every download throws, the exception is caught and the image keeps its `src` |
| ImageEmbedding.NoAttachmentNamed | src/WordExporter.Core/WorkItems/Extensions.cs:238-241 | no attachment is found for an empty id or a zero-padded id |
| ImageEmbedding.UnnumberedFileIdKeepsSrc | src/WordExporter.Core/WorkItems/Extensions.cs:234-249 | "FileID=" followed by no digits, or by a zero-padded number, still takes the attachment branch, finds nothing, and leaves the `src` unchanged |
| ImageEmbedding.EmbedImage | src/WordExporter.Core/WorkItems/Extensions.cs:282-290 | only the `src` attribute of an image changes, and it becomes the embedded `src` |
| ImageEmbedding.EmbedImages | src/WordExporter.Core/WorkItems/Extensions.cs:185-199 | the loop over `//img` keeps the tree and every element name; elements other than `img` are untouched; each image gets its embedded `src` and keeps its other attributes |
| ImageEmbedding.EmbedImagesIdempotent | src/WordExporter.Core/WorkItems/Extensions.cs:185-199 | running the image loop over its own output changes nothing |
| ImageEmbedding.EmbedImagesKeeps | src/WordExporter.Core/WorkItems/Extensions.cs:185-227 | a document whose every image has no `src` or one holding "base64" comes out of the image loop unchanged |
| ImageEmbedding.PrepareDocument | src/WordExporter.Core/WorkItems/Extensions.cs:185-204 | the tree keeps its shape and every image is stable under embedding; without font normalisation the document is the image loop's output, and with it that output with every `style` attribute removed |
| ImageEmbedding.GenerateHtmlForWordEmbedding | src/WordExporter.Core/WorkItems/Extensions.cs:175-213 | never throws: a load failure, or a failure removing the line breaks, gives the error prefix and the message; otherwise the result is the serialised document with images embedded, and with styles removed when normalising fonts |
| ImageEmbedding.GenerateHtmlKeepsEmbeddedImages | src/WordExporter.Core/WorkItems/Extensions.cs:180-227 | without font normalisation, HTML whose images are all embedded or without `src` is serialised back as loaded |
| ImageEmbedding.GenerateHtmlNormalizesOnlyBreaks | src/WordExporter.Core/WorkItems/Extensions.cs:180-227 | with font normalisation, such HTML with no `style` attribute only loses its line breaks, or gives the error text when that removal throws |
| Dictionaries.LastWrite | src/WordExporter.Core/WorkItems/Extensions.cs:52-138 | a key is absent exactly when it was never assigned; a present key holds a value that was assigned to it |
| Dictionaries.LastWriteConcat | src/WordExporter.Core/WorkItems/Extensions.cs:52-138 | later assignments to a key override earlier ones, and leave other keys alone |
| Dictionaries.LastWriteAt | src/WordExporter.Core/WorkItems/Extensions.cs:52-138 | a key holds the value of its last assignment |
| Dictionaries.Assign | src/WordExporter.Core/WorkItems/Extensions.cs:140-143 | indexer assignments add exactly the assigned keys, each with its last value, and keep every other entry |
| Dictionaries.Empty | src/WordExporter.Core/WorkItems/Extensions.cs:52 | a new dictionary has no entries |
| Dictionaries.Put | src/WordExporter.Core/WorkItems/Extensions.cs:53 | the indexer overwrites a present key in place and appends a new key to the enumeration order |
| Dictionaries.PutAll | src/WordExporter.Core/WorkItems/Extensions.cs:52-138 | a sequence of indexer assignments gives the last-write-wins map, and the enumeration order only grows at the end |
| Dictionaries.CopyWrites | src/WordExporter.Core/WorkItems/Extensions.cs:140-143 | the copy loop assigns each entry, in enumeration order, to its prefixed key as the comparer sees it |
| Dictionaries.SlotOfSlot | src/WordExporter.Core/WorkItems/Extensions.cs:29 | when the comparer's upper-casing is stable on upper-cased characters, the slot of a slot is that slot |
| Dictionaries.CopyWritesHit | src/WordExporter.Core/WorkItems/Extensions.cs:140-143 | the copy writes exactly the slots of prefixed temporary keys |
| Dictionaries.CopyWithPrefix | src/WordExporter.Core/WorkItems/Extensions.cs:140-143 | after the copy, the target holds exactly its old keys plus the slots of the prefixed temporary keys, and a target keyed by slots stays keyed by slots |
| Dictionaries.CopyKeyedBySlot | src/WordExporter.Core/WorkItems/Extensions.cs:140-143 | copying into a dictionary keyed by slots keeps it keyed by slots |
| Dictionaries.CopyLastCollisionWins | src/WordExporter.Core/WorkItems/Extensions.cs:140-143 | when several keys fall on one slot (ignoring case), the one enumerated last wins |
| Dictionaries.CopyKeepsOthers | src/WordExporter.Core/WorkItems/Extensions.cs:140-143 | an entry of the caller's dictionary that no prefixed key hits is kept |
| Dictionaries.CopyOrdinal | src/WordExporter.Core/WorkItems/Extensions.cs:140-143 | with an ordinal comparer every temporary entry arrives, unchanged, under its prefixed key |
| WorkItems.ToText | src/WordExporter.Core/WorkItems/Extensions.cs:65-66 | `Value?.ToString()` is null exactly for a null value |
| WorkItems.TextOrEmpty | src/WordExporter.Core/WorkItems/Extensions.cs:65-66 | `?? String.Empty` turns a null value into the empty string; a date gives its `ToString()` text and any other object its own text |
| WorkItems.Embedded | src/WordExporter.Core/WorkItems/Extensions.cs:62 | an embedded HTML value is an `HtmlSubstitution`: of the error text when the HTML does not load, and of the serialised document with its images embedded when it loads and fonts are left alone |
| WorkItems.EmbeddedKeepsEmbeddedImages | src/WordExporter.Core/WorkItems/Extensions.cs:62 | HTML that loads and whose images are all embedded already, or have no `src`, is substituted as the loaded document serialised, when fonts are left alone |
| WorkItems.GetTxtFromHtmlContent | src/WordExporter.Core/WorkItems/Extensions.cs:168-173 | the plain text is the `InnerText` of the loaded document; nothing catches a failed load, so it fails exactly when the load does, with the load's message |
| WorkItems.GetValue | src/WordExporter.Core/WorkItems/Extensions.cs:146-160 | a null value gives the empty string and a date gives its short date; a value becomes an `HtmlSubstitution` exactly when the field is an HTML field with a non-null, non-date value; any other value gives its text |
| WorkItems.FixedWrites | src/WordExporter.Core/WorkItems/Extensions.cs:53-66 | fails exactly when the description does not load, with that error; otherwise the six fixed keys, in order: the title; the boxed id; the description, which is the `InnerText` of its HTML when HTML fields are skipped and its embedded HTML otherwise; that `InnerText` again as `description.txt`; the assigned-to and created-by values as text, empty when null |
| WorkItems.OwnWrites | src/WordExporter.Core/WorkItems/Extensions.cs:76-79 | a field writes its value under its name and its reference name, and under no other key; a field named "description" (ignoring case) writes nothing |
| WorkItems.FieldWrites | src/WordExporter.Core/WorkItems/Extensions.cs:74-80 | the field loop writes at most two keys per field |
| WorkItems.FieldWritesMiss | src/WordExporter.Core/WorkItems/Extensions.cs:74-80 | a key no field claims is never written by the field loop |
| WorkItems.FieldWritesLast | src/WordExporter.Core/WorkItems/Extensions.cs:74-80 | a key holds the value of the last field claiming it |
| WorkItems.CommentHtml | src/WordExporter.Core/WorkItems/Extensions.cs:91-93 | one comment renders as "<b>Author:</b>", the author, " in date ", the date stamp, "<br>" and the text, in that order and nothing else |
| WorkItems.CommentsHtml | src/WordExporter.Core/WorkItems/Extensions.cs:88-94 | the thread's HTML is empty exactly when there are no comments |
| WorkItems.CommentsHtmlConcat | src/WordExporter.Core/WorkItems/Extensions.cs:89-94 | the thread is built by appending comment after comment |
| WorkItems.CommentsHtmlContains | src/WordExporter.Core/WorkItems/Extensions.cs:89-94 | every comment's HTML (author, date, break, text) appears in the thread |
| WorkItems.CommentsValue | src/WordExporter.Core/WorkItems/Extensions.cs:86-109 | no comments give the empty string; otherwise the thread, as embedded HTML, or as plain text when HTML fields are skipped; it fails exactly when plain text is wanted and the thread does not load, with the load's error |
| WorkItems.CastDate | src/WordExporter.Core/WorkItems/Extensions.cs:129 | `(DateTime)changedDate` succeeds exactly on a date; a null throws a null reference and any other object an invalid cast |
| WorkItems.StateOf | src/WordExporter.Core/WorkItems/Extensions.cs:128 | the lower-cased state text is missing exactly when the value is null |
| WorkItems.HistoryKeys | src/WordExporter.Core/WorkItems/Extensions.cs:126-135 | a changed state or area path gives an author key and a date key, in that order |
| WorkItems.ChangeWrites | src/WordExporter.Core/WorkItems/Extensions.cs:124-136 | a changed field passes exactly when it is not a state with a null value and, if it writes keys, the change date is a date; a null state throws a null reference; other fields write nothing |
| WorkItems.ChangeWritesLast | src/WordExporter.Core/WorkItems/Extensions.cs:126-135 | a changed field writes exactly the keys it hits: author keys get the raw "Changed By" value and date keys the short date |
| WorkItems.PairLastWrite | src/WordExporter.Core/WorkItems/Extensions.cs:128-129 | the author key holds the "Changed By" value and the date key the short date |
| WorkItems.ChangesWrites | src/WordExporter.Core/WorkItems/Extensions.cs:124-136 | one revision's fields pass exactly when each one passes |
| WorkItems.ChangesWritesLast | src/WordExporter.Core/WorkItems/Extensions.cs:124-136 | within one revision every key written holds that revision's stamp; other keys are not written |
| WorkItems.HistoryWrites | src/WordExporter.Core/WorkItems/Extensions.cs:113-138 | the history loop completes exactly when every changed field of every revision passes |
| WorkItems.HistoryMiss | src/WordExporter.Core/WorkItems/Extensions.cs:113-138 | a key no revision hits is not written by the history |
| WorkItems.HistoryLastWins | src/WordExporter.Core/WorkItems/Extensions.cs:113-138 | a history key holds the stamp of the last revision that writes it |
| WorkItems.StateKeyInjective | src/WordExporter.Core/WorkItems/Extensions.cs:128-129 | different states give different keys |
| WorkItems.StateKeyHit | src/WordExporter.Core/WorkItems/Extensions.cs:126-129 | a changed field writes `statechange.<state>` keys exactly when it is a state change to that state |
| WorkItems.AreaKeyHit | src/WordExporter.Core/WorkItems/Extensions.cs:131-135 | a changed field writes the area-path keys exactly when it is an area-path change |
| WorkItems.AnyHitsState | src/WordExporter.Core/WorkItems/Extensions.cs:124-130 | a revision writes a state's keys exactly when it moves the item to that state |
| WorkItems.AnyHitsArea | src/WordExporter.Core/WorkItems/Extensions.cs:124-135 | a revision writes the area-path keys exactly when it changes the area path |
| WorkItems.LastStateChange | src/WordExporter.Core/WorkItems/Extensions.cs:111-130 | `statechange.<state>.author` and `.date` record who moved the item to that state last, and when |
| WorkItems.NeverInState | src/WordExporter.Core/WorkItems/Extensions.cs:111-130 | a state the item never entered has no history keys |
| WorkItems.LastAreaPathChange | src/WordExporter.Core/WorkItems/Extensions.cs:111-135 | `lastareapathchange.author` and `.date` record the last area-path change |
| WorkItems.NeverMovedArea | src/WordExporter.Core/WorkItems/Extensions.cs:111-135 | without an area-path change there are no area-path keys |
| WorkItems.TemporaryDictionary | src/WordExporter.Core/WorkItems/Extensions.cs:52-138 | the temporary dictionary is built exactly when the description loads, the thread loads when HTML fields are skipped, and the history loop does not throw; otherwise the error is the first of these to fail, in that order; a built dictionary always holds the fixed keys and `comments` |
| WorkItems.TemporaryEntry | src/WordExporter.Core/WorkItems/Extensions.cs:52-138 | each entry of the temporary dictionary holds the last value assigned to its key |
| WorkItems.FixedKeyKept | src/WordExporter.Core/WorkItems/Extensions.cs:53-66 | a fixed key no field claims keeps its fixed value; comments and history never touch it |
| WorkItems.DescriptionKept | src/WordExporter.Core/WorkItems/Extensions.cs:56-80 | the skipped "Description" field never replaces the `description` key, which keeps its text or HTML form |
| WorkItems.CommentsKept | src/WordExporter.Core/WorkItems/Extensions.cs:82-109 | `comments` holds the thread value, overriding a field that has the same name |
| WorkItems.FieldKept | src/WordExporter.Core/WorkItems/Extensions.cs:74-80 | a field's name and reference name hold its value, overriding the fixed keys, unless a later field, the comments or the history write the same key |
| WorkItems.HistoryKept | src/WordExporter.Core/WorkItems/Extensions.cs:111-138 | a history key holds the stamp of its last revision, whatever a field or the comments wrote before |
| WorkItems.FillPropertyDictionary | src/WordExporter.Core/WorkItems/Extensions.cs:45-144 | fails exactly when building the temporary dictionary throws (a description or, when HTML fields are skipped, a thread that does not load, or the history loop), with that error; otherwise every key of the caller's dictionary is still present (its value is overwritten when a prefixed key lands on it), the prefixed fixed keys and `comments` are added, and a dictionary keyed by the comparer's slots stays so |
| WorkItems.FillLastCollisionWins | src/WordExporter.Core/WorkItems/Extensions.cs:140-143 | of the temporary keys landing in one slot of the caller's dictionary, the one enumerated last gives it its value (a field "Title" overrides the fixed "title" when case is ignored) |
| WorkItems.FillKeepsOthers | src/WordExporter.Core/WorkItems/Extensions.cs:140-143 | an entry of the caller's dictionary whose slot no temporary key lands in keeps its value |
| WorkItems.FillOrdinal | src/WordExporter.Core/WorkItems/Extensions.cs:140-143 | with an ordinal dictionary every temporary entry arrives under its prefixed key with its value |
| WorkItems.CreateDictionaryFromWorkItem | src/WordExporter.Core/WorkItems/Extensions.cs:25-32 | fails exactly when the description does not load or the history loop throws (HTML fields are embedded, so the thread is never loaded outside a `try`); otherwise the new case-insensitive dictionary holds the fixed keys and `comments` |
| WorkItems.CreateDictionaryKeys | src/WordExporter.Core/WorkItems/Extensions.cs:25-32 | the created dictionary's keys are exactly the case-folded keys of the temporary dictionary |

## Left out

- HTML parsing, serialisation, `InnerText` and `RemoveTags(br, p)` are done by HtmlAgilityPack. The model takes them
  as the `HtmlLibrary` parameter; a load failure or a tag-removal failure is its `Failure`. Such a failure inside
  `GenerateHtmlForWordEmbedding` is caught there; in `GetTxtFromHtmlContent` it escapes the fill as `HtmlLoadError`.
- The two URL regexes of `GetUrlMatches` (`.*` groups with backtracking) are the `urlPattern1`/`urlPattern2`
  parameters. The `FileID=` regex is modelled exactly.
- `ToBase64String`, `ToShortDateString`, `DateTime.ToString`, `ToLower` and the upper-casing of the case-insensitive
  comparer are runtime parameters.
- Downloads are store parameters: `WorkItemServer.DownloadFile`, `WebClient.DownloadFile` and
  `GetAttachmentContentAsync`. So are the temporary file that holds a download and `File.ReadAllBytes`. A download
  that throws is `None`.
- `new Guid(fileId)` throwing on a malformed id is treated as a throwing download.
- All logging.
- `CollapseNodeWithText` is never called, so it is not modelled.
- The comments are an input list. `GetCommentsAsync(...).Result` is a network call, and `comments.Count` is taken
  to be the number of comments in the list.
- `Fields["System.AssignedTo"]`, `Fields["System.CreatedBy"]`, `Fields["Changed By"]` and `Fields["Changed Date"]`
  are record fields. The exception a missing field would throw is not modelled.
- `Registry.Options.NormalizeFontInDescription` is the `normalizeFont` parameter of `Env`.
- `//img` and `//*[@style]` select by the lower-case element name and attribute name as the tree holds them.
  HtmlAgilityPack's own name normalisation is not modelled.
- The spelling a case-insensitive .NET dictionary keeps for a key is not modelled. The model keys the target by the
  case-folded slot, and the value stored is the one the code stores. A caller's dictionary is therefore a map whose
  every key is its own slot (`Dictionaries.KeyedBySlot`), which `FillPropertyDictionary` requires.
- Dictionaries.CopyWithPrefix: states which keys arrive and, for the last colliding key, which value, but does not
  state which key spelling a case-insensitive dictionary keeps.
- The `Section` base class and the private `ParameterSection` constructor carry no behaviour.
- `ImageEmbedding.GetExtension` follows .NET Framework's `Path.GetExtension`, which throws on invalid path
  characters. A throw there is caught at line 295, like a download that throws.
- The temporary dictionary is modelled without removals, which the code never does. Its enumeration order is
  therefore first-insertion order, which is what .NET's `Dictionary` yields in that case.
