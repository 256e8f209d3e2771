# heritrix-hdfs-writer in Dafny

A model of the record format and byte-level parsing at the centre of the
heritrix-hdfs-writer crawler plugin, with proofs about it. The plugin stores
each crawled page as a `Text` value in a Hadoop SequenceFile. The value is a
big-endian 4-byte length followed by a document: a 16-byte `HDFSWriter/0.2`
header line, an ANVL block of `label: value` lines ended by a blank line, the
HTTP request (only for `http:` URLs) and the raw HTTP response. The model
covers:

- **Bytes**: bytes, Java's signed-byte/char comparisons, ASCII case mapping,
  `indexOf`/`lastIndexOf` and 32-bit wrap-around (`bytes.dfy`).
- **ByteScan**: the cursor-based scanner (`ByteScan.State`, `ByteSeq`) and all
  of its scanning primitives (`bytescan.dfy`). The main ones are also written
  as loops, each proved equal to its functional definition
  (`bytescan_loops.dfy`).
- **Html**: the `HTML.ElementParser` tag and attribute parser and
  `GetBaseHref` (`html.dfy`).
- **ContentType**: content-type and charset sniffing from response headers,
  the XML declaration and `<meta>` tags, plus `cleanCharset`
  (`contenttype.dfy`).
- **Document**: `HDFSWriterDocument`. That is `load`, with the ANVL parse,
  request/response split and status line; `setField`/`getField`;
  `getValidCharset`; `getURLFileExtension`; and `reconstructDocument`
  (`document.dfy`). `RoundTrip` proves that loading a reconstructed document
  gives back its fields, request and response (`roundtrip.dfy`). `Writable`
  models the Hadoop `write`/`readFields` pair (`writable.dfy`).
- **UriHash**: `URIUtils.ComputeHash`, the canonicalising 64-bit URL hash
  (`urihash.dfy`).
- **PoolMember**: `WriterPoolMemberHdfs`. It covers:
  - the record accumulator and its growth rule;
  - the length-prefixed framing of each record;
  - file naming with the 5-digit serial, and the rename on close;
  - output paths;
  - the choice of compression type;
  - rotation to a new file once the size limit is passed.

  (`poolmember.dfy`)
- **LinkCount**: the `HtmlLinkCount` map/reduce example (`linkcount.dfy`).
  The mapper loads a stored value, keeps 200 `text/html` responses, finds the
  base URI and emits every anchor `href` (filtered and with the fragment
  removed). The reducer adds the counts in a Java `int`.

Java strings that only ever hold ASCII are modelled as byte sequences. Byte
values are unsigned (0..255). Where Java compares a signed `byte` with a
`char`, the model compares the signed value (`Bytes.Is`).

`java.net.URI` parsing, resolution and normalisation are parameters
(`LinkCount.UriOps`), and so is MD5 (`ComputeHash`'s `md5`). Everything stated
about them holds for every choice of those functions.

`ByteScan.Equals` is modelled as written. It holds when the remaining length
equals the pattern's length OR when the view starts with the pattern. So
`Equals` is really "starts with, or has the same length". An attribute key
`name` therefore counts as `href` in `GetBaseHref` and in the anchor loop. The
model keeps this behaviour.

Where a Java method throws, the model returns a `Result` failure: `load`
gives `Document.LoadError`, `readFields` gives `Writable.ReadError`, and the
compression lookup gives `PoolMember.CompressionError`. The corrected members
listed under Findings are the ones the rest of the model uses.

## Model

| member | source | states |
|---|---|---|
| ByteScan.StateOf | src/java/org/archive/io/hdfs/util/ByteScan.java:45-47 | a state built from a `ByteSeq` scans the same bytes, case-insensitively, with mark and parsed integer at 0 |
| ByteScan.SkipWhitespace | src/java/org/archive/io/hdfs/util/ByteScan.java:79-84 | only the offset moves; it stops at the first non-whitespace byte or the end, every skipped byte is whitespace, and the result says whether a byte remains |
| ByteScan.SkipToWhitespace | src/java/org/archive/io/hdfs/util/ByteScan.java:93-98 | only the offset moves; it stops at the first whitespace byte or the end, no skipped byte is whitespace, and the result says whether a byte remains |
| ByteScan.ParseInt | src/java/org/archive/io/hdfs/util/ByteScan.java:107-120 | consumes the maximal digit run; it succeeds exactly when the run is non-empty and its decimal value fits in an `int`, and then `ival` is that value; on failure `ival` is 0 |
| ByteScan.StartsWithSkip | src/java/org/archive/io/hdfs/util/ByteScan.java:176-182 | succeeds exactly when the view starts with the pattern; then the offset moves past it, otherwise nothing changes |
| ByteScan.FindChar | src/java/org/archive/io/hdfs/util/ByteScan.java:195-201 | stops at the first occurrence of the character at or after the offset, or at the end when there is none |
| ByteScan.FindSkipChar | src/java/org/archive/io/hdfs/util/ByteScan.java:215-221 | on success the offset is just past the first occurrence; on failure it is the end and the character does not occur |
| ByteScan.FindPattern | src/java/org/archive/io/hdfs/util/ByteScan.java:234-268 | on success the offset is the leftmost match of the pattern (respecting case sensitivity) and no earlier position matches; on failure it is `end - |p| + 1`, one past the last position where a match could start, or stays where it was when it already lies past that |
| ByteScan.FindSkipPattern | src/java/org/archive/io/hdfs/util/ByteScan.java:282-288 | on success the offset is just past the leftmost match; on failure no position in the view matches |
| ByteScanLoops.SkipWhile | src/java/org/archive/io/hdfs/util/ByteScan.java:79-98 | the loops of `SkipWhitespace`/`SkipToWhitespace` compute the same step as the functional definitions |
| ByteScanLoops.ParseIntLoop | src/java/org/archive/io/hdfs/util/ByteScan.java:107-120 | the digit loop with its overflow guard computes the same step as `ByteScan.ParseInt` |
| ByteScanLoops.StartsWithLoop | src/java/org/archive/io/hdfs/util/ByteScan.java:147-162 | the byte-by-byte comparison loop (case-folding when the view is case-insensitive) decides `ByteScan.StartsWith` |
| ByteScanLoops.FindCharLoop | src/java/org/archive/io/hdfs/util/ByteScan.java:195-201 | the search loop computes the same step as `ByteScan.FindChar` |
| ByteScanLoops.FindPatternLoop | src/java/org/archive/io/hdfs/util/ByteScan.java:234-268 | the nested search loop computes the same step as `ByteScan.FindPattern` |
| Html.Init | src/java/org/archive/crawler/writer/util/HTML.java:56-62 | the parser scans the given state for the given element name, with no tag open and an empty content view |
| Html.Find | src/java/org/archive/crawler/writer/util/HTML.java:68-83 | only moves forward; when it succeeds, the element name preceded by `<` and followed by whitespace or `>` ends just before the new offset, and the tag is open |
| Html.FindIsLeftmost | src/java/org/archive/crawler/writer/util/HTML.java:68-83 | no opening of the element starts between the old offset and the one `Find` reports (or the end when it fails) |
| Html.FindCloseTag | src/java/org/archive/crawler/writer/util/HTML.java:190-203 | on success the offset is at a `</name` followed by `>` or the end; on failure the state is unchanged |
| Html.ParseRemaining | src/java/org/archive/crawler/writer/util/HTML.java:164-177 | when a closing tag is found, content runs from the old offset to it and the parser resumes just past `</name`, or one byte later when a `>` follows; otherwise nothing moves and the content is empty |
| Html.ContentEndsAtFirstClose | src/java/org/archive/crawler/writer/util/HTML.java:164-177 | the content ends at the first closing tag of the element: none occurs earlier |
| Html.SkipAttrName | src/java/org/archive/crawler/writer/util/HTML.java:179-188 | stops at the first `=`, `>`, `/` or whitespace, and succeeds exactly when that byte is `=` or whitespace |
| Html.AttributeValue | src/java/org/archive/crawler/writer/util/HTML.java:139-162 | a quoted value starts after the quote and runs to the first `>` or matching quote not preceded by `\`, or to the end; it contains neither, and the cursor moves one past it exactly when that byte is the quote; an unquoted value runs to the first `>` or whitespace, or to the end, and the cursor stops there |
| Html.NextAttribute | src/java/org/archive/crawler/writer/util/HTML.java:90-127 | with no tag open nothing changes; a returned key is a run of name bytes (possibly empty, as when `=` follows directly), the value lies after it, and both lie in the scanned buffer before the new offset |
| Html.NextAttributeReads | src/java/org/archive/crawler/writer/util/HTML.java:90-112 | in an open tag the key runs from the first non-whitespace byte to the end of the name bytes; when no name ending in `=` or whitespace is there the result is false, otherwise reading goes on after the name with that key |
| Html.AfterNameAssigns | src/java/org/archive/crawler/writer/util/HTML.java:113-121 | when an `=` follows the name (past whitespace), reading continues just after the `=` |
| Html.AfterNameStops | src/java/org/archive/crawler/writer/util/HTML.java:113-120 | when anything but `=` follows the name (past whitespace), the result is false, the cursor skips past the next `>` (or to the end) and the content after it is captured |
| Html.AfterEqualsAt | src/java/org/archive/crawler/writer/util/HTML.java:121-126 | past the `=`, the attribute is read exactly when a non-whitespace byte remains, and its value is what `setAttributeValue` reads from that byte; the tag stays open |
| Html.NextAttributeAssigns | src/java/org/archive/crawler/writer/util/HTML.java:90-162 | for `name = value` in an open tag, the result is true, the key is the name run after the leading whitespace, and the value and the new cursor are what `setAttributeValue` reads from the first non-whitespace byte after the `=` |
| Html.SkipAttributes | src/java/org/archive/crawler/writer/util/HTML.java:85-88 | skipping every attribute leaves the tag closed and only moves forward |
| Html.GetContent | src/java/org/archive/crawler/writer/util/HTML.java:129-136 | succeeds exactly when content was found (and its buffer is not null), and then the destination views that content; otherwise it is unchanged |
| Html.GetBaseHref | src/java/org/archive/crawler/writer/util/HTML.java:214-235 | there is a base href exactly when a `<head>` with captured content is found, a `<base` opens inside that content, and the first attribute read after it has a key that `Equals` "href"; the result is then that attribute's value, a view into the document's own buffer |
| Html.TargetFirstHidesHref | src/java/org/archive/crawler/writer/util/HTML.java:225-229 | when the first attribute of the found `<base>` is `target=`, as in `<base target=x href=y>`, there is no base href, whatever follows |
| Html.FirstKeyIsTarget | src/java/org/archive/crawler/writer/util/HTML.java:90-127 | over ` target=` the attribute reader returns the six-byte key `target`, which does not pass `Equals` with "href" |
| HtmlExamples.LongerNameDoesNotOpen | src/java/org/archive/crawler/writer/util/HTML.java:74-79 | `<abbr>` is not an opening of element `a`, because the byte after the name is neither whitespace nor `>` |
| HtmlExamples.ShortNameOpens | src/java/org/archive/crawler/writer/util/HTML.java:68-83 | `<a h>` is found as an opening of element `a` |
| HtmlExamples.QuotedValueStopsAtBracket | src/java/org/archive/crawler/writer/util/HTML.java:139-162 | a quoted value with no closing quote before `>` stops at the `>` |
| HtmlExamples.EscapedQuoteKept | src/java/org/archive/crawler/writer/util/HTML.java:139-162 | a backslash-escaped quote does not end a quoted value |
| ContentType.Normalize | src/java/org/archive/io/hdfs/HDFSWriterDocument.java:634-649 | keeps the leading run of letters, digits and `-`; a name ending `8859-1` without the `ISO-` prefix becomes `ISO-8859-1`; one ending `UTF8` becomes `UTF-8`; any other name is unchanged |
| ContentType.UnderscoreBranchUnreachable | src/java/org/archive/io/hdfs/HDFSWriterDocument.java:643 | after truncation to letters, digits and `-`, a charset can never end in `8859_1`, so that test never fires |
| ContentType.CleanCharsetAsWritten | src/java/org/archive/io/hdfs/HDFSWriterDocument.java:631-650 | the method as written fails exactly on the one-byte input `"`, and otherwise agrees with the corrected version |
| ContentType.LoneQuoteThrowsAsWritten | src/java/org/archive/io/hdfs/HDFSWriterDocument.java:632-633 | the input `"` both starts and ends with a quote, and `substring(1, 0)` throws |
| ContentType.CleanCharset | src/java/org/archive/io/hdfs/HDFSWriterDocument.java:631-650 | the cleaned name holds only letters, digits and `-` |
| ContentType.CleanCharsetStripsQuotes | src/java/org/archive/io/hdfs/HDFSWriterDocument.java:632-633 | a name between two double quotes is cleaned as the text inside them |
| ContentType.CleanCharsetUnquoted | src/java/org/archive/io/hdfs/HDFSWriterDocument.java:632-649 | a name without a quote at both ends is only truncated to its leading run of letters, digits and `-` and has the two spellings fixed |
| ContentType.CleanCharsetIdempotent | src/java/org/archive/io/hdfs/HDFSWriterDocument.java:631-650 | cleaning a cleaned charset changes nothing |
| ContentType.CleanCharsetOfLoneQuote | src/java/org/archive/io/hdfs/HDFSWriterDocument.java:632-633 | the corrected version maps a lone `"` to the empty name |
| ContentType.ParseContentType | src/java/org/archive/io/hdfs/HDFSWriterDocument.java:583-629 | a content type it sets is a lower-case `type/subtype` token, and a charset it sets is upper-case and clean |
| ContentType.ParseContentTypeMedia | src/java/org/archive/io/hdfs/HDFSWriterDocument.java:585-606 | a changed content type is the lower-cased maximal run of letters, digits, `/`, `-`, `+` and `.` after leading whitespace and at most one quote, and it is dropped when the run holds no `/` |
| ContentType.ParseContentTypeCharset | src/java/org/archive/io/hdfs/HDFSWriterDocument.java:608-628 | without a `;` the charset is untouched; with one, the lower-cased text from the first `;` to the end decides it |
| ContentType.MediaType | src/java/org/archive/io/hdfs/HDFSWriterDocument.java:596-605 | a content type that is kept contains `/` and holds only type bytes, none of them upper-case |
| ContentType.LastCharsetWins | src/java/org/archive/io/hdfs/HDFSWriterDocument.java:611-628 | when the text after the last `;` sets a charset, that value is the result whatever the charset was before |
| ContentType.ParseContentTypeReplaces | src/java/org/archive/io/hdfs/HDFSWriterDocument.java:583-628 | a value with a media type whose last parameter sets the charset yields the same fields whatever was found before, so of several such values parsed in turn the last one decides |
| ContentType.ParamsCharsetIsLast | src/java/org/archive/io/hdfs/HDFSWriterDocument.java:616-627 | the charset left by the parameter list is the value of the last `;`-separated parameter that starts with `charset` and has a `=`, and the charset from before when no parameter does |
| ContentType.CharsetParamUtf8 | src/java/org/archive/io/hdfs/HDFSWriterDocument.java:619-624 | the parameter `charset=utf-8` sets `UTF-8` |
| ContentType.ParamsCharsetNoLower | src/java/org/archive/io/hdfs/HDFSWriterDocument.java:611-628 | the charset chosen by the parameter loop has no lower-case letter |
| ContentType.XmlEncoding | src/java/org/archive/io/hdfs/HDFSWriterDocument.java:468-494 | the XML declaration never changes the content type, and any charset it sets is upper-case |
| ContentType.XmlEncodingValue | src/java/org/archive/io/hdfs/HDFSWriterDocument.java:468-494 | the declaration either leaves the fields alone or sets the charset to the upper-cased text of the first double-quoted string after the first `encoding` before the first `?>`, without further cleaning |
| ContentType.XmlEncodingReads | src/java/org/archive/io/hdfs/HDFSWriterDocument.java:468-491 | conversely, when the text after `<?xml` is a declaration whose first `encoding` before `?>` is followed by the double-quoted `[i, j)`, the charset becomes exactly those bytes upper-cased and the content type is kept |
| ContentType.ContentOf | src/java/org/archive/io/hdfs/HDFSWriterDocument.java:566-570 | the fields a `content` value sets are those `parseContentType` finds in it, with `text/html` when no content type results |
| ContentType.MetaContentShape | src/java/org/archive/io/hdfs/HDFSWriterDocument.java:539-571 | after a `content-type` value, the scan either changes nothing, sets the fields of a double-quoted `content` value reached through whitespace, `content`, whitespace, `=` and whitespace only, or (where the source continues the loop) takes them from a later `<meta>` tag |
| ContentType.MetaValueShape | src/java/org/archive/io/hdfs/HDFSWriterDocument.java:522-571 | after `http-equiv =`, the scan either changes nothing, reads a double-quoted value starting `content-type` followed by such a `content` attribute, or takes the fields from a later `<meta>` tag |
| ContentType.MetaTagShape | src/java/org/archive/io/hdfs/HDFSWriterDocument.java:502-571 | after `<meta`, the scan either changes nothing, reads whitespace, `http-equiv`, whitespace and `=` before such a value, or takes the fields from a later `<meta>` tag |
| ContentType.ValueExit | src/java/org/archive/io/hdfs/HDFSWriterDocument.java:522-564 | reading from just past `http-equiv =` either finds a content value strictly inside the view, resumes the scan from a later cursor over the same bytes, or ends the search |
| ContentType.TagExit | src/java/org/archive/io/hdfs/HDFSWriterDocument.java:502-564 | reading from just past `<meta` either finds a content value strictly inside the view, resumes the scan from a later cursor over the same bytes, or ends the search |
| ContentType.MetaTagExit | src/java/org/archive/io/hdfs/HDFSWriterDocument.java:502-576 | one `<meta` tag does what `TagExit` says: a found content value sets its fields (with the `text/html` default) and stops the search, a resumed scan continues the `<meta>` search from there, and an ended one leaves the fields alone |
| ContentType.TagExitReads | src/java/org/archive/io/hdfs/HDFSWriterDocument.java:502-564 | conversely, a tag of the accepted shape (whitespace, `http-equiv =`, a quoted `content-type...` value, `content = "..."`) reaches exactly its content value |
| ContentType.MetaTagReads | src/java/org/archive/io/hdfs/HDFSWriterDocument.java:502-571 | a `<meta` tag of the accepted shape ends the search with the fields of its content value |
| ContentType.MetaLoop | src/java/org/archive/io/hdfs/HDFSWriterDocument.java:499-576 | the `<meta>` scan may replace what the headers found; anything it sets is well formed |
| ContentType.MetaLoopShape | src/java/org/archive/io/hdfs/HDFSWriterDocument.java:499-576 | the scan either leaves the fields alone or takes them from the `content` value of some `<meta http-equiv="content-type..." content="...">` at or after the start |
| ContentType.MetaLoopReadsFirst | src/java/org/archive/io/hdfs/HDFSWriterDocument.java:499-571 | when the scan passes every `<` before a `<meta` at `p` (none is a `</head` that stops it, and each `<meta` among them resumes the scan no later than `p`) and the tag at `p` reaches the content value `[i, j)`, the result is that value's fields: the first settling `<meta` wins |
| ContentType.MetaLoopReadsTag | src/java/org/archive/io/hdfs/HDFSWriterDocument.java:499-571 | the same for a tag at `p` whose accepted shape is written out position by position |
| ContentType.MetaLoopStopsAtHead | src/java/org/archive/io/hdfs/HDFSWriterDocument.java:499-576 | a `</head` stops the scan with the fields unchanged when no `<` before it settles them: each earlier `<` is not a `<meta`, or its tag ends the search or resumes the scan no later than the `</head`, so non-matching `<meta` tags before it are allowed |
| ContentType.SniffBody | src/java/org/archive/io/hdfs/HDFSWriterDocument.java:460-577 | sniffing the body may replace what the headers found; anything it sets is well formed |
| ContentType.FirstBracketNone | src/java/org/archive/io/hdfs/HDFSWriterDocument.java:462-463 | a body without `<` leaves the fields alone |
| ContentType.FirstBracketXml | src/java/org/archive/io/hdfs/HDFSWriterDocument.java:462-494 | when the first `<` opens `<?xml`, only the declaration after it is read |
| ContentType.FirstBracketHtml | src/java/org/archive/io/hdfs/HDFSWriterDocument.java:462-500 | when the first `<` opens anything else, the `<meta>` scan starts at that `<` |
| Document.Get | src/java/org/archive/io/hdfs/HDFSWriterDocument.java:184-186 | a label is absent exactly when no entry has it, and a value returned is stored under that label |
| Document.GetPut | src/java/org/archive/io/hdfs/HDFSWriterDocument.java:163-186 | after storing a value under a label, reading the label gives that value |
| Document.GetPutOther | src/java/org/archive/io/hdfs/HDFSWriterDocument.java:163-186 | storing under one label leaves every other label's value unchanged |
| Document.SetUrlHttp | src/java/org/archive/io/hdfs/HDFSWriterDocument.java:322-328 | when the URL has a colon past position 0, the document is HTTP exactly when the URL starts with `http:` in any case |
| Document.ParseFields | src/java/org/archive/io/hdfs/HDFSWriterDocument.java:283-334 | the ANVL parse stays inside the record and keeps labels distinct |
| Document.ParseFieldsAsWritten | src/java/org/archive/io/hdfs/HDFSWriterDocument.java:283-334 | the loop as written can leave its position one past the record's end |
| Document.ParseFieldsAgree | src/java/org/archive/io/hdfs/HDFSWriterDocument.java:283-334 | whenever the loop as written neither throws nor overruns, it agrees with the corrected parse |
| Document.UnterminatedFieldOverruns | src/java/org/archive/io/hdfs/HDFSWriterDocument.java:313-333 | a last line `U:x` without a newline leaves the as-written position at length+1, while the corrected parse stops at the length |
| Document.ColonlessLastLineThrows | src/java/org/archive/io/hdfs/HDFSWriterDocument.java:297-301 | a last line with neither colon nor newline makes the as-written loop read past the buffer |
| Document.CheckHeader | src/java/org/archive/io/hdfs/HDFSWriterDocument.java:269-275 | the header check passes exactly when the first 16 bytes are the header; otherwise it reports the first differing position |
| Document.ShortBadHeaderThrows | src/java/org/archive/io/hdfs/HDFSWriterDocument.java:272-275 | a 16-byte record with a wrong first byte makes the as-written error message read 20 bytes and throw, where the corrected check reports position 0 |
| Document.RequestEnd | src/java/org/archive/io/hdfs/HDFSWriterDocument.java:341-369 | the request scan ends where the blank line that ends the request headers ends (or at the record's end) |
| Document.FirstTermIsFirst | src/java/org/archive/io/hdfs/HDFSWriterDocument.java:341-369 | no blank line starts between the scan's start and the blank line the request scan stops at |
| Document.HeaderLoop | src/java/org/archive/io/hdfs/HDFSWriterDocument.java:402-439 | the response header loop stops just past the first blank line after the status line, or at the end of the response, and the content type and charset it parses stay well formed |
| Document.HeaderLineSniff | src/java/org/archive/io/hdfs/HDFSWriterDocument.java:402-439 | one header line read from its start: when one of its `:` closes a name that `Equals` `content-type`, the text after the line's last `:` goes through `parseContentType` and the result is what the next line starts from, otherwise the fields are untouched; when its line feed starts a blank line or lies within the last two bytes, the body starts there with those fields; so content-type lines are applied in order and the last has the last word |
| Document.HeaderLineRun | src/java/org/archive/io/hdfs/HDFSWriterDocument.java:402-439 | inside a line the header loop only moves its mark past each `:` and records whether one of them closed a `content-type` name |
| Document.ParseResponse | src/java/org/archive/io/hdfs/HDFSWriterDocument.java:386-441 | when the status line has no whitespace run followed by more bytes, nothing changes: the code stays and the body starts at the response; otherwise the code is the decimal value of the digits right after the first whitespace run (0 when there are none or it exceeds `int`) and the body starts after the first blank line from the end of those digits; the body offset always lies inside the response and the sniffed fields stay well formed |
| Document.StatusStart | src/java/org/archive/io/hdfs/HDFSWriterDocument.java:390-399 | the status scan yields a cursor exactly when the status line has such a whitespace run, and that cursor stands just after the digits, holding their value |
| Document.ParseResponseSniffGate | src/java/org/archive/io/hdfs/HDFSWriterDocument.java:441-444 | the body is sniffed, from the body offset and on top of the header findings, exactly when the headers found no content type or one starting with `text`; otherwise the header findings stand |
| Document.Load | src/java/org/archive/io/hdfs/HDFSWriterDocument.java:231-380 | for the corrected parse described under Findings (the original throws instead on a lone-quote charset and on a last field line without colon or line feed): succeeds exactly when the range lies in the array, is at least 16 long and starts with the header; reports out-of-range and truncation precisely |
| Document.LoadRecord | src/java/org/archive/io/hdfs/HDFSWriterDocument.java:268-380 | for the corrected parse described under Findings (the original throws instead on a lone-quote charset and on a last field line without colon or line feed): a record loads exactly when it is at least 16 bytes and starts with the header; a short record is reported as truncated |
| Document.LoadLayout | src/java/org/archive/io/hdfs/HDFSWriterDocument.java:231-380 | a loaded document is an unmodified copy of the range; its response runs to the range's end, and the request exists only for HTTP URLs and ends where the response starts |
| Document.SetField | src/java/org/archive/io/hdfs/HDFSWriterDocument.java:163-176 | marks the document modified and changes nothing but fields and URL state; only the `URL` label updates the URL |
| Document.PutDistinct | src/java/org/archive/io/hdfs/HDFSWriterDocument.java:163-166 | storing a value keeps the labels of the field map distinct |
| Document.PutKeys | src/java/org/archive/io/hdfs/HDFSWriterDocument.java:163-166 | after storing, every entry is either under the stored label or was there before |
| Document.SetFieldGet | src/java/org/archive/io/hdfs/HDFSWriterDocument.java:163-186 | after `setField`, `getField` returns the new value for that label and the old value for every other label |
| Document.ValidCharsetIsUpper | src/java/org/archive/io/hdfs/HDFSWriterDocument.java:113-123 | the charset offered to callers never contains a lower-case letter |
| Document.PathExtensionOfSuffix | src/java/org/archive/io/hdfs/HDFSWriterDocument.java:133-153 | a path ending `.ext` (no dot or slash in `ext`) has extension `ext` in lower case |
| Document.NoExtensionWithoutDot | src/java/org/archive/io/hdfs/HDFSWriterDocument.java:133-153 | a path whose last segment has no dot has no extension |
| Document.UrlFileExtension | src/java/org/archive/io/hdfs/HDFSWriterDocument.java:133-153 | a cached extension is returned as is; a computed one is cached; nothing else in the document changes |
| Document.UrlFileExtensionStable | src/java/org/archive/io/hdfs/HDFSWriterDocument.java:133-153 | asking twice gives the same extension |
| Document.Reconstruct | src/java/org/archive/io/hdfs/HDFSWriterDocument.java:656-685 | an unmodified document is left alone; a modified one gets a buffer holding, in order, the 16-byte header, its field lines, a blank line, the request and the response, and is marked unmodified; nothing else about the document changes |
| RoundTrip.EncodeLayout | src/java/org/archive/io/hdfs/HDFSWriterDocument.java:656-685 | the encoded record is the header, the field lines and a blank line, then the request and the response |
| RoundTrip.ParseLines | src/java/org/archive/io/hdfs/HDFSWriterDocument.java:283-334 | parsing encoded field lines reads back exactly those fields and stops after the blank line |
| RoundTrip.RequestSplits | src/java/org/archive/io/hdfs/HDFSWriterDocument.java:341-369 | when the request ends in its only blank line, the request scan splits the record exactly between request and response |
| RoundTrip.EncodeFields | src/java/org/archive/io/hdfs/HDFSWriterDocument.java:283-334 | the ANVL parse of an encoded record returns the encoded fields and their URL state |
| RoundTrip.LoadEncode | src/java/org/archive/io/hdfs/HDFSWriterDocument.java:231-380 | loading an encoded record recovers its fields, URL, request and response |
| RoundTrip.ReloadReconstructed | src/java/org/archive/io/hdfs/HDFSWriterDocument.java:656-685 | loading a reconstructed modified document gives back its fields, the URL state they determine, its request and its response |
| Writable.WriteDoc | src/java/org/archive/io/hdfs/HDFSWriterDocument.java:692-696 | the output is the reconstructed record after a 4-byte length |
| Writable.ReadFields | src/java/org/archive/io/hdfs/HDFSWriterDocument.java:704-709 | for the corrected parse described under Findings (the original throws instead on a lone-quote charset and on a last field line without colon or line feed): fails at end of stream when fewer than 4 bytes remain; otherwise succeeds exactly when the length is non-negative, the bytes are there and they load, and then gives the loaded document |
| Writable.ReadWritten | src/java/org/archive/io/hdfs/HDFSWriterDocument.java:692-709 | `readFields` after `write` gives back the fields, request and response, whatever follows in the stream |
| UriHash.Scan | src/java/org/archive/crawler/writer/util/URIUtils.java:71-86 | the scan records slash count, authority, last component and query exactly as the loop does, stopping at the first `#` |
| UriHash.AuthorityBeforeLastComp | src/java/org/archive/crawler/writer/util/URIUtils.java:71-86 | once an authority is found it never lies after the last path component, and it lies strictly before it when there are more than two slashes |
| UriHash.SkipPageName | src/java/org/archive/crawler/writer/util/URIUtils.java:107-108 | succeeds exactly when the last component starts with `index.` or `default.` |
| UriHash.ComputeHash | src/java/org/archive/crawler/writer/util/URIUtils.java:54-170 | the hash is 0 when there is nothing to hash; otherwise it is digest bytes 1 to 7, big-endian, shifted left by 8, read as a signed 64-bit value |
| UriHash.NoAuthorityNoHash | src/java/org/archive/crawler/writer/util/URIUtils.java:68-89 | there is nothing to hash exactly when the URL is empty or has fewer than two slashes before its first `?` or `#` |
| UriHash.FragmentIgnored | src/java/org/archive/crawler/writer/util/URIUtils.java:82-93 | everything from the first `#` on does not affect the hash input |
| UriHash.IndexPageIsDirectory | src/java/org/archive/crawler/writer/util/URIUtils.java:104-128 | `dir/index.html` (and the other index and default pages) hashes like `dir/` |
| UriHash.DirectoryGetsSlash | src/java/org/archive/crawler/writer/util/URIUtils.java:133-143 | a last component without a dot hashes the same with or without a trailing slash |
| UriHash.QueryNeverStripped | src/java/org/archive/crawler/writer/util/URIUtils.java:102-128 | no `index.*` or `default.*` page is ever stripped from a URL with a query: the hashed path always runs up to the `?`, because the page test measures the last segment up to the end of the URL, query included, and no listed page name contains a `?` |
| UriHash.PageHasNoQuery | src/java/org/archive/crawler/writer/util/URIUtils.java:107-127 | a segment that passes the index-page test holds only letters and `.`, so no `?` |
| UriHash.IndexPageKeptBeforeQuery | src/java/org/archive/crawler/writer/util/URIUtils.java:98-128 | for `dir/index.html?q` in particular, the hashed path runs through `index.html` to the `?` and no `/` is added |
| UriHash.DirectoryBeforeQueryGetsSlash | src/java/org/archive/crawler/writer/util/URIUtils.java:98-143 | a last segment without `.` that a query follows, `dir?q`, is hashed up to the `?`, then a `/` is added, then the query |
| UriHash.SlashBeforeQueryKept | src/java/org/archive/crawler/writer/util/URIUtils.java:98-143 | a path ending in `/` right before the query, `dir/?q`, is hashed up to the `?` with nothing added, so it yields the same bytes as `dir?q` |
| UriHash.QueryDirectoryGetsSlash | src/java/org/archive/crawler/writer/util/URIUtils.java:133-164 | `http://host/dir?q` and the same URL with a `/` inserted before the `?`, `http://host/dir/?q`, give byte-for-byte the same hash input: the first gets its `/` added after the path, the second already has it there |
| UriHash.WwwAlwaysThere | src/java/org/archive/crawler/writer/util/URIUtils.java:150-153 | every hash input reads `www.` (under the view's case flag) right after the authority prefix, whether the source added it or the host already began with it; the byte-for-byte comparison of `http://host` with `http://www.host/` is `BareHostMatchesWww` |
| UriHash.BareHostMatchesWww | src/java/org/archive/crawler/writer/util/URIUtils.java:95-160 | a bare host `http://host`, where `host` does not start with `www.`, and `http://www.host/` give byte-for-byte the same hash input: the first gets `www.` inserted and a `/` added, the second has both in its bytes |
| UriHash.QueryIsSuffix | src/java/org/archive/crawler/writer/util/URIUtils.java:162-164 | the query is the tail of the hash input, starting at its first `?` |
| UriHash.QueriesSeparate | src/java/org/archive/crawler/writer/util/URIUtils.java:162-164 | URLs with different queries never share a hash input |
| UriHash.DigestToLongValue | src/java/org/archive/crawler/writer/util/URIUtils.java:166-169 | the folding loop, with its final extra shift, equals digest bytes 1 to 7 shifted left by 8, taken mod 2^64 and signed |
| UriHash.FirstDigestByteLost | src/java/org/archive/crawler/writer/util/URIUtils.java:166-169 | the first digest byte never influences the hash |
| UriHash.HashLowByteZero | src/java/org/archive/crawler/writer/util/URIUtils.java:166-169 | every hash is a multiple of 256 |
| PoolMember.NewAccum | src/java/org/archive/crawler/writer/WriterPoolMemberHdfs.java:119-120 | a new accumulator holds 262144 bytes, with 4 reserved for the length and no record bytes |
| PoolMember.Grow | src/java/org/archive/crawler/writer/WriterPoolMemberHdfs.java:428-432 | the buffer grows by the shortfall plus 8192 and keeps every byte written so far |
| PoolMember.Write | src/java/org/archive/crawler/writer/WriterPoolMemberHdfs.java:390-395 | the record is extended by exactly the given bytes; the buffer grows only when they do not fit, to offset + length + 8192 |
| PoolMember.WriteChecked | src/java/org/archive/crawler/writer/WriterPoolMemberHdfs.java:428-432 | with 32-bit lengths a write fails exactly when the buffer must grow and offset + length + 8192 passes the largest `int`: a negative wrapped size, or a wrapped size too short for the copy; otherwise it is `Write` and the buffer stays within an `int` length |
| PoolMember.WriteRange | src/java/org/archive/crawler/writer/WriterPoolMemberHdfs.java:397-402 | fails exactly when the slice is out of bounds, otherwise extends the record by that slice |
| PoolMember.WriteByte | src/java/org/archive/crawler/writer/WriterPoolMemberHdfs.java:404-409 | extends the record by the low 8 bits of the value |
| PoolMember.WriteAllRecord | src/java/org/archive/crawler/writer/WriterPoolMemberHdfs.java:390-395 | successive writes append their chunks in order |
| PoolMember.BE32RoundTrip | src/java/org/archive/crawler/writer/WriterPoolMemberHdfs.java:329-335 | reading back the 4 bytes written by `writeInt` gives the value wrapped to 32 bits |
| PoolMember.Emit | src/java/org/archive/crawler/writer/WriterPoolMemberHdfs.java:357-367 | the key is the URI and the value is the record after its length; the accumulator is emptied and shrinks back to 262144 bytes when it exceeded 1048576 |
| PoolMember.FrameRoundTrip | src/java/org/archive/crawler/writer/WriterPoolMemberHdfs.java:361-362 | the length prefix of a stored value reads back as the record's length, and the record follows it |
| PoolMember.LoadFramed | src/java/org/archive/crawler/examples/mapred/HtmlLinkCount.java:123 | loading a stored value from offset 4 is loading the record that was accumulated |
| PoolMember.Pad5Value | src/java/org/archive/crawler/writer/WriterPoolMemberHdfs.java:143 | the serial number is written in at least 5 decimal digits that read back as the number |
| PoolMember.FileNamesDistinct | src/java/org/archive/crawler/writer/WriterPoolMemberHdfs.java:251-255 | two files created with the same prefix, timestamp and suffix but different serial numbers get different names |
| PoolMember.FinalNameOfCreated | src/java/org/archive/crawler/writer/WriterPoolMemberHdfs.java:434-453 | closing a file renames it to the created name without the `.open` suffix |
| PoolMember.JobDirName | src/java/org/archive/crawler/writer/WriterPoolMemberHdfs.java:198-199 | the job directory name is the part after the last `/`, or the whole name when there is none |
| PoolMember.FilePathSegments | src/java/org/archive/crawler/writer/WriterPoolMemberHdfs.java:261 | the file path's last segment is the file name and its directory ends in the job directory name |
| PoolMember.OutputPath | src/java/org/archive/crawler/writer/WriterPoolMemberHdfs.java:203-207 | one trailing `/` is dropped exactly when the output path ends in one; any other path is kept as it is |
| PoolMember.CompressionName | src/java/org/archive/crawler/writer/WriterPoolMemberHdfs.java:268-272 | every compression type's name looks up to that type |
| PoolMember.ChooseCompression | src/java/org/archive/crawler/writer/WriterPoolMemberHdfs.java:263-272 | uses the configured name unless it is `DEFAULT`, then the Hadoop property or `RECORD` when unset; succeeds exactly when that name is a compression type |
| PoolMember.AppendKeeps | src/java/org/archive/crawler/writer/WriterPoolMemberHdfs.java:233-238 | appending a record keeps both halves of the rotation rule: every record after a file's first went in while the file was within the limit, and every file before the last was left only once past it; a new file opens exactly when none is open or the open one is past a limit; records stay in order |
| PoolMember.AppendAllKeeps | src/java/org/archive/crawler/writer/WriterPoolMemberHdfs.java:347-350 | the same over any sequence of records: both halves of the rotation rule hold, records stay in order, and with no limit a single file is used |
| PoolMember.WrittenFiles | src/java/org/archive/crawler/writer/WriterPoolMemberHdfs.java:233-238 | the rotation rule determines the files: a list of files is the one a member writes for a stream of records, starting from none, exactly when it satisfies both halves of the rule and holds those records in order |
| PoolMember.DropLastKeeps | src/java/org/archive/crawler/writer/WriterPoolMemberHdfs.java:347-350 | taking the last record back out keeps both halves of the rotation rule, and appending it again restores the files |
| LinkCount.FlagSpellings | src/java/org/archive/crawler/examples/mapred/HtmlLinkCount.java:96-103 | a flag is on exactly when its property is `true` in any mix of case |
| LinkCount.HasSchemeIff | src/java/org/archive/crawler/examples/mapred/HtmlLinkCount.java:234-242 | a link has a scheme exactly when a `:` occurs before any `.` or `/` |
| LinkCount.HasSchemeLoop | src/java/org/archive/crawler/examples/mapred/HtmlLinkCount.java:234-242 | the early-return loop decides the same as the recursive definition |
| LinkCount.StripFragment | src/java/org/archive/crawler/examples/mapred/HtmlLinkCount.java:179-181 | the result is a prefix of the text; a text without `#`, or one starting with `#`, is kept whole; otherwise the cut falls exactly at the first `#`, leaving a non-empty text free of `#`; so a `#` survives only at position 0 of an uncut text |
| LinkCount.LinkUri | src/java/org/archive/crawler/examples/mapred/HtmlLinkCount.java:194-221 | with `dropInternal` a kept link is absolute and on another host; with `httpOnly` a kept absolute link is `http`; a relative link is dropped under `dropInternal` and otherwise resolved against the base |
| LinkCount.FirstHrefIsFirst | src/java/org/archive/crawler/examples/mapred/HtmlLinkCount.java:153-159 | the base href is the first `href` attribute of the `<base>` tag |
| LinkCount.BaseOf | src/java/org/archive/crawler/examples/mapred/HtmlLinkCount.java:142-176 | a base URI is used only when it has a host (and is `http` under `httpOnly`); that host is the one internal links are compared with |
| LinkCount.LinksKept | src/java/org/archive/crawler/examples/mapred/HtmlLinkCount.java:187-228 | every emitted link is the fragment-stripped text of a kept `href`, and when all links are emitted none was filtered |
| LinkCount.MapFails | src/java/org/archive/crawler/examples/mapred/HtmlLinkCount.java:105-134 | the mapper fails with the load error when the stored document does not load; otherwise it fails exactly for a 200 `text/html` response whose charset name is not supported (even with no body), naming that charset |
| LinkCount.MapGate | src/java/org/archive/crawler/examples/mapred/HtmlLinkCount.java:105-185 | the mapper emits anything only for a 200 `text/html` response with a supported charset and a body, and then the first key is the base URI without its fragment |
| LinkCount.ReduceSumWraps | src/java/org/archive/crawler/examples/mapred/HtmlLinkCount.java:264-267 | adding each `long` into an `int` gives the true total wrapped to 32 bits |
| LinkCount.ReduceCounts | src/java/org/archive/crawler/examples/mapred/HtmlLinkCount.java:255-270 | for n ones the reducer emits n, except that with `excludeSingles` a count of 0 or 1 is not emitted |

## Left out

- Hadoop plumbing: the SequenceFile writer, the FileSystem, Configuration objects, the replication setting, `mkdirs`, `rename` and logging are not modelled. Only their effects on names, paths and bytes are.
- `readFullyFrom`: reading the record body from an `InputStream` is I/O and is left out. `PoolMember.Write` covers how it grows the accumulator.
- `getTimestampSerialNo` and the creation timestamp: the clock and the shared `AtomicInteger` are inputs (`timestamp`, `serial`).
- `PoolMember.FileNamesDistinct`: proved for non-negative serial numbers only. `DecimalFormat` writes a minus sign for negatives, and the counter only counts up from 0.
- PoolMember.Write, PoolMember.Grow, PoolMember.WriteRange, PoolMember.WriteByte: lengths are unbounded. The Java computes the grown length in 32-bit `int`, and past 2^31 - 1 the allocation or copy throws; that error path is `PoolMember.WriteChecked`. `WriteAll` and `Emit` build on the unbounded `Write`, and an `OutOfMemoryError` from a large allocation is not modelled.
- The rotation model (`PoolMember.Append`) abstracts the SequenceFile length as a header size plus the sizes of the records written so far. The writer's real byte count (sync markers, compression) is not modelled.
- `OCCUPIED_SUFFIX` comes from `ArchiveFileConstants`, which is not part of this model. Its value `.open` is taken as a constant.
- Buffer reuse in `load`: the model always loads into a fresh buffer of exactly `length` bytes. The scratch buffer kept between calls, and the 524288-byte high-water mark, affect allocation, reads past the record (see Findings) and the bytes an unmodified document emits (next line).
- Writable.WriteDoc, Writable.ReadWritten: hold for a document whose buffer is exactly its record, as after a load into a fresh buffer. When `load` reuses a larger scratch buffer and the document is not modified, `getBytes` (HDFSWriterDocument.java:93-96) and `write` (692-696) emit the whole buffer, `buf.length` bytes, stale tail included; the model has no such tail.
- ContentType.CleanCharset: its own contract states only the character class of the result; the full input-output relation is carried by `CleanCharsetStripsQuotes`, `CleanCharsetUnquoted` and `CleanCharsetOfLoneQuote`, which together cover every input.
- ContentType.ParseContentType: its own contract states only the shape of what it sets; which bytes become the content type and the charset is carried by `ParseContentTypeMedia`, `ParseContentTypeCharset` and `ParamsCharsetIsLast`.
- ContentType.LastCharsetWins: covers only a setting last parameter; the general statement, including lists where an earlier parameter sets the charset and the last does not, is `ParamsCharsetIsLast`.
- ContentType.XmlEncoding: its own contract states only that the content type is kept and the charset is upper-case; which charset is read is `XmlEncodingValue`.
- ContentType.MetaLoop: its own contract states only well-formedness; the `<meta>` grammar it accepts is `MetaLoopShape` (with `MetaContentShape`, `MetaValueShape`, `MetaTagShape`), the first settling tag winning is `MetaLoopReadsFirst`, the stop at `</head` is `MetaLoopStopsAtHead`, and the `text/html` default is `ContentOf`.
- ContentType.MetaContent, ContentType.MetaValue, ContentType.MetaTag: their own contracts state only well-formedness; what each reads is stated by its `Shape` lemma and by `MetaTagExit`/`MetaTagReads`.
- Document.HeaderLoop: its own contract states the body offset and well-formedness; which header values are parsed is `HeaderLineSniff` for every line read from its start. The rest of the status line, where the loop starts, compares from a stale mark (see the `mark` line below).
- ContentType.SniffBody: its own contract states only well-formedness; the choice made by the first `<` is `FirstBracketNone`, `FirstBracketXml` and `FirstBracketHtml`.
- UriHash.DirectoryGetsSlash: compares a URL with the same bytes plus one trailing `/`, so it covers URLs without a query; the query case is `QueryDirectoryGetsSlash`.
- UriHash.QueryDirectoryGetsSlash: assumes the URL holds no `#`; what a fragment does is stated separately by `FragmentIgnored`.
- UriHash.BareHostMatchesWww: covers a bare host without a path, query or fragment, and the `www.` it compares against is spelled in lower case, as the source inserts it; under a case-insensitive view `WWW.host/` also passes the `www.` test but keeps its own bytes, so its hash input differs.
- `new String(bytes, charset)` decoding: strings are ASCII byte sequences; no charset decoding is modelled. Whether the JVM knows a charset name is the `supported` parameter of `LinkCount.Map`; the decoded URL text itself is not modelled.
- The field map is an insertion-ordered association list. `HashMap` iteration order is unspecified, so `reconstructDocument` writes the fields in that list's order.
- `null` buffers and strings are modelled as empty sequences or `None`.
- `NegativeArraySizeException` and `ArrayIndexOutOfBoundsException` from a bad `load` range are both reported as `OutOfRange`.
- After an exception the Java object is left half-updated; the model returns a failure and no document.
- `parseResponse` re-initialises its scan state without resetting `mark` (ByteScan.java:57-61), so a `:` on the status line, before any line feed, compares the bytes from a stale mark left by earlier parsing up to the colon with `Content-Type` (HDFSWriterDocument.java:429-433). The model starts each document with mark 0, so for such a status line whether a content-type header is opened can differ from the original; header lines after the first line feed use a fresh mark in both.
- `setHttpRequest`/`setHttpResponse` (HDFSWriterDocument.java:202-222) are modelled only through the `Document` fields they set. No separate operation exists for them.
- `URIUtils.ComputeHash`: the `return 0` for `lastComp == -1` (lines 130-131) cannot be reached once an authority is found. MD5 is a parameter.
- `java.net.URI` (parsing, `resolve`, `normalize`, `getHost`, `getScheme`) is a parameter of `LinkCount`. A `URISyntaxException` is an absent result.
- The mapper's anchor scan starts from a fresh parser over the response. In the Java the same parser object is re-initialised, which resets everything the scan reads.
- The mapper's "No base element found" console output is not modelled.
- `LinkCount.Map` models the mapper's output as a sequence of keys, each emitted with count 1. The `OutputCollector` is not modelled.
- The other classes (the pool, the processors, the factory, `HDFSParameters`, `CountCharsets`) hold configuration and wiring only and are not modelled.

## Findings

| source | as written | input that shows it | evidently intended | confidence | as-written member | corrected member |
|---|---|---|---|---|---|---|
| src/java/org/archive/io/hdfs/HDFSWriterDocument.java:631-633 | `cleanCharset` strips surrounding quotes with `substring(1, length-1)` whenever the name starts and ends with `"` | the charset `"` (one quote byte): it starts and ends with a quote, and `substring(1, 0)` throws | a lone quote is not a quoted name; it cleans to the empty name | not executed | ContentType.CleanCharsetAsWritten, ContentType.LoneQuoteThrowsAsWritten | ContentType.CleanCharset, ContentType.CleanCharsetOfLoneQuote |
| src/java/org/archive/io/hdfs/HDFSWriterDocument.java:283-334 | the ANVL loop steps past the newline it expects even when the record ends first; with no colon it reads `buf[length]` | header + `U:x` without a newline: position ends at length+1, so the response length becomes -1; header + `ab`: reads one byte past a fresh buffer | the field block ends at the end of the record | not executed | Document.ParseFieldsAsWritten, Document.UnterminatedFieldOverruns, Document.ColonlessLastLineThrows | Document.ParseFields, Document.ParseFieldsAgree |
| src/java/org/archive/io/hdfs/HDFSWriterDocument.java:272-275 | the bad-header error message copies `header.length+4` = 20 bytes of the buffer | a 16-byte record whose first byte is wrong, loaded into a fresh 16-byte buffer: building the message throws | report the bad header at the first differing position | not executed | Document.CheckHeaderAsWritten, Document.ShortBadHeaderThrows | Document.CheckHeader |
