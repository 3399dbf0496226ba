# A verified model of the mock-server runtime

The runtime routes requests to scripts, renders Liquid templates for them, and loads the scripts' modules.
This project models the parts of it that hold real logic and proves what they promise, for all inputs, runs
and interleavings:

- **URI templates** (`Text`, `Utf8Text`, `UrlEncoding`, `UrlDecoding`, `UrlCodec`, `UrlSpelling`, `UriTokens`,
  `UriChunks`, `UriTemplate`, `UriMatching`): the percent codec with its buffers and global replacements, the
  brace tokenizer, the compiled pattern with a backtracking matcher, and substitution against matching.
- **Routing** (`Routing`, `RouteMatching`): the lazily sorted table, the route map of the script object, and what
  matching and keys depend on.
- **Ids** (`Positional`, `Base62`): base-62 conversion with padding and the sign-byte trim.
- **Query parsing** (`QueryParser`, `QueryCollecting`): the character loop with its raw mode, and the double decode.
- **Liquid** (`LiquidSyntax`, `LiquidEval`, `LiquidTraces`, `LiquidPrinting`, `LiquidLoops`, `LiquidBounds`,
  `TemplateCache`, `TemplateKeys`, `LiquidRenderer`, `LiquidRendering`): an evaluator that parses every file
  afresh, its traces, theorems about printing, loops, breaks, depth and output size, and the renderer with
  builders, context and cache proved equal to the evaluator.
- **Modules** (`CommonJsPaths`, `CommonJs`, `CommonJsTraces`, `CommonJsLoader`): path resolution as a unique
  normal form, the `require` machine over arbitrary module graphs, its traces, and the loader over module objects.
- **Context registry** (`ContextRegistry`, `ContextHistory`): the concurrent protocol as interleaved atomic steps,
  and what must have happened for a context to be closed or registered.
- **lodash** (`Debounce`, `DebounceTiming`, `LodashCache`, `LodashPicks`): the timer machine, and the hash cache
  with its object pool.

Code that works in steps is written as methods over classes, arrays and loops; each is tied by its `ensures`
to a function, and the theorems are about those functions. What cannot be seen (expression evaluation, the
parser, creation of contexts, regular expressions written by users, clocks) is a parameter.

Where the code and its own comments differ, the code is followed: a range loop that throws keeps what it had
printed; `forEach` in the path walk is not left by `return false`; `decodeId` accepts foreign characters;
a debounce with a leading edge and a longest wait above `wait` can forget a call, and one with a trailing edge
alone and a longest wait that is no number runs twice for a call.

`dafny verify dfyconfig.toml` checks everything.

## Model

| member | source | states |
|---|---|---|
| UrlEncoding.ComponentEncode | libs/cxf-uri-template/src/main/java/org/apache/cxf/custom/jaxrs/utils/HttpUtils.java:54-77 | the two-builder loop writes each reserved character as it is and each stretch between them URL-encoded, as one pass over the code points defines it |
| UrlEncoding.ComponentIsByteMap | libs/cxf-uri-template/src/main/java/org/apache/cxf/custom/jaxrs/utils/HttpUtils.java:35-77 | flushing stretch by stretch makes no difference: in a path the result is a map applied to the UTF-8 bytes one at a time |
| UrlEncoding.ReplacementsActPerByte | libs/cxf-uri-template/src/main/java/org/apache/cxf/custom/jaxrs/utils/HttpUtils.java:94-107 | replacing "+" by "%20" and then "%2B" by "+" over the whole string is also a map on single bytes, so neither replacement can act across the other's output |
| UrlEncoding.ReplaceIfPresent | libs/cxf-uri-template/src/main/java/org/apache/cxf/custom/jaxrs/utils/HttpUtils.java:99-104 | guarding a global replacement by `indexOf` changes nothing |
| UrlEncoding.PathEncode | libs/cxf-uri-template/src/main/java/org/apache/cxf/custom/jaxrs/utils/HttpUtils.java:94-107 | with its `indexOf` guards, the method computes that byte map of the UTF-8 form |
| UrlEncoding.QueryEncode | libs/cxf-uri-template/src/main/java/org/apache/cxf/custom/jaxrs/utils/HttpUtils.java:79-82 | the query flavour keeps "+" for a space |
| UrlEncoding.FindTriple | libs/cxf-uri-template/src/main/java/org/apache/cxf/custom/jaxrs/utils/HttpUtils.java:33-123 | the next percent triple at or after a position, or the end when there is none before it |
| UrlEncoding.EncodePartiallyEncoded | libs/cxf-uri-template/src/main/java/org/apache/cxf/custom/jaxrs/utils/HttpUtils.java:116-132 | triples stay, everything between them is encoded in the path or the query flavour |
| UrlEncoding.EncodedIsRfc3986Path | libs/cxf-uri-template/src/main/java/org/apache/cxf/custom/jaxrs/utils/HttpUtils.java:35-132 | the path flavour emits only characters of `pchar` or "/" (section 3.3 of RFC 3986), each "%" opening a triple, for every input |
| UrlEncoding.EncoderFixpoints | libs/cxf-uri-template/src/main/java/org/apache/cxf/custom/jaxrs/utils/HttpUtils.java:109-132 | the path flavour never shortens a text, and leaves it alone if and only if it is already such a path |
| UrlEncoding.EncodingTwice | libs/cxf-uri-template/src/main/java/org/apache/cxf/custom/jaxrs/utils/HttpUtils.java:109-132 | encoding in the path flavour twice is encoding once |
| UrlEncoding.QueryEncodingTwice | libs/cxf-uri-template/src/main/java/org/apache/cxf/custom/jaxrs/utils/HttpUtils.java:37-132 | encoding in the query flavour twice is encoding once if and only if the text holds no space: a space becomes "+", which the second pass escapes |
| UrlEncoding.QueryFixpoints | libs/cxf-uri-template/src/main/java/org/apache/cxf/custom/jaxrs/utils/HttpUtils.java:109-132 | the query flavour never shortens a text, and leaves it alone if and only if it is made of triples and of characters a query keeps |
| UrlDecoding.CountEscapes | libs/cxf-uri-template/src/main/java/org/apache/cxf/custom/common/util/UrlUtils.java:74-87 | the counting pass steps over two characters after each "%", so it counts triples that do not overlap, and it asks for decoding if and only if there is a "%", or a "+" outside a path |
| UrlDecoding.BufferSize | libs/cxf-uri-template/src/main/java/org/apache/cxf/custom/common/util/UrlUtils.java:88-91 | the buffer size is never negative, and without its "+ 1" it would be on a lone "%" and on no other string |
| UrlDecoding.TruncatedEscapeNeedsTheExtraByte | libs/cxf-uri-template/src/main/java/org/apache/cxf/custom/common/util/UrlUtils.java:91-108 | for a text without "%" followed by a cut-off "%", the bytes before it alone overflow the size without the "+ 1" |
| UrlDecoding.DecodeBytes | libs/cxf-uri-template/src/main/java/org/apache/cxf/custom/common/util/UrlUtils.java:88-111 | every write of the byte pass falls inside the buffer of the counted size, for every input, and the pass decodes exactly the triples, failing on a malformed or incomplete one |
| UrlDecoding.UrlDecode | libs/cxf-uri-template/src/main/java/org/apache/cxf/custom/common/util/UrlUtils.java:72-113 | the two passes together, or the early return, decode the UTF-8 form |
| UrlDecoding.PathDecode | libs/cxf-uri-template/src/main/java/org/apache/cxf/custom/common/util/UrlUtils.java:133-135 | path decoding leaves "+" alone |
| UrlSpelling.DigitsByPosition | libs/cxf-uri-template/src/main/java/org/apache/cxf/custom/common/util/UrlUtils.java:115-121 | the hexadecimal digits are exactly the characters of "0123456789abcdef" and "0123456789ABCDEF", worth their position there |
| UrlSpelling.EverySpellingDecodes | libs/cxf-uri-template/src/main/java/org/apache/cxf/custom/common/util/UrlUtils.java:93-111 | any bytes, written as percent triples with each digit in either letter case, decode to themselves, in paths and in queries |
| UrlSpelling.DecodingIgnoresCase | libs/cxf-uri-template/src/main/java/org/apache/cxf/custom/common/util/UrlUtils.java:98-100 | texts that differ only in the letter case of their triples decode alike |
| UrlSpelling.FailsOnStrayPercent | libs/cxf-uri-template/src/main/java/org/apache/cxf/custom/common/util/UrlUtils.java:96-105 | decoding fails if and only if, behind what can be read, a "%" opens no triple |
| UrlCodec.PathRoundTrip | libs/cxf-uri-template/src/main/java/org/apache/cxf/custom/jaxrs/utils/HttpUtils.java:94-107 | decoding an encoded path gives the original bytes back, for every string |
| UrlCodec.PathTextRoundTrip | libs/cxf-uri-template/src/main/java/org/apache/cxf/custom/jaxrs/utils/HttpUtils.java:94-107 | read as UTF-8, what comes back is the string with each unpaired surrogate turned into "?", so the string itself if and only if it has none |
| UrlCodec.QueryRoundTrip | libs/cxf-uri-template/src/main/java/org/apache/cxf/custom/jaxrs/utils/HttpUtils.java:79-82 | decoding an encoded query gives the original bytes back, spaces and "+" included, for every string |
| UrlCodec.QueryKeeps | libs/cxf-uri-template/src/main/java/org/apache/cxf/custom/jaxrs/utils/HttpUtils.java:35-82 | the characters a query keeps are letters, digits and those of ".-*_?/," |
| UrlCodec.PartialEncodingKeepsMeaning | libs/cxf-uri-template/src/main/java/org/apache/cxf/custom/jaxrs/utils/HttpUtils.java:116-132 | the partially encoded form always decodes, and to what the text itself decodes to wherever the text decodes at all |
| UriTokens.Tokenize | libs/cxf-uri-template/src/main/java/org/apache/cxf/custom/jaxrs/model/ExactMatchURITemplate.java:520-551 | the tokens are non-empty and concatenate to the string; each is brace-free at its start, a balanced brace group, or an unclosed tail, alternating as the comment on the class describes |
| UriTokens.TokenizationUnique | libs/cxf-uri-template/src/main/java/org/apache/cxf/custom/jaxrs/model/ExactMatchURITemplate.java:502-551 | those conditions leave one tokenization of any string, so the loop can compute nothing else |
| UriChunks.PrintedIsReadBack | libs/cxf-uri-template/src/main/java/org/apache/cxf/custom/jaxrs/model/ExactMatchURITemplate.java:449-467 | the printed form of a variable is read back as that variable, its custom pattern included when it compiles |
| UriChunks.ReadsUnique | libs/cxf-uri-template/src/main/java/org/apache/cxf/custom/jaxrs/model/ExactMatchURITemplate.java:389-398 | the chunks of a template are determined by its text |
| UriChunks.PrintedTemplateReadsTheSame | libs/cxf-uri-template/src/main/java/org/apache/cxf/custom/jaxrs/model/ExactMatchURITemplate.java:389-499 | printing the chunks of a template and reading the print gives the same chunks and no others, although neighbouring literals and blanks inside braces are not printed as they were written |
| UriTemplate.EscapeCharacters | libs/cxf-uri-template/src/main/java/org/apache/cxf/custom/jaxrs/model/ExactMatchURITemplate.java:126-138 | a backslash before each character of the escape list |
| UriTemplate.EscapeListIsEnough | libs/cxf-uri-template/src/main/java/org/apache/cxf/custom/jaxrs/model/ExactMatchURITemplate.java:42 | of the characters encoding can leave in a literal, exactly those with a meaning in a regular expression are in the escape list; a backslash never occurs |
| UriTemplate.AddChunk | libs/cxf-uri-template/src/main/java/org/apache/cxf/custom/jaxrs/model/ExactMatchURITemplate.java:63-79 | a round of the loop appends one chunk and keeps the literal text, the pattern text and the variable lists what the chunks so far make them |
| UriTemplate.Construct | libs/cxf-uri-template/src/main/java/org/apache/cxf/custom/jaxrs/model/ExactMatchURITemplate.java:53-93 | succeeds if and only if the text can be read into chunks whose pattern compiles, and then holds those chunks |
| UriTemplate.TemplatePatternCompiles | libs/cxf-uri-template/src/main/java/org/apache/cxf/custom/jaxrs/model/ExactMatchURITemplate.java:53-93 | without custom patterns the built text parses as the encoded literals and one default group per variable, in order |
| UriMatching.RunSound | libs/cxf-uri-template/src/main/java/org/apache/cxf/custom/jaxrs/model/ExactMatchURITemplate.java:154-155 | what the backtracking matcher returns is a way to cut the URI along the pattern |
| UriMatching.RunComplete | libs/cxf-uri-template/src/main/java/org/apache/cxf/custom/jaxrs/model/ExactMatchURITemplate.java:41 | it finds one whenever one exists, and the first in its order: groups as short as they can be, from the left |
| UriMatching.LiteralMatchesOneString | libs/cxf-uri-template/src/main/java/org/apache/cxf/custom/jaxrs/model/ExactMatchURITemplate.java:63-67 | a compiled literal matches its encoded form, nothing else, and captures no group |
| UriMatching.Substitute | libs/cxf-uri-template/src/main/java/org/apache/cxf/custom/jaxrs/model/ExactMatchURITemplate.java:233-258 | values go to variables in order, variables beyond the list print as themselves, and a value that does not fit a custom pattern is an exception |
| UriMatching.SubstitutionByPlaces | libs/cxf-uri-template/src/main/java/org/apache/cxf/custom/jaxrs/model/ExactMatchURITemplate.java:233-258 | chunk by chunk: it fails if and only if some value does not fit the custom pattern at its place, and otherwise each variable becomes the value at its place, or its own print beyond the list |
| UriMatching.CutIsUnique | libs/cxf-uri-template/src/main/java/org/apache/cxf/custom/jaxrs/model/ExactMatchURITemplate.java:154-195 | when no two variables share a path segment, whatever literals stand around them, a URI can be cut in one way only, so the reluctant quantifier has no choice |
| UriMatching.ValuesReturnedOnlyIfEncoded | libs/cxf-uri-template/src/main/java/org/apache/cxf/custom/jaxrs/model/ExactMatchURITemplate.java:63-67 | for any default template whatever, getting the values back implies that all literals were in encoded form |
| UriMatching.MatchUndoesSubstitute | libs/cxf-uri-template/src/main/java/org/apache/cxf/custom/jaxrs/model/ExactMatchURITemplate.java:144-258 | for a template without custom patterns, matching the substituted text returns exactly the values, for all non-empty slash-free values, if and only if the literals are in encoded form and no two variables share a path segment |
| UriMatching.SharedSegmentMisleads | libs/cxf-uri-template/src/main/java/org/apache/cxf/custom/jaxrs/model/ExactMatchURITemplate.java:41 | "{x}-{y}" filled with "a-b" and "c" matches with "a" and "b-c" |
| UriMatching.Match | libs/cxf-uri-template/src/main/java/org/apache/cxf/custom/jaxrs/model/ExactMatchURITemplate.java:144-216 | each variable name collects the captures at its positions, in order, and the final match group is "/"; a failed match of a URI with ";" goes on to the matrix retry |
| UriMatching.CapturesByPlace | libs/cxf-uri-template/src/main/java/org/apache/cxf/custom/jaxrs/model/ExactMatchURITemplate.java:183-195 | a name collects as many captures as it has places, and the capture of each place follows those of the places before it |
| UriMatching.MatchedGroupsNotEmpty | libs/cxf-uri-template/src/main/java/org/apache/cxf/custom/jaxrs/model/ExactMatchURITemplate.java:193-202 | no capture is empty, so the loop that skips empty ones never does |
| Routing.ExtensionIsGreater | models/api/src/main/java/com/sandbox/worker/models/DefaultRoutingTable.java:73-78 | a literal text that extends another compares greater |
| Routing.StableSortSorts | models/api/src/main/java/com/sandbox/worker/models/DefaultRoutingTable.java:73-80 | the in-place sort orders by descending literal text and keeps every route |
| Routing.StableSortIsStable | models/api/src/main/java/com/sandbox/worker/models/DefaultRoutingTable.java:76-78 | routes with equal literal text stay in the order they were added |
| Routing.ScanOfSortedIsBest | models/api/src/main/java/com/sandbox/worker/models/DefaultRoutingTable.java:83-86 | the first match of the sorted list is the best match of the unsorted one, earliest added among equals |
| Routing.BestIsGreatest | models/api/src/main/java/com/sandbox/worker/models/DefaultRoutingTable.java:83-88 | the best match matches, has the greatest literal text of all that match, and is missing only if nothing matches |
| Routing.RoutingTable.AddRouteDetails | models/api/src/main/java/com/sandbox/worker/models/DefaultRoutingTable.java:41-48 | a route added before the first lookup joins the list to be sorted, one added later stays behind it |
| Routing.RoutingTable.FindMatch | models/api/src/main/java/com/sandbox/worker/models/DefaultRoutingTable.java:69-89 | whether or not this lookup is the one that sorts, it answers from the same two lists, and changes neither |
| Routing.DefineAddsItsHandler | core/src/main/java/com/sandbox/worker/core/js/models/ScriptObject.java:40-67 | after a definition, a request its route matches may get its handler or any it could get before, and never none; for any other request nothing changes |
| Routing.HandlerIsCertain | core/src/main/java/com/sandbox/worker/core/js/models/ScriptObject.java:64-67 | which handler runs does not depend on the order of the map if and only if some route matches and all that match have that handler |
| Routing.FilledBeforeLookup | models/api/src/main/java/com/sandbox/worker/models/DefaultRoutingTable.java:69-89 | for a table filled first, every lookup returns a match whose literal text no other match exceeds, or none without a match |
| Routing.LateAddition | models/api/src/main/java/com/sandbox/worker/models/DefaultRoutingTable.java:41-89 | one addition after the first lookup keeps the answer greatest if and only if it was and the new route does not match, or meets no answer, or does not exceed it; the answer changes only from none to the new route |
| Routing.LateRoutes | models/api/src/main/java/com/sandbox/worker/models/DefaultRoutingTable.java:41-89 | with later additions the answer is still the match with the greatest literal text if and only if no late route, when it was added, matched the request and exceeded the answer there was then |
| Routing.ScriptObject.GetMatchedFunction | core/src/main/java/com/sandbox/worker/core/js/models/ScriptObject.java:64-67 | the handler of some matching route, in whatever order the map is walked; none if no route matches |
| Routing.OnlyMatchRuns | core/src/main/java/com/sandbox/worker/core/js/models/ScriptObject.java:64-67 | when exactly one route matches, the table answers with it and its handler is the one returned |
| RouteMatching.VerbCaseIsIgnored | models/api/src/main/java/com/sandbox/worker/RouteSupport.java:68-86 | the letter case of verbs matters on neither side |
| RouteMatching.WildcardMatchesAnyVerb | models/api/src/main/java/com/sandbox/worker/RouteSupport.java:72-86 | a route with a wildcard verb matches a request whatever its verb |
| RouteMatching.OtherVerbNeverAnswers | models/api/src/main/java/com/sandbox/worker/RouteSupport.java:76-86 | a route with another verb that is no wildcard is never the answer of a table |
| RouteMatching.ExtraPropertiesAreIgnored | models/api/src/main/java/com/sandbox/worker/RouteSupport.java:98-112 | request properties the route does not name change nothing |
| RouteMatching.PropertyMustAgree | models/api/src/main/java/com/sandbox/worker/RouteSupport.java:98-112 | a property the route names must have its value, up to letter case and blanks around it; without the property the value must be blank |
| RouteMatching.OwnPathMatches | models/api/src/main/java/com/sandbox/worker/RouteSupport.java:155-177 | a route matches its own path under its own verb and properties, whatever its template makes of the path |
| RouteMatching.SameKeyIffSameLiterals | libs/cxf-uri-template/src/main/java/org/apache/cxf/custom/jaxrs/model/ExactMatchURITemplate.java:63-69 | two templates have the same routing key if and only if their encoded literals, put together, are the same |
| RouteMatching.LongerLiteralsAreGreater | libs/cxf-uri-template/src/main/java/org/apache/cxf/custom/jaxrs/model/ExactMatchURITemplate.java:63-69 | a template whose encoded literals extend those of another has the greater key |
| RouteMatching.LongerLiteralsAnswer | models/api/src/main/java/com/sandbox/worker/models/DefaultRoutingTable.java:69-89 | so while the longer one matches, the shorter one is not the answer |
| Base62.BaseConverter.Encode | core/src/main/java/com/sandbox/worker/core/utils/BaseConverter.java:18-49 | repeated division gives the least digits of the unsigned value, one zero digit for zero |
| Base62.BaseConverter.EncodeTo | core/src/main/java/com/sandbox/worker/core/utils/BaseConverter.java:51-58 | the same, padded with "0" on the left |
| Base62.BaseConverter.Decode | core/src/main/java/com/sandbox/worker/core/utils/BaseConverter.java:60-92 | the running sum is the positional value of the character positions (foreign characters count as minus one), and the bytes are what the sign-byte trim leaves of it |
| Base62.BaseConverter.DecodeTo | core/src/main/java/com/sandbox/worker/core/utils/BaseConverter.java:94-106 | the bytes behind leading zeros in a buffer of the length asked for, or an exception when they do not fit |
| Base62.DecodedBytesAreMinimal | core/src/main/java/com/sandbox/worker/core/utils/BaseConverter.java:82-91 | the trimmed bytes are the fewest k with -256^k <= v < 256^k, none for 0 and for -1, and hold v modulo 256^k |
| Base62.DecodedToIsFixed | core/src/main/java/com/sandbox/worker/core/utils/BaseConverter.java:94-106 | decoding to n bytes succeeds if and only if -256^n <= v < 256^n, and the buffer then holds the trimmed bytes behind zeros |
| Base62.Capacity | core/src/main/java/com/sandbox/worker/core/utils/IDGenerator.java:9-10 | 62^21 < 2^128 - 1 and 2^128 < 62^22 |
| Base62.EncodeId | core/src/main/java/com/sandbox/worker/core/utils/IDGenerator.java:45-47 | encodes into at least 22 characters, with the 62-character alphabet |
| Base62.DecodeId | core/src/main/java/com/sandbox/worker/core/utils/IDGenerator.java:41-43 | decodes into 16 bytes |
| Base62.WhichTextsDecode | core/src/main/java/com/sandbox/worker/core/utils/IDGenerator.java:41-43 | of all texts, foreign characters included, exactly those with a value from -2^128 up to but not including 2^128 decode at all |
| Base62.SomeIdNeedsAllCharacters | core/src/main/java/com/sandbox/worker/core/utils/IDGenerator.java:9 | some id needs all 22 digits, so a shorter length would not do |
| Base62.IdRoundTrip | core/src/main/java/com/sandbox/worker/core/utils/IDGenerator.java:41-47 | the text of a 16-byte id has exactly 22 characters, and decoding it succeeds and returns the bytes |
| Base62.IdOrder | core/src/main/java/com/sandbox/worker/core/utils/IDGenerator.java:45-47 | encoded ids compare as strings the way their bytes compare as unsigned numbers, and byte by byte |
| Base62.WhichTextsAreIds | core/src/main/java/com/sandbox/worker/core/utils/IDGenerator.java:41-47 | of all texts, exactly those of 22 base-62 characters with a value below 2^128 are the text of the bytes they decode to |
| Base62.ForeignCharactersAreAccepted | core/src/main/java/com/sandbox/worker/core/utils/IDGenerator.java:41-43 | a character outside the alphabet is not rejected: each counts as minus one, so any such character alone decodes to 16 zero bytes |
| QueryParser.ParseQuery | core/src/main/java/com/sandbox/worker/core/utils/URISupport.java:47-152 | the character loop with its two builders and its three flags yields the pieces a scan of the text defines, added in order |
| QueryParser.AddParameter | core/src/main/java/com/sandbox/worker/core/utils/URISupport.java:154-182 | the name is decoded, a value that is not raw has only its "+" decoded, and a repeated key keeps all its values in order |
| QueryParser.ScanIsSplit | core/src/main/java/com/sandbox/worker/core/utils/URISupport.java:66-143 | with no raw value in sight, the scan is the list of parts between "&", each cut at its first "=" |
| QueryParser.ParseIsSplit | core/src/main/java/com/sandbox/worker/core/utils/URISupport.java:47-152 | so the whole loop is "split on "&", then at the first "="", an empty-keyed last piece dropped |
| QueryParser.RawIsVerbatim | core/src/main/java/com/sandbox/worker/core/utils/URISupport.java:84-110 | a value in RAW( ) is one piece, taken as it is whatever separators it holds, and the scan goes on after it |
| QueryParser.EscapedDecoding | core/src/main/java/com/sandbox/worker/core/utils/URISupport.java:156-159 | decoding after every "%" was escaped leaves the escapes standing and only turns "+" into a space |
| QueryParser.SecondDecoding | core/src/main/java/com/sandbox/worker/core/utils/URLEncodedUtils.java:18-24 | the second decode, applied to what the first one left, is one form decode of the original text |
| QueryParser.DecodeBody | core/src/main/java/com/sandbox/worker/core/utils/URLEncodedUtils.java:10-34 | a body decodes to one form decode of the last value of each key, and fails on a trailing "&" or on the same escapes as that decode does |
| QueryCollecting.EveryPieceIsCollected | core/src/main/java/com/sandbox/worker/core/utils/URISupport.java:154-182 | adding pieces fails if and only if a key does not decode; otherwise every decoded key is there once, in the order it first came, with all its values in theirs |
| QueryCollecting.QueryHoldsAllValues | core/src/main/java/com/sandbox/worker/core/utils/URISupport.java:47-182 | so a query is a syntax error exactly on a trailing "&", and one that parses holds all values of every key |
| QueryCollecting.BodyHoldsLastValues | core/src/main/java/com/sandbox/worker/core/utils/URLEncodedUtils.java:10-34 | a decoded body fails if and only if some key or value does not decode; it has the names of the pieces, each with the decoded value it was last given |
| LiquidEval.Eval | core/src/main/java/com/sandbox/worker/core/services/CustomIncludeTag.java:24-61 | rendering of any tree over any library of files terminates, cyclic includes among them; afterwards, returned or thrown, the include depth is what it was, at most 150 includes were ever nested, and every `forloop` map that existed is unchanged |
| LiquidEval.EvalInclude | core/src/main/java/com/sandbox/worker/core/services/CustomIncludeTag.java:24-61 | the counter is back whether the included template renders, throws, or is missing |
| LiquidEval.EvalFor | libs/jliquid/src/main/java/org/jliquid/liqp/tags/For.java:40-62 | the loop adds a `forloop` map of its own and leaves those of the loops around it alone |
| LiquidTraces.VisitOf | libs/jliquid/src/main/java/org/jliquid/liqp/nodes/BlockNode.java:27-54 | every rendering of a node has a trace, defined without the evaluator: leaves have the values their expressions have in the state they are reached in, bodies reach their children in order, each where the one before ended |
| LiquidTraces.VisitIsEval | libs/jliquid/src/main/java/org/jliquid/liqp/nodes/BlockNode.java:27-54 | and a trace has one result, the one the evaluator gives |
| LiquidPrinting.TemplatePrintsLeaves | libs/jliquid/src/main/java/org/jliquid/liqp/Template.java:161-174 | a template that does not throw prints the texts of the leaves it reaches, in order, without those of blocks a statement stopped |
| LiquidRendering.RenderPrintsLeaves | core/src/main/java/com/sandbox/worker/core/services/LiquidRenderer.java:30-41 | and so does rendering by name, for the parse of the prepared file; it throws without the file or a parse |
| LiquidPrinting.TextTemplate | libs/jliquid/src/main/java/org/jliquid/liqp/nodes/AtomNode.java:19-22 | texts below the limit render to their concatenation |
| LiquidPrinting.ArrayIsPrintedByElement | libs/jliquid/src/main/java/org/jliquid/liqp/nodes/BlockNode.java:38-46 | an array prints its elements one after another |
| LiquidPrinting.ListIsFlattened | libs/jliquid/src/main/java/org/jliquid/liqp/tags/For.java:97-150 | without a limit a loop prints a list with the lists inside it flattened |
| LiquidPrinting.AssignedIsPrinted | libs/jliquid/src/main/java/org/jliquid/liqp/tags/Assign.java:28-36 | after `assign`, a leaf that reads the name prints the value |
| LiquidPrinting.IncludedWithIsPrinted | core/src/main/java/com/sandbox/worker/core/services/CustomIncludeTag.java:33-37 | in an include with a value, a leaf that reads the name of the template prints that value |
| LiquidPrinting.IncludeSuffixIsOptional | core/src/main/java/com/sandbox/worker/core/services/CustomIncludeTag.java:47-50 | the suffix ".liquid" of an included template may be left out |
| LiquidPrinting.BreakLeavesTextsBefore | libs/jliquid/src/main/java/org/jliquid/liqp/tags/For.java:97-150 | a `break` in a conditional in a loop leaves the texts before the conditional in the first turn, and neither what the conditional printed nor what follows |
| LiquidPrinting.OffsetAndLimit | libs/jliquid/src/main/java/org/jliquid/liqp/tags/For.java:242-261 | the offset is what the last numeric `offset` gives, the limit what the last numeric `limit` gives, each its default without one; they are missing if and only if an attribute throws |
| LiquidPrinting.OffsetMovesLimitCaps | libs/jliquid/src/main/java/org/jliquid/liqp/tags/For.java:64-153 | an array loop prints the item at its offset first, and at most its limit of items |
| LiquidLoops.LoopPasses | libs/jliquid/src/main/java/org/jliquid/liqp/tags/For.java:97-150 | the turns of a loop that does not throw start where the one before ended, only the last may break, and unless it does there are no more; the printed text is theirs in order |
| LiquidLoops.ArrayLoopPrints | libs/jliquid/src/main/java/org/jliquid/liqp/tags/For.java:40-153 | a non-empty array loop prints its bodies over the items from offset to the smaller of the length and offset + limit, up to the first break; `first` and `last` are true exactly on the first and the final item, the break does not escape, `continue` is one past the last turn, and the enclosing `forloop` is back |
| LiquidLoops.RangeVisits | libs/jliquid/src/main/java/org/jliquid/liqp/tags/For.java:167-184 | a range loop counts from its start to `to` or its limit, except that when `to` is the largest integer only the limit stops it |
| LiquidLoops.RangeLoopReturns | libs/jliquid/src/main/java/org/jliquid/liqp/tags/For.java:155-240 | a range loop throws if and only if an attribute cannot be evaluated; otherwise it returns a text, no break escapes, and `forloop` is back |
| LiquidLoops.RangeLoopPrints | libs/jliquid/src/main/java/org/jliquid/liqp/tags/For.java:155-240 | a range loop with numbers for bounds prints its bodies over the numbers from its start, in order, up to the first break or exception; what a turn had printed when it raised stays, and nothing else is skipped |
| LiquidLoops.BreakStopsBody | libs/jliquid/src/main/java/org/jliquid/liqp/nodes/BlockNode.java:27-54 | a break a child returns ends the body it is in, and nothing after it is rendered or matters |
| LiquidLoops.IfTakesFirst | libs/jliquid/src/main/java/org/jliquid/liqp/tags/If.java:13-27 | the block of the first branch whose condition decides, or nothing; an `unless` with the test negated |
| LiquidLoops.CaseTakesFirst | libs/jliquid/src/main/java/org/jliquid/liqp/tags/Case.java:15-57 | over the flat list the grammar builds, the index scan renders the block of the first `when` with a term equal to the subject, or nothing |
| LiquidBounds.OutputBound | libs/jliquid/src/main/java/org/jliquid/liqp/LimitedStringBuilder.java:14-28 | an output is at most d * (limit - 1) + L characters, d the deepest nesting of blocks, loops and included roots and L the widest value a leaf produced, for every template |
| LiquidBounds.CyclicIncludeIsCutOff | core/src/main/java/com/sandbox/worker/core/services/CustomIncludeTag.java:24-28 | templates that include one another in a cycle, each after nodes that render without a break or an exception, throw once 150 includes are open and not before |
| LiquidRenderer.LimitedBuilder.Append | libs/jliquid/src/main/java/org/jliquid/liqp/LimitedStringBuilder.java:14-36 | an append is refused exactly when the text has already reached a positive limit |
| LiquidRenderer.LimitedBuilder.AppendPieces | libs/jliquid/src/main/java/org/jliquid/liqp/nodes/BlockNode.java:40-46 | the elements of an array are appended one by one, each under its own check, and those before a refusal stay |
| LiquidRenderer.Context.Attributes | libs/jliquid/src/main/java/org/jliquid/liqp/tags/For.java:242-261 | the last numeric `offset` and `limit` win; an attribute that is no number is skipped, one that cannot be evaluated throws |
| LiquidRenderer.Renderer.CollectInto | libs/jliquid/src/main/java/org/jliquid/liqp/nodes/BlockNode.java:31-50 | nil is skipped, except in an array loop where it appends an empty text; a statement stops the body; everything else is appended |
| LiquidRenderer.Renderer.RenderNode | libs/jliquid/src/main/java/org/jliquid/liqp/nodes/BlockNode.java:31-33 | rendering a child of any kind on the mutable context does what the evaluator says |
| LiquidRenderer.Renderer.RenderBlock | libs/jliquid/src/main/java/org/jliquid/liqp/nodes/BlockNode.java:27-54 | a block returns the break or continue that stopped it and drops its text |
| LiquidRenderer.Renderer.RenderFor | libs/jliquid/src/main/java/org/jliquid/liqp/tags/For.java:40-62 | the enclosing `forloop` is put back when the loop returns, and not when it throws |
| LiquidRenderer.Renderer.RenderArray | libs/jliquid/src/main/java/org/jliquid/liqp/tags/For.java:64-153 | attributes, items, the block for an empty loop, and the turns, as the evaluator says |
| LiquidRenderer.Renderer.RenderRange | libs/jliquid/src/main/java/org/jliquid/liqp/tags/For.java:155-240 | the same for a range loop, which answers with an empty text when a bound is no number |
| LiquidRenderer.Renderer.RenderTemplate | libs/jliquid/src/main/java/org/jliquid/liqp/Template.java:161-174 | a break or continue at the root of a template prints as nothing |
| LiquidRenderer.Renderer.RenderBody | libs/jliquid/src/main/java/org/jliquid/liqp/nodes/BlockNode.java:27-54 | the loop over children, with the real builder, context and cache, does what the evaluator says |
| LiquidRenderer.Renderer.RenderIf | libs/jliquid/src/main/java/org/jliquid/liqp/tags/Unless.java:13-27 | the loop over branches does what the evaluator says, whatever the cache holds |
| LiquidRenderer.Renderer.RenderCase | libs/jliquid/src/main/java/org/jliquid/liqp/tags/Case.java:15-57 | the nested loops with their shared index do |
| LiquidRenderer.Renderer.RenderTurn | libs/jliquid/src/main/java/org/jliquid/liqp/tags/For.java:99-143 | the body of a turn sees its item, and a `forloop` with its number, whether it is the first, and whether it is the last |
| LiquidRenderer.Renderer.ArrayTurns | libs/jliquid/src/main/java/org/jliquid/liqp/tags/For.java:95-152 | the loop over items with its counters, its break flag and the `forloop` map does |
| LiquidRenderer.Renderer.RangeTurns | libs/jliquid/src/main/java/org/jliquid/liqp/tags/For.java:175-237 | the loop over numbers does, keeping what was printed when an exception ends it |
| LiquidRenderer.Renderer.FindInclude | core/src/main/java/com/sandbox/worker/core/services/CustomIncludeTag.java:38-50 | the template found is the parse of the file as it is, from the cache or not |
| LiquidRenderer.Renderer.RenderInclude | core/src/main/java/com/sandbox/worker/core/services/CustomIncludeTag.java:24-61 | an include gives what parsing its file afresh would, from the cache or not |
| LiquidRenderer.Renderer.Render | core/src/main/java/com/sandbox/worker/core/services/LiquidRenderer.java:30-41 | so does a render by name: whatever was rendered before, evicted, or cleared by the collector in between, the result and the context are those of reading, preparing and parsing every file again |
| TemplateCache.Cache.Get | core/src/main/java/com/sandbox/worker/core/services/LiquidRenderer.java:19-24 | a hit returns the reference and makes the entry the youngest |
| TemplateCache.Cache.Put | core/src/main/java/com/sandbox/worker/core/services/LiquidRenderer.java:19-24 | the new entry is the youngest and stays, at most the eldest goes, and there are never more than 50 |
| TemplateCache.Cache.ClearSome | core/src/main/java/com/sandbox/worker/core/services/LiquidRenderer.java:19 | the collector may clear any references and removes no entry |
| TemplateKeys.IncludeKeyIsInjective | core/src/main/java/com/sandbox/worker/core/services/CustomIncludeTag.java:31 | the key of an include determines the service and the template |
| TemplateKeys.RenderKeysMeet | core/src/main/java/com/sandbox/worker/core/js/ScriptFunctions.java:86 | the key of a render does not: two services can share one if and only if the hash of one starts with the hash of the other |
| TemplateKeys.ConsistentWithRender | core/src/main/java/com/sandbox/worker/core/services/LiquidRenderer.java:35-39 | putting a rendered template keeps every live `r-` entry the prepared parse and every live `i-` entry the plain parse of its file |
| TemplateKeys.ConsistentWithInclude | core/src/main/java/com/sandbox/worker/core/services/CustomIncludeTag.java:48-49 | so does putting an included one |
| CommonJsPaths.CanonicalPath | core/src/main/resources/com/sandbox/runtime/v2/js/version_3/sandbox-patch.js:211-227 | the loop over parts with its stack computes the walk |
| CommonJsPaths.NormalFormIsUnique | core/src/main/resources/com/sandbox/runtime/v2/js/version_3/sandbox-patch.js:214-224 | removing a name with the ".." after it, dropped parts, and ".." at the root, in any order, ends in one list of plain names, the one the walk gives |
| CommonJsPaths.IrreducibleIsClean | core/src/main/resources/com/sandbox/runtime/v2/js/version_3/sandbox-patch.js:214-224 | nothing is left to remove if and only if all parts are plain names |
| CommonJsPaths.TargetIsRelative | core/src/main/resources/com/sandbox/runtime/v2/js/version_3/sandbox-patch.js:183-212 | an id is resolved from the directory of the requiring module, with or without a leading slash, and from the root without one |
| CommonJsPaths.TargetStaysInside | core/src/main/resources/com/sandbox/runtime/v2/js/version_3/sandbox-patch.js:214-227 | the result has no empty part and none that starts with a dot, so it never leaves the root |
| CommonJsPaths.PlainPathsAreFiles | core/src/main/resources/com/sandbox/runtime/v2/js/version_3/sandbox-patch.js:211-242 | a path of plain names is resolved to itself when it ends in ".js" or ".json", and with ".js" added when it does not |
| CommonJsPaths.CanonicalTwice | core/src/main/resources/com/sandbox/runtime/v2/js/version_3/sandbox-patch.js:211-242 | resolving a resolved path changes nothing |
| CommonJs.EvalRequire | core/src/main/resources/com/sandbox/runtime/v2/js/version_3/sandbox-patch.js:156-170 | `require` terminates on every module graph whose exports stay truthy; the cache is always the exports of each file's one module, `.json` files are never in it, and no cached file is started again |
| CommonJs.EvalLoad | core/src/main/resources/com/sandbox/runtime/v2/js/version_3/sandbox-patch.js:144-154 | a load ends with its file in the cache, even when the body throws, and returns what the module exports by then |
| CommonJs.BodiesRunOnce | core/src/main/resources/com/sandbox/runtime/v2/js/version_3/sandbox-patch.js:156-203 | in any sequence of requires every body is started at most once, cycles or not |
| CommonJs.LaterRequiresAgree | core/src/main/resources/com/sandbox/runtime/v2/js/version_3/sandbox-patch.js:163-169 | a later `require` of the same file, from any module and after any others, returns the module's current exports and changes nothing |
| CommonJs.JsonIsNeverCached | core/src/main/resources/com/sandbox/runtime/v2/js/version_3/sandbox-patch.js:165-166 | two requires of a `.json` file return different objects |
| CommonJs.FailedLoadsStay | core/src/main/resources/com/sandbox/runtime/v2/js/version_3/sandbox-patch.js:144-170 | a module whose body threw is not loaded again: later requires get its unfinished exports |
| CommonJsTraces.RequireHasTrace | core/src/main/resources/com/sandbox/runtime/v2/js/version_3/sandbox-patch.js:144-203 | every `require` has a trace, defined without the machine: the actions of each body it runs, each what the script does after the replies so far, with the runs they load inside |
| CommonJsTraces.TraceIsRequire | core/src/main/resources/com/sandbox/runtime/v2/js/version_3/sandbox-patch.js:144-203 | and a trace allows one answer, the one `require` gives |
| CommonJsTraces.FirstRequireRunsBody | core/src/main/resources/com/sandbox/runtime/v2/js/version_3/sandbox-patch.js:144-203 | the first `require` of a file runs its body, throws if and only if that run does or there is none, and otherwise returns what was last assigned to its exports in it, or the new object |
| CommonJsTraces.AssignedIsReturned | core/src/main/resources/com/sandbox/runtime/v2/js/version_3/sandbox-patch.js:149-153 | a body that assigns its exports and ends makes the first `require` return them |
| CommonJsTraces.ThrowingBodyThrows | core/src/main/resources/com/sandbox/runtime/v2/js/version_3/sandbox-patch.js:149-151 | a body that throws makes the first `require` throw |
| CommonJsTraces.JsonReturnedIfItParses | core/src/main/resources/com/sandbox/runtime/v2/js/version_3/sandbox-patch.js:165-166 | a `.json` file is returned, as a new object, if and only if it parses |
| CommonJsLoader.Loader.SetExports | core/src/main/resources/com/sandbox/runtime/v2/js/version_3/sandbox-patch.js:128-131 | assigning `exports` writes the cache entry of the module and nothing else |
| CommonJsLoader.Loader.NewModule | core/src/main/resources/com/sandbox/runtime/v2/js/version_3/sandbox-patch.js:116-142 | a new module starts with an empty object cached under its name and is a child of the module that required it |
| CommonJsLoader.Loader.AddChild | core/src/main/resources/com/sandbox/runtime/v2/js/version_3/sandbox-patch.js:135-137 | the requiring module lists the new one last |
| CommonJsLoader.Loader.ResolveAsFile | core/src/main/resources/com/sandbox/runtime/v2/js/version_3/sandbox-patch.js:205-234 | a canonical path is the answer if and only if there is such a file |
| CommonJsLoader.Loader.LoadModule | core/src/main/resources/com/sandbox/runtime/v2/js/version_3/sandbox-patch.js:199-203 | the module is made and cached, its body run, and its exports at that time returned |
| CommonJsLoader.Loader.RunBody | core/src/main/resources/com/sandbox/runtime/v2/js/version_3/sandbox-patch.js:144-154 | running a body on the real module objects does what the abstract machine says, through every nested require |
| CommonJsLoader.Loader.Require | core/src/main/resources/com/sandbox/runtime/v2/js/version_3/sandbox-patch.js:156-170 | so does `require`, in result, cache and modules |
| ContextRegistry.MutualExclusion | core/src/main/java/com/sandbox/worker/core/js/ContextFactory.java:100-123 | in every interleaving at most one thread is inside the block, for all ids together, even after a lock entry is removed |
| ContextRegistry.DoomedOnlyWhileReplaced | core/src/main/java/com/sandbox/worker/core/js/ContextFactory.java:193-217 | a registered context is closed or due to be closed if and only if the thread inside is replacing it or a replacement failed to create |
| ContextRegistry.GetReadsLiveContext | core/src/main/java/com/sandbox/worker/core/js/ContextFactory.java:107-123 | a get-or-create inside the block finds a doomed context if and only if a replacement of it failed |
| ContextRegistry.FailedReplacementIsServed | core/src/main/java/com/sandbox/worker/core/js/ContextFactory.java:203-214 | that happens: a run in which creation fails inside a replacement and the next get reads the context due to be closed |
| ContextRegistry.CreationsBounded | core/src/main/java/com/sandbox/worker/core/js/ContextFactory.java:137-168 | contexts created for an id are at most one more than its removals and replacements |
| ContextHistory.ClosedOnlyByTimerOrRemoval | core/src/main/java/com/sandbox/worker/core/js/ContextFactory.java:143-159 | in every run a context is closed if and only if its timer fired or a thread removing at once closed it |
| ContextHistory.ScheduledOnlyByReplaceOrRemove | core/src/main/java/com/sandbox/worker/core/js/ContextFactory.java:143-217 | and due to be closed if and only if a replacement that had read it, or a removal that had taken it out, scheduled it |
| ContextHistory.TimerAfterScheduling | core/src/main/java/com/sandbox/worker/core/js/ContextFactory.java:204-206 | no timer fires for a context that was not scheduled before |
| ContextHistory.OpenUntilTimerOrRemoval | core/src/main/java/com/sandbox/worker/core/js/ContextFactory.java:152-206 | a closed context was scheduled and its timer fired, or a thread had asked for the immediate removal of its id |
| ContextHistory.RegisteredIsLastPut | core/src/main/java/com/sandbox/worker/core/js/ContextFactory.java:107-217 | the registered context of an id is the one last put for it, with no removal since |
| ContextHistory.CallReturnsLiveContext | core/src/main/java/com/sandbox/worker/core/js/ContextFactory.java:107-217 | what a get-or-create or a replacement returns is the context registered for the id at that moment, and is closed or due to be closed if and only if a replacement of it failed |
| Debounce.Normalised | core/src/main/resources/com/sandbox/runtime/v2/js/version_1/lodash-2.4.1.js:5390-5398 | waits are made non-negative and a wait that is no number 0; the longest wait is below `wait` if and only if it was given as no number and `wait` is positive |
| Debounce.Throttled | core/src/main/resources/com/sandbox/runtime/v2/js/version_1/lodash-2.4.1.js:5697-5715 | throttling is debouncing with both waits equal |
| Debounce.Debounced.Call | core/src/main/resources/com/sandbox/runtime/v2/js/version_1/lodash-2.4.1.js:5433-5473 | a call of the debounced function is one step of the machine, with or without a longest wait |
| Debounce.Debounced.CheckMaxWait | core/src/main/resources/com/sandbox/runtime/v2/js/version_1/lodash-2.4.1.js:5439-5458 | with a longest wait: `func` runs when it is over, or else its timer is running |
| Debounce.Debounced.Delayed | core/src/main/resources/com/sandbox/runtime/v2/js/version_1/lodash-2.4.1.js:5399-5417 | so is the first timer, which runs the trailing call or waits for the rest |
| Debounce.Debounced.MaxDelayed | core/src/main/resources/com/sandbox/runtime/v2/js/version_1/lodash-2.4.1.js:5419-5431 | and so is the second |
| Debounce.EachRunServesLatest | core/src/main/resources/com/sandbox/runtime/v2/js/version_1/lodash-2.4.1.js:5375-5474 | in every run and with any options, `func` gets the latest arguments, never dropped ones, in the order of the calls |
| Debounce.RunsOncePerCall | core/src/main/resources/com/sandbox/runtime/v2/js/version_1/lodash-2.4.1.js:5375-5474 | `func` never runs twice for one call, in any run, if and only if the options do not join a trailing edge, no leading edge and a longest wait below `wait` |
| Debounce.DoublingRun | core/src/main/resources/com/sandbox/runtime/v2/js/version_1/lodash-2.4.1.js:5433-5473 | for each such combination, one call and one timer that run `func` twice |
| Debounce.ThrottleSpacing | core/src/main/resources/com/sandbox/runtime/v2/js/version_1/lodash-2.4.1.js:5697-5715 | a throttled `func` runs at least `wait` apart, with any options, in every run where timers are not early |
| Debounce.DebounceWaitsForSilence | core/src/main/resources/com/sandbox/runtime/v2/js/version_1/lodash-2.4.1.js:5375-5474 | a plain debounce runs `func` only after `wait` without a call, for the call before that silence |
| Debounce.MaxWaitBounds | core/src/main/resources/com/sandbox/runtime/v2/js/version_1/lodash-2.4.1.js:5439-5458 | while a call is unserved, a timer for it is due within the longest wait of the first unserved call |
| Debounce.NoCallIsLost | core/src/main/resources/com/sandbox/runtime/v2/js/version_1/lodash-2.4.1.js:5437-5456 | with a trailing edge every call is served or has a timer that will serve it, in every run, if and only if the options do not join a leading edge with a longest wait above `wait` |
| Debounce.LosingRun | core/src/main/resources/com/sandbox/runtime/v2/js/version_1/lodash-2.4.1.js:5399-5417 | for each such combination, a run of four events that loses a call |
| DebounceTiming.CallRunsOnLeadingEdge | core/src/main/resources/com/sandbox/runtime/v2/js/version_1/lodash-2.4.1.js:5434-5470 | without a longest wait a call runs `func` at once, with its arguments, if and only if there is a leading edge and no timer |
| DebounceTiming.CallRunsAfterLongestWait | core/src/main/resources/com/sandbox/runtime/v2/js/version_1/lodash-2.4.1.js:5442-5458 | with a leading edge and a longest wait a call runs `func` if and only if the last run is that long ago |
| DebounceTiming.CallRunsWhenOverdue | core/src/main/resources/com/sandbox/runtime/v2/js/version_1/lodash-2.4.1.js:5442-5458 | without a leading edge it does if and only if the timer of the longest wait is overdue or that wait is 0 |
| DebounceTiming.TimerRunsAfterSilence | core/src/main/resources/com/sandbox/runtime/v2/js/version_1/lodash-2.4.1.js:5399-5417 | without a longest wait the timer runs `func`, for the last call, if and only if `wait` has passed since that call, there is a trailing edge, and the call was not served |
| DebounceTiming.NoRunsBetweenCalls | core/src/main/resources/com/sandbox/runtime/v2/js/version_1/lodash-2.4.1.js:5399-5431 | without a trailing edge `func` runs only as calls come, in every run, if and only if there is no longest wait above `wait` |
| DebounceTiming.NoLeadingEdge | core/src/main/resources/com/sandbox/runtime/v2/js/version_1/lodash-2.4.1.js:5375-5474 | without a leading edge `func` runs `wait` or more after the first call it then serves |
| DebounceTiming.PlainDebounceIsExact | core/src/main/resources/com/sandbox/runtime/v2/js/version_1/lodash-2.4.1.js:5375-5474 | with punctual timers a plain debounce runs `func` exactly `wait` after each call that no other follows within `wait`, with its arguments, and at no other time |
| DebounceTiming.LeadingEdgeIsExact | core/src/main/resources/com/sandbox/runtime/v2/js/version_1/lodash-2.4.1.js:5375-5474 | with punctual timers and no longest wait, a leading edge runs `func` at the first call and at those more than `wait` after the one before, and at no call that is sooner |
| DebounceTiming.LongestWaitIsKept | core/src/main/resources/com/sandbox/runtime/v2/js/version_1/lodash-2.4.1.js:5439-5458 | with punctual timers and a trailing edge that loses no call, every call is served within the longest wait |
| LodashCache.BaseIndexOf | core/src/main/resources/com/sandbox/runtime/v2/js/version_1/lodash-2.4.1.js:170-180 | the first index holding a strictly equal value, which NaN never is |
| LodashCache.FindAfterAdd | core/src/main/resources/com/sandbox/runtime/v2/js/version_1/lodash-2.4.1.js:191-234 | a cache finds exactly what was pushed, however the string forms of objects collide |
| LodashCache.Lodash.CacheIndexOf | core/src/main/resources/com/sandbox/runtime/v2/js/version_1/lodash-2.4.1.js:191-207 | zero if and only if the value was pushed, NaN included |
| LodashCache.Lodash.CachePush | core/src/main/resources/com/sandbox/runtime/v2/js/version_1/lodash-2.4.1.js:215-234 | the value joins what the cache holds |
| LodashCache.Lodash.CreateCache | core/src/main/resources/com/sandbox/runtime/v2/js/version_1/lodash-2.4.1.js:292-315 | declines exactly when the first, middle and last elements are objects; otherwise two objects, pooled or new, become a cache of the values, whatever flags and `push` they come with |
| LodashCache.Lodash.FillCache | core/src/main/resources/com/sandbox/runtime/v2/js/version_1/lodash-2.4.1.js:311-313 | pushing every value makes a cache of the list |
| LodashCache.Lodash.GetObject | core/src/main/resources/com/sandbox/runtime/v2/js/version_1/lodash-2.4.1.js:345-361 | the object handed out was in use by nobody and leaves the pool |
| LodashCache.Lodash.ReleaseObject | core/src/main/resources/com/sandbox/runtime/v2/js/version_1/lodash-2.4.1.js:383-392 | an object and its inner cache go back with every slot that held a value null and `push` as it was, and the pool stays at 40 at most with no object twice or in use |
| LodashCache.Lodash.BaseDifference | core/src/main/resources/com/sandbox/runtime/v2/js/version_1/lodash-2.4.1.js:973-999 | the fast or the linear meaning, by length and by whether the cache declines, and every object borrowed is returned |
| LodashCache.Lodash.BaseUniq | core/src/main/resources/com/sandbox/runtime/v2/js/version_1/lodash-2.4.1.js:1304-1339 | the same for `_.uniq`, with or without a callback, sorted or not |
| LodashCache.DifferencesAgree | core/src/main/resources/com/sandbox/runtime/v2/js/version_1/lodash-2.4.1.js:973-999 | the two meanings of `_.difference` are equal if and only if NaN is not in both arrays |
| LodashCache.UniqIsLinear | core/src/main/resources/com/sandbox/runtime/v2/js/version_1/lodash-2.4.1.js:1304-1339 | the two meanings of `_.uniq` are equal if and only if at most one value compared is NaN |
| LodashCache.SortedIsLinear | core/src/main/resources/com/sandbox/runtime/v2/js/version_1/lodash-2.4.1.js:1313-1324 | told that the array is sorted, `_.uniq` keeps what the linear search keeps if and only if each value equal to an earlier one is equal to the one right before it |
| LodashCache.UniqKeepsEachOnce | core/src/main/resources/com/sandbox/runtime/v2/js/version_1/lodash-2.4.1.js:1304-1339 | without a callback, `_.uniq` keeps each value of the array exactly once |
| LodashPicks.UniqKeepsFirsts | core/src/main/resources/com/sandbox/runtime/v2/js/version_1/lodash-2.4.1.js:1304-1339 | `_.uniq` keeps, in order, exactly the elements for which no earlier one has the same callback value |
| LodashPicks.EveryValueIsKept | core/src/main/resources/com/sandbox/runtime/v2/js/version_1/lodash-2.4.1.js:1304-1339 | so every callback value is represented by the first element that has it |
| LodashPicks.SortedUniqKeepsChanges | core/src/main/resources/com/sandbox/runtime/v2/js/version_1/lodash-2.4.1.js:1313-1324 | told that the array is sorted, it keeps exactly the elements whose callback value differs from the one before |
| LodashPicks.DifferenceKeepsOthers | core/src/main/resources/com/sandbox/runtime/v2/js/version_1/lodash-2.4.1.js:973-999 | `_.difference` keeps, in order, exactly the elements that equal none of the other values |

## Left out

- UriMatching.Match: the retry of a failed match when the URI holds ";" is an outcome of its own; splitting into path segments and their matrix parameters is not modelled.
- UriTemplate.Construct: custom patterns are opaque, as a predicate that says which of them compile; `fits` says what values they accept.
- UrlDecoding.UrlDecode: results are bytes; `Utf8Text` reads well-formed ones as characters, what Java makes of malformed ones is not modelled.
- UrlDecoding.PathDecode: the same.
- QueryParser.DecodeBody: keys are told apart as UTF-8 bytes; `URLDecoder` is modelled by its documented behaviour; that some versions accept a sign after "%" is not.
- Base62.BaseConverter.Encode: `BigInteger` is an unbounded number, with `toByteArray` and `bitLength` written out.
- Routing.RoutingTable.FindMatch: one lookup is one step; the monitor around the sort is not modelled, nor are other transports and `findMatchedRoute`. `equalsIgnoreCase` is modelled for ASCII.
- LiquidEval.Eval: identifiers a template binds exclude "__includeDepth" and "__service".
- Filters, `cycle`, `tablerow`, custom tags and `forloop.name` beyond its text; expressions are evaluated by a parameter that may also throw. Stack overflow and other errors that are not exceptions are not modelled.
- LiquidRenderer.Renderer.Render: the collector may clear references before any lookup; between the two reads of one reference inside a lookup it may not. Several threads in one renderer are not modelled, nor is `_passUnrenderedTemplate`.
- CommonJs.EvalRequire: requires that no module body exports a falsy value, since such an entry of the cache does not count as one; a body that changes `module.filename`, and getters defined on exports, are not modelled.
- ContextRegistry.DoomedOnlyWhileReplaced: flushing of state and the metadata of contexts carry no step; several removals by one filter are as many single removals.
- Debounce.Normalised: infinite waits are not modelled.
- Debounce.ThrottleSpacing: an event handler is one step with one reading of the clock, and `func` does not call the debounced function again while it runs; the result passed through is not modelled.
- LodashCache.Lodash.BaseUniq: `indexOf` replaced by a user, and objects whose string form changes or throws, are excluded.
- The validator scripts, filters, DTOs, events, servers and start-up code: input and output, or members with nothing hard to prove.
- `encodeLiteralCharacters`, `compareTemplates` and `substitute(Map)` of the template class: easy variations of what is modelled.
