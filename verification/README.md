# Verification of the BuckyOS web SDK

A Dafny model of the parts of the SDK that carry guarantees of their own, with proofs of those guarantees. Each module follows one component of `src/`; `dafny verify dfyconfig.toml` checks everything.

**Sessions and protocols.** These are step systems: a state, the steps the code takes between two points where it awaits, and an environment that chooses what happens next, including every loss, delay and failure. A step that is not possible changes nothing, so every sequence of steps is a run, and the claims are about all of them.

- `NdmSession` - an import's upload session: workers that share a chunk-task table, cancel, retry, readiness. `NdmTransfers` says what a session sends and when, `NdmProgress` what its progress shows and what an abort or a failure still lets happen, `NdmStatus` what its statuses mean.
- `Nfsp` - numbered writes against a server with a replay table, over a network that loses, repeats and reorders; also the write loop and the resumable upload. `NfspAttempts` counts the attempts.
- `Nonce` - the promise chain of local transactions and the cached nonce, against a chain's pending count.
- `AppFrame` - shell and application over two ordered channels: hello, init, focus, requests, reloads. `AppFrameRuns` accounts for every message and request of a run.
- `EventQueue` - the queue between an event stream and its readers, with the class and the runs of its operations. `EventQueueRuns` says which calls wait and why a call gets null.

**Streams.** `Framing` proves once, for any rule that recognises a frame at the front of a buffer for good, that chunking does not matter and that exactly the unfinished rest is kept. `KeventStreams` (length-prefixed socket frames, newline-separated lines) and `CommandStream` (executor frames, requests, upload chunks) give the rules, the receiver classes and the encoders.

**Object URLs.** `ObjectUrl` with `UrlPath`, `UrlQuery`, `PercentCodec`, `CanonicalJson`, `EventKey` and `AiwsReference` are the grammar of object URLs, their printers, canonical JSON, event keys and workspace reference URLs, as mutual inverses on normal forms. One round trip is not total: the platform's decoder drops a leading U+FEFF, so the theorems say exactly when a URL comes back, and exactly when normalising is idempotent (`ObjectUrl.NormalizeIdempotentIff`). Printing is injective without any such condition. `UrlGrammar`, `JsonGrammar` and `AiwsUrls` state the languages apart from the code: which texts are read as which value, and which text each value is printed as, so that parser and printer are fixed one by one and not only against each other.

**Media.** `MediaReader` is the windowed reader with its 8 MiB budget and the on-demand walk over ISO boxes; `IsoBoxes` is the walk over bytes in memory (section 4.2 of ISO/IEC 14496-12), and the first agrees with the second whenever it returns.

**Names and tokens.** `Base64` (sections 4 and 5 of RFC 4648) and `Namelib`: the fallback UTF-8 codec (section 3 of RFC 3629), PEM, did:dev keys, signed JWTs (section 3.1 of RFC 7515). `NameTexts` says which texts are read, whoever wrote them.

**Choices and order.** `DirTree` (a folder selection becomes a tree), `PackBuild` (the fewest uploads that fit), `ContentHandlers` and `ContentOrder` (who opens a content, in what order: the code's sort, and the list described from the registry alone), `VideoRatio` and `VideoPrompt` (a request's size, ratio and prompt references).

**Shared state.** `NotifyCommit` (an optimistic commit against others) and `ConfigCache` (a cache against other writers and a clock).

`JsText`, `Utf8`, `BigEndian`, `Sorting` and `Wrappers` hold what the components share: UTF-16 strings, the platform's UTF-8, big-endian numbers, stable sorting, results.

What the platform supplies is a parameter with the laws it is used for: lower-casing and the syntax of object ids (`ObjectUrl.LawfulPlatform`), how a JSON number is printed and read (`CanonicalJson.Lawful`), collation of keys (`ContentHandlers.Lawful`), whether a payload is JSON, signing and verifying. Calls to servers fail or succeed at the environment's choice; time is a number that grows.

Findings, each stated as a theorem with its exact condition:

- Object URLs and workspace references whose decoded parts begin with U+FEFF do not come back, nor do reference ids with a lone surrogate (`ObjectUrl.RoundTrip`, `AiwsReference.ReferenceRoundTrip`), and normalising such a URL twice is not normalising it once (`ObjectUrl.NormalizeIdempotentIff`).
- `objEventKey` accepts an event name with a slash. Keys are then equal exactly when their parts are (`EventKey.KeyPartsIff`), and such a name shares its key with a name without a slash exactly when its parts up to the last slash are keys of segments (`EventKey.SlashedNameIff`).
- A configuration value is served for ten seconds counted from the answer's arrival, so it may be older by the answer's delay; a client that was answered in a later clock second than it asked in may serve a value from more than ten seconds ago, and no other (`ConfigCache.TenSecondsIff`). Calls not overlapping, `is_changed` is true exactly when the server was asked, also when the value is the same as before.
- A `get` under way when a write of its key returns caches its older answer afterwards, and later calls serve it; without one they cannot (`ConfigCache.OldAfterWriteIff`).
- A file whose uploader answers an empty id is sent inline although its bytes were taken off the total; for distinct names the inline limit is kept exactly when no id is empty (`PackBuild.PackBuildFiles`, `PackBuild.WithinLimitIff`).
- The at-most-once promise of a write holds exactly inside a session (`Nfsp.AtMostOnceIff`).
- A progress report that arrives after its transfer has settled overwrites the reported bytes of a completed file, so a session may reach `ready` with other bytes than the summary's: exactly when the last such report of a file does not add up (`NdmSession.ReadyIsComplete`, `NdmSession.ExactIff`).
- A selector's extension is not looked at beside an object type, a schema or a media type (`ContentHandlers.ExtensionIgnored`).
- The cached nonce is right exactly while no other sender's transaction has come in since the pending count was read; one that comes in before the count is read does no harm (`Nonce.NoncesRightIff`, `Nonce.ReadingCatchesUp`).
- A start that asks for a binding of a session with other than one root throws after it has set the statuses, so the session says it is uploading while nothing is; without such a start, `uploading` means that an upload is in progress (`NdmStatus.BadBindStrands`, `NdmStatus.UploadingIsActive`).
- After three revision conflicts an answer is given up exactly when the task is in no final phase, also when it has a result by then (`NotifyCommit.StoryTells`).

## Model

| member | source | states |
|---|---|---|
| `NdmSession.NoDoubleUpload` | src/ndm_client.ts:1812-1848 | In every run, whatever the interleaving of workers, cancels and restarts, two uploads of a session are never in progress at once, and one run hands each chunk id to `uploadMissingChunk` at most once; what it may hand over is the next row's |
| `NdmTransfers.StepStarts` | src/ndm_client.ts:1893-1907 | A step that hands a chunk over finds a worker at that chunk, which is not marked uploaded and which its run has not handed over before, in a run whose signal is not aborted; no other step changes what a run has handed over |
| `NdmTransfers.StartedUnmarked` | src/ndm_client.ts:1899-1907 | In every run of the session, every id an upload has handed over belongs to a chunk that was not marked uploaded when that upload began |
| `NdmTransfers.RetrySendsOnlyMissing` | src/ndm_client.ts:1899-1907 | So a retry, after whatever failures and cancels, sends nothing that is marked in every file that has it |
| `NdmTransfers.SettledByEvent` | src/ndm_client.ts:1904-1908 | In every run a transfer counts as done or failed exactly when it was handed over and the first report of its end said so |
| `NdmTransfers.MarkedWasSent` | src/ndm_client.ts:1899-1913 | Each chunk marked uploaded, at `ready` all of them, has had a transfer that ended well |
| `NdmTransfers.TransmittedIsSent` | src/ndm_client.ts:1963-1978 | The bytes transmitted are the lengths of exactly the transfers that really sent and ended well, each once |
| `NdmTransfers.RunTasksOfChunks` | src/ndm_client.ts:1902-1906 | Every transfer of every upload is of a chunk of its file, with that chunk's length |
| `NdmTransfers.RunWorkers` | src/ndm_client.ts:1892 | Every upload has as many workers as its start asked for, or as there are files if these are fewer |
| `NdmTransfers.ParallelBounded` | src/ndm_client.ts:1892-1907 | At no moment are more transfers in progress than a start asked for |
| `NdmTransfers.CompletedStays` | src/ndm_client.ts:1893-1915 | A completed file is not taken up again: it stays completed with its chunks, or fails because its upload was aborted |
| `NdmTransfers.RunReports` | src/ndm_client.ts:1909-1912 | In every run every file reports at least the chunks that are marked, however progress reports come in |
| `NdmTransfers.ProgressAdds` | src/ndm_client.ts:1973-1976 | A report of a running transfer shows on top of what is marked of its own file, and nowhere else |
| `NdmProgress.ResumeReports` | src/ndm_client.ts:1907-1909 | Once a worker comes back to a chunk that was transferred the file reports exactly what is marked of it, that chunk included |
| `NdmProgress.MarkAdds` | src/ndm_client.ts:1909 | Marking a chunk adds its length to what is marked of its file |
| `NdmProgress.NothingMore` | src/ndm_client.ts:1893-1901 | Once the signal is aborted no file is taken up and no transfer started, by any step but a new start; after a failure the upload takes up no more files |
| `NdmProgress.BindIff` | src/ndm_client.ts:1830-1833 | In every run the session's finalize asks for a binding exactly when a start that was carried out has asked for one |
| `NdmProgress.TotalsFollow` | src/ndm_client.ts:1661-1670 | The totals follow each file: its report, size and completion show once for every entry that is that file |
| `NdmProgress.TotalsOfNothing` | src/ndm_client.ts:1661-1670 | Nothing reported shows as nothing; all entries are counted exactly when all are completed, and none exactly when none is |
| `NdmStatus.RunStatus` | src/ndm_client.ts:1812-1949 | In every run the two statuses belong together and to what is going on: pending and uploading while chunks are transferred, finalizing while the finalize request is out, and each end with its own pair, `not_required` exactly when nothing was transmitted |
| `NdmStatus.StartIff` | src/ndm_client.ts:1812-1820 | A start does nothing exactly when the session is ready or uploading, or its options are refused |
| `NdmStatus.BadBindStrands` | src/ndm_client.ts:1826-1833 | A start with a binding, of a session with other than one root, throws after it has set the statuses: the session says it is uploading and nothing is |
| `NdmStatus.UploadingIsActive` | src/ndm_client.ts:1826-1845 | In every run without such a start, `uploading` means that an upload is in progress |
| `NdmStatus.ThrewEndsAs` | src/ndm_client.ts:1835-1845 | An upload that throws ends as cancelled when its signal is aborted, and as failed otherwise |
| `NdmStatus.CancelCancels` | src/ndm_client.ts:1861-1867 | Cancelling a session that is not ready shows as cancelled at once |
| `NdmStatus.CancelledStays` | src/ndm_client.ts:1812-1867 | And it goes on to, whatever stragglers do, until the next start |
| `NdmStatus.FailedHasCause` | src/ndm_client.ts:1887-1944 | A session fails only if a transfer failed, the finalize request did, or its answer does not confirm what it must |
| `NdmStatus.CancelledHasCause` | src/ndm_client.ts:1837-1867 | It is cancelled only if somebody cancelled or aborted |
| `NdmStatus.RunShows` | src/ndm_client.ts:1914 | In every run, when an upload in progress has failed some file shows as failed |
| `NdmSession.ReadyIsComplete` | src/ndm_client.ts:1887-1949 | When a run has reached `ready`, every chunk of every file is marked uploaded and every file entry counted; each file reports its size exactly when no late report has upset it since it was completed, before `ready` or after; the bytes reported are then the summary taken at import, and only then where chunks make up their files |
| `NdmSession.LateReportIff` | src/ndm_client.ts:1973-1977 | In every state whose completed files report their sizes, `ready` or not, a progress report that comes after its transfer has settled keeps it so exactly when its file is not completed or the report adds up to the size |
| `NdmSession.ExactIff` | src/ndm_client.ts:1887-1977 | In every run, at any moment, a completed file reports its size exactly when the last report of it since it was completed was not a late one that does not add up |
| `NdmSession.ReadyOnlyWhenConfirmed` | src/ndm_client.ts:1919-1948 | A run reaches `ready` exactly when one of its events is a finalize answer that is ok, says ready, confirms every root and, when a bind was asked for, a binding, given to an upload whose signal is not aborted |
| `NdmSession.ReadyStays` | src/ndm_client.ts:1812-1848 | Once `ready`, no later start, cancel, abort or straggling step changes the status |
| `NdmSession.CancelledNeverReady` | src/ndm_client.ts:1861-1867 | A run whose signal was aborted never becomes the one that sets `ready`, whatever follows |
| `NdmSession.CancelAbortsActive` | src/ndm_client.ts:1861-1867 | Cancelling while a run is active aborts that very run's signal |
| `NdmSession.RunInv` | src/ndm_client.ts:1887-1949 | The invariant behind these claims holds in every state of every run: one active run, files marked completed have all their chunks, each worker holds its own file, each started chunk has one task |
| `NdmSession.StepInv` | src/ndm_client.ts:1887-1978 | Each single step keeps that invariant |
| `NdmSession.CompletedTotals` | src/ndm_client.ts:1651-1689 | With every file completed and no late report, summed progress equals the summed sizes and the count of files |
| `NdmSession.ReadyReachable` | src/ndm_client.ts:1812-1949 | No session is ever stuck: from every state of every run, whatever failed, was cancelled or is under way, for any files, chunks and bind, `ready` can still be reached |
| `DirTree.BuildDirTree` | src/ndm_client.ts:1258-1291 | Succeeds exactly on acceptable selections; the directories built then hold exactly the given files at their paths, sibling names are unique, no directory is empty, and file count and bytes are those of the selection; it throws a conflict exactly when paths are valid below one root and the first file that is misnamed or in the way of an earlier one is in the way, and for an empty selection its own error |
| `DirTree.Dir.Add` | src/ndm_client.ts:1270-1288 | The descent for one path changes the directories in place exactly as placing the file in the directory's value does, with the same error |
| `DirTree.InsertLeaves` | src/ndm_client.ts:1268-1288 | Placing one file succeeds exactly when no file is in its way and the basename matches, and adds that leaf and nothing else, at any depth |
| `DirTree.BuildStep` | src/ndm_client.ts:1267-1289 | One turn of the loop succeeds exactly when the paths stay prefix-free and the name matches, and keeps the tree equal to the files placed so far |
| `DirTree.ClearIffPrefixFree` | src/ndm_client.ts:1275-1285 | The tree has no entry in the way of a path exactly when that path is no prefix of a placed one nor the reverse |
| `DirTree.OrderForgotten` | src/ndm_client.ts:1258-1291 | A rearranged selection is accepted alike and its tree holds the same leaves |
| `DirTree.AcceptableIff` | src/ndm_client.ts:1246-1289 | A selection is acceptable exactly when every path is one root and names down to the file's own, with slashes between, each name not empty, no dot name, without slash, backslash and control character and not beginning with a drive, and no path is another's or continues it |
| `DirTree.AcceptedProper` | src/ndm_client.ts:1246-1249 | Every name in a tree that was built, at any depth, is such a name |
| `ObjectUrl.RoundTrip` | src/object_url.ts:43-170 | For every file, cyfs, obj or buckyos URL value the parser can return, parsing its printed form gives it back exactly when no path segment, query key or value begins with U+FEFF |
| `ObjectUrl.ParseReturnable` | src/object_url.ts:43-113 | What the parser can return: normal paths, valid hosts and ids, canonical selector values |
| `ObjectUrl.NormalForm` | src/object_url.ts:198-201 | Two inputs have one normal text exactly when they are one URL value |
| `ObjectUrl.NormalizeIdempotentIff` | src/object_url.ts:198-201 | Normalising a normalised text succeeds and changes nothing exactly when no path segment, query key or value begins with U+FEFF |
| `ObjectUrl.FormatInjective` | src/object_url.ts:148-170 | Different URL values the parser can return, of whatever kinds, are printed differently |
| `ObjectUrl.NormalizeDropsBoms` | src/object_url.ts:198-201 | An instance of that condition: a path on which normalising twice differs from normalising once |
| `ObjectUrl.FormatSplits` | src/object_url.ts:320-333 | Splitting a printed URL gives back its authority, path and query |
| `ObjectUrl.HostReadsBack` | src/object_url.ts:127-146 | Every obj host the parser returns is read back as itself |
| `ObjectUrl.RoundTripObj` | src/object_url.ts:100-109 | The same round trip for obj URLs, with host, trimmed path and query |
| `ObjectUrl.RoundTripCyfsObject` | src/object_url.ts:71-99 | The same round trip for cyfs URLs of an object, with or without a source zone |
| `UrlGrammar.ParseIff` | src/object_url.ts:43-113 | The parser's whole language, stated apart from it: the input parses to a value exactly when, white space cut off, its scheme in any case and what follows read as that value: device or localhost, zone or object authority, service or entity host, decoded segments without dot names, query pairs |
| `UrlGrammar.HostIff` | src/object_url.ts:127-146 | Which hosts of obj URLs are services, which are entities, and which are refused |
| `UrlGrammar.SplitIff` | src/object_url.ts:320-333 | Authority, path and query of a URL: where they end, what of a fragment is dropped, when a query is one |
| `UrlGrammar.FileIs` | src/object_url.ts:148-156 | The text of a file URL |
| `UrlGrammar.CyfsPathIs` | src/object_url.ts:148-156 | The text of a cyfs URL of a path |
| `UrlGrammar.CyfsObjectIs` | src/object_url.ts:148-156 | The text of a cyfs URL of an object |
| `UrlGrammar.ObjIs` | src/object_url.ts:148-170 | The text of an obj URL; a question mark exactly when there is a query |
| `UrlPath.NormalizePath` | src/object_url.ts:335-353 | The loop computes the normal form of a path or the error of its first bad segment |
| `UrlPath.NormalizedShape` | src/object_url.ts:335-353 | A normalised path is a list of good decoded segments, printed |
| `UrlPath.NormalizedFixpoint` | src/object_url.ts:335-353 | A normal path normalises to itself exactly when no segment is encoded with a leading U+FEFF |
| `UrlGrammar.NormalizedIff` | src/object_url.ts:335-353 | A path text normalises to a text exactly when it is slashes and segments that decode, none empty, `.` or `..`, and that text is theirs printed again; a trailing slash is kept or dropped |
| `UrlPath.PathTextInjective` | src/object_url.ts:335-366 | Different segment lists have different path texts |
| `UrlQuery.ParseQuery` | src/object_url.ts:368-388 | The loop computes the query's keys and values, or the error of its first bad or repeated pair; what these are is stated in the next rows |
| `UrlGrammar.ParsedQueryIff` | src/object_url.ts:368-388 | A query parses to a map exactly when its pairs, cut at ampersands with empty ones skipped, have distinct keys and the map holds what they say: a plus is a space, escapes are decoded, a selector is stored as canonical JSON |
| `UrlGrammar.PlusIsSpace` | src/object_url.ts:373-374 | A query in which any `%20` is written as a plus parses to the same result |
| `UrlGrammar.PlusFixpoint` | src/object_url.ts:157-166 | A query the parser can return, printed with pluses for its spaces, parses to itself exactly when no key or value begins with U+FEFF |
| `UrlGrammar.QueryIs` | src/object_url.ts:157-166 | The text of a query: every key once in ascending order, with its value, encoded |
| `UrlQuery.QueryFixpoint` | src/object_url.ts:157-166 | A query the parser can return, printed with sorted keys, parses to itself exactly when no key or value begins with U+FEFF |
| `UrlQuery.QueryTextInjective` | src/object_url.ts:157-166 | Different queries are printed differently |
| `UrlQuery.ParsePairsGood` | src/object_url.ts:368-388 | Every parsed query has well-formed keys and values, the selector in canonical form |
| `PercentCodec.EncodeWith` | src/object_url.ts:303-309 | The loop computes the percent-encoding of the string's UTF-8 bytes |
| `PercentCodec.PercentDecode` | src/object_url.ts:390-409 | The loop decodes escapes and UTF-8, or fails on a broken escape or malformed bytes |
| `PercentCodec.DecodedEncoded` | src/object_url.ts:294-309 | Decoding an encoded string gives it back, but for one leading U+FEFF, which is dropped |
| `UrlGrammar.DecodedIff` | src/object_url.ts:390-409 | A text decodes to another exactly when its UTF-8 form spells that one's, each byte as itself or as an escape with two hexadecimal digits of either case |
| `UrlGrammar.EncodedIff` | src/object_url.ts:294-314 | Encoding writes each byte of the UTF-8 form, those a segment or a query may hold as themselves and others as an escape with upper-case digits |
| `PercentCodec.EncodedInjective` | src/object_url.ts:294-309 | Different well-formed strings have different encodings |
| `CanonicalJson.CanonicalReadsBack` | src/object_url.ts:283-292 | Parsing the canonical text of a value gives the value, objects compared without key order |
| `CanonicalJson.CanonicalIffEqual` | src/object_url.ts:283-292 | Two values have the same canonical text exactly when they are equal up to object key order |
| `CanonicalJson.CanonicalFixpoint` | src/object_url.ts:283-292 | Making a canonical text canonical again changes nothing |
| `JsonGrammar.CanonicalIs` | src/object_url.ts:283-292 | The canonical text by its form: no white space, members in ascending order of keys with commas and colons, strings in their shortest form, null for numbers JSON cannot hold |
| `JsonGrammar.QuoteIs` | src/object_url.ts:288-291 | A string is written unit by unit: the two-character escapes, `\u` with lower-case digits for other controls and lone surrogates, everything else as it is |
| `JsonGrammar.JsonParseIff` | src/aiworkspace_client.ts:62-63 | A text is read as a value exactly when it is that value's text by the JSON grammar (RFC 8259), white space anywhere between tokens, a repeated key having its last value |
| `CanonicalJson.ParsedValid` | src/object_url.ts:283-292 | Whatever parses is a value the printer handles |
| `EventKey.KeventSegment` | src/object_url.ts:235-241 | The loop computes the key of a segment: itself when plain, otherwise a marker and its bytes in hexadecimal |
| `EventKey.KeySegmentIs` | src/object_url.ts:235-241 | A segment of letters, digits, `_` and `-` not beginning with `x` is its own key; any other, the empty one too, is `x` and two lower-case digits for every byte |
| `EventKey.EventKeyIs` | src/object_url.ts:243-254 | The key is `/obj/`, the keys of host and segments with slashes between, and the event's name |
| `EventKey.KeySegmentIffEncoding` | src/object_url.ts:235-241 | Two strings share a key segment exactly when they have the same UTF-8 form |
| `EventKey.KeyPartsIff` | src/object_url.ts:243-254 | For all hosts, segments and event names: two keys are equal exactly when host and segment keys, followed by the event's name as its slashes cut it, are the same list |
| `EventKey.EventKeysIff` | src/object_url.ts:243-254 | So for event names without a slash, which `objectEventKey` demands, two keys are equal exactly when host, segments and event are, lone surrogates apart, which encoding replaces |
| `EventKey.SlashedNameIff` | src/object_url.ts:243-254 | A name has a key that an event without a slash also has exactly when its parts up to the last slash are keys of segments |
| `EventKey.SlashCollides` | src/object_url.ts:243-254 | For every host, segments and event, the key is also one with the last segment moved into the event name, which `objEventKey` does not check |
| `AiwsReference.ReferenceRoundTrip` | src/aiworkspace_client.ts:39-65 | Parsing the URL of a reference gives back workspace, entity, mode, selector and version exactly when both ids are good: non-empty, not a dot segment, without lone surrogates, not beginning with U+FEFF |
| `AiwsReference.ReferenceUrlOkIff` | src/aiworkspace_client.ts:39-49 | A reference has a URL exactly when a workspace is named and what encoding keeps of the ids are path segments; an empty entity id has one too |
| `AiwsReference.ReferenceUrlUnique` | src/aiworkspace_client.ts:39-49 | Any two references that have URLs, whatever their ids, have the same URL exactly when they agree in mode, in selector and version up to key order, and in what encoding keeps of their ids |
| `AiwsUrls.ReferenceUrlIs` | src/aiworkspace_client.ts:39-49 | The text of every reference that has a URL: its own workspace before the one given, mode, selector and version in this order, each if it is stated |
| `AiwsUrls.EntityReadIff` | src/aiworkspace_client.ts:52-65 | A URL is read as a reference exactly when it is one of the service, its three path segments name the entity, and selector and version are the JSON texts of the reference's; everything else in the query is ignored |
| `AiwsUrls.EntityErrorIff` | src/aiworkspace_client.ts:52-65 | Which error reading throws: the parser's for no URL, a JSON error for an entity's URL with a bad selector or version, and that it is no entity's URL otherwise |
| `AiwsReference.AscendingPrinted` | src/aiworkspace_client.ts:39-49 | The query of a reference URL is printed in ascending key order |
| `Utf8.DecodeTextEncode` | src/object_url.ts:303-409 | The platform's encoder and fatal decoder are inverse on well-formed strings but for one leading U+FEFF |
| `Utf8.EncodeDecode` | src/object_url.ts:390-409 | Bytes that decode are the encoding of what they decode to: no overlong form, surrogate or out-of-range value is accepted |
| `Utf8.PointIff` | src/namelib.ts:104-123 | A code point is encoded as its UTF-8 form by the marker and value bits of RFC 3629 |
| `Utf8.DecodePointIff` | src/object_url.ts:390-409 | Just that form is decoded to it: no overlong form, surrogate or value out of range |
| `Utf8.UnitsIs` | src/namelib.ts:104-108 | A code point in a string is itself or a surrogate pair with ten bits in each half |
| `IsoBoxes.Boxes` | src/content_mime.ts:191-211 | The in-memory walk returns the boxes of the reference walk, or throws exactly when that fails |
| `IsoBoxes.WalkInOrder` | src/content_mime.ts:191-211 | Boxes follow one another within the range, each with its header, and only the last one may be clipped; at most the limit of boxes |
| `IsoBoxes.LookIff` | src/content_mime.ts:194-208 | One look at a position by the bytes there: when a box is there and which, a last box past the end being cut off at the end of the range; when the walk ends; when it throws |
| `IsoBoxes.WalkIff` | src/content_mime.ts:191-211 | A walk gives these boxes exactly when they are there one after the other and it stops at the limit or at a position where the walk ends |
| `IsoBoxes.WalkDisjoint` | src/content_mime.ts:191-211 | No two boxes of one walk share a byte |
| `IsoBoxes.WalkFindsLayout` | src/content_mime.ts:191-211 | A file laid out box by box, with 32-bit, 64-bit or open sizes, is walked back to its boxes: kind and exact payload |
| `MediaReader.Reader.Read` | src/file_meta.ts:90-107 | Returns exactly the bytes asked for or stops; what it costs from the budget in every case; when it must stop and when it must not |
| `MediaReader.ReadIs` | src/file_meta.ts:90-107 | A read is free exactly when the window holds every byte of it; otherwise it fetches from its first byte 64 KiB, as much as it wants if that is more, or up to the end of the file, and that is its cost and the new window |
| `MediaReader.OneFetch` | src/file_meta.ts:90-107 | A walk over a file of at most 64 KiB from its first box on reads the rest of the file once, and nothing else |
| `MediaReader.Source.ReadAt` | src/file_meta.ts:44-48 | The source may fail or give the wrong number of bytes; the right number are the right bytes |
| `MediaReader.ReadIsoBox` | src/file_meta.ts:745-760 | When it returns it agrees with the look at the same position in the whole bytes and has spent what that look reads; from a reliable source it fails only when the look does or the budget is short |
| `MediaReader.ReadChildren` | src/file_meta.ts:764-774 | Whenever it returns, it returns the reference walk over the whole bytes, having spent exactly what that walk reads and never asked the source for more than 8 MiB in all; from a reliable source it returns exactly when the walk succeeds and the budget covers it |
| `MediaReader.WalkCostBound` | src/file_meta.ts:90-107 | A walk reads at most one window of 64 KiB for each box and one more, whatever the window held before |
| `MediaReader.FewBoxesFit` | src/file_meta.ts:90-107 | So the budget of a new reader covers every walk that finds fewer than 128 boxes |
| `BigEndian.Bytes32Be32` | src/file_meta.ts:134-137 | Reading a written 32-bit number gives it back, anywhere in a buffer |
| `BigEndian.Be32Bytes32` | src/file_meta.ts:134-137 | Writing a number that was read gives its four bytes back |
| `BigEndian.Bytes64Be64` | src/file_meta.ts:139-143 | The same for 64 bits |
| `EventQueue.Conservation` | src/kevent_client.ts:246-332 | In every run, the values handed out followed by those queued are the values pushed before close, in order |
| `EventQueue.RunGood` | src/kevent_client.ts:246-332 | In every run values and waiters are never both queued, every call is waiting or answered exactly once, and calls are served first come first served |
| `EventQueueRuns.CallExplained` | src/kevent_client.ts:271-331 | In every run a call that waits does not poll, is not past its time and the queue is open; a call that got null polled, had its timer go off after it was made, or was overtaken by the close |
| `EventQueue.AsyncEventQueue.PushItem` | src/kevent_client.ts:254-269 | Its whole effect: dropped when closed, handed to the first waiter, or queued |
| `EventQueue.AsyncEventQueue.ShiftItem` | src/kevent_client.ts:271-313 | Its whole effect: the first value, null when closed or polling, or a place at the end of the waiters |
| `EventQueue.AsyncEventQueue.FireTimer` | src/kevent_client.ts:286-306 | A timer answers null to its own call alone, and does nothing once that call was answered |
| `EventQueue.AsyncEventQueue.CloseQueue` | src/kevent_client.ts:315-331 | Every waiter is answered null, in order |
| `Framing.ChunksForgotten` | src/kevent_client.ts:679-706 | However a stream is cut into chunks, the frames handled, whether the connection survives and what is kept are those of the stream as a whole |
| `Framing.ParseIff` | src/kevent_client.ts:679-706 | A live receiver has handled exactly the complete frames of the stream and keeps exactly the unfinished rest |
| `Framing.ParseDeadIff` | src/kevent_client.ts:679-706 | A receiver that gave up has handled exactly the complete frames before the one that stopped it, or before the place where no frame can be |
| `Framing.CutsAgree` | src/executor_client.ts:176-195 | Two ways of cutting one stream cannot be told apart |
| `KeventStreams.NativeConnection.HandleSocketData` | src/kevent_client.ts:679-722 | One chunk: the buffer kept, the calls resolved in order with the frames received, and on a bad frame the connection given up and the rest rejected |
| `KeventStreams.NativeDecisive` | src/kevent_client.ts:682-695 | The length prefix decides a frame for good: later bytes never change it |
| `KeventStreams.NativeHeadIs` | src/kevent_client.ts:682-695 | Four bytes of length, most significant first; a length of 0 or past 1 MiB is refused |
| `KeventStreams.NativeRoundTrip` | src/kevent_client.ts:611-619 | Payloads the client encodes are received as they were sent, however the stream is cut and whatever unfinished frame follows |
| `KeventStreams.MatchedInOrder` | src/kevent_client.ts:700-704 | The k-th response resolves the k-th call that waits, and further ones nobody |
| `KeventStreams.MatchedAccounts` | src/kevent_client.ts:700-722 | The calls answered and those left are the calls that waited, in order |
| `KeventStreams.LineReader.ProcessFrameBuffer` | src/kevent_client.ts:528-540 | One piece of text: the lines it completes and the piece kept |
| `KeventStreams.LineDecisive` | src/kevent_client.ts:528-540 | The first newline decides a line for good |
| `KeventStreams.LinesAreSplit` | src/kevent_client.ts:528-540 | The lines are the text split at its newlines, the last piece being kept |
| `KeventStreams.UnhandledStops` | src/kevent_client.ts:528-540 | At the first line that cannot be handled the reader stops, with the lines before it handled and the text after it kept |
| `CommandStream.Stream.Receive` | src/executor_client.ts:176-195 | One message: the buffer kept, the requests settled by the frames in order, and on a bad or closing frame the stream closed and the rest rejected; how a frame settles a request is the next row's |
| `CommandStream.SettleMeans` | src/executor_client.ts:184-195 | A pending request is resolved exactly when the first of the frames handled that names it says it succeeded, rejected exactly when that one says it failed, and stays pending exactly when none names it |
| `CommandStream.SettledInOrder` | src/executor_client.ts:184-195 | Requests are settled in the order in which the frames that settle them came |
| `CommandStream.HaltsIff` | src/executor_client.ts:184-191 | The stream is closed by a control frame that is no JSON or says farewell, and by no other frame |
| `CommandStream.HeadIs` | src/executor_client.ts:179-183 | One byte of kind, four of length, most significant first; another kind or a length past 1 MiB is refused |
| `CommandStream.Stream.Request` | src/executor_client.ts:203-215 | A new number for every request, pending or rejected at once; nothing at all on a closed stream |
| `CommandStream.Stream.Fail` | src/executor_client.ts:196-201 | Every pending request is rejected, in order, once |
| `CommandStream.Stream.TimeOut` | src/executor_client.ts:207-210 | A request that times out is rejected and no longer pending |
| `CommandStream.SettleAccounts` | src/executor_client.ts:176-201 | Replies in any order keep every request either pending or settled, and settled once |
| `CommandStream.FrameDecisive` | src/executor_client.ts:179-183 | Kind and length decide a frame for good |
| `CommandStream.ControlRoundTrip` | src/executor_client.ts:123-131 | Control messages that were encoded arrive as they were, however the stream is cut |
| `CommandStream.WriteFrames` | src/executor_client.ts:243-260 | The data frames of a write are complete frames whose chunks are contiguous, 16384 bytes each but the last, and join to the content; an id of wrong length is refused |
| `CommandStream.ChunkFrameReads` | src/executor_client.ts:250-256 | A data frame reads back as its offset, operation id and bytes |
| `Nfsp.AtMostOnce` | src/nfsp.ts:1288-1303 | In every run, with any loss, repetition and reordering, no two writes of a session share a number and each takes effect at most once |
| `Nfsp.AnswersAreFinal` | src/nfsp.ts:1288-1303 | A write that returned has taken effect exactly once, one the server refused never has, and nothing later changes that |
| `Nfsp.PostsShareKey` | src/nfsp.ts:1288-1303 | One write sends at most its retries and one more, all under one session and number |
| `Nfsp.AtMostOnceIff` | src/nfsp.ts:1288-1311 | In every run, a write with a post on the network takes effect at most once, whatever the network does from then on, exactly when it was made in a session |
| `Nfsp.SessionlessTwice` | src/nfsp.ts:1305-1311 | In every run, every post without a session takes effect each time it arrives |
| `Nfsp.RunInv` | src/nfsp.ts:659-672 | The invariant of every run: keys given out once, posts carry their write's key, effects and answers agree with the replay table |
| `NfspAttempts.Attempts` | src/nfsp.ts:1288-1303 | In every run a write is sent once for every failure of the network and once more, within its retries, each time with its key; it fails exactly when every attempt it had was lost or one got an answer that is none |
| `NfspAttempts.ServedSettles` | src/nfsp.ts:1288-1303 | From every run: the attempt being made is on the network, and when it is served and answered the write is returned or refused as the server answered, having taken effect if the server did not know its key and did it |
| `Nfsp.NfspClient.DoWrite` | src/nfsp.ts:1288-1303 | The retry loop: one number, a key never used before in its session, only lost posts repeated, the last result returned |
| `Nfsp.UploadContent` | src/nfsp.ts:825-836 | Resuming from any prefix the server holds, when it returns the server holds the content, and when it fails still a prefix; every chunk goes to where the server says it stands, as large as the limit and the content allow; it fails exactly when the question for the offset or the last chunk does, and progress is reported after every other chunk |
| `Nonce.NoOverlap` | src/bns_tx_executor.ts:255-259 | Executions never overlap and start in the order they were enqueued, in every run |
| `Nonce.SignedIff` | src/bns_evm_tx.ts:242-275 | In every run, whoever else sends: the nonce being signed is behind the pending count by the number of other senders' transactions since the count was last read, so it is right exactly when there were none |
| `Nonce.AcceptedIff` | src/bns_evm_tx.ts:268-275 | In every run, whoever else sends: a transaction that arrives is accepted exactly when no other sender's came in since the count was last read, and refused otherwise |
| `Nonce.NoncesRightIff` | src/bns_evm_tx.ts:242-275 | In every run, whoever else sends: all signed nonces were right exactly when each was signed without such a transaction, and none is refused exactly when each arrived without one |
| `Nonce.NoncesConsecutive` | src/bns_evm_tx.ts:242-275 | An instance: with no other sender, whatever steps fail, every signed nonce is the pending count, no transaction is refused and the accepted nonces are consecutive |
| `Nonce.NextRefusedIff` | src/bns_evm_tx.ts:268-275 | From every idle state with a cached nonce, whatever others have sent, the next execution signs the cached nonce and is refused exactly when another sender's transaction came in since the count was read |
| `Nonce.OtherSenderBreaks` | src/bns_evm_tx.ts:268-275 | So from every such state one more transaction of another sender makes the next one be refused |
| `Nonce.RunChain` | src/bns_tx_executor.ts:255-259 | The promise chain: each execution waits for the one enqueued before it |
| `Nonce.FailureResets` | src/bns_tx_executor.ts:239-252 | In every run an execution that fails leaves no cached nonce, and one that succeeds leaves it one past what it signed |
| `Nonce.TxBuilder.AllocateNonce` | src/bns_evm_tx.ts:268-275 | The pending count, or less by what others have sent since it was cached; the cache one past it |
| `Nonce.TxBuilder.Execute` | src/bns_tx_executor.ts:239-252 | When it is prepared and can sign, the cached nonce, or the count fetched for want of one, is signed and submitted once; otherwise nothing is; what the submit answers is the result; however far the cached nonce was behind and however the execution ends, it is in step afterwards; being behind costs exactly one refused transaction |
| `Base64.BytesToBase64` | src/namelib.ts:56-68 | The loop computes the padded base64 text |
| `Base64.Base64ToBytes` | src/namelib.ts:70-89 | The loop computes the bytes of the text's base64 characters, left-over bits dropped |
| `Base64.GroupValue` | src/namelib.ts:56-68 | Three bytes and their four characters are one 24-bit number |
| `Base64.AlphabetIs` | src/namelib.ts:54-97 | The two alphabets |
| `Base64.EncodeGroups` | src/namelib.ts:56-68 | Encoding goes by groups of three bytes |
| `Base64.EncodeGroup` | src/namelib.ts:58-65 | A shorter last group is filled up with zero bits |
| `Base64.DecodeGroups` | src/namelib.ts:75-87 | Decoding goes by groups of four characters |
| `Base64.DecodeGroup` | src/namelib.ts:75-87 | Each group is one number; of a shorter last one the bits short of a byte are dropped, and a single left-over character |
| `Base64.OthersSkipped` | src/namelib.ts:71 | Characters outside the alphabet do not count, wherever they stand; the url decoder takes both alphabets |
| `Base64.Base64RoundTrip` | src/namelib.ts:56-89 | Decoding an encoding gives the bytes back |
| `Base64.EncodeUrlIs` | src/namelib.ts:91-93 | The url form is the same digits in the url alphabet without padding |
| `Base64.UrlRoundTrip` | src/namelib.ts:91-97 | Decoding a base64url encoding gives the bytes back, for all bytes |
| `Base64.UrlCanonicalIff` | src/namelib.ts:91-97 | The lenient decoder's result encodes back to the text exactly when the text is a canonical encoding |
| `Namelib.FallbackEncode` | src/namelib.ts:99-125 | The loop computes the UTF-8 bytes of the code points, lone surrogates included |
| `Namelib.FallbackDecode` | src/namelib.ts:127-150 | The loop computes the lenient decoding, or the RangeError of a number past U+10FFFF |
| `NameTexts.LenientIff` | src/namelib.ts:127-150 | What the fallback decoder makes of bytes, number after number |
| `NameTexts.LenientIs` | src/namelib.ts:131-147 | Each number: how many bytes it takes by its first one alone, and its bits, however the other bytes are marked; a byte past the end has none |
| `Namelib.FallbackRoundTrip` | src/namelib.ts:99-150 | Every UTF-16 string comes back from the fallback codec |
| `Namelib.AuthKeyIff` | src/namelib.ts:581-591 | A did:dev id gives a key exactly when it is the encoding of 32 bytes, and gives those |
| `NameTexts.AuthKeyIs` | src/namelib.ts:581-591 | No other DID method gives a key |
| `Namelib.AuthKeyShape` | src/namelib.ts:581-591 | Such ids are 43 characters of the url alphabet, the last with its unused bits zero |
| `Namelib.CutLines` | src/namelib.ts:213-216 | The loop cuts the text in lines of 64 |
| `Namelib.PemRoundTrip` | src/namelib.ts:203-218 | Bytes written as PEM read back |
| `NameTexts.PemText` | src/namelib.ts:211-218 | The file that is written: header, lines of 64 characters that make up the base64 text, footer |
| `NameTexts.PemReads` | src/namelib.ts:203-209 | Any PEM file, whatever its labels, line breaks and stray characters, is read as the bytes of its body |
| `Namelib.JwtSplits` | src/namelib.ts:334-339 | A signed token splits into its three parts, whatever they hold |
| `Namelib.JwtRoundTrip` | src/namelib.ts:334-376 | A signed token decodes to its header and payload and verifies whenever the verifier accepts what the signer made |
| `NameTexts.JwtPartIff` | src/namelib.ts:342-356 | Header and claims of any text of three parts, whoever made it; nothing of any other text |
| `NameTexts.VerifyIff` | src/namelib.ts:360-376 | Any token is accepted exactly when it has three parts, its header names the algorithm and the signature is right for the first two parts as they stand; its claims are the second part's |
| `Namelib.FallbackJwtRoundTrip` | src/namelib.ts:334-376 | With the fallback codec this holds for all texts, lone surrogates and a leading U+FEFF included |
| `Namelib.PlatformCodec` | src/namelib.ts:99-150 | With the platform's codec a well-formed text comes back exactly when it does not begin with U+FEFF |
| `AppFrame.FocusAgrees` | src/app-frame.ts:36-74 | In every run, once nothing is on its way to it, a client with an accepted init has the host's focus, both possibly unset, however many hellos, refused inits and reloads there were |
| `AppFrame.NothingBeforeInit` | src/app-frame.ts:153-190 | Neither side acts before its handshake is done, and the host sends nothing before a good hello |
| `AppFrame.SettledOnce` | src/app-frame.ts:78-86 | Each request of the host is settled at most once, and resolved only by the client's answer to it |
| `AppFrameRuns.HostAccounts` | src/app-frame.ts:36-67 | In every run what the client said is what the host heard and what is on its way, in order; the host is ready exactly when it heard a good hello, and acted on every act it heard, once, in order |
| `AppFrameRuns.AsksAccounted` | src/app-frame.ts:78-86 | In every run each request of the host is on its way, handled, answered or dropped, and one of these; it is dropped only where it reaches a client without an accepted init or is lost on a reload |
| `AppFrameRuns.ClientHandles` | src/app-frame.ts:163-188 | In every run a client with an accepted init handles each request that reaches it |
| `AppFrameRuns.RequestEnds` | src/app-frame.ts:50-86 | In every run each request made is pending, resolved or rejected: resolved exactly when an answer to it reached the host before its time-out, rejected exactly when its time-out came before an answer |
| `AppFrameRuns.HelloInits` | src/app-frame.ts:40-47 | From every run: a good hello that reaches the host brings the client, once what is on its way has arrived and if it accepts the init, to work and to the host's focus |
| `AppFrame.RunFocus` | src/app-frame.ts:36-74 | What is still on its way always ends in agreement, for the present client and for a new one |
| `AppFrame.AppFrameHost.Receive` | src/app-frame.ts:36-67 | Its whole effect: ready after a good hello with init and focus sent, replies matched to requests, nothing before |
| `AppFrame.AppFrameHost.ChangeFocus` | src/app-frame.ts:70-74 | Only a change is recorded and sent, and only when ready |
| `AppFrame.AppFrameClient.Receive` | src/app-frame.ts:163-188 | Its whole effect, and `onFocus` is called exactly when the focus changes |
| `VideoRatio.SizePassesIff` | src/aicc_client.ts:844-861 | For every ratio text that is accepted, a size passes exactly when its sides are in range and width times the ratio's height equals height times its width |
| `VideoRatio.AspectIff` | src/aicc_client.ts:826-830 | Which texts are ratios: one to three digits, a colon, one to three digits, both values in 1..100, zeros in front allowed |
| `VideoRatio.SizeErrorIs` | src/aicc_client.ts:844-861 | Which error a size meets first: a ratio that cannot be read, a side out of 16..8192, the proportion |
| `VideoRatio.ReducedIff` | src/aicc_client.ts:832-836 | Equal reduced ratios are the same as equal cross products |
| `VideoRatio.GcdDivides` | src/aicc_client.ts:833 | The recursion computes a common divisor that every common divisor divides |
| `VideoRatio.GcdScales` | src/aicc_client.ts:833 | Proportional pairs have proportional divisors |
| `VideoRatio.PrintedRatio` | src/aicc_client.ts:826-830 | Every ratio in range, printed, is accepted as itself |
| `VideoPrompt.ParseVideoPrompt` | src/aicc_client.ts:795-815 | The loop computes the segments, or the error of an unclosed or invalid reference |
| `VideoPrompt.WriteParses` | src/aicc_client.ts:795-815 | Segments in normal form, written with `@` doubled, parse back to themselves |
| `VideoPrompt.ParsedNormal` | src/aicc_client.ts:795-815 | Every parsed prompt is in normal form: no empty and no adjacent texts, valid ids |
| `VideoPrompt.PromptIff` | src/aicc_client.ts:795-815 | A prompt parses to segments exactly when they are in normal form and it reads as their characters and references: `@@` is an at sign, so is a lone one, `@{id}` is a reference |
| `VideoPrompt.PromptErrorIff` | src/aicc_client.ts:795-815 | It fails as not closed, or as badly named, exactly when it reads up to such a reference |
| `PackBuild.PackBuildFiles` | src/aiws_ext.ts:138-155 | Every file once, sorted by name and otherwise in the order given, the shortest front of the largest files uploaded, each sent by the id its upload gave; for distinct names the inline bytes are within the limit exactly when no upload gave an empty id; refused exactly when over the limit without an uploader, or when an upload that is needed fails; an uploader with empty ids only has everything sent inline |
| `PackBuild.FewestUploads` | src/aiws_ext.ts:143-147 | No choice of files that brings the total within the limit is smaller than what is uploaded |
| `PackBuild.FrontIsLargest` | src/aiws_ext.ts:143-147 | No equally long choice outweighs the front of the sorted list |
| `PackBuild.InlineIsRest` | src/aiws_ext.ts:148-153 | What is inline is exactly what was not uploaded |
| `PackBuild.WithinLimitIff` | src/aiws_ext.ts:143-153 | For distinct names and the shortest front, one empty id among the uploads breaks the limit whichever file it is, and nothing else does |
| `PackBuild.WithinLimit` | src/aiws_ext.ts:143-153 | When every upload gave an id the limit holds, equal names or not |
| `NotifyCommit.CommitNotifyAnswer` | src/msg_center_client.ts:1431-1465 | At most one commit takes effect and only on an open task without a result; committed means ours is the result, closed or given up means it had no effect; the calls made are refused rounds, three at most, and what the outcome says; an open task that nobody else changes is answered unless a call fails |
| `NotifyCommit.StoryTells` | src/msg_center_client.ts:1431-1465 | What each outcome tells of the calls, from a record of them: committed, that the last commit was taken; thrown, that a call failed, the last one; given up, that exactly three commits were made, each refused for its revision, and the task was in no final phase even then; already closed, that the last read gave this task, closed or after a commit refused because it was |
| `NotifyCommit.CommitsFollowReads` | src/msg_center_client.ts:1439-1450 | Every commit is made with the revision of an open task that was read just before it |
| `NotifyCommit.TaskManager.CommitResult` | src/msg_center_client.ts:1406-1410 | The task manager's contract: a commit takes effect only on an open task at the expected revision, and the answer may be lost |
| `NotifyCommit.HistoryKeeps` | src/msg_center_client.ts:1431-1465 | Over any history a result is never replaced and a closed task stays closed |
| `NotifyCommit.RevisionIdentifies` | src/msg_center_client.ts:1446-1450 | A commit that expects the revision it read acts on the very state it read |
| `ContentHandlers.MatchesIff` | src/content.ts:117-142 | A selector matches exactly when the content is not known to be too large, the object type, a schema and a media type pattern fit where stated, and one of these is stated or the extension fits; it scores 7 exactly when it also names the schema itself |
| `ContentHandlers.ScoreLevels` | src/content.ts:117-142 | What each level of a matching score takes: a stated schema 6, an exact media type 5, or 6 beside an object type, a suffix 4, a family 3, an object type 2 |
| `ContentHandlers.ExtensionIgnored` | src/content.ts:140 | Beside an object type, a schema or a media type the extension plays no part, match or not |
| `ContentHandlers.OncePerEligible` | src/content.ts:155-181 | Every eligible handler is listed once and nothing else is |
| `ContentHandlers.EnumerationForgotten` | src/content.ts:155-181 | The list does not depend on the order in which registry or defaults are enumerated |
| `ContentHandlers.PreviewPresent` | src/content.ts:158 | The preview is always listed |
| `ContentHandlers.DefaultFirst` | src/content.ts:171-173 | A matching default of the user comes first and alone has that reason |
| `ContentHandlers.PreferredIsBest` | src/content.ts:159-161 | The user's default is the best of those that match and name an eligible handler, and there is none only when no such exists |
| `ContentHandlers.NoWeakAppBeforePreview` | src/content.ts:173-175 | No app that matched only at specificity 1 precedes the preview unless the user chose it |
| `ContentHandlers.EarlierTotal` | src/content.ts:172-176 | The comparator is a strict total order on handlers with distinct keys; which one it is, is the next rows' |
| `ContentOrder.RankedOrder` | src/content.ts:172-176 | The order of the list after the user's default, by the registry's entries alone: system handlers and matches above the wildcard first; then specificity, priority, system before apps, registration, and the collation of the keys |
| `ContentOrder.UserDefaultIff` | src/content.ts:159-181 | A handler is listed as the user's default exactly when a default that matches names it and no other that matches and names a listed handler scores higher, or as high with a key collated before; it is then the first, and the others are listed as the system's or as ranked |
| `ContentOrder.ListedIff` | src/content.ts:162-170 | Exactly these are listed, each once: enabled handlers that open contents, are not disabled by the user and select the content, apps only if at hand and in the web; the built-in preview takes the place of any entry of its name and cannot be disabled |
| `ContentOrder.ListedShows` | src/content.ts:166-181 | Each is shown with the first of its best selectors and that one's score |
| `ContentOrder.CompactIs` | src/content.ts:143-154 | What a default's selector text says: the last part of each key counts, an empty value states nothing but an extension, and a part with any other key leaves no condition at all |
| `ContentOrder.PlainIff` | src/content.ts:126-130 | Media types are compared without parameters and white space |
| `ContentOrder.PatternForms` | src/content.ts:131-132 | `family/*+suffix` and `family/*` take exactly the types that begin and end so |
| `ContentOrder.SchemaForms` | src/content.ts:120-124 | A schema pattern with a star at its end takes every schema that begins so, any other just itself |
| `ContentHandlers.MatchedIsBest` | src/content.ts:166-169 | A handler is listed with a selector of its highest specificity |
| `ContentHandlers.PreviewEligible` | src/content.ts:117-142 | The preview's selector matches every content, at specificity 1 |
| `ConfigCache.SystemConfigClient.Get` | src/system_config_client.ts:94-120 | Result and cache for every answer, refusals included; the server is asked exactly when no usable entry is there, and once; a value is one the server held between asking and answering, asked for after this client's last successful write of the key, its answer came no more than ten clock seconds ago and the value is no older than ten seconds and that answer's delay; `is_changed` says whether the server was asked |
| `ConfigCache.SystemConfigClient.GetConfigCache` | src/system_config_client.ts:59-71 | A usable entry or nothing, an entry too old being dropped |
| `ConfigCache.SystemConfigClient.SetConfigCache` | src/system_config_client.ts:73-88 | The entry is stored for cached prefixes only; whether it differs from the one before |
| `ConfigCache.SystemConfigClient.WriteKey` | src/system_config_client.ts:135-163 | A successful write drops the entry, a failed one leaves it |
| `ConfigCache.SystemConfigClient.Set` | src/system_config_client.ts:122-133 | An empty key or value or a colon is refused without a call; otherwise one write is made, its answer is the result, and success drops the entry |
| `ConfigCache.SystemConfigClient.ExecTx` | src/system_config_client.ts:169-179 | One write is made; when it succeeds the entries of exactly the transaction's keys are dropped |
| `ConfigCache.TenSecondsIff` | src/system_config_client.ts:59-120 | After a `get` asked at one time and answered at another, later calls of `get` serve no value from more than ten clock seconds ago, wherever between the two the server was read, exactly when both times are in one clock second |
| `ConfigCache.OldAfterWriteIff` | src/system_config_client.ts:73-133 | With overlapping calls, in every run: after this client's write of a cached key has succeeded, `get` can serve from its cache a value asked for before the write exactly when a `get` of the key was under way when the write returned |
| `ConfigCache.AloneIsGet` | src/system_config_client.ts:94-120 | A call that nothing overlaps does to the cache, step by step, what `get` is stated to do |
| `Sorting.SortForgetsOrder` | src/content.ts:172-176 | Sorting under a strict total order does not depend on the order of the input |
| `Sorting.SortStable` | src/aiws_ext.ts:154 | Whatever elements the comparator does not part are in the same order after the sort |
| `JsText.SortedKeysForgetOrder` | src/object_url.ts:283-292 | Sorted object keys do not depend on the order in which they were added |
| `JsText.SplitJoin` | src/kevent_client.ts:528-540 | Splitting joined parts gives the parts back |

## Left out

- NdmSession: the session's fields are one value that each step replaces, since the claims are about interleavings; progress callbacks, warnings, endpoint and token handling, thumbnails and the tus transfer itself are left out.
- BuildDirTree: the descent for one path is a recursion over the directories it changes rather than a loop with a moving reference; object ids and relative paths of directories are not computed.
- Parse: web URLs go through `new URL`, which is a parameter, and the round trip is not claimed for them; lower-casing and object-id syntax are parameters.
- ParsedQuery: a query key `__proto__`, which JavaScript objects treat specially, is taken as any other key.
- ParseFile: the code drops a fragment, and an empty query, after a file or cyfs URL without an error; the model follows the code.
- CanonicalText: the printing and reading of numbers is a parameter; cycles and values JSON cannot hold are not modelled.
- Reader: calls of one reader follow one another, as the parsers make them; offsets and lengths are whole numbers, and sums past 2^53 are exact rather than rounded (such reads stop either way).
- ReadChildren: from an unreliable source only what it returns is stated, not that it does.
- TIFF directories, EXIF, PNG, RIFF and ID3 parsing, text in UTF-16, codec names and dates of the media probe.
- AsyncEventQueue: values that are themselves null are not modelled; a timer is a step that may happen at any time.
- NativeConnection: claims are for one connection, since the buffer survives a reconnect; the serial chain of calls and reconnecting are left out.
- Stream: replies name requests by number rather than by the text `q` followed by it; tickets, login, operation locators and the SHA-256 of an upload are left out.
- LineReader: text decoding of the byte stream happens before it; acknowledgement frames and event validation are left out.
- DoWrite: tokens, HTTP status and the content of answers are left out; the server's replay table is assumed never to forget within a session.
- UploadContent: the server takes at least one byte of every accepted chunk, what it holds is a prefix of the content, and the chunk size is positive.
- Execute: choice of route, encoding and the cryptography of a transaction are left out; a submit that returns has put the transaction in the pool, and one that throws has done so already or never will.
- Documents, DIDs and owner-zone setters of the name library, Ed25519 itself, and host names.
- AppFrameHost: the target window exists; origin and payload checks are a flag on the message, and a result of the wrong type counts as one to no request; titles, themes, the rate limit of open requests and the preview embed are left out.
- CheckSize: only the width and height form of a size; the other fields of a video request, and the answers of decision calls, are separate checks.
- PackBuildFiles: `upload` is a function of name and bytes; component manifests, digests and source keys are left out.
- CommitNotifyAnswer: the task manager's own rules are its contract; building prompts and results, and waiting for a notification, are left out.
- ResolveContentHandlers: collation is a strict total order of keys; priorities and registration times are whole numbers; permissions, icons and session encoding are left out.
- Get: calls of the class do not overlap, and of overlapping ones only what they do to a write's key is stated (`OldAfterWriteIff`); `list`, scheduler dumps and key refreshes touch no cache and are left out.
- RPC wrappers, login and SSO pages, bucket and queue clients, CLI launchers and type declarations: no claim of their own.
