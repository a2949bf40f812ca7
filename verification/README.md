# wsServer static assets, modelled in Dafny

wsServer serves a few static files over plain HTTP on the same listener that accepts
WebSocket upgrades. The work is split in two halves:

- `dir2statics` is a build-time tool. It scans a directory and keeps the files whose
  extension it knows. It sorts their names and gives each one an `Etag` (the uppercase hex
  SHA-1 of the file) and a MIME type. It then writes a C header holding the asset table:
  URLs, header lines, gzip-compressed contents and sizes.
- The runtime resolver in `src/statics.h` handles a connection's first request. If the
  request carries no `Sec-WebSocket-Key`, it serves the request from that table. It:
  - splits the request line;
  - resolves "/" once to a concrete page, the root alias;
  - strips the query and looks the path up;
  - answers 304 when `If-None-Match` names the asset's tag;
  - otherwise answers 200, 400, 404 or 405 with a header of fewer than 512 bytes.

  `include/statics.h` is the older revision of the resolver. It has no root alias and no
  304 answer, and it uses a fixed header format.

The model has eight modules, one per file:

| file | module | models |
|---|---|---|
| `wrappers.dfy` | `Wrappers` | `Option` |
| `cstrings.dfy` | `CStrings` | the C string functions used: NUL-terminated reading, `strstr`/`strcasestr`, `strchr`, `strrchr`, `strcmp`, `strcasecmp`, decimal printing |
| `dir2statics.dfy` | `Dir2Statics` | `extra/dir2statics/dir2statics.c` |
| `statics_common.dfy` | `StaticsCommon` | what both resolver revisions contain verbatim: the table record, the default table, `strstricase_local`, `looks_like_ws_upgrade`, `http_reason_phrase`, the lookup loop and the handshake dispatch |
| `statics.dfy` | `Statics` | `src/statics.h` |
| `statics_v1.dfy` | `StaticsV1` | `include/statics.h` |
| `revisions.dfy` | `Revisions` | the newer resolver against the older one |
| `pipeline.dfy` | `Pipeline` | a compiled table served by the newer resolver |

Modelling conventions:

- **Text.** Text is `seq<char>` with one character per C byte. File contents and digests
  are `seq<byte>`.
- **Pure code.** Pure C code becomes functions, such as the MIME chain, the reason phrase,
  `ends_with` and `get_content_between`.
- **In-place writes.** Code that writes into a buffer becomes a method over an
  `array<char>`. Examples are the NULs the request parser writes, the `CustomHeader`
  struct with its in-place hex expansion, and `ident_from_filename`. Each method is proved
  equal to the function that specifies it.
- **Process-wide state.** `g_assets`, `found_root_alias` and `static_root_alias` are the
  fields of a `StaticServer` class, with one class per revision.
- **Outcome of a call.** A response is a `Sent` value, either the header text and body
  bytes that would go out, or `Overflow` when the header does not fit. A request's outcome
  is a `Reply`, its status plus what was sent. The outcome of `do_handshake` is a
  `Handshake`.

Shared code is written once. `strstricase_local`, `looks_like_ws_upgrade`,
`http_reason_phrase`, the table registry and the dispatch at the head of `do_handshake`
are character-for-character the same in both revisions, so they are defined once in
`StaticsCommon`. The rows below cite the newer file. The older copies are at:

- `include/statics.h:56-74` (`strstricase_local`);
- `include/statics.h:77-80` (`looks_like_ws_upgrade`);
- `include/statics.h:82-92` (`http_reason_phrase`);
- `include/statics.h:24-51` (the default table and registry);
- `include/statics.h:210-268` (`do_handshake`).

Where the code and the design description of the system disagree, the model follows the
code:

- **Order of aliasing and query stripping.** The description strips the query before
  substituting the root alias. The code substitutes first, so `/?x` is looked up as the
  literal `/` (`Statics.RootWithQueryIsLiteral`).
- **Truncation of the alias.** The description says the alias is copied verbatim. The code
  copies it into a 256-byte buffer, so it is cut to 255 bytes.
- **Request-line parsing.** The description says the newer parser needs two spaces. It
  also needs a line feed after the second space.
- **Reason phrase for 304.** The description gives 304 the reason "Not Modified". The code
  sends 304 with reason `OK` (`StaticsCommon.ReasonPhraseCases`).
- **Etag spelling.** The description spells the header `ETag` with 40 lowercase-invariant
  hex digits. The compiler writes `Etag:` with uppercase digits. The resolver finds the tag
  case-insensitively.
- **Compression failure.** The description says a compression failure aborts the compiler.
  The code ignores `emit_u8_gz_array`'s result.

## Model

| member | source | states |
|---|---|---|
| CStrings.CStr | src/statics.h:151-174 | the string a NUL-terminated buffer holds: the longest NUL-free prefix, stopped by a NUL when shorter than the buffer |
| CStrings.Find | src/statics.h:290 | `strstr`/`strcasestr`: a result exactly when the needle occurs somewhere, and then it is the first occurrence |
| CStrings.FindFrom | src/statics.h:187 | search from a start position: the first occurrence at or after it, or none at or after it |
| CStrings.IndexOfFrom | src/statics.h:153-164 | `strchr` from a position: the first index at or after it holding the character, or none |
| CStrings.LastIndexOf | extra/dir2statics/dir2statics.c:88 | `strrchr`: the index of the character with none after it, or none at all |
| CStrings.StrChr | src/statics.h:271 | the scanning loop equals `IndexOfFrom` on the string the buffer holds |
| CStrings.Terminate | src/statics.h:155 | writing a NUL changes exactly that one cell |
| CStrings.StrCmp | extra/dir2statics/dir2statics.c:79-84 | `strcmp`'s sign: zero exactly when equal |
| CStrings.StrCmpAntisymmetric | extra/dir2statics/dir2statics.c:79-84 | swapping the arguments negates the comparison |
| CStrings.StrCmpTransitive | extra/dir2statics/dir2statics.c:309 | the order `qsort` sorts by is transitive |
| CStrings.Decimal | src/statics.h:134 | `%d`/`%u` text: non-empty digits, with no leading zero unless the value is 0 |
| CStrings.DecimalRoundTrip | src/statics.h:134 | reading the printed digits back gives the number |
| CStrings.DecimalOfU32 | src/statics.h:134 | a 32-bit `Content-Length` prints in at most 10 digits |
| CStrings.DecimalOfCode | src/statics.h:131 | a three-digit status code prints in 3 characters |
| Dir2Statics.ContentTypeFor | extra/dir2statics/dir2statics.c:86-121 | a type only for a name with a dot after its first character, and always one of the listed MIME types of at most 31 characters |
| Dir2Statics.ContentTypeByTable | extra/dir2statics/dir2statics.c:93-120 | the if-chain equals a lookup of the lower-cased suffix from the last dot in the extension table |
| Dir2Statics.StrCaseChain | extra/dir2statics/dir2statics.c:93-118 | each `strcasecmp` test holds exactly when the lower-cased suffix equals that extension |
| Dir2Statics.ContentTypeIgnoresCase | extra/dir2statics/dir2statics.c:93-118 | lower-casing a name does not change its type |
| Dir2Statics.AcceptedNames | extra/dir2statics/dir2statics.c:284-306 | a name is collected exactly when some regular, typed entry other than `.` and `..` has it |
| Dir2Statics.CollectNames | extra/dir2statics/dir2statics.c:284-306 | the `readdir` loop collects `AcceptedNames`, all typed and none `.` or `..` |
| Dir2Statics.SortNamesCorrect | extra/dir2statics/dir2statics.c:309 | the sort's result is in ascending `strcmp` order and a permutation of its input |
| Dir2Statics.SortedPermutationUnique | extra/dir2statics/dir2statics.c:309 | two sorted permutations of one list are equal, so any correct `qsort` gives this order |
| Dir2Statics.IdentFromFilename | extra/dir2statics/dir2statics.c:124-142 | the identifier is alphanumerics and `_`, shorter than the buffer, maps character i of the name, has length min(len, size-2), is never empty for size ≥ 5, and is `file` cut to the buffer when nothing is kept or the buffer is under 3 |
| Dir2Statics.WriteIdent | extra/dir2statics/dir2statics.c:124-142 | the loop leaves in `out` the C string `IdentFromFilename` |
| Dir2Statics.HexEncodeTable | extra/dir2statics/dir2statics.c:240 | the `hexEncode` table maps each nibble to its uppercase digit |
| Dir2Statics.HexUpperDigits | extra/dir2statics/dir2statics.c:381-384 | characters 2i and 2i+1 are byte i's high then low nibble |
| Dir2Statics.HexUpperRoundTrip | extra/dir2statics/dir2statics.c:381-384 | decoding the 40 hex characters gives back the digest |
| Dir2Statics.HexUpperIsPlain | extra/dir2statics/dir2statics.c:240 | every character is an uppercase hex digit |
| Dir2Statics.PutString | extra/dir2statics/dir2statics.c:254-259 | `sprintf` into a field writes the text and a NUL and nothing else |
| Dir2Statics.InitFixedFields | extra/dir2statics/dir2statics.c:241-259 | the fixed 8, 6, 26 and 14-byte fields hold their escaped text, and the hex and type fields are untouched |
| Dir2Statics.StoreDigest | extra/dir2statics/dir2statics.c:376-378 | the digest fills `hash` (offsets 20 to 39) and nothing else |
| Dir2Statics.ExpandHexInPlace | extra/dir2statics/dir2statics.c:379-384 | the in-place loop leaves offsets 0 to 39 equal to the out-of-place uppercase hex of the digest it overwrites, and the rest unchanged |
| Dir2Statics.ContentTypeFits | extra/dir2statics/dir2statics.c:250-385 | every listed type plus the escaped CR LF fits the 64-byte field untruncated |
| Dir2Statics.SetContentType | extra/dir2statics/dir2statics.c:385 | `snprintf` writes the truncated type text and its NUL and leaves earlier fields alone |
| Dir2Statics.StructReadsAsHeader | extra/dir2statics/dir2statics.c:241-388 | the struct, read as one C string, is `Etag: \"<hex>\"\r\n…Content-Type: <mime>\r\n` |
| Dir2Statics.FillCustomHeader | extra/dir2statics/dir2statics.c:376-388 | after digest, hex expansion and type, the struct reads as that header text and the fixed fields are kept |
| Dir2Statics.BuildHeaderBlocks | extra/dir2statics/dir2statics.c:352-388 | entry i's header text is built from digest i and name i's type |
| Dir2Statics.MimeTypesArePlain | extra/dir2statics/dir2statics.c:93-118 | no listed type holds NUL, backslash or quote |
| Dir2Statics.HeaderLiteralValue | extra/dir2statics/dir2statics.c:254-385 | the emitted C literal's escapes decode to `Etag: "<hex>"` CR LF, `Content-Encoding: gzip` CR LF, `Content-Type: <mime>` CR LF |
| Dir2Statics.UrlPrefix | extra/dir2statics/dir2statics.c:266-269 | the prefix is the argument, or "/" when it is missing or empty |
| Dir2Statics.EmitUrlTable | extra/dir2statics/dir2statics.c:344-347 | the loop writes the URL table text, one quoted line per name with commas between |
| Dir2Statics.UrlLinesRoundTrip | extra/dir2statics/dir2statics.c:344-347 | the text between the quotes of that output is exactly prefix + name, in order |
| Dir2Statics.UrlLiteralValues | extra/dir2statics/dir2statics.c:344-347 | without quotes or backslashes in prefix and names, the C value of literal k is prefix + name k |
| Dir2Statics.EmitU8Array | extra/dir2statics/dir2statics.c:172-184 | the output is the declaration then the byte list, and the return is the size |
| Dir2Statics.EmitBytes | extra/dir2statics/dir2statics.c:175-180 | the loop writes a token per byte, `, ` between them, and an offset comment before every 16th |
| Dir2Statics.ArrayBodyRoundTrip | extra/dir2statics/dir2statics.c:174-182 | reading the `0x..` tokens back gives exactly the data |
| Dir2Statics.HexUpperNumber | extra/dir2statics/dir2statics.c:177 | the `%X` offset text is non-empty uppercase hex |
| Dir2Statics.HexUpper4 | extra/dir2statics/dir2statics.c:177 | the `%04X` text is uppercase hex of at least 4 digits |
| Dir2Statics.HexUpperNumberRoundTrip | extra/dir2statics/dir2statics.c:177 | reading the `%X` text as hex gives back the number |
| Dir2Statics.HexUpper4RoundTrip | extra/dir2statics/dir2statics.c:177 | reading the zero-padded `%04X` text as hex gives back the offset |
| Dir2Statics.ArrayName | extra/dir2statics/dir2statics.c:390-391 | `ws_static_<ident>` fits the 600-byte name buffer |
| StaticsCommon.DefaultTable | src/statics.h:25-37 | the default table is one HTML page at "/" whose size is its length |
| StaticsCommon.LookupUrl | src/statics.h:280-284 | the first index whose URL is present and equal to the key, or -1 exactly when none is |
| StaticsCommon.LookupKey | src/statics.h:271-275 | the key is a prefix of the path, at most 511 bytes, without `?`, and whole unless cut at a `?` or at 511 |
| StaticsCommon.LookupKeyOfPlain | src/statics.h:271-275 | a short path without `?` is its own key |
| StaticsCommon.CopyKey | src/statics.h:271-275 | copying into `tmp` yields `LookupKey` |
| StaticsCommon.FindUrl | src/statics.h:280-284 | the scan yields `LookupUrl` |
| StaticsCommon.StrStrICase | src/statics.h:58-76 | the nested loop returns the first case-insensitive match (the start for an empty needle), or none |
| StaticsCommon.LooksLikeWsUpgrade | src/statics.h:79-82 | true exactly when `Sec-WebSocket-Key` occurs in any case |
| StaticsCommon.ReasonPhraseCases | src/statics.h:84-94 | the phrase is other than `OK` exactly for 400, 404 and 405, so 304 says `OK` |
| StaticsCommon.NulsWrittenSuccess | src/statics.h:153-159 | on two spaces the parser's writes are NULs at exactly those two spaces |
| StaticsCommon.MethodAndPath | src/statics.h:167-168 | after those writes the method and path read as the text before and between the spaces |
| StaticsCommon.WithoutBody | src/statics.h:339-343 | a body-less reply keeps status and header and sends no body |
| StaticsCommon.HandshakeResult | src/statics.h:349-407 | `do_handshake` returns 0 exactly when the connection was opened |
| StaticsCommon.DispatchCases | src/statics.h:362-406 | 0 exactly for a complete head with the key that the handshake accepts; no head end gives 400; no key gives static serving; a refused handshake gives 400 |
| StaticsCommon.DispatchServes | src/statics.h:371-376 | a complete request without the key is served as static content |
| StaticsCommon.DispatchResumesAfterHead | src/statics.h:362-385 | `cur_pos` is 4 past the first `\r\n\r\n` |
| Statics.ContentBetween | src/statics.h:178-194 | the result starts just past the first case-insensitive `start_term`; its size reaches the first `end_term` at or after that point; none exactly when either is missing |
| Statics.EndsWithMeansSuffix | src/statics.h:197-211 | `ends_with` holds exactly when the string is something followed by the suffix |
| Statics.FieldProbe | src/statics.h:106-127 | probing the lines for a field name finds something exactly when that field occurs |
| Statics.CustomBlockCases | src/statics.h:106-127 | lines with `etag:` or `Cache-Control:` are kept verbatim; other lines get `Cache-Control: no-cache` first; a bare type is wrapped as a Content-Type line; the block ends in CR LF |
| Statics.SendResponse | src/statics.h:99-149 | overflow exactly when the header is 512 bytes or more; otherwise that header text, then the body exactly when one is given and its length is non-zero |
| Statics.BodyDoesNotShapeHeader | src/statics.h:130-146 | with or without a body the same header is sent or refused alike |
| Statics.ErrorReply | src/statics.h:292-293 | a refusal carries its status and, when sent, its text as the body |
| Statics.ParseRequestLineSound | src/statics.h:151-174 | an accepted line is method, space, path, space, version, newline, headers, with no space in method or path |
| Statics.ParseRequestLineComplete | src/statics.h:151-174 | every such text parses back to its own method, path and headers |
| Statics.ParseRequestLineInPlace | src/statics.h:151-174 | the buffer gets its NULs (one at the first space even on failure), and the results read back exactly the parsed line |
| Statics.RequestKeyCases | src/statics.h:265-275 | an empty path or "/" looks up the alias's key; any other path looks up its own key |
| Statics.RootWithQueryIsLiteral | src/statics.h:267-272 | `/?query` is looked up as the literal "/" |
| Statics.RootEntryWins | src/statics.h:232-241 | the first `/index.html` or "/" entry becomes the alias |
| Statics.SingleHtmlEntryWins | src/statics.h:242-252 | without such an entry, a single `.html` URL becomes the alias |
| Statics.AmbiguousHtmlKeepsAlias | src/statics.h:249 | two or more `.html` URLs leave `/index.html` in place |
| Statics.NoCandidateKeepsAlias | src/statics.h:249 | no candidate leaves `/index.html` in place |
| Statics.AliasKeptOnceSet | src/statics.h:221 | an alias other than `/index.html` is never replaced |
| Statics.ScanRootAlias | src/statics.h:230-252 | the counting loop yields the chosen alias |
| Statics.BuildLookupKey | src/statics.h:265-275 | the copy into `tmp` yields `RequestKey` |
| Statics.EtagToken | src/statics.h:326-329 | a tag is 40 characters following the first `etag: "` and closed by a quote |
| Statics.NotModifiedSound | src/statics.h:324-335 | a 304 needs the asset's tag and the tag within 5 characters of the first `if-none-match:` |
| Statics.NotModifiedComplete | src/statics.h:324-335 | those conditions give a 304 |
| Statics.CheckNotModified | src/statics.h:324-332 | the check computes `NotModified` |
| Statics.ServeAsset | src/statics.h:324-345 | the found-asset branch computes `AssetReply` |
| Statics.StatusLadder | src/statics.h:287-345 | 400 exactly when the head end or request line is missing; 405 exactly for other methods; 404 exactly when no URL matches; otherwise 200 or 304 |
| Statics.FoundAssetReply | src/statics.h:324-345 | 304 exactly on a tag match; sent exactly when the header fits; the header states the asset's size; GET 200 sends the content and HEAD or 304 sends none |
| Statics.HeadIsGetWithoutBody | src/statics.h:339-345 | HEAD gets GET's status and header with no body |
| Statics.OtherMethodsRefused | src/statics.h:309-314 | any other method on a complete request gets 405 |
| Statics.AfterLookup | src/statics.h:256-285 | a lookup leaves the alias flag set and the registry holding the active table |
| Statics.StaticServer.constructor | src/statics.h:25-40 | the default table, the alias `/index.html`, alias not yet sought |
| Statics.StaticServer.SetStaticAssets | src/statics.h:42-44 | the registry becomes the given table, alias untouched |
| Statics.StaticServer.GetStaticAssets | src/statics.h:46-53 | the registered table, or the default one, which is then registered |
| Statics.StaticServer.FindRootAlias | src/statics.h:213-253 | runs once; acts only while the alias is `/index.html`; sets it per `AliasAfterFirstHit` |
| Statics.StaticServer.StaticFindPath | src/statics.h:256-285 | the first URL equal to the request's key under the alias, after resolving the alias |
| Statics.StaticServer.ServeStaticHttp | src/statics.h:287-346 | the reply is `ServeSpec` of the buffer; the buffer gets the parser's NULs when the head is complete |
| Statics.StaticServer.ServeParsed | src/statics.h:309-345 | the reply after parsing is `ServeLine` |
| Statics.StaticServer.DoHandshake | src/statics.h:349-407 | the outcome is `HandshakeSpec`; nothing changes unless static content is served; when it is, the buffer holds the parser's NULs and the state is `AfterLookup` if the request reached the lookup, else unchanged |
| StaticsV1.ResponseHeadLength | include/statics.h:102-109 | the header's length is 92 plus its variable parts |
| StaticsV1.SendResponse | include/statics.h:94-122 | overflow exactly when the fixed-format header is 512 bytes or more; a missing type is `text/plain; charset=utf-8`; the body is sent exactly when given and non-empty |
| StaticsV1.TypeLengthDecidesFit | include/statics.h:102-112 | types up to 388 bytes always fit, and from 416 bytes never do |
| StaticsV1.ErrorReply | include/statics.h:169-170 | a refusal carries its status and its text as the body |
| StaticsV1.RefusalsAreSent | include/statics.h:164-198 | every refusal's header fits |
| StaticsV1.ParseRequestLineSound | include/statics.h:124-137 | an accepted line is method, space, path, space, rest, with no space in method or path |
| StaticsV1.ParseRequestLineComplete | include/statics.h:124-137 | every such text parses back to its method and path |
| StaticsV1.ParseRequestLineInPlace | include/statics.h:124-137 | the buffer gets its NULs and the results read back the parsed line |
| StaticsV1.StatusLadder | include/statics.h:164-207 | 400/400/405/404 as in the newer revision, otherwise 200, never 304 |
| StaticsV1.FoundAssetReply | include/statics.h:200-206 | 200; sent exactly when the header fits; GET sends the content and HEAD none |
| StaticsV1.HeadIsGetWithoutBody | include/statics.h:200-206 | HEAD gets GET's status and header with no body |
| StaticsV1.OtherMethodsRefused | include/statics.h:185-190 | any other method gets 405 |
| StaticsV1.StaticServer.constructor | include/statics.h:24-38 | the default table is registered |
| StaticsV1.StaticServer.SetStaticAssets | include/statics.h:40-42 | the registry becomes the given table |
| StaticsV1.StaticServer.GetStaticAssets | include/statics.h:44-51 | the registered table, or the default one, which is then registered |
| StaticsV1.StaticServer.StaticFindPath | include/statics.h:139-162 | the first URL equal to the path's key, with "/" looked up literally |
| StaticsV1.StaticServer.ServeStaticHttp | include/statics.h:164-207 | the reply is `ServeSpec` of the buffer |
| StaticsV1.StaticServer.ServeParsed | include/statics.h:185-206 | the reply after parsing is `ServeLine` |
| StaticsV1.StaticServer.DoHandshake | include/statics.h:210-268 | the outcome is `HandshakeSpec`; nothing changes unless static content is served; when it is, the buffer holds the parser's NULs and the registry holds the active table if the request reached the lookup |
| Revisions.ParseAgreement | src/statics.h:151-174 | the newer parser accepts what the older one accepts that also has a line feed after the second space, with the same method and path |
| Revisions.KeyAgreement | src/statics.h:265-275 | under alias "/", and for paths other than "" and "/", both revisions look up the same key |
| Revisions.BareTypeSentAlike | src/statics.h:99-149 | for a bare type, both send headers of equal length, fit alike, and send the same body |
| Revisions.ErrorRepliesAlike | src/statics.h:287-322 | refusals have the same status and are sent alike with the same body |
| Revisions.LinesEndOldHeadEarly | include/statics.h:102-109 | CR LF-ended header lines given to the older revision end its head before `Content-Length` |
| Revisions.SameAnswers | src/statics.h:287-346 | on a bare-type table, where the alias cannot matter, the newer revision answers as the older one except that it may turn a 200 into a 304 |
| Pipeline.CompiledAsset | extra/dir2statics/dir2statics.c:344-434 | a compiled entry is well formed: size is content length, no NUL in URL or header |
| Pipeline.Compiled | extra/dir2statics/dir2statics.c:344-434 | the compiled table has an entry per name and is well formed |
| Pipeline.CompileTable | extra/dir2statics/dir2statics.c:284-434 | collecting, sorting, URLs, header structs and decoded literals together give `Compiled`; each URL is the C value of its `static_urls` literal |
| Pipeline.EachUrlFindsItsAsset | src/statics.h:280-284 | with distinct names, looking up prefix + name i finds entry i |
| Pipeline.CompiledNamesDistinct | extra/dir2statics/dir2statics.c:284-309 | distinct directory names stay distinct after filtering and sorting |
| Pipeline.TagOfCompiledHeader | src/statics.h:326-327 | the resolver reads back the compiler's 40-digit tag |
| Pipeline.CompiledBlockVerbatim | src/statics.h:106-127 | compiled header lines are sent verbatim |
| Pipeline.CompiledHeaderFits | src/statics.h:130-139 | a 200 or 304 header for a compiled entry always fits 512 bytes |
| Pipeline.NamingTheTagIsNotModified | src/statics.h:324-335 | `If-None-Match: "<tag>` gets 304 for a compiled entry |
| Pipeline.CompiledAssetServed | src/statics.h:287-346 | GET of a compiled URL answers 304 exactly when not modified, else 200, with the compiled header and the content on 200 |
| Pipeline.OldResolverEndsCompiledHeadEarly | include/statics.h:102-109 | compiled header lines served by the older revision end its head before `Content-Length` |

## Left out

- SHA-1 (RFC 3174) is not modelled. Each digest is an input of 20 bytes, which the code
  takes over the uncompressed file.
- gzip compression through zlib (`emit_u8_gz_array`) is not modelled. Each compressed
  content is an input.
- The emitted array text of a compressed file is not modelled. `EmitU8Array` covers the
  uncompressed variant.
- The filesystem is not modelled: `opendir`, `readdir`, `stat`, `fopen` and `fread`. The
  directory is a sequence of (name, is-regular) entries.
- The two skip branches (path too long, unreadable file) are not modelled. They leave
  an entry without arrays, and `CompileTable` assumes every file was read.
- `Pipeline.CompileTable` does not describe a prefix or a name holding a quote or a backslash.
  The code prints them into the literal unescaped: a quote ends the literal early and a
  backslash starts an escape, so the URL the C compiler sees differs from the name.
  `Pipeline.CompilerInputs` excludes them, and `UrlLinesRoundTrip` still gives the raw text.
- `Pipeline.CompileTable` does not describe two names whose identifiers collide (`a-b.js`
  and `a_b.js` both give `ws_static_a_b_js`). The generated file would define that array
  twice and not compile. `Pipeline.CompilerInputs` requires distinct identifiers.
- `Pipeline.CompileTable` takes `sizeof` of each emitted array as the content length. The
  text of the size and content tables is not modelled.
- The fixed prelude and epilogue text of the generated header and of
  `initEmbeddedAssets` is constant output and is not modelled.
- `malloc`/`realloc` growth and their failure are not modelled; the arrays are sequences
  that grow by append.
- `qsort`'s own algorithm is not modelled. The model sorts by insertion.
  `SortedPermutationUnique` shows that any correct sort gives the same order.
- `CStrings.StrCmp` returns only the sign of `strcmp`, not its magnitude. Only the sign
  matters to `qsort`.
- `CStrings.StrChr` reads the string as it was before the parser's first NUL write. The
  search starts past that position, so the result is the same.
- Sockets are not modelled. `RECV` is the given buffer, and a `SEND` failure (a -1 after
  a header that fit) is not modelled.
- The WebSocket handshake collaborators are not modelled. The verdict of
  `get_handshake_response` is the boolean `accepted`, and its response text,
  `set_client_state` and `onopen` are outside the model.
- Concurrent callers and races on the global state are not modelled. The model has one
  sequential caller.
- `printf` logging is not modelled.
- `__DATE__ " " __TIME__` in the default page is not modelled; it is the `built`
  parameter.
- `isalnum` and `strcasecmp` are modelled for the ASCII "C" locale only.
