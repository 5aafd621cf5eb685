# php-imap message body walker, modelled in Dafny

This project models the core of the `php-imap` library (acucchieri/php-imap):

- **The MIME body walker of `AC\Imap\Message`.** `parseBody` and `parsePart` walk the structure tree the IMAP server reports for one message (`imap_fetchstructure`). The walk is depth-first and left to right. It computes a section address for each leaf: top-level part `k` at `k`, child `j` of a part at `N` at `N.j`, except that the children of an inline MESSAGE/RFC822 part are walked at that part's own address ("transparent" descent). The model states the addresses the code computes. They agree with the part numbering of section 6.4.5 of RFC 3501 only in some layouts. One of them is an inline forwarded multipart message. They do not agree for an inline forwarded single-part message: its body is fetched at `N`, while RFC 3501 numbers it `N.1`. Nor do they agree for the leaves of a forwarded multipart message whose disposition is `attachment`: they are fetched at `N.1.k`, while RFC 3501 numbers them `N.k`. For each leaf it:
  - merges the leaf's `parameters` and `dparameters` into one lower-cased map;
  - fetches the leaf's data, with `imap_fetchbody`, or `imap_body` when there is no section;
  - undoes the transfer encoding;
  - converts the charset of TEXT leaves;
  - routes the leaf into the `plain` body, the `html` body or the attachment list.
- **The parse-once latch.** `getBodyPlain`, `getBodyHtml` and `getAttachments` parse at most once; `isBodyParsed` is the latch.
- **`getSubject` and `mimeDecode`**, which concatenate the `text` of each element `imap_mime_header_decode` returns.
- **The `isMarkAs*` header-flag predicates.**
- **`AC\Imap\Collection\MessageCollection`**: an `ArrayObject` of messages with `first`, `last`, `add`, `remove`, `clear`, `isEmpty` and `toArray`.

Modules, leaves first:

- `Wrappers`: `Option`.
- `PhpStrings`: `strtolower`, PHP's truth value of a string, and decimal rendering.
- `MimeParts`: the `Part` tree and the parameter map.
- `Sections`: section addresses and their dot-joined rendering.
- `Decoding`: the supplied decoders, transfer decoding, charset conversion and `mimeDecode`.
- `HeaderFlags`: the header snapshot and the `isMarkAs*` predicates.
- `Walker`: the specification of the walk as functions: the visited leaves, what each leaf contributes, and the accumulated result.
- `WalkerProperties`: lemmas about that specification.
- `ImapMessage`: the `Message` class. Its methods perform the walk step by step and are proved equal to the specification.
- `MessageCollections`: the `MessageCollection` class over an ordered, keyed PHP array.

The model reproduces these behaviours of the code as written:

- **Case-sensitive RFC822 test.** Transparent descent needs type 2 and subtype exactly `RFC822`. The disposition must be absent or not exactly `attachment`. Other spellings of the subtype add a segment.
- **TEXT routing ignores the disposition for plain and html.** A TEXT/PLAIN or TEXT/HTML leaf goes to its body even when its disposition is `attachment`.
- **The `other` body is never written.** The test `isset(disposition) || 'attachment' !== disposition` holds for every part. So every other TEXT subtype becomes an attachment.
- **Non-TEXT filenames.** The filename ternary of the non-TEXT branch has no parentheses, and PHP 7 reads it left-associatively:
  - when a `filename` parameter is present and decodes to a truthy string, the attachment is named by the decoded `name` parameter, or by the decoded empty string when `name` is unset;
  - when the decoded filename is falsy, it is named by `uniqid`.
  The TEXT branch uses filename, then name, then `uniqid`.
- **No error paths.** Decoder and conversion results are used unchecked.
- **Every leaf is fetched**, including MULTIPART and MESSAGE leaves that contribute nothing.
- **No uniqueness claim for generated names.** They come from `uniqid`, a supplied function of the section.

## Model

| member | source | states |
|---|---|---|
| PhpStrings.ToLower | src/Message.php:304 | `strtolower`: same length, every byte mapped through the ASCII-only `LowerChar`, and no byte A-Z remains |
| PhpStrings.ToLowerOfLowerCased | src/Message.php:304 | a string without upper-case letters is returned unchanged, so lower-casing twice equals lower-casing once |
| PhpStrings.Truthy | src/Message.php:386-388 | PHP's truth value of a string, as the ternary tests the decoded filename: false only for `""` and `"0"` |
| PhpStrings.NatToString | src/Message.php:265 | `(string)` of a part number is a non-empty run of decimal digits |
| PhpStrings.NatToStringValue | src/Message.php:265 | the digits of `(string) $n` spell `n`, with no leading zero, so only 0 renders starting with `0` |
| Sections.Render | src/Message.php:313 | the empty address (PHP `null`) and only it renders as the empty string |
| Sections.ChildSection | src/Message.php:284-292 | the address of child `k`: the parent's own under transparent descent, otherwise `section.(k+1)` |
| Sections.ChildSectionShape | src/Message.php:284-292 | a child's address extends the parent's; it equals it exactly under transparent descent, and otherwise has one more segment, `k + 1` |
| Sections.RenderTruthy | src/Message.php:313 | for an address of 1-based part numbers, PHP's `if ($section)` is false exactly when there is no address: no such address renders as `""` or `"0"` |
| Sections.RenderAppend | src/Message.php:292 | appending a child number renders as parent address, a dot, then the decimal child number |
| Sections.RenderTopLevel | src/Message.php:264-265 | top-level child `k` (0-based) is addressed as the decimal `k + 1` |
| Sections.RenderAlphabet | src/Message.php:314 | a rendered address has only digits and dots and ends in a digit |
| MimeParts.AddRows | src/Message.php:303-305 | folds rows into the map in order, each under its `strtolower`ed attribute: every key it adds is lower-case |
| MimeParts.ParamMap | src/Message.php:301-311 | `parameters` rows first, then `dparameters` rows, each list read only when its `if*` flag is set; every key is lower-case |
| MimeParts.AddRowsKeys | src/Message.php:303-305 | after folding rows, a key is present iff it was before or some row's lower-cased attribute names it |
| MimeParts.AddRowsLast | src/Message.php:303-305 | a key's value is that of the last row naming it (later rows overwrite) |
| MimeParts.AddRowsUntouched | src/Message.php:308-310 | a key no row names keeps its earlier value |
| MimeParts.ParamMapKeys | src/Message.php:301-311 | a key is in the leaf's map iff an enabled `parameters` or `dparameters` row names it; lists whose `if*` flag is unset are not read |
| MimeParts.ParamMapDispositionWins | src/Message.php:307-311 | a `dparameters` row overwrites a `parameters` row of the same lower-cased name |
| MimeParts.ParamMapFromParameters | src/Message.php:301-311 | a key no enabled `dparameters` row names takes the last `parameters` row's value |
| MimeParts.CollectParameters | src/Message.php:301-311 | the two `foreach` loops build exactly the parameter map `ParamMap` |
| Decoding.TransferDecode | src/Message.php:327-345 | the encoding switch: codes other than 3 and 4 return the data as fetched |
| Decoding.TransferDecodeCases | src/Message.php:327-345 | only base64 (3) and quoted-printable (4) change the data; 0, 1, 2, 5 and unknown codes leave it as fetched |
| Decoding.NormalizeCharset | src/Message.php:347-355 | the TEXT charset step: no `charset` parameter, or `utf-8` in any case, returns the data unchanged |
| Decoding.NormalizeCharsetCases | src/Message.php:349-355 | no conversion without a charset or for `utf-8` in any case; `utf8_encode` for `iso-8859-1` in any case; `iconv` from the declared charset otherwise |
| Decoding.ConcatTexts | src/Message.php:405-407 | the elements' `text` fields joined in order; empty exactly when every text is empty |
| Decoding.MimeDecoded | src/Message.php:401-410 | what `mimeDecode` returns: the joined texts of `imap_mime_header_decode`'s elements, empty exactly when each is |
| Decoding.ConcatTextsAppend | src/Message.php:405-407 | the concatenated element texts distribute over joining element lists |
| Decoding.MimeDecode | src/Message.php:401-410 | the loop returns the concatenation of every decoded element's `text`, in order |
| HeaderFlags.IsMarkAsAnswered | src/Message.php:177-180 | `Answered` is exactly `A` |
| HeaderFlags.IsMarkAsDeleted | src/Message.php:182-185 | `Deleted` is exactly `D` |
| HeaderFlags.IsMarkAsDraft | src/Message.php:187-190 | `Draft` is exactly `X` |
| HeaderFlags.IsMarkAsImportant | src/Message.php:192-195 | `Flagged` is exactly `F` |
| HeaderFlags.IsMarkAsRecent | src/Message.php:197-200 | `Recent` is exactly `R` |
| HeaderFlags.IsMarkAsUnread | src/Message.php:202-205 | `Recent` is exactly `N` or `Unseen` is exactly `U` |
| HeaderFlags.PredicatesReadTheirField | src/Message.php:177-205 | each `isMarkAs*` depends only on its own header field (two fields for unread) |
| HeaderFlags.PredicatesOfFlags | src/Message.php:177-205 | read back through `imap_headerinfo`'s letters: unread iff not \Seen; recent iff recent and seen; answered, deleted, draft and important iff their flag |
| Walker.Transparent | src/Message.php:279-282 | transparent descent: type 2, subtype exactly `RFC822`, and disposition unset or not exactly `attachment` |
| Walker.Leaves | src/Message.php:274-299 | the leaves `parsePart` visits: a leaf alone at its own section, or the walks of the children in index order |
| Walker.ChildLeaves | src/Message.php:277-294 | the walks of the first `n` children, child `k` at the parent's section or one segment `k + 1` deeper |
| Walker.MessageLeaves | src/Message.php:262-269 | the leaves `parseBody` visits: top-level part `k` at section `k + 1`, or the root alone with no section |
| Walker.Fetch | src/Message.php:313-317 | `imap_fetchbody` at the rendered section, or `imap_body` when there is no section |
| Walker.LeafData | src/Message.php:313-355 | fetch, transfer decoding, then for TEXT leaves only the charset step |
| Walker.TextFilename | src/Message.php:362-366 | decoded `filename`, else decoded `name`, else `uniqid` of the rendered section |
| Walker.Lookup | src/Message.php:389 | reading `$parameters[$key]`: the value, or the empty string that `null` becomes when the key is unset |
| Walker.OtherFilename | src/Message.php:386-391 | PHP 7's left-associative reading of the unparenthesised ternary, an unset `name` read as the empty string |
| Walker.TextDispositionTest | src/Message.php:361 | `isset(disposition)` or `'attachment' !== disposition`, which every part satisfies |
| Walker.LeafBody | src/Message.php:347-398 | the `switch` on the part type: what one visited leaf appends to `plain`, `html`, `other` and the attachment list |
| Walker.BodyOf | src/Message.php:356-396 | the contributions of a sequence of visits, appended in visit order |
| Walker.ParsedBody | src/Message.php:260-272 | what `parseBody` appends: the contributions of every leaf of the message, in walk order |
| WalkerProperties.BodyOfAppend | src/Message.php:357-396 | what a sequence of leaves adds is what its first part adds followed by what the rest adds |
| WalkerProperties.BodyOfSingleton | src/Message.php:347-398 | one leaf adds exactly its own contribution |
| WalkerProperties.LeavesUnder | src/Message.php:274-299 | every visit is a leaf, and its address extends the part's address: a part with children is never fetched itself |
| WalkerProperties.ChildLeavesUnder | src/Message.php:277-294 | children's visits are leaves whose address extends the parent's; without transparent descent the next segment lies in `1..n` and never decreases along the walk |
| WalkerProperties.ChildVisits | src/Message.php:277-294 | every visit of child `k`'s subtree is a visit of the parent's walk; without transparent descent it carries `k + 1` right after the parent's address |
| WalkerProperties.LeavesPositive | src/Message.php:277-294 | walking from an address of 1-based part numbers visits only such addresses |
| WalkerProperties.MessageSectionsTruthy | src/Message.php:262-317 | every address `parseBody`'s walk fetches has 1-based segments, so `Fetch`'s test for a missing address is PHP's `if ($section)` |
| WalkerProperties.LeavesFrontier | src/Message.php:274-299 | the parts the walk visits are exactly the leaves of the tree, left to right, each once, whatever the addresses and transparent descents |
| WalkerProperties.LeavesCount | src/Message.php:274-299 | the walk makes as many visits as the tree has leaves |
| WalkerProperties.RootAddressing | src/Message.php:262-269 | with parts, every visit lies under a top-level section `1..n` in index order; without, only the root is visited, with no section |
| WalkerProperties.FlatAddressing | src/Message.php:278-293 | leaf children are visited once each, child `k` at `section.(k+1)`, or at `section` under transparent descent |
| WalkerProperties.Rfc822Descent | src/Message.php:279-292 | for any part at any address and any child `k`: a MESSAGE part whose subtype is exactly `RFC822` and whose disposition is not exactly `attachment` walks the child at its own address; any other part walks it at `section.(k+1)` |
| WalkerProperties.ForwardedMessage | src/Message.php:279-292 | a leaf inside the sole top-level MESSAGE part is fetched at section 1 when the part is an inline `RFC822` one, at 1.1 for any other subtype spelling or an `attachment` disposition |
| WalkerProperties.LeafRouting | src/Message.php:347-398 | TEXT plain and html go to `plain` and `html` whatever the disposition; other TEXT and types 3-8 add one attachment; types 1-2 and unknown codes add nothing; `other` stays empty |
| WalkerProperties.DecodeBeforeConvert | src/Message.php:327-355 | for every TEXT leaf the data is the charset step applied to the transfer-decoded fetch; for every other leaf it is the transfer-decoded fetch, never converted |
| WalkerProperties.TextFilenameCases | src/Message.php:362-366 | TEXT attachment names: decoded `filename`, else decoded `name`, else `uniqid` of the section |
| WalkerProperties.OtherFilenameCases | src/Message.php:386-391 | non-TEXT names under PHP 7's left-associative ternary, case by case |
| WalkerProperties.OtherNeverWritten | src/Message.php:361-374 | the `other` body stays empty whatever leaves are visited |
| WalkerProperties.AttachmentCount | src/Message.php:368-396 | exactly one attachment per TEXT non-plain/html leaf or type 3-8 leaf, none for any other leaf |
| WalkerProperties.SinglePartPlain | tests/MessageTest.php:83-86 | a single-part TEXT/plain message with no transfer encoding and no conversion yields its raw body as `plain`, verbatim |
| WalkerProperties.SinglePartConverted | tests/MessageTest.php:83-86 | a single-part TEXT/plain message without transfer encoding yields its raw body after the charset step; a declared charset such as `us-ascii` that `iconv` returns unchanged yields the raw body verbatim |
| WalkerProperties.TwoLeafMessage | src/Message.php:263-266 | two top-level leaves are visited at sections 1 and 2 and contribute in that order |
| WalkerProperties.BareLeafData | src/Message.php:313-355 | a 7bit leaf without parameters contributes its fetched data verbatim |
| WalkerProperties.BareTextLeaf | src/Message.php:356-359 | a bare TEXT/PLAIN or TEXT/HTML leaf adds its fetched data to `plain` or `html` |
| WalkerProperties.NamedBase64Leaf | src/Message.php:380-397 | a base64 APPLICATION leaf whose only parameter is `NAME` becomes one attachment: decoded name, base64-decoded data |
| WalkerProperties.MixedMessage | src/Message.php:260-399 | MULTIPART/MIXED with TEXT/PLAIN and a named base64 APPLICATION part: section 1 becomes `plain`; section 2, base64-decoded, becomes the one attachment |
| WalkerProperties.AlternativeMessage | src/Message.php:260-399 | MULTIPART/ALTERNATIVE with TEXT/PLAIN and TEXT/HTML: section 1 becomes `plain`, section 2 `html`, no attachment |
| ImapMessage.Message.constructor | src/Message.php:24-37 | a new message has empty accumulators, no attachment and the latch unset |
| ImapMessage.Message.GetSubject | src/Message.php:74-77 | the subject is the MIME-decoded header subject |
| ImapMessage.Message.GetBodyPlain | src/Message.php:84-91 | returns the plain body of the one parse; a second call changes nothing |
| ImapMessage.Message.GetBodyHtml | src/Message.php:98-105 | returns the html body of the one parse; a second call changes nothing |
| ImapMessage.Message.GetAttachments | src/Message.php:110-117 | returns the attachments of the one parse; a second call changes nothing |
| ImapMessage.Message.ParseBody | src/Message.php:260-272 | appends the contributions of all leaves of the structure, in walk order, to what was accumulated, logs exactly those leaves as fetched, and sets the latch |
| ImapMessage.Message.ParseTopLevelPart | src/Message.php:264-266 | one top-level round appends the leaves of part `key` at section `key + 1`; the latch is untouched |
| ImapMessage.Message.ParsePart | src/Message.php:274-399 | appends exactly the contributions of the part's leaves, at their addresses, in walk order; the latch is untouched |
| ImapMessage.Message.ParseChildren | src/Message.php:277-296 | the `foreach` over the children appends the walks of all children in index order, and the part itself is not fetched; the latch is untouched |
| ImapMessage.Message.ParseChild | src/Message.php:278-294 | one child round appends the child's subtree at the parent's address (transparent) or one segment deeper; the latch is untouched |
| ImapMessage.Message.ParseLeaf | src/Message.php:301-398 | a leaf is fetched once and appends exactly its routed contribution; the latch is untouched |
| ImapMessage.Message.FetchAndDecode | src/Message.php:313-355 | fetch (by section, or the whole body), transfer decoding, then TEXT charset conversion: the leaf's data |
| ImapMessage.Message.TextFilenameOf | src/Message.php:362-366 | computes the TEXT attachment name |
| ImapMessage.Message.OtherFilenameOf | src/Message.php:386-391 | computes the non-TEXT attachment name as PHP 7 evaluates the ternary |
| MessageCollections.Numbered | src/Collection/MessageCollection.php:23-26 | a list is stored under keys 0, 1, ..., increasing and below the next free key |
| MessageCollections.IndexOf | src/Collection/MessageCollection.php:71 | `array_search` finds the first element equal to the message, or none |
| MessageCollections.Unset | src/Collection/MessageCollection.php:75 | `offsetUnset`: no entry under the key remains, and the array is no longer than before |
| MessageCollections.UnsetAddsNothing | src/Collection/MessageCollection.php:75 | unsetting adds nothing: every entry left was in the array before |
| MessageCollections.UnsetAbsent | src/Collection/MessageCollection.php:75 | unsetting a key that is not present changes nothing |
| MessageCollections.UnsetAt | src/Collection/MessageCollection.php:75 | unsetting the key found at position `i` removes exactly that element, others keep order and keys |
| MessageCollections.RemoveKeepsKeys | src/Collection/MessageCollection.php:75 | after the removal the keys are still increasing and below the next free key |
| MessageCollections.MessageCollection.constructor | src/Collection/MessageCollection.php:23-26 | the messages stored under keys 0, 1, ...; next free key is their number |
| MessageCollections.MessageCollection.First | src/Collection/MessageCollection.php:33-36 | the first message, none iff empty |
| MessageCollections.MessageCollection.Last | src/Collection/MessageCollection.php:43-46 | the last message, none iff empty |
| MessageCollections.MessageCollection.Count | src/Collection/MessageCollection.php:92-95 | the number of messages |
| MessageCollections.MessageCollection.IsEmpty | src/Collection/MessageCollection.php:92-95 | true iff there is no message |
| MessageCollections.MessageCollection.ToArray | src/Collection/MessageCollection.php:103-106 | a copy of the keyed array |
| MessageCollections.MessageCollection.Add | src/Collection/MessageCollection.php:55-60 | appends the message under the next free key, returns the collection itself, keys stay valid |
| MessageCollections.MessageCollection.Remove | src/Collection/MessageCollection.php:69-78 | not found: `false` and no change; found: the first equal element is unset, one fewer message, the others keep order and keys, returns the collection itself |
| MessageCollections.MessageCollection.Clear | src/Collection/MessageCollection.php:80-85 | empties the array and restarts keys at 0 |
| MessageCollections.AddThenRemove | src/Collection/MessageCollection.php:55-78 | removing a just-added message that no earlier element equals restores the earlier array |
| MessageCollections.ArrayObjectRound | tests/MessageCollectionTest.php:44-65 | first and last of three messages; two after removing the last, three after adding it back, and it is last again; clear leaves none |

## Left out

- `src/Imap.php` and the I/O methods of `Message`: connection, search, flag setting, copy, move, delete and `getDate`. They are calls into the IMAP extension. `src/Imap.php` is not part of this model. The server is a `Mailbox` value: a header snapshot, a structure tree, the whole body and a function from rendered section to section body.
- The decoders are supplied functions (`Codecs`) whose internals are not modelled: `imap_base64`, `imap_qprint`, `utf8_encode`, `iconv`, `imap_mime_header_decode` and `uniqid`.
- `uniqid` reads a clock; here it is a function of the section, so two calls with the same section agree. The model claims nothing about uniqueness.
- Strings are sequences of `char`, one per byte; there is no encoding.
- PhpStrings.ToLower: lower-cases ASCII A-Z only. PHP 7's `strtolower` follows the `LC_CTYPE` locale, which under a single-byte locale also changes bytes above 0x7F; this matters only for non-ASCII attribute names, subtypes and charset names.
- `Message.fetched` is a ghost log of the leaves fetched, in order, used only to state which leaves were fetched. It is not part of the PHP object.
- `parsePart`'s child loop is a method of its own (`ParseChildren`), and each `foreach` round of `parseBody` and `parsePart` is a method (`ParseTopLevelPart`, `ParseChild`) called once per round.
- `imap_fetchbody`, `imap_body`, `imap_base64`, `imap_qprint` and `iconv` can return PHP `false`, which the code stores unchecked. Every supplied function here returns a string, so an attachment whose `content` is `false` (src/Message.php:370, 395) is modelled as an attachment with some string content.
- Reading the unset `$parameters['name']` at src/Message.php:389 raises an `E_NOTICE` and yields `null`. The model reads it as the empty string (`Lookup`) and does not model the notice.
- Reading `$part->disposition` when the part has none, in the second operand of the test at src/Message.php:361, raises an `E_NOTICE` (undefined property) and yields `null`. `TextDispositionTest` compares `None` with `attachment` and does not model the notice.
- ImapMessage.Message.ParsePart: requires an address for any part with children. Only `parseBody` calls it without one, and only for a root without parts.
- PHP 8 rejects the unparenthesised nested ternary at compile time. The model follows PHP 7's left-associative reading.
- A `parts` list given as a PHP array with non-list keys is modelled by position. `parseBody` itself uses `$key + 1`, which equals position + 1 for the lists `imap_fetchstructure` returns.
- MessageCollections.MessageCollection.First: does not model moving `ArrayObject`'s internal array pointer (the same for `Last`). The model returns `None` for PHP's `false`.
- MessageCollections.IndexOf: PHP's loose `==` between `Message` objects is a supplied relation `eq`. Its property-by-property comparison is not modelled.
- MessageCollections.MessageCollection.constructor: takes a list. An initial array with arbitrary keys is not modelled.
- `MessageCollection` is generic in its element type; PHP's `Message` type hint on `add` and `remove` is not modelled.
