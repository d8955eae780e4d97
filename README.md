# mermaid-flow core in Dafny

mermaid-flow edits a Mermaid flowchart as text, lays it out as a graph that
can be dragged around, and keeps the whole editor state in the page's
location fragment, with no server involved. This project models three parts
of it and proves properties of each.

- **The URL store** (`src/lib/state/url-store.svelte.ts`) has two layers.
  - The codec: the state tuple `[1, code, positions, [themeId, directionId]]`
    is packed with MessagePack, compressed with zlib and written as unpadded
    URL-safe base64. `deserialize` goes back the same way.
  - The synchronisation: `init()` restores the state once from the
    fragment. After that, every change re-arms a 250 ms timer. When the timer
    fires it writes the token, unless the token is longer than 4096
    characters.
  - Modules: `Base64` models the browser's `btoa`/`atob`, `UrlCodec` the codec,
    and `UrlSync` the synchronisation, as an event-driven step function plus
    a `UrlStore` class whose methods update its fields in place.
- **The layout service** (`src/lib/layout/elk-service.ts`) is module
  `ElkService`. It builds the request for the ELK layered layout and
  reconciles ELK's answer with the positions the user already placed: a stored
  position wins. If ELK fails, every node gets its stored position or the
  origin.
- **The line parser** (`src/lib/utils/simple-parser.ts`) is module
  `SimpleParser`. It reads `A --> B` edges and `A[Label]` declarations, one per
  line.
- `JsStrings` models the JavaScript string built-ins these files use:
  `split`, `trim`, `includes`, the character replacements and `repeat`.
- `Wrappers` and `Coordinates` hold `Option` and the position type.

The external libraries appear as parameters:

- MessagePack and zlib are the four functions of a `UrlCodec.Codec`. The
  round-trip lemma assumes `Lossless`: unpack inverts pack, inflate inverts
  deflate, and a zlib stream is at least two bytes long (its header, section
  2.2 of RFC 1950). Coordinates are `Coordinates.Coord`, an abstract value
  standing for a JavaScript number, not `real`: a byte codec can only be
  lossless on a countable set of values, as MessagePack is on doubles.
- The ELK engine is a function from the request to an optional answer;
  `None` means the layout promise rejected.
- Whether the code runs in a browser is a `bool`.
- The location fragment is a string field.
- Time is not modelled. The timer's expiry is an event of its own.

Three facts about the code shape the model:

- The code never reads the version slot of an unpacked tuple. A tuple of any
  version restores the same fields (`UrlCodec.AnyVersionAccepted`).
- `isTooLarge` is exported but never assigned. `UrlSync.UrlStore` keeps the
  field, and every method leaves it unchanged.
- Svelte runs an effect once when it is created. So `init()` arms the timer
  with the restored state's token at once (`UrlSync.Step`, `Init` case).

## Model

| member | source | states |
|---|---|---|
| JsStrings.IndexOf | src/lib/utils/simple-parser.ts:13 | the result is the first occurrence of the separator; no earlier position holds one |
| JsStrings.Split | src/lib/utils/simple-parser.ts:5 | `split` always returns at least one piece |
| JsStrings.SplitCons | src/lib/utils/simple-parser.ts:5 | at the first occurrence, `split` gives the text before it followed by the pieces of the text after it |
| JsStrings.JoinCons | src/lib/utils/simple-parser.ts:5 | joining a piece in front of at least one more puts one separator between it and the rest |
| JsStrings.AroundOccurrence | src/lib/utils/simple-parser.ts:5 | a string is the text before an occurrence, the separator, and the text after it |
| JsStrings.JoinAroundOccurrence | src/lib/utils/simple-parser.ts:5 | the text before an occurrence joined with pieces that join to the text after it is the whole string |
| JsStrings.JoinSplit | src/lib/utils/simple-parser.ts:5 | joining the pieces of `split` with the separator gives back the text |
| JsStrings.PrefixBeforeFirstAvoids | src/lib/utils/simple-parser.ts:14 | the text before the first occurrence of a non-empty separator does not contain it |
| JsStrings.SplitPiecesAvoidSeparator | src/lib/utils/simple-parser.ts:14 | no piece of `split` contains the separator |
| JsStrings.SplitInTwo | src/lib/utils/simple-parser.ts:14-17 | there are exactly two pieces iff the separator occurs exactly once, and then the pieces are the text before and after it |
| JsStrings.TrimStart | src/lib/utils/simple-parser.ts:7 | only leading white space is removed, all of it, and the rest is a suffix of the input |
| JsStrings.TrimEnd | src/lib/utils/simple-parser.ts:7 | only trailing white space is removed, all of it, and the rest is a prefix of the input |
| JsStrings.Trim | src/lib/utils/simple-parser.ts:7 | the result is a slice of the input with only white space around it, and neither starts nor ends with white space |
| JsStrings.RemoveAll | src/lib/state/url-store.svelte.ts:44 | the removed character is gone and no other character appears |
| JsStrings.ReplaceAllUndone | src/lib/state/url-store.svelte.ts:42-43 | switching a character to one that did not occur and back gives the text back, as `fromBase64URL` undoes the `+`/`/` replacements |
| JsStrings.RemoveAllAppend | src/lib/state/url-store.svelte.ts:44 | removing a character distributes over concatenation |
| JsStrings.RemoveAllAbsent | src/lib/state/url-store.svelte.ts:44 | removing a character that does not occur leaves the text unchanged |
| JsStrings.RemoveAllOnly | src/lib/state/url-store.svelte.ts:44 | a text made only of the removed character becomes empty |
| Base64.StdChar | src/lib/state/url-store.svelte.ts:41 | every 6-bit value has a character of the standard alphabet |
| Base64.StdValue | src/lib/state/url-store.svelte.ts:51 | decoding a standard character gives a 6-bit value that encodes back to it |
| Base64.StdValueOfStdChar | src/lib/state/url-store.svelte.ts:41-51 | encoding and then decoding a 6-bit value gives it back |
| Base64.UnpaddedLength | src/lib/state/url-store.svelte.ts:41-44 | n bytes take 4 characters per full group of three, plus 2 or 3 for a partial group |
| Base64.UnpaddedLengthStep | src/lib/state/url-store.svelte.ts:41-44 | three more bytes take exactly four more characters |
| Base64.UnpaddedLengthMod | src/lib/state/url-store.svelte.ts:41-51 | the unpadded length leaves remainder 0, 2 or 3 by 4, never 1 |
| Base64.EncodeGroups | src/lib/state/url-store.svelte.ts:41 | the unpadded `btoa` text has that length and only standard characters |
| Base64.Quad | src/lib/state/url-store.svelte.ts:41 | a full group of three bytes becomes four standard characters |
| Base64.EncodeGroupsLengthValid | src/lib/state/url-store.svelte.ts:41-51 | no unpadded `btoa` text leaves a lone character in its last group |
| Base64.Padding | src/lib/state/url-store.svelte.ts:41 | at most two `=` make the length a multiple of four |
| Base64.Btoa | src/lib/state/url-store.svelte.ts:41 | the `btoa` text has a length that is a multiple of four and only standard characters or `=` |
| Base64.RemoveAsciiWhitespace | src/lib/state/url-store.svelte.ts:51 | `atob` drops ASCII white space: the result has none, is no longer than the input, keeps every other character, is empty for an all-white-space text and is the input itself when it has none |
| Base64.RemoveAsciiWhitespaceAppend | src/lib/state/url-store.svelte.ts:51 | white space removal works piece by piece: removing from two texts in a row is removing from each; with the clauses above this fixes the result in order |
| Base64.DropPadding | src/lib/state/url-store.svelte.ts:51 | `atob` drops trailing `=` only, at most two: two when the text ends in two, and at least one when it ends in one |
| Base64.Atob | src/lib/state/url-store.svelte.ts:51 | every character of the decoded text has a code below 256 |
| Base64.Prepared | src/lib/state/url-store.svelte.ts:51 | white space and `=` are the only characters removed before decoding |
| Base64.GroupBits | src/lib/state/url-store.svelte.ts:41-51 | the four sextets of three bytes reassemble into the same bytes |
| Base64.DecodeQuad | src/lib/state/url-store.svelte.ts:41-51 | the four characters of a full group decode back to its three bytes, and decoding carries on with the rest |
| Base64.DecodeEncodeFirstGroup | src/lib/state/url-store.svelte.ts:41-51 | the first full group of any bytes decodes back to its three bytes |
| Base64.DecodeEncodeGroups | src/lib/state/url-store.svelte.ts:41-51 | decoding the unpadded `btoa` text of any bytes gives back those bytes |
| Base64.DropPaddingOfBtoa | src/lib/state/url-store.svelte.ts:41-51 | removing the padding of `btoa` text gives the unpadded text |
| Base64.DropPaddingOfPadded | src/lib/state/url-store.svelte.ts:51 | standard characters followed by at most two `=` lose exactly the `=` |
| Base64.PreparedUnspaced | src/lib/state/url-store.svelte.ts:51 | text without white space is prepared by dropping its padding, and only when its length is a multiple of four |
| Base64.AtobRejectsUnprepared | src/lib/state/url-store.svelte.ts:51 | `atob` throws iff the prepared text leaves remainder 1 by 4 or holds a character outside the alphabet |
| Base64.AtobBtoa | src/lib/state/url-store.svelte.ts:41-51 | `atob(btoa(s))` is `s` for every binary string |
| Base64.AtobRejectsForeign | src/lib/state/url-store.svelte.ts:51 | `atob` throws on any character outside the alphabet that is neither `=` nor white space |
| Base64.AtobRejectsThreePads | src/lib/state/url-store.svelte.ts:51 | `atob` throws on any text ending in three `=`, whatever comes before them and however long it is |
| Base64.StripKeepsThreePads | src/lib/state/url-store.svelte.ts:51 | removing white space keeps three trailing `=` |
| UrlCodec.ToBase64Url | src/lib/state/url-store.svelte.ts:40-45 | the token is the unpadded base64 text of the bytes, with `-` for `+` and `_` for `/`, so only URL-safe characters |
| UrlCodec.UrlGroups | src/lib/state/url-store.svelte.ts:40-45 | the URL-safe token has one character per unpadded `btoa` character, each switched to the URL alphabet |
| UrlCodec.UrlAlphabetOfBtoa | src/lib/state/url-store.svelte.ts:41-44 | the three replacements turn the `btoa` text into the unpadded text in the URL alphabet |
| UrlCodec.RestorePadding | src/lib/state/url-store.svelte.ts:49-50 | the text is kept and followed by the fewest `=` that make the length a multiple of four |
| UrlCodec.CharCodesLatin1 | src/lib/state/url-store.svelte.ts:52-55 | copying the character codes of `String.fromCharCode(...u8)` gives back `u8` |
| UrlCodec.CopyCharCodes | src/lib/state/url-store.svelte.ts:52-55 | the loop fills a new array with exactly the character codes modulo 256 |
| UrlCodec.FromBase64Url | src/lib/state/url-store.svelte.ts:47-57 | the copying loop returns exactly the decoded bytes, or fails where `atob` throws |
| UrlCodec.RestorePaddingOfEncodeGroups | src/lib/state/url-store.svelte.ts:49-50 | restoring the padding of an unpadded token gives the `btoa` text |
| UrlCodec.StdAlphabetOfToken | src/lib/state/url-store.svelte.ts:48 | switching a token back to the standard alphabet gives the unpadded `btoa` text |
| UrlCodec.Base64UrlRoundTrip | src/lib/state/url-store.svelte.ts:40-57 | `fromBase64URL(toBase64URL(b))` is `b` for every byte array (about `UrlCodec.DecodeBase64Url`, the decoding function `FromBase64Url` computes) |
| UrlCodec.RemainderOneRejected | src/lib/state/url-store.svelte.ts:49-51 | any token whose length leaves remainder 1 by 4 never decodes, white space or not: it gets three `=` and `atob` drops at most two (about `UrlCodec.DecodeBase64Url`) |
| UrlCodec.ForeignCharRejected | src/lib/state/url-store.svelte.ts:48-51 | one character outside both alphabets makes the whole token fail (about `UrlCodec.DecodeBase64Url`) |
| UrlCodec.StandardTokenAccepted | src/lib/state/url-store.svelte.ts:48-51 | padded standard-alphabet base64 is decoded too (about `UrlCodec.DecodeBase64Url`) |
| UrlCodec.Tuple | src/lib/state/url-store.svelte.ts:61-66 | the tuple has version 1 and the pair `[themeId, directionId]` |
| UrlCodec.Serialize | src/lib/state/url-store.svelte.ts:59-70 | the token has only URL-safe characters, and its length is the unpadded base64 length of the compressed bytes |
| UrlCodec.Interpret | src/lib/state/url-store.svelte.ts:78-83 | a tuple restores iff it has the settings pair, and then code and positions come through as they are |
| UrlCodec.Deserialize | src/lib/state/url-store.svelte.ts:74 | an empty hash restores nothing |
| UrlCodec.SerializeShape | src/lib/state/url-store.svelte.ts:59-70 | a token is never empty and never starts with `#` |
| UrlCodec.DeserializeToken | src/lib/state/url-store.svelte.ts:72-87 | with lossless libraries, the token of a packed tuple unpacks to that tuple, with or without a leading `#` |
| UrlCodec.DeserializeSerialize | src/lib/state/url-store.svelte.ts:59-87 | with lossless libraries, `deserialize` of a state's token restores every field, with or without a leading `#` |
| UrlCodec.AnyVersionAccepted | src/lib/state/url-store.svelte.ts:77-83 | the version slot has no effect on what is restored |
| UrlCodec.MissingSettingsRejected | src/lib/state/url-store.svelte.ts:81 | a tuple without the settings pair restores nothing, not even its code |
| UrlCodec.DoubleHashRejected | src/lib/state/url-store.svelte.ts:75 | a hash starting with two `#` never restores |
| UrlSync.Load | src/lib/state/url-store.svelte.ts:25-32 | a loaded page has the default state, no armed timer, and no effect running |
| UrlSync.LoadInv | src/lib/state/url-store.svelte.ts:25-32 | a loaded page satisfies the store invariant |
| UrlSync.StepInv | src/lib/state/url-store.svelte.ts:93-119 | every event keeps the invariant: an armed timer holds the current state's token, and only in a browser. The fragment stays or becomes a written token (about `UrlSync.Step`, the event step) |
| UrlSync.FragmentIsLoadedOrWritten | src/lib/state/url-store.svelte.ts:109-119 | after any run of events, the fragment is the loaded one or a state's token of at most 4096 characters |
| UrlSync.NoWriteOutsideBrowser | src/lib/state/url-store.svelte.ts:94 | outside a browser, no timer is armed and the fragment never changes |
| UrlSync.ChangesOnly | src/lib/state/url-store.svelte.ts:110-113 | assignments alone never write; they leave the last state and, once syncing, its token armed |
| UrlSync.Coalesce | src/lib/state/url-store.svelte.ts:110-117 | any burst of assignments followed by the timer writes only the last state's token, if it fits (about `UrlSync.Step` run over the events) |
| UrlSync.ReloadRestores | src/lib/state/url-store.svelte.ts:93-106 | reloading with a written token restores the state it was written from (about `UrlSync.Step` on `Init`, through `UrlSync.Restore` and `UrlSync.Merge`) |
| UrlSync.TooLongNotWritten | src/lib/state/url-store.svelte.ts:114 | a token over 4096 characters leaves the fragment as it was |
| UrlSync.EmptyFragmentRestoresNothing | src/lib/state/url-store.svelte.ts:96 | an empty fragment leaves the state unchanged (about `UrlSync.Restore`) |
| UrlSync.UrlStore.constructor | src/lib/state/url-store.svelte.ts:25-32 | the store starts as a loaded page, with `isTooLarge` false |
| UrlSync.UrlStore.Adopt | src/lib/state/url-store.svelte.ts:99-104 | each restored field replaces the current one when present; nothing else changes (as `UrlSync.Merge` does) |
| UrlSync.UrlStore.RestoreFromHash | src/lib/state/url-store.svelte.ts:95-106 | the state becomes what the location hash restores; the timer, fragment and effect are untouched |
| UrlSync.UrlStore.Init | src/lib/state/url-store.svelte.ts:93-120 | `init()` updates the fields as the `Init` step does: restore from the hash (`RestoreFromHash`), start the effect, arm the timer with the restored state's token |
| UrlSync.UrlStore.Assign | src/lib/state/url-store.svelte.ts:110-113 | an assignment replaces the state and, once syncing, re-arms the timer with the new token |
| UrlSync.UrlStore.TimerFire | src/lib/state/url-store.svelte.ts:113-117 | the timer disarms and writes its token if it fits |
| ElkService.ElkDirection | src/lib/layout/elk-service.ts:24 | the ELK direction is always one of the four. It is UP, RIGHT or LEFT exactly for BT, LR and RL |
| ElkService.BuildGraph | src/lib/layout/elk-service.ts:27-45 | the request has one child per node, sized as measured or 150 by 50, one edge per edge, and the layered options |
| ElkService.LastWithId | src/lib/layout/elk-service.ts:51-66 | the index found is the last answer node with that id |
| ElkService.LastWithIdInit | src/lib/layout/elk-service.ts:51-66 | an id the last node does not carry was last seen among the earlier nodes |
| ElkService.LayoutPassOwnStep | src/lib/layout/elk-service.ts:51-66 | by own keys, each answer node is one more placement on top of the previous ones |
| ElkService.PlaceKeys | src/lib/layout/elk-service.ts:51-66 | placing a node keeps the keys equal to the non-empty ids seen so far |
| ElkService.PlaceValues | src/lib/layout/elk-service.ts:58-64 | placing a node keeps each value a stored position or the coordinates of the last node with that id |
| ElkService.LayoutPassReconciles | src/lib/layout/elk-service.ts:51-66 | by own keys, the first pass places exactly the non-empty ids of the answer: a stored position wins, otherwise the coordinates of the last node with that id (0 where missing) (about `ElkService.LayoutPass`) |
| ElkService.FallbackPassOwnStep | src/lib/layout/elk-service.ts:73-80 | by own keys, each request node is one more placement on top of the previous ones |
| ElkService.PlaceAtOriginKeys | src/lib/layout/elk-service.ts:73-80 | placing a node keeps the keys equal to the node ids seen so far |
| ElkService.FallbackPassPlaces | src/lib/layout/elk-service.ts:72-80 | by own keys, the fallback places exactly the request's node ids: a stored position or the origin (about `ElkService.FallbackPass`) |
| ElkService.SomeChildInheritsSnoc | src/lib/layout/elk-service.ts:51-58 | an answer has an inheriting id iff its prefix or its last node does |
| ElkService.SomeNodeInheritsSnoc | src/lib/layout/elk-service.ts:73-75 | a node list has an inheriting id iff its prefix or its last node does |
| ElkService.LayoutPassPlainObject | src/lib/layout/elk-service.ts:51-66 | the code's first pass throws iff an unstored id names an `Object.prototype` member, and otherwise agrees with the own-key reading |
| ElkService.FallbackPassPlainObject | src/lib/layout/elk-service.ts:72-80 | the same holds for the fallback pass |
| ElkService.LayoutAsWrittenAgrees | src/lib/layout/elk-service.ts:47-82 | when no id names such a member, the code computes exactly the own-key layout (about `ElkService.Layout`) |
| ElkService.ToStringNodeRejected | src/lib/layout/elk-service.ts:58-75 | a node called `toString` makes the code's promise reject, while the own-key reading places it at the origin |
| ElkService.ReconcileChildren | src/lib/layout/elk-service.ts:49-68 | the loop computes the reconciled positions |
| ElkService.FallbackPositions | src/lib/layout/elk-service.ts:72-81 | the loop computes the fallback positions |
| ElkService.CalculateLayout | src/lib/layout/elk-service.ts:18-83 | always resolves: with the reconciled positions of ELK's answer, `{}` for an answer without children, or the fallback positions when ELK fails (equal to `ElkService.Layout` by own keys) |
| SimpleParser.FirstIndexOf | src/lib/utils/simple-parser.ts:48 | the first `[` of the text, or none iff there is none |
| SimpleParser.ParseNodeMatched | src/lib/utils/simple-parser.ts:46-54 | where `^([^\[]+)(?:\[(.*)\])?$` matches, the node is group 1, labelled by group 2 or, when that is missing or empty, by group 1 (about `SimpleParser.ParseNode`) |
| SimpleParser.ParseNodeUnmatched | src/lib/utils/simple-parser.ts:48-55 | where the pattern does not match, the raw text is both id and label (about `SimpleParser.ParseNode`) |
| SimpleParser.ApplyAllPrefix | src/lib/utils/simple-parser.ts:6 | reading one more line is one more step |
| SimpleParser.SetNodeWellFormed | src/lib/utils/simple-parser.ts:22-23 | `nodes.set` keeps the reader's state well formed and stores the id |
| SimpleParser.ApplyAllWellFormed | src/lib/utils/simple-parser.ts:6-38 | any sequence of lines keeps the ids distinct, the map and order in agreement, and the edge endpoints stored |
| SimpleParser.Nodes | src/lib/utils/simple-parser.ts:41 | `Array.from(nodes.values())` lists one node per id, in map order |
| SimpleParser.ReadLine | src/lib/utils/simple-parser.ts:6-38 | the callback updates the map, its key order and the edge list as the classified line says |
| SimpleParser.ParseMermaid | src/lib/utils/simple-parser.ts:1-44 | the nodes have distinct ids, every edge joins two of them, and the result is the fold of the classified lines |
| SimpleParser.ApplyAllAppend | src/lib/utils/simple-parser.ts:6 | reading two blocks of lines is reading the first, then the second |
| SimpleParser.SkipIgnored | src/lib/utils/simple-parser.ts:8 | a skipped line changes nothing |
| SimpleParser.ClassifiedAppend | src/lib/utils/simple-parser.ts:5-6 | classifying concatenated lines is concatenating the classifications (about `SimpleParser.Classify` over lines) |
| SimpleParser.SkippedLineIgnored | src/lib/utils/simple-parser.ts:8-15 | a blank line, a header, or an arrow line without exactly two sides can be removed without changing the result (about `SimpleParser.Classify`) |
| SimpleParser.EdgesAreArrowEdges | src/lib/utils/simple-parser.ts:13-30 | the edges are one per two-sided arrow line, in line order, named `e-source-target` |
| SimpleParser.LastMention | src/lib/utils/simple-parser.ts:22-35 | the index found is the last mention of the id |
| SimpleParser.HasIdSnoc | src/lib/utils/simple-parser.ts:22-35 | one more node mentions an id iff it was mentioned before or the new node carries it |
| SimpleParser.SetNodeTracks | src/lib/utils/simple-parser.ts:22-35 | `nodes.set` keeps the map equal to the last mention of each id |
| SimpleParser.LastMentionWins | src/lib/utils/simple-parser.ts:22-35 | the nodes are exactly the mentioned ids, each with the label of its last mention |
| SimpleParser.SetNodeOrder | src/lib/utils/simple-parser.ts:22-35 | `nodes.set` appends a new id and keeps an old one in place |
| SimpleParser.FirstMentionOrder | src/lib/utils/simple-parser.ts:22-41 | the nodes come out in the order their ids were first mentioned |

## Left out

- MessagePack and zlib are parameters (`UrlCodec.Codec`). Their own formats are not modelled, and `$state.snapshot` is the identity on the plain record.
- Coordinates are compared by Dafny equality on `Coord`. MessagePack writes `-0` as the integer `0`, and `NaN` is not equal to itself in JavaScript; `Lossless` treats two numbers as equal when the codec does not tell them apart, so these two cases are not distinguished.
- Type confusion inside an unpacked tuple is not modelled. A slot holding a value of the wrong type, such as a number where the settings pair belongs, is not considered. The model covers only missing slots.
- `String.fromCharCode(...u8)` can throw a `RangeError` when the argument list is very large. The model does not capture that limit.
- The 250 ms debounce delay is not modelled as time. A change re-arms the timer, and the expiry is a separate `TimerFire` event. Any run of events may therefore interleave expiries arbitrarily.
- Svelte re-runs the effect only when a read field actually changes. The model treats every assignment as a change.
- The `{ ...restored.positions }` copy in `init()` is modelled as the value it copies.
- `UrlSync.UrlStore`'s methods leave `isTooLarge` unchanged, because the code never assigns it.
- `console.error` in the layout fallback is output only and is not modelled.
- ELK itself is a parameter of `ElkService.Layout`. Its error is the answer `None`, and its layout algorithm is not modelled.
- The order of the keys of the returned position record is not modelled: records are `map`s.
- `ElkService.ElkDirection` requires that the direction not name an `Object.prototype` member. The declared option type admits only the five codes, so the inherited-member lookup is left out.
- `ElkService.CalculateLayout` reads stored positions by own keys only; the reading as written is `ElkService.Layout` with `PlainObject` (see Findings).
- An own `__proto__` key in a position record: assigning `positions['__proto__']` on a plain object changes its prototype rather than storing a key. The model stores it as a key.
- Strings are sequences of Dafny `char`s, which are Unicode scalar values, not the UTF-16 code units of JavaScript: a character outside the Basic Multilingual Plane has length 1 here and 2 in JavaScript. Every character the core compares against (`\n`, `-->`, `[`, `]`, `#`, `=`, the base64 alphabets, the white space of `trim`, listed in `JsStrings.IsJsWhitespace`) is in the Basic Multilingual Plane, so `split`, `trim`, the node pattern and the decoder give the same pieces on well-formed text; only lengths and indices of such pieces count differently.
- Lone surrogates (a JavaScript string holding half of a UTF-16 pair) cannot be represented as Dafny strings and are not modelled.
- `mermaid-parser.ts` and the theme store are not part of this model.

## Findings

| source | as written | input that shows it | evidently intended | confidence | as-written member | corrected member |
|---|---|---|---|---|---|---|
| src/lib/layout/elk-service.ts:58-75 | `existingPositions[id]` is read on a plain object, so an id with no stored position that names an `Object.prototype` member (`toString`, `constructor`, …) reads a function. The `const [x, y] = …` destructuring then throws, in the `catch` block too, and the promise rejects | a diagram with a single node `toString` and no stored positions | test for a stored position of the node itself, so that every node is placed (the comment at line 54 says "check if node exists") | not executed; medium | ElkService.ToStringNodeRejected | ElkService.CalculateLayout |
