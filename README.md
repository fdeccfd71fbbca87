# Batch bytecode and receipt queries: a verified model

The query page takes a batch of contract addresses or transaction hashes as
free text. It normalises the text into an ordered list of identifiers. Then it
asks a JSON-RPC node, one identifier at a time, for the bytecode at each
address (`getCode`) or the receipt of each transaction
(`getTransactionReceipt`). The result is one entry per identifier, in input
order. An empty identifier, a missing contract or receipt, and a failed call
each produce their own entry, and none of them stops the batch.

The model has four modules:

- `JsValues` (`js_values.dfy`): the values `JSON.parse` can produce, with
  JavaScript's falsiness on them. It also holds `Option` (a value or `null`)
  and `Outcome` (a settled remote call: a value, or an error's `message`).
- `Text` (`text.dfy`): `split` on a one-character separator, with `Join` as its
  inverse, and ECMAScript's `trim` with its exact set of whitespace and
  line-terminator characters.
- `Normalizer` (`normalizer.dfy`): `parseInput`. The outcome of `JSON.parse` on
  the text is a parameter (`Parsed(value)` or `Fails`), since the parser itself
  is a library call. `ParseConsistent` lists facts that every real parse outcome
  satisfies. Lemmas that must hold whatever the parser did assume only those
  facts.
- `BatchQuery` (`batch_query.dfy`): the loops of `handleContractQuery` and
  `handleTxQuery`. They are imperative methods that append to a sequence under
  positional invariants. The node is a function parameter
  (`getCode: JsValue -> Outcome<string>`,
  `getReceipt: JsValue -> Outcome<Option<R>>`). Each loop also returns
  `queried`, the identifiers it passed to the node, in call order. `Entry` is
  the untagged shape the page really builds: a bare notice string, or an object
  keyed by the identifier. `Status` is the tagged reading of an entry (invalid,
  found, not found, failed). `ReadContract`/`ReadTx` recover the tag from an
  entry.

Two behaviours of `parseInput` worth knowing:

- The elements of a parsed JSON array are returned as they are. They are not
  trimmed and not converted to strings, so `["  "]` is queried with `"  "`, and
  `[0]` gives an invalid-input notice because `0` is falsy.
- `"[0xAA, oops"` splits into `"[0xAA"` and `"oops"`, and the second piece is
  trimmed like every other piece.

## Model

| member | source | states |
|---|---|---|
| `Text.Trim` | src/App.jsx:20 | `trim()` returns a contiguous piece of its input, with only whitespace removed on either side, and the result has whitespace at neither end |
| `Text.TrimIdempotent` | src/App.jsx:20 | trimming an already trimmed piece changes nothing |
| `Text.Split` | src/App.jsx:20 | `split(',')` always yields at least one piece, and no piece contains the separator |
| `Text.SplitCount` | src/App.jsx:20 | splitting yields exactly one more piece than the text has separators (`""` gives one piece) |
| `Text.JoinSplit` | src/App.jsx:20 | joining the pieces with the separator gives back the original text, so splitting loses nothing |
| `Text.SplitJoin` | src/App.jsx:20 | splitting a join of separator-free pieces gives back exactly those pieces, in order |
| `Normalizer.SplitTrim` | src/App.jsx:20 | the comma split of a text has (number of commas) + 1 identifiers, each a string with no comma and no whitespace at either end |
| `Normalizer.ParseInput` | src/App.jsx:14-22 | total, so it never fails. A parsed array comes back unchanged. A parsed string `s` gives exactly `s.split(',').map(trim)`. A failed parse, or a parsed number, boolean, `null` or object, gives the comma split of the raw text. The list is empty only for a parsed empty array |
| `Normalizer.PlainTextFallsBack` | src/App.jsx:15-21 | text that, once trimmed, starts with neither `[` nor `"` gives the raw comma split, whatever `JSON.parse` made of it |
| `Normalizer.EmptyInput` | src/App.jsx:17-20 | empty input yields the single identifier `""` |
| `Normalizer.SplitTrimJoin` | src/App.jsx:20 | comma-separated items come back one identifier each, trimmed, in the order typed |
| `Normalizer.UnclosedArrayFallsBack` | src/App.jsx:17-20 | text that opens `[` without closing it is not reported as an error. It is split on its raw commas, bracket included |
| `BatchQuery.ContractEntryOf` | src/App.jsx:30-46 | an address gives the fixed notice exactly when it is falsy. Otherwise it gives a record keyed by that same address |
| `BatchQuery.ContractEntryReadsBack` | src/App.jsx:37-46 | when the node answers with hex data, an entry determines its outcome. `'0x'` means no contract. An error means a failure carrying the error's message after the `Error fetching bytecode: ` prefix. Any other code is found and carried verbatim |
| `BatchQuery.ContractEntryAmbiguous` | src/App.jsx:39-43 | a code equal to `No contract found.` would show the same as a missing contract, so the read-back needs hex-shaped codes |
| `BatchQuery.ContractBatch` | src/App.jsx:27-47 | one entry per address, the same length as the input. Entry *i* depends only on address *i* and the node's answer for it, so duplicates get their own entries and one failure touches no position holding a different identifier. Duplicates receive identical answers, since the node is a function of the identifier. Calls go to exactly the truthy addresses, in order, and each call yields exactly one record |
| `BatchQuery.HandleContractQuery` | src/App.jsx:24-47 | the handler's result list is `ContractBatch` applied to `ParseInput` of the input, so it has one entry per normalised identifier, and the record keys, in order, are the calls made |
| `BatchQuery.TxEntryOf` | src/App.jsx:58-74 | a hash gives the fixed notice exactly when it is falsy. Otherwise it gives a record keyed by that same hash |
| `BatchQuery.TxEntryReadsBack` | src/App.jsx:65-74 | every transaction entry determines its outcome. A receipt object means found, carried unmodified. `Transaction receipt not found.` means a null receipt. The `Error fetching transaction receipt: ` prefix means a failure, with the error's message after it |
| `BatchQuery.TxBatch` | src/App.jsx:55-75 | one entry per hash, entry *i* from hash *i* alone, so one failure touches no position holding a different hash. Duplicates receive identical answers, since the node is a function of the hash. The node is called for exactly the truthy hashes, in order, and each call yields exactly one record |
| `BatchQuery.HandleTxQuery` | src/App.jsx:52-75 | the handler's result list is `TxBatch` applied to `ParseInput` of the input, and the record keys, in order, are the calls made |
| `BatchQuery.Queried` | src/App.jsx:29-37 | the identifiers sent to the node are never falsy, and there are no more of them than identifiers |
| `BatchQuery.CallsPerIdentifier` | src/App.jsx:29-37 | a truthy identifier is looked up once per occurrence, so duplicates are queried independently. A falsy one is never looked up |
| `BatchQuery.RecordsMatchCalls` | src/App.jsx:29-47 | the keys of the records, in order, are exactly the calls made. Notices stand for falsy identifiers and make no call |

## Left out

- React state and rendering (`useState`, `setBytecodes`, `setTxDetails`, the JSX): presentation. The loops are modelled up to the point where they hand over the finished list.
- `downloadJson`: a browser download through Blob, DOM and object-URL APIs.
- `ethers.JsonRpcProvider` and the fixed endpoint URL: a network client. Each handler builds a new provider, and the model replaces it by the function parameters `getCode` and `getReceipt`. These answer deterministically for each identifier within one run.
- `async`/`await`: the calls are awaited one after another with no interleaving, so they are modelled as ordinary sequential calls.
- `JSON.parse` and `JSON.stringify`: library calls. The outcome of the parse is an input. `ParseConsistent` states only a few necessary facts about it, not the JSON grammar.
- JavaScript numbers are modelled as reals, so float rounding in the parser is not captured.
- The text an error shows is `${error.message}`. The model takes that text from the oracle's `Err(message)`, so a thrown non-Error value whose message reads `undefined` is covered only through what the oracle reports.
- Strings are sequences of code points. JavaScript's UTF-16 code units and surrogate pairs are not modelled.
- `SplitTrimJoin` states for every comma-free list of items what `"0xAA, 0xBB ,0xCC"` shows for one: each item comes back trimmed, in order. `UnclosedArrayFallsBack` states for every text that opens `[` without closing it what `"[0xAA, oops"` shows: the raw comma split. No lemma evaluates one particular string literal.
- A rejection value without a readable `message` is not modelled. If `getCode` or `getTransactionReceipt` rejected with `null` or `undefined`, reading `error.message` would throw inside the `catch`. The handler would then reject, the rest of the batch would be skipped and the state would never be set. The model assumes every rejection carries a message (`Outcome.Err(message)`), so every batch runs to completion.
- The node is a function of the identifier, so two lookups of the same identifier in one batch get the same answer. A node that answers the first lookup of `0xAA` with an error and the second with code is not modelled.
