# Onion routing network: node registry and onion router

This project models two parts of a small onion routing network written in
TypeScript, and proves properties about them in Dafny.

**The node registry** (`src/registry/registry.ts`) is one process. It keeps a
table of `{nodeId, pubKey}` records and answers two requests:

- `/registerNode` adds a record when the `nodeId` is new, and then answers
  with the whole table. When the `nodeId` is already taken, it answers with
  status 400 and the error "Node already registered with the given ID.".
  The stored `pubKey` is a key the registry generates itself for the new
  record, not the key the request carries.
- `/getNodeRegistry` answers with the table as it is.

The table is the `nodes` field of the class `Registry.NodeRegistry`. Each
handler is a method of that class. In the source the table is a module-level
constant (`src/registry/registry.ts:19`) that lives outside `launchRegistry`,
so one class instance stands for the module's table, not for one
`launchRegistry` call: a second launch in the same process starts with the
earlier records. The pure functions `Registry.Find` and
`Registry.Register` specify `RegisterNode`. `Registry.RegisterAll` is the
table after a whole sequence of requests, which the lemmas about
registration sequences talk about.

**The onion router** (`src/onionRouters/simpleOnionRouter.ts`) is also one
process. It peels one layer off every message posted to `/message`:

1. It cuts the message after 344 characters.
2. It RSA-decrypts the first part. This yields a symmetric key.
3. It decrypts the rest with that key.
4. It reads the first 10 characters of the plaintext with `parseInt(_, 10)`.
   The result is the next hop.
5. It keeps the rest of the plaintext as the remainder.
6. It records the message, the remainder and the hop in three diagnostic
   variables.
7. It posts the remainder to `http://localhost:<hop>/message`.

The diagnostic variables are fields of the class
`OnionRouter.SimpleOnionRouter`, which also has their getters. A fourth field,
`lastMessageSource`, is never written.

The two decryptions are opaque functions, and either one may fail. The
forward is returned as a value (`Forwarded(ForwardRequest(port, body))`)
instead of being sent. `JsString` models just enough of JavaScript for the
peel step:

- `String.prototype.slice` with a non-negative constant bound;
- `parseInt(s, 10)` as defined in section 19.2.5 of ECMA-262. It skips
  leading white space and line terminators, takes an optional sign, then
  the longest run of decimal digits. NaN is the result when there is no
  digit.

The split point 344 is the padded base64 length of one 2048-bit RSA block:
256 bytes give 4·⌈256/3⌉ = 344 characters under section 4 of RFC 4648.

Some details of the code that the model keeps as written:

- The registry stores a freshly generated key, and the caller's `pubKey` is
  never read.
- `lastReceivedDecryptedMessage` holds the remainder after the hop field,
  not the whole plaintext.
- The hop is used directly as a port. No registry lookup turns it into an
  address.
- The split point 344 is a literal in the code. It is not computed from the
  key.
- The registry has no endpoint that looks up a single node, so there is no
  "not found" answer.

## Model

| member | source | states |
|---|---|---|
| Registry.Find | src/registry/registry.ts:32 | `find` finds nothing exactly when no record has the id; what it finds is a record of the table with that id |
| Registry.FindReturnsFirst | src/registry/registry.ts:32 | `find` returns the first record with the id |
| Registry.Register | src/registry/registry.ts:30-51 | a taken id gives status 400 with the fixed error text and leaves the table as it was; a new id appends exactly one record `{nodeId, generated key}` at the end, keeping all earlier records in order, and answers with the whole new table; the no-shared-id invariant is preserved in both branches |
| Registry.FindAppend | src/registry/registry.ts:32-46 | how a lookup behaves after one record is appended: an id already present still finds its old record, a new id finds the appended one |
| Registry.RegisteredNodeHasGeneratedKey | src/registry/registry.ts:31-46 | after a successful registration a lookup of the requested id finds a record whose `pubKey` is the registry-generated key, not the request body's |
| Registry.Distinct | src/registry/registry.ts:32-50 | the distinct elements of a sequence: the same members, no element twice, and in the order of their first occurrences (wherever an element occurs, every element listed before it has already occurred) |
| Registry.RegisterAllIds | src/registry/registry.ts:19-50 | after any sequence of registrations from the empty table, the table's ids are the distinct requested ids in order of first request, and no two records share an id |
| Registry.RegisterAllIdSet | src/registry/registry.ts:19-50 | after any sequence of registrations, the set of ids in the table equals the set of requested ids |
| Registry.RegisterAllFirstKeyWins | src/registry/registry.ts:32-50 | the record kept for an id holds the key generated for the first request with that id; later requests for it never replace it |
| Registry.NodeRegistry.constructor | src/registry/registry.ts:19 | the table starts empty, which satisfies the no-shared-id invariant |
| Registry.NodeRegistry.RegisterNode | src/registry/registry.ts:30-51 | `/registerNode` keeps the invariant; its new table and its answer are those of `Register` on the old table |
| Registry.NodeRegistry.GetNodeRegistry | src/registry/registry.ts:53-55 | `/getNodeRegistry` answers with the current table and changes nothing |
| JsString.SliceTo | src/onionRouters/simpleOnionRouter.ts:57 | `slice(0, n)` is a prefix of the string, with length `min(n, length)` |
| JsString.SliceFrom | src/onionRouters/simpleOnionRouter.ts:58 | `slice(n)` is what follows `slice(0, n)`; together they make the whole string |
| JsString.DecimalValue | src/onionRouters/simpleOnionRouter.ts:59 | the base-10 value of a digit string, each digit multiplying what precedes it by ten, is below 10 to the power of its length |
| JsString.TrimStartDropsWhiteSpace | src/onionRouters/simpleOnionRouter.ts:59 | the white-space skipping of `parseInt` drops a prefix made only of white space and leaves a suffix that does not start with white space |
| JsString.LeadingDigits | src/onionRouters/simpleOnionRouter.ts:59 | the digit run `parseInt` reads is an all-digit prefix that stops at the end or at a non-digit |
| JsString.TrimStartNoWhiteSpace | src/onionRouters/simpleOnionRouter.ts:59 | a string that does not open with white space is not trimmed |
| JsString.DecimalValueLeadingZeros | src/onionRouters/simpleOnionRouter.ts:59 | leading zeros do not change a digit string's value |
| JsString.ZerosValue | src/onionRouters/simpleOnionRouter.ts:59 | a run of zeros has value zero |
| JsString.DecimalValuePadded | src/onionRouters/simpleOnionRouter.ts:59 | the value of a zero-padded decimal rendering is the number written |
| JsString.LeadingDigitsOfRun | src/onionRouters/simpleOnionRouter.ts:59 | the digit run read from `d + rest` is `d` when `rest` does not start with a digit |
| JsString.ParseInt10DigitRun | src/onionRouters/simpleOnionRouter.ts:59 | `parseInt(d + rest, 10)` is the value of the digit run `d`, whatever follows the first non-digit |
| JsString.ParseInt10AllDigits | src/onionRouters/simpleOnionRouter.ts:59 | a non-empty all-digit string parses to its base-10 value |
| JsString.ParseInt10Negative | src/onionRouters/simpleOnionRouter.ts:59 | a minus sign before a digit run negates its value |
| JsString.ParseSignedMinus | src/onionRouters/simpleOnionRouter.ts:59 | once white space is gone, a minus sign before a digit run negates its value |
| JsString.ParseInt10SkipsWhiteSpace | src/onionRouters/simpleOnionRouter.ts:59 | leading white space does not change what `parseInt` returns |
| JsString.TrimStartSkips | src/onionRouters/simpleOnionRouter.ts:59 | trimming removes any all-white-space prefix |
| JsString.ParseInt10NoDigit | src/onionRouters/simpleOnionRouter.ts:59 | a string with no decimal digit parses to NaN |
| JsString.ParseInt10IgnoresLeadingZeros | src/onionRouters/simpleOnionRouter.ts:59 | leading zeros before a digit string do not change what `parseInt` returns |
| JsString.ParseInt10Padded | src/onionRouters/simpleOnionRouter.ts:59 | `parseInt` reads back a zero-padded decimal rendering of width at least one |
| OnionRouter.Base64Length | src/onionRouters/simpleOnionRouter.ts:57 | the padded base64 length of `n` bytes is the fewest whole 4-character groups whose 3-byte capacity covers `n` |
| OnionRouter.SplitPointIsOneRsaBlock | src/crypto.ts:32 | the split point 344 is the base64 length of one 256-byte block of a 2048-bit RSA key |
| OnionRouter.DecryptLayer | src/onionRouters/simpleOnionRouter.ts:57-58 | the layer yields a plaintext exactly when the RSA decryption of the first 344 characters succeeds and the symmetric decryption of the rest under that key succeeds; the plaintext is the symmetric decryption's result |
| OnionRouter.LayerSplits | src/onionRouters/simpleOnionRouter.ts:57-58 | the RSA block is the first `min(344, length)` characters, and it and the symmetric block make the whole message |
| OnionRouter.PeelDigitHop | src/onionRouters/simpleOnionRouter.ts:59-60 | a plaintext opening with 10 decimal digits peels to the hop that is their base-10 value and to the rest of the plaintext |
| OnionRouter.PeelPaddedHop | src/onionRouters/simpleOnionRouter.ts:59-60 | a plaintext written as a zero-padded 10-digit port and a body peels back to that port and that body |
| OnionRouter.PeelLeadingZerosExample | src/onionRouters/simpleOnionRouter.ts:59-60 | the hop field "0000003001" names port 3001 |
| OnionRouter.PlaintextSplits | src/onionRouters/simpleOnionRouter.ts:59-60 | the plaintext is its 10-character hop field followed by the remainder, so the remainder is 10 characters shorter (empty for a shorter plaintext) |
| OnionRouter.HandleMessageRejects | src/onionRouters/simpleOnionRouter.ts:57-64 | the handler fails before any write exactly when a decryption fails, and then the diagnostic state is unchanged |
| OnionRouter.HandleMessageRecords | src/onionRouters/simpleOnionRouter.ts:57-64 | after a successful peel the state holds the incoming message, the plaintext after its hop field and the parsed hop, whatever it held before; `lastMessageSource` is untouched |
| OnionRouter.HandleMessageForwards | src/onionRouters/simpleOnionRouter.ts:59-72 | a forward carries exactly the recorded remainder to the recorded hop used as a port, and is made exactly when that hop is a valid port; otherwise the URL is invalid and the handler fails after its writes |
| OnionRouter.HandleMessageExample | src/onionRouters/simpleOnionRouter.ts:55-72 | a layer with plaintext "0000003001hello" arriving at a fresh router is recorded, and "hello" is forwarded to port 3001 |
| OnionRouter.ReplayReflectsLatest | src/onionRouters/simpleOnionRouter.ts:13-16 | after any sequence of messages the state reflects only the latest message that peeled, or the starting state when none did |
| OnionRouter.SourceStaysNull | src/onionRouters/simpleOnionRouter.ts:15 | from the initial state `lastMessageSource` stays `null` whatever messages arrive |
| OnionRouter.SimpleOnionRouter.constructor | src/onionRouters/simpleOnionRouter.ts:13-20 | the four diagnostic variables start `null`; the node id and the key pair are fixed for the router's lifetime |
| OnionRouter.SimpleOnionRouter.ReceiveMessage | src/onionRouters/simpleOnionRouter.ts:55-74 | `/message` takes the router's state and result to those of `HandleMessage`, so every property proved of `HandleMessage` holds of the router |
| OnionRouter.SimpleOnionRouter.GetLastReceivedEncryptedMessage | src/onionRouters/simpleOnionRouter.ts:30-32 | answers with the current `lastReceivedEncryptedMessage` and changes nothing |
| OnionRouter.SimpleOnionRouter.GetLastReceivedDecryptedMessage | src/onionRouters/simpleOnionRouter.ts:35-37 | answers with the current `lastReceivedDecryptedMessage` and changes nothing |
| OnionRouter.SimpleOnionRouter.GetLastMessageDestination | src/onionRouters/simpleOnionRouter.ts:40-42 | answers with the current `lastMessageDestination` and changes nothing |

## Left out

- RSA-OAEP and AES-CBC decryption, and the base64 conversions around them, in `src/crypto.ts` (including the all-zero IV at lines 174 and 194). They are calls into the `webcrypto` library with no logic of their own, so the router takes them as opaque functions that may fail.
- Key generation and export (`src/registry/registry.ts:36-39`, `src/onionRouters/simpleOnionRouter.ts:18-21`). It is random, so the registry takes the exported key as a parameter of each registration, and the router takes its decryption under its private key as a constructor parameter.
- `generatePrivateKey` and both `/getPrivateKey` handlers (`src/registry/registry.ts:57-60, 69-73`, `src/onionRouters/simpleOnionRouter.ts:77-79`). They are random bytes or a key export with no other logic.
- The HTTP layer: the Express set-up, `/status`, `listen`, `console.log` and JSON encoding of the answers. In particular, `/getLastMessageDestination` after a NaN hop sends `{result: null}` (`src/onionRouters/simpleOnionRouter.ts:41`), which on the wire looks like "no message yet", while `GetLastMessageDestination` returns `Some(NaN)`.
- The router's start-up registration request to the registry (`src/onionRouters/simpleOnionRouter.ts:44-54`). It is network I/O whose answer is only logged.
- The forward itself (`src/onionRouters/simpleOnionRouter.ts:66-72`) and the final `"sucess"` answer (line 73). The forward is returned as a value. A network failure after a valid URL is not distinguished from a forward that was made.
- Interleaving of concurrent requests. Each handler is one atomic step. In the source, `/registerNode` awaits key generation between its lookup and its `push`, so two concurrent requests for the same new id may both pass the lookup and both be stored. The no-shared-id invariant holds only for requests handled one at a time.
- A handler that throws. `/message` (`src/onionRouters/simpleOnionRouter.ts:55-74`) and `/registerNode` (`src/registry/registry.ts:30-51`) are `async` handlers without a `try`/`catch`. When a decryption, the forward's `fetch` (for an invalid URL or a network failure) or key generation or export (`src/registry/registry.ts:36, 39`) fails, the request gets no answer. Depending on the Express and Node versions, which these files do not fix, the rejection can end the process. The model assumes the process survives and keeps serving: `Rejected` and `InvalidHop` are ordinary outcomes, and `Replay` and `RegisterAll` go on to handle later requests. A failed key generation itself is not modelled; in the source it leaves the table unchanged.
- JavaScript numbers: `nodeId` and the parsed hop are unbounded integers here, not IEEE doubles. `parseInt` of very long digit runs, which loses precision in JavaScript, is therefore exact here.
- JavaScript strings are sequences of UTF-16 code units, while a Dafny `string` is a sequence of characters. `slice` agrees with `SliceTo`/`SliceFrom` only when no character before the cut point lies outside the Basic Multilingual Plane. Each such character is two code units in JavaScript and one `char` here, so it moves the JavaScript cut one character earlier.
- A `/message` body whose `message` is missing or is not a string. In the source, `slice`, or for an array one of the decryptions (`src/crypto.ts:112, 195`), then throws before any write.
- `src/users/user.ts`, whose only logic is one assignment. No file builds onion envelopes, so neither envelope building nor the end-to-end round trip is part of this model.
