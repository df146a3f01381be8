# xmas-letters letter client core, modelled in Dafny

The xmas-letters app lets a sender put a short secret letter on the Aztec
network for one recipient. This project models the client-side core of that
exchange:

- **The text <-> field codec** (`app/lib/aztec.ts`). A message is UTF-8-encoded
  and cut to 31 bytes. It is then zero-padded to exactly 31 bytes and read as
  one big-endian field element. Decoding serialises the field, strips the
  trailing zero bytes and UTF-8-decodes what is left. Like `new TextDecoder()`
  with its default `ignoreBOM: false`, the decoding drops a leading byte-order
  mark (U+FEFF, bytes EF BB BF).
- **The send form's submit handler** (`handleSubmit` in
  `app/components/SendLetterForm.tsx`). It runs four ordered checks, calls the
  parent's `onSend` once, and updates the state cells `recipient`, `message`,
  `isSending` and `error`.
- **The PXE session** (`app/lib/wallet.ts`). It keeps a memoised PXE client and
  answers the queries for registered and default accounts.
- **The contract client** (`app/lib/contract.ts`). It keeps a memoised contract
  handle behind a configuration check, sends a letter and classifies the
  receipt, and fetches letters.

Files, one module each:

| file | module | models |
|---|---|---|
| `wrappers.dfy` | `Wrappers` | Option / Result / Outcome in place of thrown errors |
| `text.dfy` | `Text` | TextEncoder/TextDecoder (UTF-8 after section 3 of RFC 3629), JavaScript `length` (UTF-16 code units), `String.prototype.trim` |
| `aztec_sdk.dfy` | `AztecSdk` | the SDK boundary: addresses, the address parser, PXE and contract handles, receipts, the request log, the network's answers |
| `aztec.dfy` | `Aztec` | `app/lib/aztec.ts` |
| `wallet.dfy` | `Wallet` | `app/lib/wallet.ts`, as class `Session` |
| `contract.dfy` | `Contract` | `app/lib/contract.ts`, as class `Letterbox` |
| `send_letter_form.dfy` | `SendLetterForm` | `handleSubmit`, as class `Form` |

How the model is set up:

- The module-level caches `pxeInstance` and `contractInstance` become fields
  of the classes `Session` and `Letterbox`. Their methods say exactly how the
  fields change.
- The SDK's `Fr` is its integer value. `Fr.fromBuffer` is read as big-endian.
  `toBuffer` writes in a width given as a parameter.
- `AztecAddress.fromString` is a parameter: a function from a string to an
  address or an error message.
- Each network step is answered by an `Answers` record passed to the
  top-level call: whether waitForPXE succeeds, the account list, whether
  `at(...)` succeeds, the sent transaction, the receipt, the incoming notes.
- Every request that reaches the PXE service is appended to
  `Session.requests`. Statements such as "no PXE call before the
  configuration check" and "one submission per send" are stated over that log.
- `onSend` is external to the form. How its promise settles is an input of
  `Form.HandleSubmit`, and the call it receives is returned.

Behaviour of the code that the model keeps as written:

- The form limits the message by `message.length` (UTF-16 code units), while
  the field holds 31 bytes. Nothing between the form and the codec enforces
  31 bytes, and `FormAcceptsLossyMessage` shows a message the form accepts
  that arrives shortened.
- `getPXE` caches the client before `waitForPXE` finishes. A failed wait
  therefore leaves a cached client that later calls return without waiting
  (`Session.GetPxe`, `PoisonedCache`).
- `fetchLetters` queries incoming notes and then always returns an empty
  list, whatever notes come back.
- `sendLetter` does no input validation of its own. The checks live only in
  the form.
- The text round trip needs the message not to end in a NUL character, and
  a leading U+FEFF does not survive it (`LeadingBomIsDropped`).
- The round trip holds only when the field is serialised in exactly 31
  bytes. For a non-empty message, a wider serialisation keeps leading zero
  bytes that end up in the decoded text (`WideSerialisation`).

## Model

| member | source | states |
|---|---|---|
| `Text.Utf8Encode` | app/lib/aztec.ts:9-10 | TextEncoder: each character takes one to four bytes |
| `Text.DecodeEncode` | app/lib/aztec.ts:35-36 | `Utf8Decode`, the UTF-8 decoding step of TextDecoder, undoes TextEncoder: decoding the encoding of any string gives back the string |
| `Text.EncodeDecode` | app/lib/aztec.ts:35-36 | whatever the UTF-8 decoding step accepts re-encodes to the same bytes, so it accepts only canonical UTF-8 |
| `Text.EncodingStartsWithBom` | app/lib/aztec.ts:35-36 | an encoding starts with EF BB BF exactly when the string starts with U+FEFF, and then the rest of the encoding is the encoding of the rest |
| `Text.TextDecodeEncode` | app/lib/aztec.ts:9-36 | `TextDecode`, which is `new TextDecoder().decode` (a leading EF BB BF skipped, the rest UTF-8-decoded), after TextEncoder gives the string with one leading U+FEFF removed; any string not starting with U+FEFF comes back unchanged |
| `Text.TextEncodeDecode` | app/lib/aztec.ts:35-36 | what TextDecoder returns re-encodes to the input bytes, behind EF BB BF when the input started with it |
| `Text.Utf8EncodeEndsInZero` | app/lib/aztec.ts:30-33 | an encoding ends in a zero byte exactly when the string ends in NUL, which is why the strip loop only removes padding from NUL-free text |
| `Text.Utf8LengthBound` | app/components/SendLetterForm.tsx:37 | a string's code-unit length lies between its character count and twice that; its UTF-8 size is at most three bytes per code unit; for ASCII all three counts agree |
| `Text.Utf16Length` | app/components/SendLetterForm.tsx:37 | `length` counts one or two code units per character, and equals the character count exactly when no character is above U+FFFF |
| `Text.Trim` | app/components/SendLetterForm.tsx:22 | `trim()` gives a string no longer than its input, empty or starting and ending with a non-whitespace character |
| `Text.TrimEmptyIffBlank` | app/components/SendLetterForm.tsx:22 | `!s.trim()` holds exactly when every character of s is JavaScript whitespace or a line terminator |
| `Aztec.FromBuffer` | app/lib/aztec.ts:19 | big-endian reading: the value's lowest byte is the buffer's last byte |
| `Aztec.ToBuffer` | app/lib/aztec.ts:27 | the serialisation has exactly the requested width and ends in the value's lowest byte |
| `Aztec.FromBufferBound` | app/lib/aztec.ts:19 | a buffer of n bytes reads as a value below 256^n, so 31 bytes stay below 256^31 |
| `Aztec.ToBufferOfFromBuffer` | app/lib/aztec.ts:27 | serialising a buffer's value in width >= its length gives the buffer after width - length zero bytes; in its own length, the buffer itself |
| `Aztec.FromBufferOfToBuffer` | app/lib/aztec.ts:19 | reading back a serialised value gives the value whenever it fits the width |
| `Aztec.Truncate` | app/lib/aztec.ts:13 | `slice(0, n)` keeps min(length, n) bytes and they are a prefix of the input |
| `Aztec.PadToFieldWidth` | app/lib/aztec.ts:13-17 | the buffer has exactly 31 bytes for any input length; it starts with the first min(n, 31) input bytes and is zero after them |
| `Aztec.StringToField` | app/lib/aztec.ts:8-20 | the field is the padded 31-byte encoding read big-endian; serialising it in 31 bytes gives back the padded buffer |
| `Aztec.EncodedFieldBound` | app/lib/aztec.ts:6 | every encoded message is below 256^31, so it fits the 31 bytes of a field element |
| `Aztec.PaddedIgnoresTail` | app/lib/aztec.ts:12-13 | two encodings that agree on their first 31 bytes give the same padded buffer and the same field, so over-long input is cut silently |
| `Aztec.StripTrailingZeros` | app/lib/aztec.ts:30-33 | the result is a prefix of the input and is empty or ends in a non-zero byte |
| `Aztec.StripShape` | app/lib/aztec.ts:30-33 | stripping keeps a prefix, removes only zero bytes, and leaves a non-zero last byte when anything is left |
| `Aztec.StripAt` | app/lib/aztec.ts:30-33 | a cut point with only zeros after it and a non-zero byte before it is exactly where stripping ends |
| `Aztec.StripIdempotent` | app/lib/aztec.ts:30-33 | stripping twice is the same as stripping once |
| `Aztec.StripKeepsNonZeroEnd` | app/lib/aztec.ts:30-33 | a buffer that is empty or does not end in a zero byte is returned unchanged |
| `Aztec.StripPadding` | app/lib/aztec.ts:15-17 | appending zero padding does not change what stripping returns |
| `Aztec.TrailingZeroStart` | app/lib/aztec.ts:30-33 | the loop ends with 0 <= end <= length, only zeros from end on, and a non-zero byte at end-1 when end > 0; the kept bytes are the stripped buffer |
| `Aztec.FieldToString` | app/lib/aztec.ts:25-37 | the result is the decoding of the serialised field with its trailing zero bytes removed |
| `Aztec.PaddedSerialises` | app/lib/aztec.ts:16-27 | serialising the field of a padded buffer in 31 bytes gives the padded buffer |
| `Aztec.ByteRoundTrip` | app/lib/aztec.ts:8-37 | through a 31-byte field the bytes come back as the first 31 bytes with trailing zeros removed; exactly the input when it has at most 31 bytes and no trailing zero |
| `Aztec.TextRoundTripTruncates` | app/lib/aztec.ts:8-37 | in general a message comes back as its first 31 UTF-8 bytes, stripped and decoded by TextDecoder |
| `Aztec.TextRoundTrip` | app/lib/aztec.ts:8-37 | a message of at most 31 UTF-8 bytes that does not end in NUL comes back with one leading U+FEFF removed, so exactly itself when it does not start with U+FEFF |
| `Aztec.PaddedOfStripped` | app/lib/aztec.ts:13-33 | padding the stripped first 31 bytes gives the same 31-byte buffer as padding the input |
| `Aztec.StrippedKeepsBom` | app/lib/aztec.ts:13-33 | the stripped first 31 bytes start with EF BB BF exactly when the input does |
| `Aztec.ReencodeFixedPoint` | app/lib/aztec.ts:8-37 | re-encoding a decoded letter yields the field it came from; when the message started with U+FEFF the decoded text needs that character put back first |
| `Aztec.LeadingBomIsDropped` | app/lib/aztec.ts:35-36 | U+FEFF followed by "hi" decodes to "hi", whose field differs from the original one |
| `Aztec.WideSerialisation` | app/lib/aztec.ts:27-33 | serialised in more than 31 bytes, the field gains leading zero bytes that the strip does not remove whenever the message is not empty |
| `Aztec.IsValidAztecAddress` | app/lib/aztec.ts:42-48 | total (never throws); true exactly when the address parser accepts the string |
| `Wallet.EnvOr` | app/lib/wallet.ts:6 | an unset or empty environment value gives the fallback, any other value is used as is |
| `Wallet.AddressesOf` | app/lib/wallet.ts:29-30 | the addresses of the registered accounts, same count, same order |
| `Wallet.FirstAccount` | app/lib/wallet.ts:38-41 | fails with the no-accounts error exactly when the list is empty; otherwise the first address |
| `Wallet.DefaultAccountFrom` | app/lib/wallet.ts:36-42 | for a listed account set: the no-accounts error exactly when it is empty, else the first account's address; a failed listing passes its error through |
| `Wallet.Session.constructor` | app/lib/wallet.ts:6-8 | PXE_URL is the configured node URL or the default endpoint; nothing cached, nothing sent |
| `Wallet.Session.GetPxe` | app/lib/wallet.ts:13-22 | a cached client is returned with no new client and no request; otherwise one client is created and cached before the wait, so the cache is set even when the wait fails; at most one client is ever created |
| `Wallet.Session.GetAccounts` | app/lib/wallet.ts:27-31 | getPXE's error, or the registered accounts' addresses in order after one account request |
| `Wallet.Session.GetDefaultAccount` | app/lib/wallet.ts:36-42 | getPXE's error, the listing's error, the no-accounts error for an empty list, or the first account |
| `Wallet.Session.RegisterAccount` | app/lib/wallet.ts:48-53 | always fails: with getPXE's error, otherwise with "not yet implemented" |
| `Wallet.PoisonedCache` | app/lib/wallet.ts:18-19 | after a failed first wait, the next getPXE succeeds with the never-ready client; one client was created and cached, and the log holds the single wait |
| `Contract.CheckReceipt` | app/lib/contract.ts:53-55 | passes exactly when the status is 'success', else fails with 'Transaction failed' |
| `Contract.SendAfterResolve` | app/lib/contract.ts:38-55 | the steps after resolving the contract log the account lookup first and at most three requests; an account or recipient error stops after the lookup and is passed through; a success sent three requests |
| `Contract.Transmission` | app/lib/contract.ts:42-55 | the submission of stringToField(message) is logged first, the wait second exactly when the submission was accepted; the outcome passes exactly when the receipt arrives with status 'success' |
| `Contract.SendSubmitsAtMostOnce` | app/lib/contract.ts:46-51 | a send submits at most one transaction and waits at most once, only on a submitted one; with the sender and the recipient resolved it submits exactly once and waits exactly when the submission is accepted (no retry); a successful send submitted exactly one, carrying stringToField(message) to the parsed recipient from the first account, and waited on it once |
| `Contract.ReceiptClassification` | app/lib/contract.ts:51-55 | once a receipt arrives, sendLetter fails with 'Transaction failed' exactly when its status is not 'success' |
| `Contract.Letterbox.constructor` | app/lib/contract.ts:7-9 | CONTRACT_ADDRESS is the configured value or ''; no handle cached |
| `Contract.Letterbox.GetContract` | app/lib/contract.ts:14-28 | a cached handle is returned with no request; an empty address fails with the configuration error before any PXE call; the handle is cached only after `at(...)` succeeds, bound to the configured address and the cached PXE |
| `Contract.Letterbox.SendLetter` | app/lib/contract.ts:33-56 | the contract error, or the outcome and requests of the steps after resolving, in the source's order; the handle is cached exactly when getContract succeeds; the PXE cache is set unless an empty address stopped the call first |
| `Contract.Letterbox.SubmitLetter` | app/lib/contract.ts:39-43 | with the contract resolved: the default account and the recipient parse, each error passed through, then the transaction steps; the PXE cache is untouched |
| `Contract.Letterbox.Transmit` | app/lib/contract.ts:42-55 | one submission of stringToField(message) from the sender to the recipient, one wait on the sent transaction and the receipt check, each error passed through; the PXE cache is untouched |
| `Contract.Letterbox.FetchLetters` | app/lib/contract.ts:61-76 | any success is the empty list, whatever notes come back; the notes are requested for the default account at the contract's address; the handle is cached exactly when getContract succeeds; the PXE cache is set unless an empty address stopped the call first |
| `SendLetterForm.FirstFailure` | app/components/SendLetterForm.tsx:22-40 | the checks yield no error or one of the four validation messages |
| `SendLetterForm.RejectionMessage` | app/components/SendLetterForm.tsx:47-48 | an Error's message, or 'Failed to send letter' for any other thrown value |
| `SendLetterForm.ChecksPassIff` | app/components/SendLetterForm.tsx:22-40 | all checks pass exactly when the recipient is non-blank and parses, and the message is non-blank and at most 31 code units |
| `SendLetterForm.FirstFailureOrder` | app/components/SendLetterForm.tsx:22-40 | each error message appears exactly when its check fails and every earlier check passed; a blank recipient wins whatever the message |
| `SendLetterForm.LengthBoundary` | app/components/SendLetterForm.tsx:37 | with valid other inputs, a message of 31 code units passes and one of 32 is refused as too long |
| `SendLetterForm.LengthCountsCodeUnits` | app/components/SendLetterForm.tsx:37 | sixteen U+1F384 characters count 32 code units, so the limit is not a character count |
| `SendLetterForm.LastCharacterPast31BytesIsDropped` | app/lib/aztec.ts:12-13 | a character following exactly 31 bytes of text not ending in NUL is lost by the codec: the text comes back without it (and without a leading U+FEFF) |
| `SendLetterForm.FormAcceptsLossyMessage` | app/components/SendLetterForm.tsx:37-40 | ten euro signs followed by "ab" (12 code units, 32 bytes) pass every check but arrive as ten euro signs and "a" |
| `SendLetterForm.LossyMessageFitsForm` | app/components/SendLetterForm.tsx:32-40 | ten euro signs followed by "ab" is 12 code units long and not blank |
| `SendLetterForm.LossyMessageLosesLastCharacter` | app/lib/aztec.ts:8-37 | ten euro signs followed by "ab" comes back from the codec as ten euro signs and "a" |
| `SendLetterForm.Form.constructor` | app/components/SendLetterForm.tsx:12-15 | all four state cells start empty or false |
| `SendLetterForm.Form.EditRecipient` | app/components/SendLetterForm.tsx:75 | the recipient input sets `recipient` only |
| `SendLetterForm.Form.EditMessage` | app/components/SendLetterForm.tsx:89 | the message textarea sets `message` only |
| `SendLetterForm.Form.HandleSubmit` | app/components/SendLetterForm.tsx:17-52 | the error is cleared before the checks; a failing check shows its message, leaves the inputs and never calls onSend; otherwise onSend is called once with the inputs while isSending is true and the error is empty; success clears both inputs; failure keeps them and shows the rejection message; isSending is false at the end |

## Left out

- Presentation: Envelope, LetterInbox, SnowEffect, the page and layout, the Tailwind configuration, framer-motion animation and `Math.random`. They have no client logic.
- The mock `sendLetter` and mock letters of `app/app/page.tsx`. They are demonstration data.
- The contract's end-to-end tests. They exercise the deployed contract and the network's private-event visibility (its cryptography), which this client does not implement.
- `deployContract` in `app/lib/contract.ts`. It is a direct SDK wrapper.
- `getWallet()` in `sendLetter` (`app/lib/contract.ts:38`). It is neither defined nor imported. Run as written, `sendLetter` would throw at that line after resolving the contract. The model leaves the call out and models the path the code evidently intends.
- SDK internals. These are the `Fr` modulus, the range check of `new Fr(bigint)`, the syntax `AztecAddress.fromString` accepts, `createPXEClient`, `waitForPXE`, `getRegisteredAccounts`, `getIncomingNotes` and `.send().wait()`. They are parameters or `Answers` fields.
- `Aztec.FieldToString`: both the `Fr` and the `bigint` argument are the same integer. On bytes that are not well-formed UTF-8 it returns None, where TextDecoder substitutes U+FFFD; the replacement algorithm is not modelled. The skipping of a leading byte-order mark is modelled.
- `Aztec.IsValidAztecAddress`: its contract is over an abstract parser, because the accepted address syntax belongs to the SDK.
- Lone UTF-16 surrogates in JavaScript strings. Dafny characters are Unicode scalar values, so they cannot occur.
- Async scheduling. Concurrent first calls to `getPXE` or `getContract` could race. Every call is modelled as running to completion before the next.
- `console.log` of the fetched events, `e.preventDefault()` and React's re-rendering. None of them affects the modelled state.
- The textarea's `maxLength={31}` (`app/components/SendLetterForm.tsx:92`). The model lets the message state hold any string, an over-approximation: every message the textarea can produce is covered, and so are longer ones, which `handleSubmit` refuses by its own length check.
