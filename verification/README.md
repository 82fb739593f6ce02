# XRPL client core: Base58, checked encoding, credentials and subscriptions

A Dafny model of the pure logic in the XRP Ledger client's `command.go`:

- the XRP Ledger flavour of Base58 (`NewBase58`, `Encode`, `Decode`), both as
  functional definitions over unbounded naturals and as the loops the Go code
  runs, with each loop proved to compute the functional definition;
- Base58Check framing (`EncodeCheck`, `DecodeCheck`): a version byte, the
  payload and the first four bytes of a double SHA-256;
- the credential helpers `DecodeFamilySeed` and `DeriveAddress`;
- the bookkeeping of active stream subscriptions in `Subscribe` and
  `Unsubscribe`.

Files, one module each:

- `wrappers.dfy` (`Wrappers`): the `Result` type that stands in for Go's
  `(value, error)` pairs.
- `big_endian.dfy` (`BigEndian`): `big.Int`'s `SetBytes` and `Bytes`, taken
  as conversions between byte strings and `nat`.
- `base58.dfy` (`XrplBase58`): the codec.
- `base58_loops.dfy` (`Base58Loops`): the loops of `Encode` and `Decode`.
- `crypto.dfy` (`Crypto`): the hash and key functions, known only by their
  output lengths.
- `base58_check.dfy` (`Base58Check`): the checked encoding.
- `credentials.dfy` (`Credentials`): seeds and addresses.
- `subscriptions.dfy` (`Subscriptions`): the subscription set.

Modelling choices:

- The codec is a value `Base58(alphabet, alphabetMap, baseMultiple)`, just
  as the Go methods take a `*Base58` receiver. The laws are proved for every
  codec that satisfies `WellFormed`, and `NewBase58` is proved to build one.
- SHA-256, SHA-512 and `ed25519.NewKeyFromSeed` are function-valued
  parameters whose results have fixed lengths. No law depends on what they
  compute.
- `Request` is a function-valued parameter returning success or failure.
- Strings are sequences of characters. The alphabet is pure ASCII, so for
  these inputs "some character is outside the alphabet" means the same
  whether the string is read by byte or by character.
- `Decode` scans right to left, summing digit times a running power of 58,
  and stops at the first invalid character it meets from the right. The
  model follows the code:
  - `Value` is the Horner form;
  - `ValueOfCons` shows the right-to-left sum equals it;
  - `Decode` reports the rightmost invalid character.

## Model

| member | source | states |
|---|---|---|
| `XrplBase58.NewBase58` | command.go:106-116 | The codec built from the XRPL alphabet is well formed: 58 pairwise distinct characters, radix 58, a table filled from the alphabet, and 'r' as the zero digit. |
| `XrplBase58.AlphabetMapIsInverse` | command.go:112-114 | The table maps each alphabet character to its position. Its keys are exactly the alphabet characters. |
| `XrplBase58.TableInvertsAlphabet` | command.go:112-114 | In any well-formed codec the table and the alphabet are mutually inverse on the digits 0..57. |
| `XrplBase58.IndexMap` | command.go:112-114 | The table built by ranging over a string has exactly that string's characters as keys. Each key maps to a position holding that character. |
| `XrplBase58.Value` | command.go:155-165 | Definition of the number the decoder's sum `result` computes for a string of alphabet characters, in positional (Horner) form; `ValueOfCons` relates it to the right-to-left sum. |
| `XrplBase58.ValueOfCons` | command.go:155-165 | A string's value is its leading digit times 58 to the number of digits after it, plus the value of the rest. So the decoder's right-to-left digit-times-multiplier sum equals the positional value. |
| `XrplBase58.Digits` | command.go:128-131 | The repeated-division digits of a number are alphabet characters. They are empty exactly for zero and never start with the zero digit. |
| `XrplBase58.DigitsDenote` | command.go:128-131 | The digits of x denote x, so no information is lost by the division loop. |
| `XrplBase58.DigitsOfValue` | command.go:128-131 | Every digit string without a leading zero digit is the digit string of its own value, so such numerals are canonical. |
| `XrplBase58.ValueIgnoresZeroSymbols` | command.go:170-180 | Leading zero digits do not change a string's value. |
| `XrplBase58.LeadingSymbols` | command.go:171-174 | The count of leading zero digits is maximal: every counted character is 'r', and the next one, if any, is not. |
| `XrplBase58.CountZeroSymbolsOf` | command.go:171-174 | Zero digits placed in front of a string that does not start with one are counted exactly. |
| `XrplBase58.DigitsLeading` | command.go:128-144 | A number between d·58^n and (d+1)·58^n, where d is a non-zero digit, is written with n+1 characters. The first is the alphabet character for d. |
| `XrplBase58.EncodeLeading` | command.go:119-147 | For bytes without a leading zero, the encoding's length and first character are fixed by the magnitude of the value. |
| `XrplBase58.Encode` | command.go:119-147 | Output is all alphabet characters. It starts with exactly one zero digit per leading zero byte and denotes the same number as the bytes. It is empty exactly for empty input. |
| `XrplBase58.LastInvalid` | command.go:155-159 | The position the decoder stops at holds a non-alphabet character, and every character to its right is in the alphabet. |
| `XrplBase58.Decode` | command.go:150-183 | Fails exactly when some character is outside the alphabet, naming the rightmost such character. On success the bytes have one leading zero per leading 'r' and denote the digits' value. |
| `XrplBase58.DecodeEncode` | command.go:119-183 | Decoding an encoding returns the original bytes, leading zeros and empty input included. |
| `XrplBase58.EncodeDecode` | command.go:119-183 | Encoding a successful decoding returns the original string, so every alphabet string encodes exactly one byte string. |
| `BigEndian.FromNat` | command.go:168 | `Bytes()` denotes its argument, is empty exactly for zero and never starts with a zero byte. |
| `BigEndian.LeadingZeros` | command.go:134-139 | The leading-zero count stops at the first non-zero byte: all counted bytes are zero and the next is not. |
| `BigEndian.ToNatIgnoresLeadingZeros` | command.go:121 | `SetBytes` gives leading zero bytes no weight. |
| `BigEndian.ToNat` | command.go:121 | Definition of `x.SetBytes(input)`: the unsigned big-endian value of the bytes. Its contract states that n bytes denote a number below 256^n. |
| `BigEndian.ToNatCons` | command.go:121 | The first byte weighs 256 to the number of bytes after it. |
| `BigEndian.FromNatToNat` | command.go:121-168 | `Bytes()` after `SetBytes` returns any byte string that has no leading zero. |
| `BigEndian.StripLeadingZeros` | command.go:121-168 | `Bytes()` after `SetBytes` returns the input minus its leading zero bytes, which is exactly what the zero loops must restore. |
| `Base58Loops.Remainders` | command.go:125-131 | The division loop's buffer is the number's base-58 digits in reverse. |
| `Base58Loops.ReverseInPlace` | command.go:141-144 | The two-index swap loop reverses the buffer. |
| `Base58Loops.EncodeLoop` | command.go:119-147 | The three loops of `Encode` together produce exactly the functional `Encode`. |
| `Base58Loops.SumDigits` | command.go:151-165 | The right-to-left loop succeeds exactly on alphabet strings and returns their value. Otherwise it fails on the rightmost invalid character. |
| `Base58Loops.CountZeroSymbols` | command.go:171-174 | The counting loop returns the number of leading 'r' characters. |
| `Base58Loops.DecodeLoop` | command.go:150-183 | The loops of `Decode` together produce exactly the functional `Decode`, error included. |
| `Base58Check.Checksum` | command.go:191-193 | The checksum is four bytes long. |
| `Base58Check.Frame` | command.go:188-193 | Definition of the buffer `data` that `EncodeCheck` encodes: version, payload, then the checksum. Its contract states that it is five bytes longer than the payload, carries a valid checksum, and splits back into the version and payload. |
| `Base58Check.EncodeCheck` | command.go:186-196 | Decoding the checked string gives the version byte, the payload and the first four bytes of SHA-256 applied twice to those two. |
| `Base58Check.DecodeCheck` | command.go:199-224 | A `Decode` error is passed on. Fewer than five decoded bytes is an invalid length. A wrong checksum is a mismatch. Success happens exactly otherwise, and then the decoded bytes are precisely the frame of the returned version (byte 0) and payload (bytes 1 to len-4). |
| `Base58Check.DecodeCheckEncodeCheck` | command.go:186-224 | Checking a checked encoding returns its version and payload without error. |
| `Base58Check.EncodeCheckDecodeCheck` | command.go:186-224 | Any string `DecodeCheck` accepts is the checked encoding of the version and payload it returns. |
| `Credentials.DecodeFamilySeed` | command.go:227-247 | Rejects a seed not starting with 's' first, then passes on a `DecodeCheck` error, then rejects a version other than 0x21. It succeeds exactly otherwise, with the key derived from the first 32 bytes of the payload's SHA-512. |
| `Credentials.SeedKey` | command.go:243-244 | Definition of the key `DecodeFamilySeed` returns: `ed25519.NewKeyFromSeed` applied to the first 32 bytes of the payload's SHA-512. |
| `Credentials.FamilySeedText` | command.go:226-230 | Checksum-encoding 16 bytes of entropy under version 0x21 always gives 29 characters starting with 's', so such seeds pass the prefix check. |
| `Credentials.FamilySeedRoundTrip` | command.go:227-247 | A seed checked-encoded from 16 bytes of entropy under version 0x21 decodes to the key derived from that entropy. |
| `Credentials.DeriveAddress` | command.go:296-310 | Fails exactly when the key is not 32 bytes long. Otherwise the address checks as version 0x23 with the first 20 bytes of the key's SHA-512 as payload. |
| `Credentials.CheckedStringLeadingSymbol` | command.go:186-196 | A checked string is never empty, and it starts with 'r' exactly when its version byte is zero. |
| `Credentials.DerivedAddressIsNotClassic` | command.go:294-310 | No address `DeriveAddress` returns starts with 'r'. |
| `Credentials.DeriveClassicAddress` | command.go:296-310 | With the account-ID version byte 0x00 it has the same length check and payload, and every address starts with 'r'. |
| `Subscriptions.AddAll` | command.go:28-30 | Marking each listed stream yields the old set plus exactly the listed streams. |
| `Subscriptions.RemoveAll` | command.go:47-49 | Deleting each listed stream yields the old set minus exactly the listed streams. |
| `Subscriptions.Subscribe` | command.go:17-34 | Returns the request's own reply or error. On success the set becomes the old set plus the listed streams; on error it is unchanged. An unlisted stream never changes membership. |
| `Subscriptions.Unsubscribe` | command.go:36-53 | Returns the request's own reply or error. On success the set becomes the old set minus the listed streams; on error it is unchanged. An unlisted stream never changes membership. |
| `Subscriptions.SubscribeThenUnsubscribe` | command.go:17-53 | Subscribing to "ledger" and "transaction" and then unsubscribing from "ledger", both successfully, leaves exactly "transaction". |

## Left out

- `Request` (command.go:67-87): the id counter, JSON marshalling, the websocket write, the reply channel and the mutex are I/O and concurrency. `Subscribe` and `Unsubscribe` take its outcome as a function parameter, and the reply it waits for is opaque. On a write error the code returns with the mutex still held and the queue entry left in place (command.go:77-82); lock state is not modelled. `Request` returns every reply it receives with a nil error (command.go:85-86), so "success" in the `Subscribe` and `Unsubscribe` rows means Go's `err == nil`, not success at the protocol level: an error reply from the server to "subscribe" still marks every listed stream active.
- The mutex around the set updates in `Subscribe` and `Unsubscribe` is not modelled; each update is one atomic step.
- `sign` and `SignAndSubmitRequest` (command.go:249-293): they depend on `encoding/json` serialisation of untyped maps, `ed25519.Sign`, `.Public()` and upper-case hex, which are library behaviour outside this model.
- SHA-256, SHA-512 and `ed25519.NewKeyFromSeed`: only their output lengths are modelled, as parameters.
- `nodePublicPrefix` (command.go:95) is unused by the code and not modelled.
- The texts of the error messages are not modelled. Each error is a constructor: `InvalidCharacter(c)`, `InvalidLength`, `ChecksumMismatch`, `MissingPrefix`, `SeedUndecodable`, `WrongVersion`, `InvalidPublicKeyLength`.
- `Credentials.FamilySeedRoundTrip`: stated only for 16 bytes of entropy, the size ledger seeds have. That size makes the encoded text start with 's' (`Credentials.FamilySeedText`). Other payload lengths round-trip as well whenever their text happens to start with 's', but no lemma states that.
- `XrplBase58.Decode`: Go reads the input byte by byte. A multi-byte UTF-8 character is therefore reported by one of its bytes, while the model reports the whole character. Acceptance and rejection are the same, because every alphabet character is ASCII.
- `Credentials.DeriveAddress`: the payload is modelled as written, the first 20 bytes of SHA-512 of the key (command.go:302-303). The local is named `ripemd160Hash`, but the code takes no RIPEMD-160 of a SHA-256. Since hashes are abstract here, that difference cannot be shown on a concrete input, so it is noted rather than listed as a finding.

## Findings

| source | as written | input that shows it | evidently intended | confidence | as-written member | corrected member |
|---|---|---|---|---|---|---|
| command.go:94, command.go:307 | `DeriveAddress` checks-encodes under version byte 0x23, so the first encoded byte is non-zero and the address never starts with 'r'. | Any 32-byte public key: the returned address's first character is not 'r'. | Ledger account addresses use the account-ID version byte 0x00, which always encodes to a leading 'r'. | medium, not executed | `Credentials.DerivedAddressIsNotClassic` | `Credentials.DeriveClassicAddress` |
