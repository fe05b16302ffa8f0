# aenigma in Dafny

A model of the aenigma library, a thin TypeScript wrapper around the browser's
Web Cryptography API that encrypts strings with AES-GCM and keeps the results in
local storage. The model covers the library's own logic:

- **UTF-16 buffer codec** (`AenigmaUtil`, `util.dfy`).
  - `stringToArrayBuffer` packs each UTF-16 code unit of a string into one 16-bit slot of a buffer twice the string's length. It is modelled as a method that fills an array in a loop, as the source does.
  - `arrayBufferToString` reads the slots back.
- **Base64** (`base64.dfy`). The `arrayBufferToBase64` / `base64ToArrayBuffer` helpers are called but not defined in the source; the model takes them to follow section 4 of RFC 4648: the standard alphabet and `=` padding.
  - Encoding goes from bytes to 6-bit groups (sextets), then from sextets to characters, then adds padding.
  - Decoding is strict.
- **Credentials and the encrypted record** (`Credentials`, `EncryptedValue`, `EncryptedValueJson`, `model.dfy`).
  - Key generation and import go through the platform.
  - The record `{data, iv}` is written as the two-field JSON text `{"data":"…","iv":"…"}` with base64 fields, and parsed back.
- **Cipher engine** (`Aenigma`, `cipher.dfy`).
  - `create` binds credentials, generating them when none are given.
  - `encrypt` fills a 16-byte iv from a random source in a loop and encrypts the UTF-16 image of the string.
  - `decrypt` decrypts under the record's iv and reads the string back.
- **Storage** (`AenigmaLocalStorageProvider`, `AenigmaStorageService`, `service.dfy`).
  - The provider is a class whose map field stands for local storage.
  - The service is a class that puts encryption in front of `store` and decryption behind `retrieve`.

`webcrypto.dfy` describes the platform operations that the library calls: `generateKey`, `importKey`, `exportKey`, `encrypt` and `decrypt`. Each one is an uninterpreted function passed in as a value. The library relies on two laws of the platform, stated as predicates and assumed by the lemmas that need them:
- `AeadRoundTrip`: decrypting a ciphertext under the key and iv that produced it gives back the plaintext;
- `ExportKeepsMaterial`: exporting an imported key keeps its key material `k`.

Errors are values of `Results.Error`. Each asynchronous RxJS outcome is one `Result`.

Three facts about the code shape the model:
- The iv is `BLOCK_SIZE` = 16 bytes, although the nonce length that AES-GCM recommends is 12 bytes (section 5.2.1.1 of NIST SP 800-38D).
- Parsing checks no iv length, so the 12-byte iv of the library's own test record is accepted (`ParseFixture`).
- `stringify` encodes `iv.buffer`, the whole buffer under the iv view, not the view's own bytes. The two agree for every iv the library creates, because each such iv owns a fresh buffer (`ParseStringifyOwned`). `ParseStringify` states what happens for any other view.

## Model

| member | source | states |
|---|---|---|
| Util.StringToArrayBuffer | src/aenigma.util.ts:2-11 | The buffer has exactly `2 * length` bytes. Slot `i` holds code unit `i` of the string for every `i`. The buffer is the string's UTF-16 image. |
| Util.Utf16Bytes | src/aenigma.util.ts:3-8 | The image of a string is twice as long as the string. |
| Util.ImageSlots | src/aenigma.util.ts:6-8 | Slot `i` of the image holds code unit `i`, for every `i`. |
| Util.ArrayBufferToString | src/aenigma.util.ts:13-15 | Defined only on even-length buffers. Yields one code unit per 16-bit slot: `length / 2` of them, where unit `i` is slot `i`. |
| Util.StringRoundTrip | src/aenigma.util.ts:2-15 | Reading back the image of any string gives the string, including surrogate pairs and every script. |
| Util.BufferRoundTrip | src/aenigma.util.ts:2-15 | Every even-length buffer is the image of the string read from it. Both directions use the same byte order, so the codec is a bijection between strings and even-length buffers. |
| Base64.Char | src/aenigma.model.ts:149-150 | Every sextet is written as a character of the base64 alphabet. |
| Base64.Value | src/aenigma.model.ts:126-127 | The value read from an alphabet character is the sextet that the character writes. |
| Base64.JoinSplit | src/aenigma.model.ts:149-150 | Joining the four sextets of a 3-byte quantum gives back its bytes. |
| Base64.SplitJoin | src/aenigma.model.ts:126-127 | Splitting the three bytes of four sextets gives back the sextets. |
| Base64.ToSextetsLength | src/aenigma.model.ts:149-150 | There are four sextets per full quantum, and one more sextet than bytes in a final partial quantum. |
| Base64.FromToSextets | src/aenigma.model.ts:149-150 | The sextets of any byte sequence decode back to that byte sequence. |
| Base64.ToFromSextets | src/aenigma.model.ts:126-127 | Sextets that decode are exactly the sextets of what they decode to. |
| Base64.FromSextetsSome | src/aenigma.model.ts:126-127 | Sextets decode if and only if no final group is a lone sextet and the pad bits are zero. They then give three bytes per four sextets. |
| Base64.ValuesOfChars | src/aenigma.model.ts:126-127 | Reading the characters written for sextets gives the sextets back. |
| Base64.CharsOfValues | src/aenigma.model.ts:149-150 | Writing the sextets read from alphabet characters gives the characters back. |
| Base64.PadCountOfEncode | src/aenigma.model.ts:149-150 | An encoded text has a length that is a multiple of four. Its trailing `=` count is exactly the padding that was added. Stripping the padding leaves the sextet characters. |
| Base64.PaddingOfPadCount | src/aenigma.model.ts:126-127 | A text whose length is a multiple of four is its body followed by exactly the padding that the body's length calls for. |
| Base64.Encode | src/aenigma.model.ts:149-150 | `arrayBufferToBase64`: the encoding of `n` bytes has `4 * ceil(n / 3)` characters, each in the alphabet or `=`. `DecodeEncode`, `EncodeDecode` and `DecodeIff` tie it to `Decode`. |
| Base64.Decode | src/aenigma.model.ts:126-127 | `base64ToArrayBuffer`: a text that decodes gives three bytes for every four characters before its padding. `DecodeSome` states which texts decode, and `DecodeIff` states that exactly the canonical encodings do. |
| Base64.DecodeEncode | src/aenigma.model.ts:126-150 | Decoding the encoding of any byte sequence gives it back. |
| Base64.EncodeDecode | src/aenigma.model.ts:126-150 | A text that decodes is the encoding of what it decodes to. |
| Base64.DecodeSome | src/aenigma.model.ts:126-127 | A text decodes if and only if all of these hold: its length is a multiple of four, its characters before the padding are in the alphabet, and its pad bits are zero. |
| Base64.DecodeIff | src/aenigma.model.ts:126-150 | `Decode(s) == Some(b)` holds if and only if `Encode(b) == s`. |
| Model.Generate | src/aenigma.model.ts:24-46 | Succeeds if and only if both `generateKey(AES-GCM, length)` and `exportKey(jwk)` succeed. The credentials then hold the exported key. The error of whichever step fails is the outcome unchanged. |
| Model.Import | src/aenigma.model.ts:55-80 | Succeeds if and only if both `importKey(jwk, AES-GCM)` and the re-export succeed. The credentials then hold exactly the re-exported key. The error of whichever step fails is the outcome unchanged. |
| Model.ImportKeepsMaterial | src/aenigma.model.ts:55-80 | Under the export law, a successful import keeps the JWK key material `k`. |
| Model.NewUint8Array | src/aenigma.model.ts:127 | `new Uint8Array(buffer)` views the whole buffer and shows exactly its bytes. |
| Model.JsonFields | src/aenigma.model.ts:121-123 | The fields read from a record text are plain JSON string content. |
| Model.JsonText | src/aenigma.model.ts:146-153 | `JSON.stringify` of an `EncryptedValueJson`: reading its text back gives exactly the `data` and `iv` fields that were written. |
| Model.Stringify | src/aenigma.model.ts:146-153 | The text reads back as exactly two fields, `data` and `iv`: the base64 of the data and of the iv's whole buffer. `ParseStringify` and `StringifyParse` tie it to `Parse`. |
| Model.Parse | src/aenigma.model.ts:120-129 | A parsed record's iv owns its fresh buffer. Every failure, malformed JSON or malformed base64, is a `SyntaxError`. |
| Model.PlainBase64 | src/aenigma.model.ts:146-153 | Base64 text needs no escaping inside a JSON string. |
| Model.JsonTextOfFields | src/aenigma.model.ts:101-107 | Any text that the reader accepts is exactly the text written for its fields. |
| Model.ParseStringify | src/aenigma.model.ts:120-153 | Parsing the text of any record gives back its data. The iv comes back as a fresh view of the whole buffer under the original iv. No iv length is checked. |
| Model.ParseStringifyOwned | src/aenigma.model.ts:120-153 | For a record whose iv owns its buffer, parsing its text gives back the same record. |
| Model.StringifyParse | src/aenigma.model.ts:120-153 | Writing out any record that parsed gives back the text it was parsed from. |
| Model.FixtureData | test/aenigma.spec.ts:139-154 | The test record's `data` text decodes to 28 bytes. |
| Model.FixtureIv | test/aenigma.spec.ts:139-154 | The test record's `iv` text decodes to 12 bytes. |
| Model.ParseFixture | test/aenigma.spec.ts:139-168 | The test record parses, with 28 data bytes and a 12-byte iv, shorter than `BLOCK_SIZE`. The base64 of the parsed data and iv buffer are the input fields. Writing the record out gives the input text again. |
| Cipher.CreateFrom | src/aenigma.ts:13-35 | The engine holds exactly the given credentials and the key that the platform imported from them. An import failure is the outcome. |
| Cipher.Create | src/aenigma.ts:44-54 | With credentials, the result is binding exactly those credentials. Without them, credentials are generated at 256 bits: a generation failure is the outcome, and otherwise the result is binding exactly the generated credentials, importing their key. |
| Cipher.RandomIv | src/aenigma.ts:86-87 | The iv has `BLOCK_SIZE` = 16 bytes. |
| Cipher.EncryptWithIv | src/aenigma.ts:89-102 | A success holds the cipher output of the string's UTF-16 image under the given iv, with that iv as a view of its own buffer. A cipher failure is the outcome unchanged. |
| Cipher.Encrypt | src/aenigma.ts:80-104 | After the loop fills the 16-byte iv from the random source, the outcome is `EncryptWithIv` under that iv. A successful record's iv has 16 bytes. |
| Cipher.Decrypt | src/aenigma.ts:113-134 | A success is the string whose UTF-16 image the cipher returned under the record's iv bytes and data. A failure is the cipher's error, or a `RangeError` for an odd-length plaintext. |
| Cipher.DecryptEncrypt | src/aenigma.ts:80-134 | Under the AEAD law, the same engine decrypts what it encrypted back to the original string, for every string and iv. |
| Cipher.DecryptParsedEncrypt | src/aenigma.ts:80-134 | An encrypted record that is written out and parsed back still parses and decrypts to the original string. |
| Service.Lookup | src/aenigma.service.ts:111-119 | The provider's `retrieve` over the stored items: the not-found error exactly when nothing is stored under the identifier. A record comes back only when the stored text is that record's own text. |
| Service.RetrieveFrom | src/aenigma.service.ts:78-84 | A provider failure is the outcome unchanged. Otherwise the outcome is the engine's decryption of the retrieved record. |
| Service.LocalStorageProvider.Store | src/aenigma.service.ts:96-104 | Exactly the entry for the identifier becomes the record's JSON text. The record is returned unchanged. |
| Service.LocalStorageProvider.Retrieve | src/aenigma.service.ts:109-121 | The outcome is `Lookup` of the provider's current map, so `LookupMissing`, `LookupAfterStore`, `LookupOtherKey` and `LastWriteWins` describe it. |
| Service.StorageService.constructor | src/aenigma.service.ts:52-55 | The service holds the given engine and provider. |
| Service.StorageService.Store | src/aenigma.service.ts:65-69 | The outcome is the encryption's outcome. On failure nothing is stored. On success the provider's map gains exactly that record's text under the identifier. |
| Service.StorageService.Retrieve | src/aenigma.service.ts:78-84 | The outcome is provider `retrieve` followed by `decrypt`, with errors passed through. |
| Service.LookupMissing | src/aenigma.service.ts:109-121 | An identifier that was never stored gives the not-found error. |
| Service.LookupAfterStore | src/aenigma.service.ts:96-121 | Store then retrieve under the same identifier gives back the same record, for every record whose iv owns its buffer. |
| Service.LookupOtherKey | src/aenigma.service.ts:101 | Storing under one identifier leaves the outcome for every other identifier unchanged. |
| Service.LastWriteWins | src/aenigma.service.ts:96-121 | After two stores under one identifier, retrieve gives the second record. |
| Service.RetrieveAfterStore | src/aenigma.service.ts:65-84 | Under the AEAD law, whatever the service stored under an identifier, it retrieves as the original string. |
| Service.StoreThenRetrieve | src/aenigma.service.ts:65-84 | On one service instance, a successful `store` followed by `retrieve` yields the stored string. |

## Left out

- AES-GCM itself (`crypto.subtle.encrypt`/`decrypt`, NIST SP 800-38D) is an uninterpreted function. Only its round-trip law is assumed, so tamper detection and authentication are not modelled.
- Key generation, import and export happen inside the platform. This includes the JWK checks of RFC 7517 and section 6.4.1 of RFC 7518, the rejection of a 7-bit key length, and the rejection of an unknown `alg`. They are uninterpreted functions that may fail; no validity rule is invented.
- `getRandomValues` is a parameter of `Encrypt`: a function from index to byte. The randomness and uniqueness of ivs are not modelled.
- RxJS: `Observable.create`, `mergeMap` and subscriber callbacks become a single `Result` per operation. Asynchrony and multiple emissions are not modelled.
- Error messages: the source forwards `error.message` strings. The model keeps the error as a value (`PlatformError`, `RangeError`, `SyntaxError`, `NotFound(identifier)`), and the not-found message text is not reproduced.
- `JSON.parse` / `JSON.stringify` are modelled only for the fixed two-field text `{"data":"…","iv":"…"}` without whitespace or escapes. Any other text is treated as a `SyntaxError`, although a general JSON reader would accept reordered fields or whitespace.
- Model.Parse: its contract does not state the parsed values themselves. It states the fresh-buffer property and the error, and the round-trip lemmas state the values for canonical texts.
- The bodies of `arrayBufferToBase64` and `base64ToArrayBuffer` are not part of this model: the source calls them at src/aenigma.model.ts:126-127 and 149-150 without defining them. The model takes them to be the codec of section 4 of RFC 4648, with a strict decoder.
- Base64.Decode: a stored text whose base64 is not canonical (non-zero pad bits, say), which a lenient decoder such as `atob` would accept, fails to parse in the model. `parse` is public and `retrieve` parses whatever local storage holds, so such texts can reach it.
- Model.Parse: a base64 field that does not decode fails with `SyntaxError`. That error is the model's choice, since the real helper's error is unknown.
- `localStorage` is a map field of the provider. Persistence, quotas and sharing between instances are not modelled.
- Identifiers, JSON texts and JWK fields are Dafny strings, whose characters are Unicode scalar values, so a JavaScript string holding a lone surrogate cannot be used as an identifier. Plaintexts are sequences of UTF-16 code units and have no such limit.
- `AenigmaStorageProvider` is abstract. It is modelled through its one implementation, `LocalStorageProvider`, which `StorageService` holds.
- `Uint16Array` uses the platform's byte order. The model fixes little-endian for both directions; the only requirement is that both directions agree.
- `String.fromCharCode.apply` has an argument-count limit that a very large buffer would exceed. It is not modelled.
- Util.ArrayBufferToString: requires an even buffer, as a `Uint16Array` view of an odd buffer throws. `Cipher.Decrypt` models that throw as a `RangeError` failure.
- Angular module wiring and the demo application are not part of this model.
