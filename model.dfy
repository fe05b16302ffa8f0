/** The library's data model (`aenigma.model.ts`): the immutable
    `Credentials` key holder and the `EncryptedValue` record with its
    two-field JSON form. */
module Model {
  import opened Util
  import opened Results
  import opened WebCrypto
  import Base64

  const ALGORITHM: string := "AES-GCM"
  const BLOCK_SIZE: nat := 16
  const FORMAT: string := "jwk"
  /** The key length `generate` uses when none is given. */
  const DEFAULT_KEY_LENGTH: nat := 256

  // ---- Credentials ----

  /** A key in its exported JWK form. The only constructor is the private one,
      which stores the key; the `key` getter returns it; nothing writes it again. */
  datatype Credentials = Credentials(key: JsonWebKey)

  /** `Credentials.generate`: a fresh AES-GCM key of `keyLength` bits,
      exported as a JWK.  Either step's failure is the outcome. */
  function Generate(subtle: SubtleCrypto, keyLength: nat): (r: Result<Credentials>)
    ensures r.Success? <==>
      subtle.generateKey(ALGORITHM, keyLength).Success? &&
      subtle.exportKey(FORMAT, subtle.generateKey(ALGORITHM, keyLength).value).Success?
    ensures r.Success? ==>
      r.value.key == subtle.exportKey(FORMAT, subtle.generateKey(ALGORITHM, keyLength).value).value
    ensures subtle.generateKey(ALGORITHM, keyLength).Failure? ==>
      r == Failure(subtle.generateKey(ALGORITHM, keyLength).error)
    ensures (subtle.generateKey(ALGORITHM, keyLength).Success? &&
             subtle.exportKey(FORMAT, subtle.generateKey(ALGORITHM, keyLength).value).Failure?) ==>
      r == Failure(subtle.exportKey(FORMAT, subtle.generateKey(ALGORITHM, keyLength).value).error)
  {
    match subtle.generateKey(ALGORITHM, keyLength)
    case Failure(e) => Failure(e)
    case Success(key) =>
      match subtle.exportKey(FORMAT, key)
      case Failure(e) => Failure(e)
      case Success(jwk) => Success(Credentials(jwk))
  }

  /** `Credentials.import`: import a JWK as an AES-GCM key and re-export it. */
  function Import(subtle: SubtleCrypto, jwk: JsonWebKey): (r: Result<Credentials>)
    ensures r.Success? ==>
      subtle.importKey(FORMAT, jwk, ALGORITHM).Success? &&
      subtle.exportKey(FORMAT, subtle.importKey(FORMAT, jwk, ALGORITHM).value) == Success(r.value.key)
    ensures (subtle.importKey(FORMAT, jwk, ALGORITHM).Success? &&
             subtle.exportKey(FORMAT, subtle.importKey(FORMAT, jwk, ALGORITHM).value).Success?) ==>
      r.Success?
    ensures subtle.importKey(FORMAT, jwk, ALGORITHM).Failure? ==>
      r == Failure(subtle.importKey(FORMAT, jwk, ALGORITHM).error)
    ensures (subtle.importKey(FORMAT, jwk, ALGORITHM).Success? &&
             subtle.exportKey(FORMAT, subtle.importKey(FORMAT, jwk, ALGORITHM).value).Failure?) ==>
      r == Failure(subtle.exportKey(FORMAT, subtle.importKey(FORMAT, jwk, ALGORITHM).value).error)
  {
    match subtle.importKey(FORMAT, jwk, ALGORITHM)
    case Failure(e) => Failure(e)
    case Success(key) =>
      match subtle.exportKey(FORMAT, key)
      case Failure(e) => Failure(e)
      case Success(exported) => Success(Credentials(exported))
  }

  /** A successful import keeps the key material it was given. */
  lemma ImportKeepsMaterial(subtle: SubtleCrypto, jwk: JsonWebKey)
    requires ExportKeepsMaterial(subtle, FORMAT, ALGORITHM)
    ensures Import(subtle, jwk).Success? ==> Import(subtle, jwk).value.key.k == jwk.k
  {
  }

  // ---- typed-array views ----

  /** A `Uint8Array`: a window of `length` bytes at `byteOffset` into an
      underlying `buffer`. */
  datatype View = View(buffer: seq<byte>, byteOffset: nat, length: nat)
  type Uint8Array = v: View | v.byteOffset + v.length <= |v.buffer| witness View([], 0, 0)

  /** The bytes a view shows. */
  function Bytes(a: Uint8Array): seq<byte>
  {
    a.buffer[a.byteOffset..a.byteOffset + a.length]
  }

  /** `new Uint8Array(buffer)`: a view of the whole buffer. */
  function NewUint8Array(buffer: seq<byte>): (a: Uint8Array)
    ensures a.buffer == buffer && Bytes(a) == buffer
  {
    View(buffer, 0, |buffer|)
  }

  /** A view that covers exactly its own buffer. */
  predicate OwnsBuffer(a: Uint8Array)
  {
    a.byteOffset == 0 && a.length == |a.buffer|
  }

  // ---- the encrypted record and its JSON form ----

  /** The ciphertext (an ArrayBuffer) and the iv it was produced under. */
  datatype EncryptedValue = EncryptedValue(data: seq<byte>, iv: Uint8Array)

  /** `EncryptedValueJson`: the base64 texts of the two buffers. */
  datatype EncryptedValueJson = EncryptedValueJson(data: string, iv: string)

  /** A string that `JSON.stringify` writes between quotes unchanged. */
  predicate Plain(s: string)
  {
    forall i :: 0 <= i < |s| ==> s[i] != '"' && s[i] != '\\' && s[i] >= ' '
  }

  const OPEN: string := "{\"data\":\""
  const MIDDLE: string := "\",\"iv\":\""
  const CLOSE: string := "\"}"

  /** `JSON.stringify` of an `EncryptedValueJson`: an object with the two
      fields `data` then `iv`, no whitespace. */
  function JsonText(j: EncryptedValueJson): (t: string)
    requires Plain(j.data) && Plain(j.iv)
    ensures JsonFields(t) == Some(j)
  {
    ReadWritten(j.data, j.iv);
    OPEN + j.data + MIDDLE + j.iv + CLOSE
  }

  /** The position of the first quotation mark in `s`, or `|s|` when none. */
  function QuoteIndex(s: string): (n: nat)
    ensures n <= |s|
    ensures n < |s| ==> s[n] == '"'
    ensures forall i :: 0 <= i < n ==> s[i] != '"'
  {
    if s == [] then 0
    else if s[0] == '"' then 0
    else 1 + QuoteIndex(s[1..])
  }

  /** `JSON.parse` restricted to the two-field object `JsonText` writes:
      `None` for any other text. */
  function JsonFields(text: string): (r: Option<EncryptedValueJson>)
    ensures r.Some? ==> Plain(r.value.data) && Plain(r.value.iv)
  {
    if |text| < |OPEN| || text[..|OPEN|] != OPEN then None
    else
      var rest := text[|OPEN|..];
      var n := QuoteIndex(rest);
      var data, after := rest[..n], rest[n..];
      if |after| < |MIDDLE| || after[..|MIDDLE|] != MIDDLE then None
      else
        var rest' := after[|MIDDLE|..];
        var m := QuoteIndex(rest');
        var iv := rest'[..m];
        if rest'[m..] != CLOSE || !Plain(data) || !Plain(iv) then None
        else Some(EncryptedValueJson(data, iv))
  }

  /** `EncryptedValue.stringify`: base64 of the data and of the iv's whole
      underlying buffer (`iv.buffer`), in the two-field JSON text. */
  function Stringify(v: EncryptedValue): (s: string)
    ensures JsonFields(s) == Some(EncryptedValueJson(Base64.Encode(v.data), Base64.Encode(v.iv.buffer)))
  {
    var data, iv := Base64.Encode(v.data), Base64.Encode(v.iv.buffer);
    PlainBase64(v.data);
    PlainBase64(v.iv.buffer);
    JsonText(EncryptedValueJson(data, iv))
  }

  /** `EncryptedValue.parse`: read the two fields and base64-decode them; the
      iv becomes a view of its own fresh buffer.  Malformed JSON or base64 is a
      `SyntaxError`.  No length is checked. */
  function Parse(json: string): (r: Result<EncryptedValue>)
    ensures r.Success? ==> OwnsBuffer(r.value.iv)
    ensures r.Failure? ==> r.error == SyntaxError
  {
    match JsonFields(json)
    case None => Failure(SyntaxError)
    case Some(j) =>
      match (Base64.Decode(j.data), Base64.Decode(j.iv))
      case (Some(data), Some(iv)) => Success(EncryptedValue(data, NewUint8Array(iv)))
      case _ => Failure(SyntaxError)
  }

  // ---- properties ----

  /** Base64 text is plain JSON string content. */
  lemma PlainBase64(b: seq<byte>)
    ensures Plain(Base64.Encode(b))
  {
  }

  /** Splitting a text at its first quotation mark. */
  lemma QuoteIndexOfPlain(field: string, tail: string)
    requires Plain(field) && |tail| > 0 && tail[0] == '"'
    ensures QuoteIndex(field + tail) == |field|
  {
    var s := field + tail;
    assert s[|field|] == '"';
    assert forall i :: 0 <= i < |field| ==> s[i] == field[i];
  }

  /** The JSON reader gives back the fields of the text the writer builds. */
  lemma ReadWritten(data: string, iv: string)
    requires Plain(data) && Plain(iv)
    ensures JsonFields(OPEN + data + MIDDLE + iv + CLOSE) == Some(EncryptedValueJson(data, iv))
  {
    var j := EncryptedValueJson(data, iv);
    var text := OPEN + data + MIDDLE + iv + CLOSE;
    assert text[..|OPEN|] == OPEN;
    var rest := text[|OPEN|..];
    assert rest == j.data + (MIDDLE + j.iv + CLOSE);
    QuoteIndexOfPlain(j.data, MIDDLE + j.iv + CLOSE);
    var after := rest[|j.data|..];
    assert rest[..|j.data|] == j.data;
    assert after == MIDDLE + j.iv + CLOSE;
    assert after[..|MIDDLE|] == MIDDLE;
    var rest' := after[|MIDDLE|..];
    assert rest' == j.iv + CLOSE;
    QuoteIndexOfPlain(j.iv, CLOSE);
    assert rest'[..|j.iv|] == j.iv;
    assert rest'[|j.iv|..] == CLOSE;
  }

  /** Whatever the JSON reader accepts is exactly the text the writer would
      write for those fields. */
  lemma JsonTextOfFields(text: string)
    ensures JsonFields(text).Some? ==> JsonText(JsonFields(text).value) == text
  {
    if JsonFields(text).None? {
      return;
    }
    var j := JsonFields(text).value;
    var rest := text[|OPEN|..];
    var n := QuoteIndex(rest);
    var after := rest[n..];
    var rest' := after[|MIDDLE|..];
    Assemble(text, rest, after, rest', j.data, j.iv);
  }

  /** Gluing the pieces the JSON reader cut a text into gives the text back. */
  lemma Assemble(text: string, rest: string, after: string, rest': string, data: string, iv: string)
    requires |OPEN| <= |text| && text[..|OPEN|] == OPEN && rest == text[|OPEN|..]
    requires |data| <= |rest| && data == rest[..|data|] && after == rest[|data|..]
    requires |MIDDLE| <= |after| && after[..|MIDDLE|] == MIDDLE && rest' == after[|MIDDLE|..]
    requires |iv| <= |rest'| && iv == rest'[..|iv|] && rest'[|iv|..] == CLOSE
    ensures text == OPEN + data + MIDDLE + iv + CLOSE
  {
    assert rest' == iv + CLOSE;
    assert after == MIDDLE + rest';
    assert rest == data + after;
    assert text == OPEN + rest;
  }

  /** Round trip: parsing the text of a record gives back its data and the
      whole buffer under its iv, as a view of a fresh buffer. */
  lemma ParseStringify(v: EncryptedValue)
    ensures Parse(Stringify(v)) == Success(EncryptedValue(v.data, NewUint8Array(v.iv.buffer)))
  {
    PlainBase64(v.data);
    PlainBase64(v.iv.buffer);
    Base64.DecodeEncode(v.data);
    Base64.DecodeEncode(v.iv.buffer);
  }

  /** For every record whose iv owns its buffer, as every record the library
      itself creates does, parsing its text gives back the same record. */
  lemma ParseStringifyOwned(v: EncryptedValue)
    requires OwnsBuffer(v.iv)
    ensures Parse(Stringify(v)) == Success(v)
  {
    ParseStringify(v);
    assert NewUint8Array(v.iv.buffer) == v.iv;
  }

  /** A text that parses is the canonical text of what it parses to. */
  lemma StringifyParse(json: string)
    ensures Parse(json).Success? ==> Stringify(Parse(json).value) == json
  {
    if Parse(json).Failure? {
      return;
    }
    var j := JsonFields(json).value;
    Base64.EncodeDecode(j.data);
    Base64.EncodeDecode(j.iv);
    JsonTextOfFields(json);
  }
  /** The record text of the library's parsing tests. */
  const FIXTURE_DATA_BODY: string := "tLc6kFa4vgPJJoxkIK1CIDF4HuHqxTxHSgJ5Xw"
  const FIXTURE_DATA: string := FIXTURE_DATA_BODY + "=="
  const FIXTURE_IV: string := "xs1Nqc9MP0gWLnzj"

  lemma FixtureDataAlphabet()
    ensures Base64.AllAlphabet(FIXTURE_DATA_BODY)
  {
  }

  lemma FixtureIvAlphabet()
    ensures Base64.AllAlphabet(FIXTURE_IV)
  {
  }

  /** The fixture's data decodes to 28 bytes. */
  lemma FixtureData()
    ensures Base64.Decode(FIXTURE_DATA).Some? && |Base64.Decode(FIXTURE_DATA).value| == 28
  {
    var s := FIXTURE_DATA;
    assert Base64.PadCount(s) == 2;
    assert s[..38] == FIXTURE_DATA_BODY;
    FixtureDataAlphabet();
    assert Base64.Values(FIXTURE_DATA_BODY)[37] == 48 by { assert FIXTURE_DATA_BODY[37] == 'w'; }
    Base64.DecodeSome(s);
  }

  /** The fixture's iv decodes to 12 bytes. */
  lemma FixtureIv()
    ensures Base64.Decode(FIXTURE_IV).Some? && |Base64.Decode(FIXTURE_IV).value| == 12
  {
    var s := FIXTURE_IV;
    assert Base64.PadCount(s) == 0;
    assert s[..16] == s;
    FixtureIvAlphabet();
    Base64.DecodeSome(s);
  }

  /** The test record parses, with 28 bytes of data and an iv of 12 bytes:
      no iv length is checked, although encryption uses `BLOCK_SIZE` bytes.
      Writing the parsed record out again gives back the same text. */
  lemma ParseFixture()
    ensures Plain(FIXTURE_DATA) && Plain(FIXTURE_IV)
    ensures var json := JsonText(EncryptedValueJson(FIXTURE_DATA, FIXTURE_IV));
      && Parse(json).Success?
      && |Parse(json).value.data| == 28
      && |Bytes(Parse(json).value.iv)| == 12 < BLOCK_SIZE
      && Base64.Encode(Parse(json).value.data) == FIXTURE_DATA
      && Base64.Encode(Parse(json).value.iv.buffer) == FIXTURE_IV
      && Stringify(Parse(json).value) == json
  {
    FixtureData();
    FixtureIv();
    var data, iv := Base64.Decode(FIXTURE_DATA).value, Base64.Decode(FIXTURE_IV).value;
    Base64.EncodeDecode(FIXTURE_DATA);
    Base64.EncodeDecode(FIXTURE_IV);
    PlainBase64(data);
    PlainBase64(iv);
    var j := EncryptedValueJson(FIXTURE_DATA, FIXTURE_IV);
    StringifyParse(JsonText(j));
  }
}
