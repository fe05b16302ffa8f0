/** The cipher engine (`Aenigma`): credentials bound once to a platform key,
    then used to turn strings into encrypted records and back. */
module Cipher {
  import opened Util
  import opened Results
  import opened WebCrypto
  import opened Model

  /** An engine: the platform it runs on, the credentials it was built from
      and the platform key imported from them.  All three are set by the
      private constructor and never written again. */
  datatype Aenigma = Aenigma(subtle: SubtleCrypto, credentials: Credentials, key: CryptoKey)

  /** `Aenigma._create`: import the credentials' key once and bind it. */
  function CreateFrom(subtle: SubtleCrypto, credentials: Credentials): (r: Result<Aenigma>)
    ensures r.Success? ==>
      && r.value.credentials == credentials
      && r.value.subtle == subtle
      && subtle.importKey(FORMAT, credentials.key, ALGORITHM) == Success(r.value.key)
    ensures r.Failure? ==> subtle.importKey(FORMAT, credentials.key, ALGORITHM) == Failure(r.error)
  {
    match subtle.importKey(FORMAT, credentials.key, ALGORITHM)
    case Failure(e) => Failure(e)
    case Success(key) => Success(Aenigma(subtle, credentials, key))
  }

  /** `Aenigma.create`: bind the given credentials, or generate fresh ones
      with the default key length first. */
  function Create(subtle: SubtleCrypto, credentials: Option<Credentials>): (r: Result<Aenigma>)
    ensures credentials.Some? ==> r == CreateFrom(subtle, credentials.value)
    ensures credentials.None? && r.Success? ==>
      Generate(subtle, DEFAULT_KEY_LENGTH) == Success(r.value.credentials)
    ensures credentials.None? && Generate(subtle, DEFAULT_KEY_LENGTH).Failure? ==>
      r == Failure(Generate(subtle, DEFAULT_KEY_LENGTH).error)
    ensures credentials.None? && Generate(subtle, DEFAULT_KEY_LENGTH).Success? ==>
      r == CreateFrom(subtle, Generate(subtle, DEFAULT_KEY_LENGTH).value)
  {
    match credentials
    case Some(c) => CreateFrom(subtle, c)
    case None =>
      match Generate(subtle, DEFAULT_KEY_LENGTH)
      case Failure(e) => Failure(e)
      case Success(c) => CreateFrom(subtle, c)
  }

  /** The `BLOCK_SIZE` bytes `getRandomValues` writes into a fresh iv, given
      the random source as the sequence of bytes it yields. */
  function RandomIv(random: nat -> byte): (iv: seq<byte>)
    ensures |iv| == BLOCK_SIZE
  {
    seq(BLOCK_SIZE, i requires 0 <= i => random(i))
  }

  /** What `encrypt` yields once its iv is chosen: the cipher applied to the
      UTF-16 image of the string, recorded with the iv as a view of its own
      buffer; a cipher failure is the outcome as it is. */
  function EncryptWithIv(engine: Aenigma, data: JsString, iv: seq<byte>): (r: Result<EncryptedValue>)
    ensures r.Success? ==>
      && OwnsBuffer(r.value.iv) && Bytes(r.value.iv) == iv
      && engine.subtle.encrypt(ALGORITHM, iv, engine.key, Utf16Bytes(data)) == Success(r.value.data)
    ensures r.Failure? ==>
      engine.subtle.encrypt(ALGORITHM, iv, engine.key, Utf16Bytes(data)) == Failure(r.error)
  {
    match engine.subtle.encrypt(ALGORITHM, iv, engine.key, Utf16Bytes(data))
    case Failure(e) => Failure(e)
    case Success(encrypted) => Success(EncryptedValue(encrypted, NewUint8Array(iv)))
  }

  /** `Aenigma.encrypt`: allocate a zeroed iv of `BLOCK_SIZE` bytes, fill it
      from the random source, pack the string and encrypt it. */
  method Encrypt(engine: Aenigma, data: JsString, random: nat -> byte) returns (r: Result<EncryptedValue>)
    ensures r == EncryptWithIv(engine, data, RandomIv(random))
    ensures r.Success? ==> |Bytes(r.value.iv)| == BLOCK_SIZE
  {
    var iv := new byte[BLOCK_SIZE](_ => 0);
    for i := 0 to BLOCK_SIZE
      invariant iv[..i] == RandomIv(random)[..i]
    {
      iv[i] := random(i);
    }
    assert iv[..] == RandomIv(random);
    var plaintext := StringToArrayBuffer(data);
    var encrypted := engine.subtle.encrypt(ALGORITHM, iv[..], engine.key, plaintext);
    match encrypted {
      case Failure(e) => r := Failure(e);
      case Success(c) => r := Success(EncryptedValue(c, NewUint8Array(iv[..])));
    }
  }

  /** `Aenigma.decrypt`: decrypt under the bytes the iv view shows and read
      the plaintext back as UTF-16.  A cipher failure is the outcome; a
      plaintext of odd length cannot be viewed as 16-bit slots and the
      resulting `RangeError` is the outcome. */
  function Decrypt(engine: Aenigma, value: EncryptedValue): (r: Result<JsString>)
    ensures r.Success? ==>
      engine.subtle.decrypt(ALGORITHM, Bytes(value.iv), engine.key, value.data) == Success(Utf16Bytes(r.value))
    ensures r.Failure? ==>
      || engine.subtle.decrypt(ALGORITHM, Bytes(value.iv), engine.key, value.data) == Failure(r.error)
      || (r.error == RangeError &&
          engine.subtle.decrypt(ALGORITHM, Bytes(value.iv), engine.key, value.data).Success? &&
          |engine.subtle.decrypt(ALGORITHM, Bytes(value.iv), engine.key, value.data).value| % 2 == 1)
  {
    match engine.subtle.decrypt(ALGORITHM, Bytes(value.iv), engine.key, value.data)
    case Failure(e) => Failure(e)
    case Success(decrypted) =>
      if |decrypted| % 2 == 0 then
        BufferRoundTrip(decrypted);
        Success(ArrayBufferToString(decrypted))
      else Failure(RangeError)
  }

  /** Round trip: under the AEAD law, the same engine decrypts what it
      encrypted back to the original string, whatever the iv. */
  lemma DecryptEncrypt(engine: Aenigma, data: JsString, iv: seq<byte>)
    requires AeadRoundTrip(engine.subtle, ALGORITHM)
    requires EncryptWithIv(engine, data, iv).Success?
    ensures Decrypt(engine, EncryptWithIv(engine, data, iv).value) == Success(data)
  {
    StringRoundTrip(data);
  }

  /** The round trip survives the JSON text: an encrypted record written out
      and parsed back still decrypts to the original string. */
  lemma DecryptParsedEncrypt(engine: Aenigma, data: JsString, iv: seq<byte>)
    requires AeadRoundTrip(engine.subtle, ALGORITHM)
    requires EncryptWithIv(engine, data, iv).Success?
    ensures Parse(Stringify(EncryptWithIv(engine, data, iv).value)).Success?
    ensures Decrypt(engine, Parse(Stringify(EncryptWithIv(engine, data, iv).value)).value) == Success(data)
  {
    ParseStringifyOwned(EncryptWithIv(engine, data, iv).value);
    DecryptEncrypt(engine, data, iv);
  }
}
