/** Storage (`aenigma.service.ts`): a provider that keeps serialised
    records under string identifiers, and the service that puts the cipher
    engine in front of it. */
module Service {
  import opened Util
  import opened Results
  import opened WebCrypto
  import opened Model
  import opened Cipher

  /** What the provider's `retrieve` yields from the stored items: the
      not-found error exactly when nothing is stored under the identifier,
      and a record only when the stored text is that record's own text. */
  function Lookup(items: map<string, string>, identifier: string): (r: Result<EncryptedValue>)
    ensures r == Failure(NotFound(identifier)) <==> identifier !in items
    ensures r.Success? ==> identifier in items && Stringify(r.value) == items[identifier]
  {
    if identifier in items then
      StringifyParse(items[identifier]);
      Parse(items[identifier])
    else Failure(NotFound(identifier))
  }

  /** What the service's `retrieve` yields: the provider's outcome, then the
      engine's decryption of a retrieved record. */
  function RetrieveFrom(engine: Aenigma, items: map<string, string>, identifier: string): (r: Result<JsString>)
    ensures Lookup(items, identifier).Failure? ==> r == Failure(Lookup(items, identifier).error)
    ensures Lookup(items, identifier).Success? ==> r == Decrypt(engine, Lookup(items, identifier).value)
  {
    match Lookup(items, identifier)
    case Failure(e) => Failure(e)
    case Success(v) => Decrypt(engine, v)
  }

  /** `AenigmaLocalStorageProvider`: the browser's local storage is a map
      from identifiers to strings. */
  class LocalStorageProvider {
    var items: map<string, string>

    constructor (initial: map<string, string>)
      ensures items == initial
    {
      items := initial;
    }

    /** `store`: write the record's JSON text under the identifier and echo
        the record. */
    method Store(data: EncryptedValue, identifier: string) returns (stored: EncryptedValue)
      modifies this
      ensures items == old(items)[identifier := Stringify(data)]
      ensures stored == data
    {
      items := items[identifier := Stringify(data)];
      stored := data;
    }

    /** `retrieve`: parse the text stored under the identifier, or fail with
        the identifier when nothing is stored under it. */
    method Retrieve(identifier: string) returns (r: Result<EncryptedValue>)
      ensures r == Lookup(items, identifier)
    {
      if identifier in items {
        r := Parse(items[identifier]);
      } else {
        r := Failure(NotFound(identifier));
      }
    }
  }

  /** `AenigmaStorageService`: an engine and a provider, both fixed at
      construction. */
  class StorageService {
    const aenigma: Aenigma
    const provider: LocalStorageProvider

    constructor (aenigma: Aenigma, provider: LocalStorageProvider)
      ensures this.aenigma == aenigma && this.provider == provider
    {
      this.aenigma := aenigma;
      this.provider := provider;
    }

    /** `store`: encrypt, then hand the record to the provider; an
        encryption failure stores nothing and is the outcome. */
    method Store(data: JsString, identifier: string, random: nat -> byte) returns (r: Result<EncryptedValue>)
      modifies provider
      ensures r == EncryptWithIv(aenigma, data, RandomIv(random))
      ensures r.Failure? ==> provider.items == old(provider.items)
      ensures r.Success? ==> provider.items == old(provider.items)[identifier := Stringify(r.value)]
    {
      var encrypted := Encrypt(aenigma, data, random);
      match encrypted {
        case Failure(e) => r := Failure(e);
        case Success(value) =>
          var stored := provider.Store(value, identifier);
          r := Success(stored);
      }
    }

    /** `retrieve`: fetch the record from the provider, then decrypt it; a
        missing identifier, a malformed text or a decryption failure is the
        outcome. */
    method Retrieve(identifier: string) returns (r: Result<JsString>)
      ensures r == RetrieveFrom(aenigma, provider.items, identifier)
    {
      var retrieved := provider.Retrieve(identifier);
      match retrieved {
        case Failure(e) => r := Failure(e);
        case Success(value) => r := Decrypt(aenigma, value);
      }
    }
  }

  // ---- properties of the stored items ----

  /** An identifier never stored under yields the not-found error and no value. */
  lemma LookupMissing(items: map<string, string>, identifier: string)
    requires identifier !in items
    ensures Lookup(items, identifier) == Failure(NotFound(identifier))
  {
  }

  /** Store then retrieve under the same identifier gives back a record with
      the same data and the same iv bytes. */
  lemma LookupAfterStore(items: map<string, string>, v: EncryptedValue, identifier: string)
    requires OwnsBuffer(v.iv)
    ensures Lookup(items[identifier := Stringify(v)], identifier) == Success(v)
  {
    ParseStringifyOwned(v);
  }

  /** Storing under one identifier leaves every other identifier's outcome
      as it was. */
  lemma LookupOtherKey(items: map<string, string>, v: EncryptedValue, identifier: string, other: string)
    requires other != identifier
    ensures Lookup(items[identifier := Stringify(v)], other) == Lookup(items, other)
  {
  }

  /** The last write under an identifier wins. */
  lemma LastWriteWins(items: map<string, string>, v1: EncryptedValue, v2: EncryptedValue, identifier: string)
    requires OwnsBuffer(v2.iv)
    ensures Lookup(items[identifier := Stringify(v1)][identifier := Stringify(v2)], identifier) == Success(v2)
  {
    LookupAfterStore(items[identifier := Stringify(v1)], v2, identifier);
  }

  /** End to end: what the service stored under an identifier, the same
      service retrieves as the original string, under the AEAD law. */
  lemma RetrieveAfterStore(engine: Aenigma, items: map<string, string>, data: JsString, identifier: string, iv: seq<byte>)
    requires AeadRoundTrip(engine.subtle, ALGORITHM)
    requires EncryptWithIv(engine, data, iv).Success?
    ensures RetrieveFrom(engine, items[identifier := Stringify(EncryptWithIv(engine, data, iv).value)], identifier) == Success(data)
  {
    LookupAfterStore(items, EncryptWithIv(engine, data, iv).value, identifier);
    DecryptEncrypt(engine, data, iv);
  }

  /** The classes compose as the lemmas say: a successful `store` followed by
      `retrieve` on the same service yields the stored string. */
  method StoreThenRetrieve(service: StorageService, data: JsString, identifier: string, random: nat -> byte)
    returns (stored: Result<EncryptedValue>, retrieved: Result<JsString>)
    requires AeadRoundTrip(service.aenigma.subtle, ALGORITHM)
    modifies service.provider
    ensures stored.Success? ==> retrieved == Success(data)
  {
    stored := service.Store(data, identifier, random);
    retrieved := service.Retrieve(identifier);
    if stored.Success? {
      RetrieveAfterStore(service.aenigma, old(service.provider.items), data, identifier, RandomIv(random));
    }
  }
}
