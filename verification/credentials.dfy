/**
  Credential handling: turning a family seed into an ed25519 private key and
  deriving an address string from a public key. Both build a fresh codec
  with `NewBase58`.
 */
module Credentials {
  import opened Wrappers
  import opened BigEndian
  import opened XrplBase58
  import opened Crypto
  import opened Base58Check

  /** Version byte of a family seed. */
  const FamilySeedPrefix: Byte := 0x21

  /** Version byte `DeriveAddress` puts in front of the key digest. */
  const AccountPublicPrefix: Byte := 0x23

  /** `ed25519.PublicKeySize`. */
  const PublicKeySize: nat := 32

  /** Number of digest bytes kept as the address payload. */
  const AddressPayloadSize: nat := 20

  /** Why `DecodeFamilySeed` rejected a seed. */
  datatype SeedError = MissingPrefix | SeedUndecodable(cause: CheckError) | WrongVersion

  /** The seed text starts with 's'. */
  predicate HasSeedPrefix(seed: string)
  {
    |seed| > 0 && seed[0] == 's'
  }

  /**
    The private key a seed payload stands for: the ed25519 key whose 32-byte
    seed is the first half of the payload's SHA-512.
   */
  function SeedKey(crypto: Primitives, seedBytes: seq<Byte>): Ed25519PrivateKey
  {
    crypto.newKeyFromSeed(crypto.sha512(seedBytes)[..32])
  }

  /**
    `DecodeFamilySeed`: a seed not starting with 's' is rejected first; then a
    `DecodeCheck` failure is passed on, and a version byte other than 0x21 is
    rejected. Otherwise the key is the ed25519 key whose seed is the first 32
    bytes of the SHA-512 of the decoded payload, so it depends on nothing but
    that payload.
   */
  function DecodeFamilySeed(crypto: Primitives, seed: string): (r: Result<Ed25519PrivateKey, SeedError>)
    ensures !HasSeedPrefix(seed) ==> r == Failure(MissingPrefix)
    ensures HasSeedPrefix(seed) && CheckSeed(crypto, seed).Failure?
      ==> r == Failure(SeedUndecodable(CheckSeed(crypto, seed).error))
    ensures HasSeedPrefix(seed) && CheckSeed(crypto, seed).Success? && CheckSeed(crypto, seed).value.0 != FamilySeedPrefix
      ==> r == Failure(WrongVersion)
    ensures r.Success? <==>
      HasSeedPrefix(seed) && CheckSeed(crypto, seed).Success? && CheckSeed(crypto, seed).value.0 == FamilySeedPrefix
    ensures r.Success? ==> r.value == SeedKey(crypto, CheckSeed(crypto, seed).value.1)
  {
    if !HasSeedPrefix(seed) then Failure(MissingPrefix)
    else
      var checked := CheckSeed(crypto, seed);
      if checked.Failure? then Failure(SeedUndecodable(checked.error))
      else
        var (version, seedBytes) := checked.value;
        if version != FamilySeedPrefix then Failure(WrongVersion)
        else Success(SeedKey(crypto, seedBytes))
  }

  /** `DecodeCheck` with a fresh XRPL codec, as `DecodeFamilySeed` runs it. */
  function CheckSeed(crypto: Primitives, seed: string): Result<(Byte, seq<Byte>), CheckError>
  {
    DecodeCheck(NewBase58(), crypto.sha256, seed)
  }

  /** Bytes of entropy in a family seed on the XRP Ledger. */
  const SeedEntropySize: nat := 16

  /**
    Checksum-encoding 16 bytes of entropy under version 0x21 always gives a
    29-character string starting with 's': the 21 framed bytes denote a
    number between 2 * 58^28 and 3 * 58^28, and digit 2 of the alphabet is
    's'.
   */
  lemma FamilySeedText(sha256: seq<Byte> -> Sha256Digest, payload: seq<Byte>)
    requires |payload| == SeedEntropySize
    ensures var seed := EncodeCheck(NewBase58(), sha256, FamilySeedPrefix, payload);
      |seed| == 29 && HasSeedPrefix(seed)
  {
    var frame := Frame(sha256, FamilySeedPrefix, payload);
    var rest := frame[1..];
    assert frame == [FamilySeedPrefix] + rest;
    ToNatCons(FamilySeedPrefix, rest);
    SeedPowers();
    assert 2 * Pow(Base, 28) <= ToNat(frame) < 3 * Pow(Base, 28);
    var b58 := NewBase58();
    EncodeLeading(b58, frame, 28, 2);
    SeedSymbol();
  }

  /** The two powers that place a framed seed's value: 256^20 and 58^28. */
  lemma SeedPowers()
    ensures Pow(256, 20) == 0x1_0000_0000_0000_0000_0000_0000_0000_0000_0000_0000
    ensures Pow(Base, 28) == 23767517358231570773047645414309870043308402671616
  {
    PowFour(256);
    PowAdd(256, 4, 4);
    PowAdd(256, 8, 8);
    PowAdd(256, 16, 4);
    PowFour(Base);
    PowAdd(Base, 4, 4);
    PowAdd(Base, 8, 8);
    PowAdd(Base, 16, 8);
    PowAdd(Base, 24, 4);
  }

  /**
    A family seed made from 16 bytes of entropy decodes to the key derived
    from that entropy.
   */
  lemma FamilySeedRoundTrip(crypto: Primitives, payload: seq<Byte>)
    requires |payload| == SeedEntropySize
    ensures DecodeFamilySeed(crypto, EncodeCheck(NewBase58(), crypto.sha256, FamilySeedPrefix, payload))
      == Success(SeedKey(crypto, payload))
  {
    FamilySeedText(crypto.sha256, payload);
    DecodeCheckEncodeCheck(NewBase58(), crypto.sha256, FamilySeedPrefix, payload);
  }

  /** Why `DeriveAddress` rejected a key. */
  datatype AddressError = InvalidPublicKeyLength

  /**
    `DeriveAddress`: fails exactly when the key is not 32 bytes long.
    Otherwise the result checks as version 0x23 with a 20-byte payload, the
    first 20 bytes of the SHA-512 of the key.
   */
  function DeriveAddress(crypto: Primitives, publicKey: seq<Byte>): (r: Result<string, AddressError>)
    ensures r.Failure? <==> |publicKey| != PublicKeySize
    ensures r.Success? ==>
      DecodeCheck(NewBase58(), crypto.sha256, r.value)
        == Success((AccountPublicPrefix, crypto.sha512(publicKey)[..AddressPayloadSize]))
  {
    if |publicKey| != PublicKeySize then Failure(InvalidPublicKeyLength)
    else
      var hash := crypto.sha512(publicKey);
      var digestPrefix := hash[..AddressPayloadSize];
      var b58 := NewBase58();
      DecodeCheckEncodeCheck(b58, crypto.sha256, AccountPublicPrefix, digestPrefix);
      Success(EncodeCheck(b58, crypto.sha256, AccountPublicPrefix, digestPrefix))
  }

  /**
    A checked string whose version byte is not zero never begins with 'r':
    the encoding has no leading zero byte to turn into a leading zero digit.
   */
  lemma CheckedStringLeadingSymbol(sha256: seq<Byte> -> Sha256Digest, version: Byte, payload: seq<Byte>)
    ensures var s := EncodeCheck(NewBase58(), sha256, version, payload);
      |s| > 0 && (s[0] == 'r' <==> version == 0)
  {
    var b58 := NewBase58();
    var frame := Frame(sha256, version, payload);
    var s := EncodeCheck(b58, sha256, version, payload);
    assert LeadingSymbols(b58, s) == LeadingZeros(frame);
    assert frame[0] == version;
  }

  /**
    Every address `DeriveAddress` returns starts with a character other than
    'r', whereas account addresses on the ledger all start with 'r'.
   */
  lemma DerivedAddressIsNotClassic(crypto: Primitives, publicKey: seq<Byte>)
    requires |publicKey| == PublicKeySize
    ensures var address := DeriveAddress(crypto, publicKey).value;
      |address| > 0 && address[0] != 'r'
  {
    var digestPrefix := crypto.sha512(publicKey)[..AddressPayloadSize];
    CheckedStringLeadingSymbol(crypto.sha256, AccountPublicPrefix, digestPrefix);
  }

  /** Version byte of an account ID, the classic address format. */
  const AccountIdPrefix: Byte := 0x00

  /**
    `DeriveAddress` with the account-ID version byte: same length check and
    payload, and every address it returns starts with 'r'.
   */
  function DeriveClassicAddress(crypto: Primitives, publicKey: seq<Byte>): (r: Result<string, AddressError>)
    ensures r.Failure? <==> |publicKey| != PublicKeySize
    ensures r.Success? ==> |r.value| > 0 && r.value[0] == 'r'
    ensures r.Success? ==>
      DecodeCheck(NewBase58(), crypto.sha256, r.value)
        == Success((AccountIdPrefix, crypto.sha512(publicKey)[..AddressPayloadSize]))
  {
    if |publicKey| != PublicKeySize then Failure(InvalidPublicKeyLength)
    else
      var digestPrefix := crypto.sha512(publicKey)[..AddressPayloadSize];
      var b58 := NewBase58();
      DecodeCheckEncodeCheck(b58, crypto.sha256, AccountIdPrefix, digestPrefix);
      CheckedStringLeadingSymbol(crypto.sha256, AccountIdPrefix, digestPrefix);
      Success(EncodeCheck(b58, crypto.sha256, AccountIdPrefix, digestPrefix))
  }
}
