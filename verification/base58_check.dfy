/**
  Base58Check framing: a version byte, the payload, and the first four bytes
  of the double SHA-256 of those two, all Base58-encoded together. The
  checksum is always derived, never stored on its own.
 */
module Base58Check {
  import opened Wrappers
  import opened BigEndian
  import opened XrplBase58
  import opened Crypto

  /** The first four bytes of SHA-256 applied twice. */
  function Checksum(sha256: seq<Byte> -> Sha256Digest, data: seq<Byte>): (c: seq<Byte>)
    ensures |c| == 4
  {
    sha256(sha256(data))[..4]
  }

  /**
    The bytes `EncodeCheck` encodes for a version and payload: version,
    payload, checksum of the two. The result is five bytes longer than the
    payload, carries a valid checksum, and splits back into the version (byte
    0) and the payload (bytes 1 to len-4).
   */
  function Frame(sha256: seq<Byte> -> Sha256Digest, version: Byte, payload: seq<Byte>): (f: seq<Byte>)
    ensures |f| == |payload| + 5 && Framed(sha256, f)
    ensures f[0] == version && f[1..|f| - 4] == payload
  {
    var data := [version] + payload;
    var f := data + Checksum(sha256, data);
    assert f[..|f| - 4] == data && f[|f| - 4..] == Checksum(sha256, data);
    f
  }

  /**
    A decoded byte string carries a valid frame: at least a version byte and
    a checksum, and the last four bytes are the checksum of the rest.
   */
  predicate Framed(sha256: seq<Byte> -> Sha256Digest, d: seq<Byte>)
  {
    |d| >= 5 && d[|d| - 4..] == Checksum(sha256, d[..|d| - 4])
  }

  /**
    `EncodeCheck`: the Base58 encoding of the frame. Decoding the result gives
    exactly that frame back.
   */
  function EncodeCheck(b58: Base58, sha256: seq<Byte> -> Sha256Digest, version: Byte, payload: seq<Byte>): (s: string)
    requires WellFormed(b58)
    ensures Decode(b58, s) == Success([version] + payload + Checksum(sha256, [version] + payload))
  {
    DecodeEncode(b58, Frame(sha256, version, payload));
    Encode(b58, Frame(sha256, version, payload))
  }

  /** Why `DecodeCheck` rejected its input. */
  datatype CheckError = Undecodable(cause: DecodeError) | InvalidLength | ChecksumMismatch

  /**
    `DecodeCheck`: a decoding error is passed on; fewer than five decoded
    bytes is `InvalidLength`; a checksum that disagrees is
    `ChecksumMismatch`. Otherwise the decoded bytes are exactly the frame of
    the returned version (byte 0) and payload (bytes 1 to len-4).
   */
  function DecodeCheck(b58: Base58, sha256: seq<Byte> -> Sha256Digest, input: string): (r: Result<(Byte, seq<Byte>), CheckError>)
    requires WellFormed(b58)
    ensures Decode(b58, input).Failure? ==> r == Failure(Undecodable(Decode(b58, input).error))
    ensures Decode(b58, input).Success? && |Decode(b58, input).value| < 5 ==> r == Failure(InvalidLength)
    ensures Decode(b58, input).Success? && |Decode(b58, input).value| >= 5 && !Framed(sha256, Decode(b58, input).value)
      ==> r == Failure(ChecksumMismatch)
    ensures r.Success? <==> Decode(b58, input).Success? && Framed(sha256, Decode(b58, input).value)
    ensures r.Success? ==> Decode(b58, input).value == Frame(sha256, r.value.0, r.value.1)
  {
    match Decode(b58, input)
    case Failure(e) => Failure(Undecodable(e))
    case Success(decoded) =>
      if |decoded| < 5 then Failure(InvalidLength)
      else
        var version := decoded[0];
        var payload := decoded[1..|decoded| - 4];
        var checksum := decoded[|decoded| - 4..];
        var toCheck := decoded[..|decoded| - 4];
        if Checksum(sha256, toCheck) != checksum then Failure(ChecksumMismatch)
        else
          assert toCheck == [version] + payload;
          assert decoded == toCheck + checksum;
          Success((version, payload))
  }

  /** Checking an `EncodeCheck` result gives back its version and payload. */
  lemma DecodeCheckEncodeCheck(b58: Base58, sha256: seq<Byte> -> Sha256Digest, version: Byte, payload: seq<Byte>)
    requires WellFormed(b58)
    ensures DecodeCheck(b58, sha256, EncodeCheck(b58, sha256, version, payload)) == Success((version, payload))
  {
    var d := Frame(sha256, version, payload);
    assert d[..|d| - 4] == [version] + payload;
    assert d[|d| - 4..] == Checksum(sha256, [version] + payload);
    assert d[1..|d| - 4] == payload;
  }

  /**
    A string `DecodeCheck` accepts is the `EncodeCheck` of what it returns:
    version and payload determine the checked string.
   */
  lemma EncodeCheckDecodeCheck(b58: Base58, sha256: seq<Byte> -> Sha256Digest, input: string)
    requires WellFormed(b58) && DecodeCheck(b58, sha256, input).Success?
    ensures var (version, payload) := DecodeCheck(b58, sha256, input).value;
      EncodeCheck(b58, sha256, version, payload) == input
  {
    EncodeDecode(b58, input);
  }
}
