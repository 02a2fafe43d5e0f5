/**
 * Token issuance (`generateToken` in app/api/zego/utils.ts).
 *
 * The token is the version tag "04" followed by the base 64 of a binary
 * envelope: the expiry as a signed 64-bit big-endian integer, the 2-byte
 * length of the AES-GCM nonce, that nonce, the 2-byte length of the
 * encrypted descriptor (ciphertext followed by its 16-byte tag), those
 * bytes, and the cipher-mode byte 1.
 *
 * The clock, the random draws and the foreign primitives (JSON text of the
 * descriptor, AES-256-GCM) are parameters.
 */
module ZegoToken {
  import opened Wrappers
  import opened Bytes
  import Base64

  /** The descriptor that is serialized and encrypted into the token. */
  datatype TokenInfo = TokenInfo(
    appId: int,
    userId: string,
    nonce: int,
    ctime: int,
    expire: int,
    payload: string)

  type Tag = t: seq<byte> | |t| == 16 witness [0, 0, 0, 0, 0, 0, 0, 0, 0, 0, 0, 0, 0, 0, 0, 0]

  /** What the cipher gives: `update` and `final` output, then `getAuthTag()`. */
  datatype Sealed = Sealed(cipherText: seq<byte>, tag: Tag)

  /** AES-256-GCM as seen from here: `seal(key, iv, plaintext)` encrypts;
      `open(key, iv, cipherTextAndTag)` decrypts and checks the tag. */
  datatype Aead = Aead(
    seal: (seq<byte>, seq<byte>, seq<byte>) -> Sealed,
    open: (seq<byte>, seq<byte>, seq<byte>) -> Option<seq<byte>>)

  /** The descriptor's JSON text as bytes, and the reader for it. */
  datatype Json = Json(
    stringify: TokenInfo -> seq<byte>,
    parse: seq<byte> -> Option<TokenInfo>)

  /** `InvalidKeyLength` is `createCipheriv` refusing a key that is not 32
      bytes; `OutOfRange` is a `Buffer` write refusing a value its field
      cannot hold. */
  datatype TokenError = InvalidKeyLength | OutOfRange

  const KeyLength: nat := 32
  const IvLength: nat := 12
  const GcmMode: byte := 1
  const VersionTag: string := "04"
  const Int32Min: int := -0x8000_0000
  const Int32Limit: int := 0x8000_0000

  /** The creation time: whole seconds, rounded down, of a clock reading in
      milliseconds. */
  function CreateTime(nowMs: int): (t: int)
    ensures t * 1000 <= nowMs < t * 1000 + 1000
  {
    nowMs / 1000
  }

  /** The descriptor nonce. The random draw scaled by 2^32 - 1 lies in
      [0, 2^32 - 1); `draw` is its integer part, and the nonce is that
      shifted down by 2^31. */
  function DescriptorNonce(draw: int): (n: int)
    requires 0 <= draw < 0xFFFF_FFFF
    ensures Int32Min <= n < Int32Limit - 1
    ensures draw == n - Int32Min
  {
    draw + Int32Min
  }

  function MakeTokenInfo(appId: int, userId: string, ttl: int, nowMs: int, draw: int): (info: TokenInfo)
    requires 0 <= draw < 0xFFFF_FFFF
    ensures info.expire - info.ctime == ttl
    ensures Int32Min <= info.nonce < Int32Limit
  {
    var ctime := CreateTime(nowMs);
    TokenInfo(appId, userId, DescriptorNonce(draw), ctime, ctime + ttl, "")
  }

  /** The fields of the binary envelope. */
  datatype Envelope = Envelope(expire: int, nonce: seq<byte>, encrypted: seq<byte>)

  predicate Packable(e: Envelope) {
    && Int64Min <= e.expire < Int64Limit
    && |e.nonce| < Uint16Limit
    && |e.encrypted| < Uint16Limit
  }

  /** The concatenation of the six buffers, or the error the first
      out-of-range write raises. */
  function Pack(e: Envelope): (r: Result<seq<byte>, TokenError>)
    ensures r.Ok? <==> Packable(e)
    ensures r.Err? ==> r.error == OutOfRange
    ensures r.Ok? ==> |r.value| == 13 + |e.nonce| + |e.encrypted|
  {
    if !(Int64Min <= e.expire < Int64Limit) then Err(OutOfRange)
    else if |e.nonce| >= Uint16Limit || |e.encrypted| >= Uint16Limit then Err(OutOfRange)
    else
      Ok(Int64BE(e.expire) + UintBE(|e.nonce|, 2) + e.nonce
         + UintBE(|e.encrypted|, 2) + e.encrypted + [GcmMode])
  }

  /** Reads an envelope by its length prefixes; the buffer must be used up
      exactly and end in the GCM mode byte. */
  function Unpack(buf: seq<byte>): Option<Envelope>
  {
    if |buf| < 10 then None
    else
      var nonceLen := ReadUintBE(buf[8..10]);
      if |buf| < 12 + nonceLen then None
      else
        var encLen := ReadUintBE(buf[10 + nonceLen..12 + nonceLen]);
        if |buf| != 13 + nonceLen + encLen || buf[|buf| - 1] != GcmMode then None
        else
          Some(Envelope(ReadInt64BE(buf[..8]), buf[10..10 + nonceLen],
                        buf[12 + nonceLen..12 + nonceLen + encLen]))
  }

  /** Every packed envelope reads back field for field. */
  lemma UnpackPack(e: Envelope)
    requires Packable(e)
    ensures Unpack(Pack(e).value) == Some(e)
  {
    var buf := Pack(e).value;
    var n, c := |e.nonce|, |e.encrypted|;
    assert buf[..8] == Int64BE(e.expire);
    assert buf[8..10] == UintBE(n, 2);
    assert buf[10..10 + n] == e.nonce;
    assert buf[10 + n..12 + n] == UintBE(c, 2);
    assert buf[12 + n..12 + n + c] == e.encrypted;
    Int64RoundTrip(e.expire);
    ReadUintBEOfUintBE(n, 2);
    ReadUintBEOfUintBE(c, 2);
  }

  /** A buffer of the envelope's length is the concatenation of its six fields. */
  lemma SplitFields(buf: seq<byte>, n: nat, c: nat)
    requires |buf| == 13 + n + c
    ensures buf == buf[..8] + buf[8..10] + buf[10..10 + n] + buf[10 + n..12 + n]
                   + buf[12 + n..12 + n + c] + [buf[|buf| - 1]]
  {
    assert buf[..10] == buf[..8] + buf[8..10];
    assert buf[..10 + n] == buf[..10] + buf[10..10 + n];
    assert buf[..12 + n] == buf[..10 + n] + buf[10 + n..12 + n];
    assert buf[..12 + n + c] == buf[..12 + n] + buf[12 + n..12 + n + c];
    assert buf == buf[..12 + n + c] + [buf[|buf| - 1]];
  }

  /** Every buffer that reads as an envelope is exactly that envelope packed. */
  lemma PackUnpack(buf: seq<byte>)
    requires Unpack(buf).Some?
    ensures Pack(Unpack(buf).value) == Ok(buf)
  {
    var e := Unpack(buf).value;
    var n, c := |e.nonce|, |e.encrypted|;
    assert n == ReadUintBE(buf[8..10]) && c == ReadUintBE(buf[10 + n..12 + n]);
    UintBEOfReadUintBE(buf[8..10]);
    UintBEOfReadUintBE(buf[10 + n..12 + n]);
    Int64BEOfReadInt64BE(buf[..8]);
    SplitFields(buf, n, c);
  }

  /** `generateToken`: build the descriptor, encrypt its JSON text under the
      secret with the fresh 12-byte `iv`, pack the envelope and encode it. */
  function GenerateToken(aead: Aead, json: Json, appId: int, userId: string, secret: seq<byte>,
                         ttl: int, nowMs: int, draw: int, iv: seq<byte>): Result<string, TokenError>
    requires 0 <= draw < 0xFFFF_FFFF
    requires |iv| == IvLength
  {
    var info := MakeTokenInfo(appId, userId, ttl, nowMs, draw);
    var plainText := json.stringify(info);
    if |secret| != KeyLength then Err(InvalidKeyLength)
    else
      var sealed := aead.seal(secret, iv, plainText);
      match Pack(Envelope(info.expire, iv, sealed.cipherText + sealed.tag))
      case Err(e) => Err(e)
      case Ok(buf) => Ok(VersionTag + Base64.Encode(buf))
  }

  /** The envelope inside a token: strip the version tag, decode, unpack. */
  function ParseToken(token: string): Option<Envelope>
  {
    if |token| < 2 || token[..2] != VersionTag then None
    else
      match Base64.Decode(token[2..])
      case None => None
      case Some(buf) => Unpack(buf)
  }

  /** When issuance fails, and why: a key that is not 32 bytes, an expiry
      outside the signed 64-bit range, or an encrypted block too long for
      its 16-bit length field. */
  lemma GenerateTokenOutcome(aead: Aead, json: Json, appId: int, userId: string, secret: seq<byte>,
                             ttl: int, nowMs: int, draw: int, iv: seq<byte>)
    requires 0 <= draw < 0xFFFF_FFFF
    requires |iv| == IvLength
    ensures var r := GenerateToken(aead, json, appId, userId, secret, ttl, nowMs, draw, iv);
            var info := MakeTokenInfo(appId, userId, ttl, nowMs, draw);
            var sealed := aead.seal(secret, iv, json.stringify(info));
            && (|secret| != KeyLength <==> r == Err(InvalidKeyLength))
            && (r == Err(OutOfRange) <==>
                  |secret| == KeyLength &&
                  (!(Int64Min <= CreateTime(nowMs) + ttl < Int64Limit) || |sealed.cipherText| + 16 >= Uint16Limit))
  {
  }

  /** An issued token carries, readable without the secret, the expiry
      `ctime + ttl`, the 12-byte nonce and the cipher output followed by its
      tag; its length is 2 + 4 * ceil((25 + |encrypted|) / 3). */
  lemma GenerateTokenLayout(aead: Aead, json: Json, appId: int, userId: string, secret: seq<byte>,
                            ttl: int, nowMs: int, draw: int, iv: seq<byte>)
    requires 0 <= draw < 0xFFFF_FFFF
    requires |iv| == IvLength
    requires GenerateToken(aead, json, appId, userId, secret, ttl, nowMs, draw, iv).Ok?
    ensures var token := GenerateToken(aead, json, appId, userId, secret, ttl, nowMs, draw, iv).value;
            var info := MakeTokenInfo(appId, userId, ttl, nowMs, draw);
            var sealed := aead.seal(secret, iv, json.stringify(info));
            var encrypted := sealed.cipherText + sealed.tag;
            && ParseToken(token) == Some(Envelope(CreateTime(nowMs) + ttl, iv, encrypted))
            && encrypted[|encrypted| - 16..] == sealed.tag
            && |token| == 2 + 4 * ((25 + |encrypted| + 2) / 3)
  {
    var info := MakeTokenInfo(appId, userId, ttl, nowMs, draw);
    var sealed := aead.seal(secret, iv, json.stringify(info));
    var e := Envelope(info.expire, iv, sealed.cipherText + sealed.tag);
    UnpackPack(e);
    TokenOfBuffer(Pack(e).value);
  }

  /** The version tag and the base 64 text of a buffer parse back to what
      the buffer unpacks to. */
  lemma TokenOfBuffer(buf: seq<byte>)
    ensures ParseToken(VersionTag + Base64.Encode(buf)) == Unpack(buf)
    ensures |VersionTag + Base64.Encode(buf)| == 2 + 4 * ((|buf| + 2) / 3)
  {
    var token := VersionTag + Base64.Encode(buf);
    assert token[..2] == VersionTag && token[2..] == Base64.Encode(buf);
    Base64.DecodeEncode(buf);
    Base64.EncodeLength(buf);
  }

  /** Why a consumer rejects a token. */
  datatype VerifyError = Malformed | BadTag | Expired

  /** The consumer's side, the inverse of `GenerateToken`: read the envelope,
      decrypt and authenticate the descriptor under the shared secret, check
      that it agrees with the outer expiry, and refuse it once `nowSec` is
      past that expiry. */
  function VerifyToken(aead: Aead, json: Json, secret: seq<byte>, token: string, nowSec: int)
    : Result<TokenInfo, VerifyError>
  {
    match ParseToken(token)
    case None => Err(Malformed)
    case Some(e) =>
      match aead.open(secret, e.nonce, e.encrypted)
      case None => Err(BadTag)
      case Some(plainText) =>
        match json.parse(plainText)
        case None => Err(Malformed)
        case Some(info) =>
          if info.expire != e.expire then Err(Malformed)
          else if nowSec > info.expire then Err(Expired)
          else Ok(info)
  }

  /** Decryption undoes encryption under the same key and nonce. */
  ghost predicate AeadInverts(aead: Aead) {
    forall key, iv, plainText ::
      var s := aead.seal(key, iv, plainText); aead.open(key, iv, s.cipherText + s.tag) == Some(plainText)
  }

  /** Parsing the JSON text of a descriptor gives it back. */
  ghost predicate JsonInverts(json: Json) {
    forall info :: json.parse(json.stringify(info)) == Some(info)
  }

  /** Issue then verify: a consumer holding the secret recovers the very
      descriptor issued (so its user id, and an expiry `ttl` seconds after
      the creation time), and rejects it as expired exactly when its clock
      is past that expiry. */
  lemma VerifyGeneratedToken(aead: Aead, json: Json, appId: int, userId: string, secret: seq<byte>,
                             ttl: int, nowMs: int, draw: int, iv: seq<byte>, nowSec: int)
    requires 0 <= draw < 0xFFFF_FFFF
    requires |iv| == IvLength
    requires AeadInverts(aead) && JsonInverts(json)
    requires GenerateToken(aead, json, appId, userId, secret, ttl, nowMs, draw, iv).Ok?
    ensures var token := GenerateToken(aead, json, appId, userId, secret, ttl, nowMs, draw, iv).value;
            var info := MakeTokenInfo(appId, userId, ttl, nowMs, draw);
            && info.userId == userId
            && info.expire == CreateTime(nowMs) + ttl
            && VerifyToken(aead, json, secret, token, nowSec)
               == if nowSec > CreateTime(nowMs) + ttl then Err(Expired) else Ok(info)
  {
    var info := MakeTokenInfo(appId, userId, ttl, nowMs, draw);
    var plainText := json.stringify(info);
    var s := aead.seal(secret, iv, plainText);
    GenerateTokenLayout(aead, json, appId, userId, secret, ttl, nowMs, draw, iv);
    assert aead.open(secret, iv, s.cipherText + s.tag) == Some(plainText);
    assert json.parse(plainText) == Some(info);
  }
}
