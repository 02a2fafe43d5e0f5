/**
 * Request signing (`generateSignature` in app/api/zego/utils.ts) and the
 * query parameters `sendZegoRequest` attaches to each management-API call.
 *
 * MD5 is a parameter (`md5Hex` maps a string to its hex digest); so are
 * the clock (`nowMs`) and the eight random bytes of the signature nonce.
 */
module ZegoSignature {
  import opened Wrappers
  import opened Bytes
  import Decimal
  import Hex

  /** The string that is digested: the application id in decimal, the
      nonce, the secret, and the timestamp in decimal, back to back. */
  function SignaturePreimage(appId: int, signatureNonce: string, serverSecret: string, timestamp: int): string
  {
    Decimal.Show(appId) + signatureNonce + serverSecret + Decimal.Show(timestamp)
  }

  /** The digest of the pre-image, in hex. */
  function GenerateSignature(md5Hex: string -> string, appId: int, signatureNonce: string,
                             serverSecret: string, timestamp: int): string
  {
    md5Hex(SignaturePreimage(appId, signatureNonce, serverSecret, timestamp))
  }

  /** The pre-image starts with the application id and ends with the
      timestamp, each readable back as the number it renders, with the
      nonce and the secret verbatim in between. */
  lemma PreimageFields(appId: int, signatureNonce: string, serverSecret: string, timestamp: int)
    ensures var p := SignaturePreimage(appId, signatureNonce, serverSecret, timestamp);
            var a, t := |Decimal.Show(appId)|, |Decimal.Show(timestamp)|;
            && |p| == a + |signatureNonce| + |serverSecret| + t
            && Decimal.Parse(p[..a]) == Some(appId)
            && p[a..a + |signatureNonce|] == signatureNonce
            && p[a + |signatureNonce|..|p| - t] == serverSecret
            && Decimal.Parse(p[|p| - t..]) == Some(timestamp)
  {
    var p := SignaturePreimage(appId, signatureNonce, serverSecret, timestamp);
    SliceFour(Decimal.Show(appId), signatureNonce, serverSecret, Decimal.Show(timestamp));
    Decimal.ParseShow(appId);
    Decimal.ParseShow(timestamp);
  }

  lemma SliceFour(a: string, b: string, c: string, d: string)
    ensures var s := a + b + c + d;
            && |s| == |a| + |b| + |c| + |d|
            && s[..|a|] == a
            && s[|a|..|a| + |b|] == b
            && s[|a| + |b|..|s| - |d|] == c
            && s[|s| - |d|..] == d
  {
  }

  /** URL search parameters, in order. */
  type Query = seq<(string, string)>

  predicate HasKey(q: Query, key: string) {
    exists i :: 0 <= i < |q| && q[i].0 == key
  }

  predicate UniqueKeys(q: Query) {
    forall i, j :: 0 <= i < j < |q| ==> q[i].0 != q[j].0
  }

  /** `searchParams.get(key)`: the value of the first pair with that key. */
  function Lookup(q: Query, key: string): (r: Option<string>)
    ensures r.None? <==> !HasKey(q, key)
    ensures r.Some? ==> exists i :: 0 <= i < |q| && q[i] == (key, r.value) && !HasKey(q[..i], key)
  {
    if q == [] then None
    else if q[0].0 == key then
      assert q[0] == (key, q[0].1) && q[..0] == [];
      Some(q[0].1)
    else
      var r := Lookup(q[1..], key);
      assert HasKey(q[1..], key) ==> HasKey(q, key);
      assert r.Some? ==> exists i :: 0 <= i < |q| && q[i] == (key, r.value) && !HasKey(q[..i], key) by {
        if r.Some? {
          var i :| 0 <= i < |q[1..]| && q[1..][i] == (key, r.value) && !HasKey(q[1..][..i], key);
          assert q[i + 1] == (key, r.value);
          assert q[..i + 1] == [q[0]] + q[1..][..i];
        }
      }
      r
  }

  /** The pairs whose key is not `key`. */
  function Without(q: Query, key: string): (r: Query)
    ensures !HasKey(r, key)
    ensures forall k :: k != key ==> Lookup(r, k) == Lookup(q, k)
  {
    if q == [] then []
    else if q[0].0 == key then Without(q[1..], key)
    else [q[0]] + Without(q[1..], key)
  }

  /** `searchParams.set(key, value)`: the first pair with that key takes the
      value and any later ones are dropped; with no such pair, one is
      appended. */
  function SetParam(q: Query, key: string, value: string): Query
  {
    if q == [] then [(key, value)]
    else if q[0].0 == key then [(key, value)] + Without(q[1..], key)
    else [q[0]] + SetParam(q[1..], key, value)
  }

  /** After `set`, `get` of that key gives the new value and every other
      key reads as before. */
  lemma {:induction false} SetParamLookup(q: Query, key: string, value: string)
    ensures Lookup(SetParam(q, key, value), key) == Some(value)
    ensures forall k :: k != key ==> Lookup(SetParam(q, key, value), k) == Lookup(q, k)
  {
    if q != [] && q[0].0 != key {
      SetParamLookup(q[1..], key, value);
    }
  }

  /** With unique keys, `get` finds each pair's own value. */
  lemma {:induction false} LookupAt(q: Query, i: int)
    requires UniqueKeys(q) && 0 <= i < |q|
    ensures Lookup(q, q[i].0) == Some(q[i].1)
  {
    if i > 0 {
      assert q[1..][i - 1] == q[i];
      LookupAt(q[1..], i - 1);
    }
  }

  /** `set` on a key the query does not hold appends one pair. */
  lemma {:induction false} SetParamAppends(q: Query, key: string, value: string)
    requires !HasKey(q, key)
    ensures SetParam(q, key, value) == q + [(key, value)]
  {
    if q != [] {
      forall i | 0 <= i < |q[1..]|
        ensures q[1..][i].0 != key
      {
        assert q[1..][i] == q[i + 1];
      }
      SetParamAppends(q[1..], key, value);
    }
  }

  const SignatureVersion: string := "2.0"

  /** The six `searchParams.set` calls, in order, on an empty query. */
  function QueryParams(action: string, appId: string, signatureNonce: string, timestamp: string,
                       signature: string): Query
  {
    var q0: Query := [];
    var q1 := SetParam(q0, "Action", action);
    var q2 := SetParam(q1, "AppId", appId);
    var q3 := SetParam(q2, "SignatureNonce", signatureNonce);
    var q4 := SetParam(q3, "Timestamp", timestamp);
    var q5 := SetParam(q4, "Signature", signature);
    SetParam(q5, "SignatureVersion", SignatureVersion)
  }

  /** The parameters `sendZegoRequest` sets, given the random bytes of the
      signature nonce and the clock; the nonce is their hex rendering and
      the timestamp is in seconds. */
  function SignedQuery(md5Hex: string -> string, action: string, appId: int, serverSecret: string,
                       nonceBytes: seq<byte>, nowMs: int): Query
    requires |nonceBytes| == 8
  {
    var signatureNonce := Hex.Encode(nonceBytes);
    var timestamp := nowMs / 1000;
    var signature := GenerateSignature(md5Hex, appId, signatureNonce, serverSecret, timestamp);
    QueryParams(action, Decimal.Show(appId), signatureNonce, Decimal.Show(timestamp), signature)
  }

  /** The receiving service's check: recompute the digest from the query's
      own application id, nonce and timestamp under the shared secret, and
      compare it with the query's signature. */
  predicate VerifyQuery(md5Hex: string -> string, serverSecret: string, q: Query) {
    var a, n, t := Lookup(q, "AppId"), Lookup(q, "SignatureNonce"), Lookup(q, "Timestamp");
    var sig, ver := Lookup(q, "Signature"), Lookup(q, "SignatureVersion");
    && a.Some? && n.Some? && t.Some? && sig.Some? && ver.Some?
    && Decimal.Parse(a.value).Some?
    && Decimal.Parse(t.value).Some?
    && ver.value == SignatureVersion
    && sig.value == GenerateSignature(md5Hex, Decimal.Parse(a.value).value, n.value, serverSecret,
                                      Decimal.Parse(t.value).value)
  }

  /** The six parameters, once each and in the order they are set. */
  lemma QueryParamsPairs(action: string, appId: string, signatureNonce: string, timestamp: string,
                         signature: string)
    ensures QueryParams(action, appId, signatureNonce, timestamp, signature) ==
              [("Action", action), ("AppId", appId), ("SignatureNonce", signatureNonce),
               ("Timestamp", timestamp), ("Signature", signature), ("SignatureVersion", SignatureVersion)]
  {
    var q1: Query := [("Action", action)];
    var q2 := q1 + [("AppId", appId)];
    var q3 := q2 + [("SignatureNonce", signatureNonce)];
    var q4 := q3 + [("Timestamp", timestamp)];
    var q5 := q4 + [("Signature", signature)];
    SetParamAppends(q1, "AppId", appId);
    SetParamAppends(q2, "SignatureNonce", signatureNonce);
    SetParamAppends(q3, "Timestamp", timestamp);
    SetParamAppends(q4, "Signature", signature);
    SetParamAppends(q5, "SignatureVersion", SignatureVersion);
  }

  /** Each of the six keys reads back the value it was set to. */
  lemma QueryParamsLookup(action: string, appId: string, signatureNonce: string, timestamp: string,
                          signature: string)
    ensures var q := QueryParams(action, appId, signatureNonce, timestamp, signature);
            && UniqueKeys(q)
            && Lookup(q, "Action") == Some(action)
            && Lookup(q, "AppId") == Some(appId)
            && Lookup(q, "SignatureNonce") == Some(signatureNonce)
            && Lookup(q, "Timestamp") == Some(timestamp)
            && Lookup(q, "Signature") == Some(signature)
            && Lookup(q, "SignatureVersion") == Some(SignatureVersion)
  {
    QueryParamsPairs(action, appId, signatureNonce, timestamp, signature);
    var q := QueryParams(action, appId, signatureNonce, timestamp, signature);
    assert UniqueKeys(q);
    LookupAt(q, 0);
    LookupAt(q, 1);
    LookupAt(q, 2);
    LookupAt(q, 3);
    LookupAt(q, 4);
    LookupAt(q, 5);
  }

  /** The query carries the same nonce (16 hex digits of the random bytes)
      and the same timestamp that were signed, the fixed signature version,
      and so passes the receiver's check. */
  lemma VerifySignedQuery(md5Hex: string -> string, action: string, appId: int, serverSecret: string,
                          nonceBytes: seq<byte>, nowMs: int)
    requires |nonceBytes| == 8
    ensures var q := SignedQuery(md5Hex, action, appId, serverSecret, nonceBytes, nowMs);
            && Lookup(q, "SignatureNonce") == Some(Hex.Encode(nonceBytes))
            && |Hex.Encode(nonceBytes)| == 16
            && Hex.Decode(Hex.Encode(nonceBytes)) == Some(nonceBytes)
            && Lookup(q, "Timestamp") == Some(Decimal.Show(nowMs / 1000))
            && Lookup(q, "SignatureVersion") == Some(SignatureVersion)
            && VerifyQuery(md5Hex, serverSecret, q)
  {
    var signatureNonce := Hex.Encode(nonceBytes);
    var timestamp := nowMs / 1000;
    var signature := GenerateSignature(md5Hex, appId, signatureNonce, serverSecret, timestamp);
    QueryParamsLookup(action, Decimal.Show(appId), signatureNonce, Decimal.Show(timestamp), signature);
    Hex.EncodeLength(nonceBytes);
    Hex.DecodeEncode(nonceBytes);
    Decimal.ParseShow(appId);
    Decimal.ParseShow(nowMs / 1000);
  }
}
