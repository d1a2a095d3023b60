/** Salted password hashes of the UGM users: the stored hash is the base64
    text of digest(password + salt) + salt. The hash function is a
    parameter (sha256 by default). */
module Auth {
  import opened Wrappers
  import opened Text
  import Base64
  import opened Principals

  /** The default salt length. */
  const SALT_LEN: nat := 8

  /** A hash function: bytes in, digest bytes out. */
  type Digest = seq<byte> -> seq<byte>

  /** hash_passwd: base64(digest(pw + salt) + salt), as text; `salt` stands
      for the `salt_len` random bytes drawn for this call. */
  function HashPasswd(digest: Digest, pw: seq<byte>, salt: seq<byte>): (h: string)
    ensures Base64.Decode(h) == Some(digest(pw + salt) + salt)
  {
    Base64.DecodeEncode(digest(pw + salt) + salt);
    Base64.Encode(digest(pw + salt) + salt)
  }

  /** The stored hash decoded: b64decode reads text or bytes; malformed
      base64 is a decoding error, any other value (None included) a
      TypeError. */
  function DecodeHash(hashed: Val): (r: Result<seq<byte>>)
    ensures hashed.VStr? ==> (r.Ok? <==> Base64.Decode(hashed.s).Some?)
    ensures hashed.VStr? && r.Ok? ==> r.value == Base64.Decode(hashed.s).value
    ensures hashed.VBytes? ==> (r.Ok? <==> Base64.Decode(BytesText(hashed.b)).Some?)
    ensures hashed.VBytes? && r.Ok? ==> r.value == Base64.Decode(BytesText(hashed.b)).value
    ensures !hashed.VStr? && !hashed.VBytes? ==> r == Err(TypeError(DECODE_TYPE_MESSAGE))
    ensures r.Err? && (hashed.VStr? || hashed.VBytes?) ==> r.error == DecodeError
  {
    match hashed
    case VStr(s) =>
      (match Base64.Decode(s)
       case Some(d) => Ok(d)
       case None => Err(DecodeError))
    case VBytes(b) =>
      (match Base64.Decode(BytesText(b))
       case Some(d) => Ok(d)
       case None => Err(DecodeError))
    case _ => Err(TypeError(DECODE_TYPE_MESSAGE))
  }

  /** A hash stored as bytes decodes like the same hash stored as text. */
  lemma DecodeHashBytes(h: string)
    requires forall i :: 0 <= i < |h| ==> h[i] as int < 256
    ensures DecodeHash(VBytes(seq(|h|, i requires 0 <= i < |h| => h[i] as byte))) == DecodeHash(VStr(h))
  {
    var b := seq(|h|, i requires 0 <= i < |h| => h[i] as byte);
    assert BytesText(b) == h;
  }

  /** _chk_pw as written: the salt is `hashed[-salt_len:]`, which for a
      salt length of 0 is the whole decoded hash. */
  function ChkPwAsWritten(digest: Digest, saltLen: nat, plain: seq<byte>, hashed: Val): (r: Result<bool>)
    ensures r.Err? <==> DecodeHash(hashed).Err?
  {
    match DecodeHash(hashed)
    case Err(e) => Err(e)
    case Ok(d) =>
      var salt := PySuffix(d, saltLen);
      Ok(d == digest(plain + salt) + salt)
  }

  /** _chk_pw with the salt taken as the last `salt_len` bytes of the decoded
      hash (none when the length is 0). */
  function ChkPw(digest: Digest, saltLen: nat, plain: seq<byte>, hashed: Val): (r: Result<bool>)
    ensures r.Err? <==> DecodeHash(hashed).Err?
  {
    match DecodeHash(hashed)
    case Err(e) => Err(e)
    case Ok(d) =>
      var salt := d[|d| - (if saltLen <= |d| then saltLen else |d|)..];
      Ok(d == digest(plain + salt) + salt)
  }

  /** The password a hash was made from checks against it, whatever the
      hash function, when the salt has the configured length. */
  lemma CheckHashed(digest: Digest, saltLen: nat, pw: seq<byte>, salt: seq<byte>)
    requires |salt| == saltLen
    ensures ChkPw(digest, saltLen, pw, VStr(HashPasswd(digest, pw, salt))) == Ok(true)
  {
    var d := digest(pw + salt) + salt;
    assert d[|d| - saltLen..] == salt;
  }

  /** Another password checks against the hash exactly when it hashes, with
      the same salt, to the same digest. */
  lemma CheckOther(digest: Digest, saltLen: nat, pw: seq<byte>, other: seq<byte>, salt: seq<byte>)
    requires |salt| == saltLen
    ensures ChkPw(digest, saltLen, other, VStr(HashPasswd(digest, pw, salt))) == Ok(true)
      <==> digest(other + salt) == digest(pw + salt)
  {
    var d := digest(pw + salt) + salt;
    assert d[|d| - saltLen..] == salt;
    if digest(other + salt) + salt == d {
      assert digest(other + salt) == d[..|d| - saltLen];
    }
  }

  /** With a positive salt length the source's slice is the intended one. */
  lemma AsWrittenAgrees(digest: Digest, saltLen: nat, plain: seq<byte>, hashed: Val)
    requires saltLen > 0
    ensures ChkPwAsWritten(digest, saltLen, plain, hashed) == ChkPw(digest, saltLen, plain, hashed)
  {
  }

  /** With a salt length of 0, `hashed[-0:]` takes the whole hash as the
      salt, and the very password the hash was made from is refused. */
  lemma AsWrittenRejectsZeroSalt(digest: Digest, pw: seq<byte>)
    requires forall data :: |digest(data)| > 0
    ensures ChkPwAsWritten(digest, 0, pw, VStr(HashPasswd(digest, pw, []))) == Ok(false)
    ensures ChkPw(digest, 0, pw, VStr(HashPasswd(digest, pw, []))) == Ok(true)
  {
    var d := digest(pw + []) + [];
    assert |digest(pw + d)| > 0;
    CheckHashed(digest, 0, pw, []);
  }
}
