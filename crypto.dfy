/** The cryptographic primitives the vault is built on, kept abstract.

    Key derivation is Argon2id (version 0x13, section 3.1 of RFC 9106) and
    encryption is ChaCha20-Poly1305 (section 2.8 of RFC 8439) with empty
    associated data. Neither algorithm is modelled. A derived key is the
    symbolic term of its inputs, so equal inputs give equal keys and distinct
    inputs distinct keys. A ciphertext remembers the key, the nonce and the
    plaintext it was sealed with, so decryption succeeds exactly under that
    key and nonce; every other byte string in a ciphertext column is
    `Garbage` and never authenticates. */
module Crypto {
  import opened Common
  import opened Records

  /** Length of a ChaCha20-Poly1305 nonce. */
  const NonceLen: nat := 12

  /** The shortest salt the Argon2 implementation accepts. */
  const MinArgonSalt: nat := 8

  /** Argon2 cost parameters, as the 32-bit values handed to the KDF. */
  datatype KdfParams = KdfParams(memKib: nat, iters: nat, parallelism: nat)

  /** A 32-byte key, as the term that derived it. */
  datatype Key = DerivedKey(password: string, salt: seq<byte>, params: KdfParams)

  datatype Ciphertext =
    | Sealed(key: Key, nonce: seq<byte>, plaintext: Plaintext)
    | Garbage(bytes: seq<byte>)

  /** `x as u32` for a 64-bit signed integer: keep the low 32 bits. */
  function AsU32(x: int): (r: nat)
    ensures r < 0x1_0000_0000
    ensures 0 <= x < 0x1_0000_0000 ==> r == x
  {
    x % 0x1_0000_0000
  }

  /** The checks `argon2::Params::new` makes of memory, passes and lanes. */
  predicate ArgonAccepts(p: KdfParams) {
    && 8 <= p.memKib
    && 8 * p.parallelism <= p.memKib
    && 1 <= p.iters
    && 1 <= p.parallelism <= 0xFF_FFFF
  }

  /** The defaults the vault writes are accepted; no passes, no lanes, or
      less than 8 KiB of memory are refused. */
  lemma ArgonLimits(memKib: nat, iters: nat, parallelism: nat)
    ensures ArgonAccepts(KdfParams(256 * 1024, 3, 1))
    ensures !ArgonAccepts(KdfParams(memKib, 0, parallelism))
    ensures !ArgonAccepts(KdfParams(memKib, iters, 0))
    ensures memKib < 8 ==> !ArgonAccepts(KdfParams(memKib, iters, parallelism))
    ensures parallelism >= 1 && memKib < 8 * parallelism ==> !ArgonAccepts(KdfParams(memKib, iters, parallelism))
  {
  }

  /** `crypto::derive_key` fed with the header's 64-bit columns, which are cast
      to `u32` first: fails on parameters Argon2 refuses or a salt shorter than
      it accepts, and is otherwise the deterministic key of its inputs. */
  function DeriveKey(password: string, salt: seq<byte>, memKib: int, iters: int, parallelism: int): (r: Result<Key>)
    ensures r.Ok? <==> ArgonAccepts(KdfParams(AsU32(memKib), AsU32(iters), AsU32(parallelism))) && MinArgonSalt <= |salt|
    ensures r.Ok? ==> r.value.password == password && r.value.salt == salt
  {
    var p := KdfParams(AsU32(memKib), AsU32(iters), AsU32(parallelism));
    if !ArgonAccepts(p) then Err(BadKdfParams)
    else if |salt| < MinArgonSalt then Err(BadKdfParams)
    else Ok(DerivedKey(password, salt, p))
  }

  /** `crypto::decrypt_blob`: authenticated decryption. */
  function Decrypt(key: Key, nonce: seq<byte>, ct: Ciphertext): (r: Result<Plaintext>)
    requires |nonce| == NonceLen
    ensures r.Ok? <==> ct.Sealed? && ct.key == key && ct.nonce == nonce
    ensures r.Ok? ==> r.value == ct.plaintext
    ensures r.Err? ==> r.error == AuthenticationFailed
  {
    if ct.Sealed? && ct.key == key && ct.nonce == nonce then Ok(ct.plaintext) else Err(AuthenticationFailed)
  }

  /** `crypto::encrypt_blob`: draws a fresh 12-byte nonce and seals the
      plaintext under the key; returns the ciphertext and the nonce. */
  method EncryptBlob(key: Key, pt: Plaintext, rng: Entropy) returns (r: Result<(Ciphertext, seq<byte>)>)
    modifies rng
    ensures NonceLen <= |old(rng.pool)| ==>
      var nonce := old(rng.pool)[..NonceLen];
      r == Ok((Sealed(key, nonce, pt), nonce)) && rng.pool == old(rng.pool)[NonceLen..]
    ensures |old(rng.pool)| < NonceLen ==> r == Err(RandomUnavailable) && rng.pool == old(rng.pool)
  {
    var nonce :- rng.GetRandom(NonceLen);
    r := Ok((Sealed(key, nonce, pt), nonce));
  }

  /** Decrypting what was sealed gives the plaintext back; under any other key
      or nonce it fails to authenticate. */
  lemma SealRoundTrip(key: Key, other: Key, nonce: seq<byte>, pt: Plaintext)
    requires |nonce| == NonceLen
    ensures Decrypt(key, nonce, Sealed(key, nonce, pt)) == Ok(pt)
    ensures other != key ==> Decrypt(other, nonce, Sealed(key, nonce, pt)) == Err(AuthenticationFailed)
  {
  }
}
