/**
 * src/freedos_micro_python/port/libssh2_axtls.c: the hash dispatch and HMAC over it (section 2 of RFC 2104).
 * SHA-256 is the streaming context of this project; the other hashes are the library's and stay a parameter.
 */
module Hmac {
  import opened Machine
  import opened Bits
  import Sha256Spec
  import Sha256

  const SHA1: int := 1
  const SHA256: int := 2
  const SHA384: int := 3
  const SHA512: int := 4
  const MD5: int := 5

  const MAX_KEY: int := 128

  type text = seq<byte>

  predicate Supported(algo: int) { SHA1 <= algo <= MD5 }

  function HashSize(algo: int): nat
  {
    if algo == SHA1 then 20 else if algo == SHA256 then 32 else if algo == SHA384 then 48
    else if algo == SHA512 then 64 else 16
  }

  function BlockSize(algo: int): nat { if algo == SHA384 || algo == SHA512 then 128 else 64 }

  /** One-shot hashes of the library for the algorithms other than SHA-256. */
  type library = (int, text) -> text

  /** Digests have the length their algorithm promises. */
  ghost predicate Sized(lib: library)
  {
    forall algo, m :: Supported(algo) ==> |lib(algo, m)| == HashSize(algo)
  }

  function Hash(lib: library, algo: int, m: text): text
  {
    if algo == SHA256 then Sha256Spec.Digest(m) else lib(algo, m)
  }

  // ---- section 2 of RFC 2104 ----

  /** The key, hashed if longer than a block, filled up with zeros. */
  function KeyBlock(lib: library, algo: int, key: text): text
  {
    var k := if |key| > BlockSize(algo) then Hash(lib, algo, key) else key;
    if |k| <= BlockSize(algo) then k + Sha256Spec.Zeros(BlockSize(algo) - |k|) else k
  }

  function XorPad(k: text, pad: byte): (r: text)
    ensures |r| == |k| && forall i :: 0 <= i < |k| ==> r[i] == XorByte(k[i], pad)
  {
    seq(|k|, i requires 0 <= i < |k| => XorByte(k[i], pad))
  }

  function Mac(lib: library, algo: int, key: text, m: text): text
  {
    var k := KeyBlock(lib, algo, key);
    Hash(lib, algo, XorPad(k, 0x5C) + Hash(lib, algo, XorPad(k, 0x36) + m))
  }

  // ---- the hash context ----

  class HashCtx {
    const lib: library
    const algo: int
    const sha: Sha256.Context?
    /** What the library's context has absorbed. */
    var absorbed: text
    ghost var msg: text

    ghost predicate Valid()
      reads this, Repr()
    {
      && Supported(algo) && Sized(lib)
      && (if algo == SHA256 then sha != null && sha.Valid() && sha.msg == msg else absorbed == msg)
    }

    ghost function Repr(): set<object>
      reads this
    {
      {this} + if sha == null then {} else {sha, sha.data}
    }

    /** `_libssh2_axtls_hash_init` for a supported algorithm. */
    constructor (l: library, a: int)
      requires Supported(a) && Sized(l)
      ensures Valid() && fresh(Repr()) && lib == l && algo == a && msg == []
    {
      lib, algo := l, a;
      absorbed, msg := [], [];
      if a == SHA256 {
        sha := new Sha256.Context();
      } else {
        sha := null;
      }
    }

    method Update(data: text)
      requires Valid()
      modifies Repr()
      ensures Valid() && msg == old(msg) + data
    {
      if algo == SHA256 {
        sha.Update(data);
      } else {
        absorbed := absorbed + data;
      }
      msg := msg + data;
    }

    method Final() returns (digest: text)
      requires Valid()
      modifies Repr()
      ensures digest == Hash(lib, algo, old(msg)) && |digest| == HashSize(algo)
    {
      hide Sha256Spec.Digest;
      if algo == SHA256 {
        var hash := new byte[32];
        sha.Final(hash);
        digest := hash[..32];
      } else {
        digest := lib(algo, absorbed);
      }
    }
  }

  /** `_libssh2_axtls_hash`: one shot; fails for an unknown algorithm. */
  method HashOnce(lib: library, algo: int, data: text) returns (ok: bool, digest: text)
    requires Sized(lib)
    ensures ok == Supported(algo)
    ensures ok ==> digest == Hash(lib, algo, data) && |digest| == HashSize(algo)
  {
    ok, digest := Supported(algo), [];
    if !ok {
      return;
    }
    var c := new HashCtx(lib, algo);
    c.Update(data);
    assert [] + data == data;
    digest := c.Final();
  }

  // ---- the HMAC context ----

  class HmacCtx {
    const algo: int
    const blockSize: nat
    const hashSize: nat
    const kOpad: array<byte>
    const inner: HashCtx
    ghost const key: text
    ghost var msg: text

    ghost predicate Valid()
      reads this, kOpad, inner, inner.Repr()
    {
      && Supported(algo) && blockSize == BlockSize(algo) && hashSize == HashSize(algo)
      && kOpad.Length == MAX_KEY && kOpad !in inner.Repr()
      && inner.Valid() && inner.algo == algo && this !in inner.Repr()
      && var k := KeyBlock(inner.lib, algo, key);
         |k| == blockSize && kOpad[..blockSize] == XorPad(k, 0x5C) && inner.msg == XorPad(k, 0x36) + msg
    }

    /** The body of `_hmac_init` once the algorithm is known and the key block prepared. */
    constructor (lib: library, a: int, k: array<byte>, ghost secret: text)
      requires Supported(a) && Sized(lib) && k.Length == MAX_KEY
      requires |KeyBlock(lib, a, secret)| == BlockSize(a) && k[..BlockSize(a)] == KeyBlock(lib, a, secret)
      ensures Valid() && fresh(kOpad) && fresh(inner.Repr())
      ensures algo == a && inner.lib == lib && key == secret && msg == []
    {
      hide Hash, XorByte, Sha256Spec.Digest;
      algo, blockSize, hashSize := a, BlockSize(a), HashSize(a);
      var kIpad, opad := PadKey(k, BlockSize(a));
      var h := new HashCtx(lib, a);
      h.Update(kIpad);
      kOpad, inner := opad, h;
      key, msg := secret, [];
      new;
      assert inner.msg == kIpad == kIpad + [];
    }

    method Update(data: text)
      requires Valid()
      modifies this`msg, inner.Repr()
      ensures Valid() && msg == old(msg) + data
    {
      hide KeyBlock, XorByte;
      ghost var k := XorPad(KeyBlock(inner.lib, algo, key), 0x36);
      inner.Update(data);
      assert k + msg + data == k + (msg + data);
      msg := msg + data;
    }

    method Final() returns (out: text)
      requires Valid()
      modifies inner.Repr()
      ensures out == Mac(inner.lib, algo, key, msg)
    {
      hide KeyBlock, XorByte, Hash, XorPad;
      var innerHash := inner.Final();
      var outer := new HashCtx(inner.lib, algo);
      outer.Update(kOpad[..blockSize]);
      outer.Update(innerHash[..hashSize]);
      assert innerHash[..hashSize] == innerHash;
      assert [] + kOpad[..blockSize] == kOpad[..blockSize];
      out := outer.Final();
    }
  }

  /**
   * The length is compared as a signed int, so a key that looks negative is copied instead of hashed, and
   * runs over the buffer.
   */
  predicate KeyOverruns(algo: int, key: text) { ToLong(|key|) <= BlockSize(algo) < |key| }

  /** Among the lengths a 32-bit size_t can hold, those are exactly the keys of 2 GB and more. */
  lemma KeyOverrunsExactly(algo: int, key: text)
    requires |key| < WORD_BASE
    ensures KeyOverruns(algo, key) <==> |key| >= 0x8000_0000
  {
  }

  /** `k_block`: the key or its hash, over a buffer of zeros; `overrun` when the copy leaves the buffer. */
  method PrepareKey(lib: library, algo: int, key: text) returns (overrun: bool, k: array<byte>)
    requires Supported(algo) && Sized(lib)
    ensures overrun <==> KeyOverruns(algo, key)
    ensures fresh(k) && k.Length == MAX_KEY && |KeyBlock(lib, algo, key)| == BlockSize(algo)
    ensures !overrun ==> k[..BlockSize(algo)] == KeyBlock(lib, algo, key)
  {
    hide Hash, ToLong;
    k := new byte[MAX_KEY](_ => 0);
    var bytes := key;
    CastSmall(|key|);
    KeyBlockSize(lib, algo, key);
    if ToLong(|key|) > BlockSize(algo) {
      var _, digest := HashOnce(lib, algo, key);
      bytes := digest;
    }
    overrun := |bytes| > MAX_KEY;
    if overrun {
      return;
    }
    var i := 0;
    while i < |bytes|
      invariant 0 <= i <= |bytes|
      invariant forall j :: 0 <= j < MAX_KEY ==> k[j] == if j < i then bytes[j] else 0
    {
      k[i] := bytes[i];
      i := i + 1;
    }
  }

  method PadKey(k: array<byte>, blockSize: nat) returns (ipad: text, opad: array<byte>)
    requires k.Length == MAX_KEY && blockSize <= MAX_KEY
    ensures fresh(opad) && opad.Length == MAX_KEY
    ensures ipad == XorPad(k[..blockSize], 0x36) && opad[..blockSize] == XorPad(k[..blockSize], 0x5C)
  {
    hide XorByte;
    var kIpad := new byte[MAX_KEY];
    opad := new byte[MAX_KEY];
    var i := 0;
    while i < blockSize
      invariant 0 <= i <= blockSize
      invariant forall j :: 0 <= j < i ==> kIpad[j] == XorByte(k[j], 0x36) && opad[j] == XorByte(k[j], 0x5C)
    {
      kIpad[i] := XorByte(k[i], 0x36);
      opad[i] := XorByte(k[i], 0x5C);
      i := i + 1;
    }
    ipad := kIpad[..blockSize];
  }

  lemma KeyBlockSize(lib: library, algo: int, key: text)
    requires Supported(algo) && Sized(lib)
    ensures |KeyBlock(lib, algo, key)| == BlockSize(algo)
  {
    hide Sha256Spec.Digest;
    assert |lib(algo, key)| == HashSize(algo);
  }

  lemma CastSmall(n: nat)
    ensures n < 0x8000_0000 ==> ToLong(n) == n
    ensures ToLong(n) > 0 ==> ToLong(n) <= n
  {
  }

  /** What `_hmac_init` comes to: 0 for an unknown algorithm, memory damaged by the key, or a context. */
  datatype Start = Unknown | Overrun | Ready(ctx: HmacCtx)

  /** `_hmac_init`. */
  method HmacInit(lib: library, algo: int, key: text) returns (r: Start)
    requires Sized(lib)
    ensures r.Unknown? <==> !Supported(algo)
    ensures r.Overrun? <==> Supported(algo) && KeyOverruns(algo, key)
    ensures r.Ready? ==>
              && r.ctx.Valid() && fresh(r.ctx) && fresh(r.ctx.kOpad) && fresh(r.ctx.inner.Repr())
              && r.ctx.algo == algo && r.ctx.inner.lib == lib && r.ctx.key == key && r.ctx.msg == []
  {
    if !Supported(algo) {
      return Unknown;
    }
    var overrun, k := PrepareKey(lib, algo, key);
    if overrun {
      return Overrun;
    }
    var ctx := new HmacCtx(lib, algo, k, key);
    r := Ready(ctx);
  }

  /** Init, any number of updates, final: the MAC of the concatenated pieces. */
  method MacPieces(lib: library, algo: int, key: text, chunks: seq<text>) returns (ok: bool, out: text)
    requires Sized(lib)
    ensures ok == (Supported(algo) && !KeyOverruns(algo, key))
    ensures ok ==> out == Mac(lib, algo, key, Sha256.Flatten(chunks))
  {
    hide Mac, KeyBlock, XorByte;
    out := [];
    var r := HmacInit(lib, algo, key);
    ok := r.Ready?;
    if ok {
      var ctx := r.ctx;
      var i := 0;
      while i < |chunks|
        invariant 0 <= i <= |chunks|
        invariant ctx.Valid() && fresh(ctx.inner.Repr()) && ctx.msg == Sha256.Flatten(chunks[..i])
      {
        assert chunks[..i + 1][..i] == chunks[..i];
        ctx.Update(chunks[i]);
        i := i + 1;
      }
      assert chunks[..i] == chunks;
      out := ctx.Final();
    }
  }

  /** With SHA-256 nothing is left open: two applications of the FIPS 180-4 digest. */
  lemma MacSha256(lib: library, key: text, m: text)
    ensures var k := (if |key| > 64 then Sha256Spec.Digest(key) else key);
            |k| <= 64 &&
            var block := k + Sha256Spec.Zeros(64 - |k|);
            Mac(lib, SHA256, key, m)
              == Sha256Spec.Digest(XorPad(block, 0x5C) + Sha256Spec.Digest(XorPad(block, 0x36) + m))
  {
    hide Sha256Spec.Digest, XorPad;
  }

  // With the library's hashes, block size and digest size by block size and digest size.

  lemma MacSha1(lib: library, key: text, m: text)
    requires Sized(lib)
    ensures var k := (if |key| > 64 then lib(SHA1, key) else key);
            |k| <= 64 && |Mac(lib, SHA1, key, m)| == 20 &&
            var block := k + Sha256Spec.Zeros(64 - |k|);
            Mac(lib, SHA1, key, m) == lib(SHA1, XorPad(block, 0x5C) + lib(SHA1, XorPad(block, 0x36) + m))
  {
    hide XorPad;
    assert |lib(SHA1, key)| == 20;
  }

  lemma MacSha384(lib: library, key: text, m: text)
    requires Sized(lib)
    ensures var k := (if |key| > 128 then lib(SHA384, key) else key);
            |k| <= 128 && |Mac(lib, SHA384, key, m)| == 48 &&
            var block := k + Sha256Spec.Zeros(128 - |k|);
            Mac(lib, SHA384, key, m) == lib(SHA384, XorPad(block, 0x5C) + lib(SHA384, XorPad(block, 0x36) + m))
  {
    hide XorPad;
    assert |lib(SHA384, key)| == 48;
  }

  lemma MacSha512(lib: library, key: text, m: text)
    requires Sized(lib)
    ensures var k := (if |key| > 128 then lib(SHA512, key) else key);
            |k| <= 128 && |Mac(lib, SHA512, key, m)| == 64 &&
            var block := k + Sha256Spec.Zeros(128 - |k|);
            Mac(lib, SHA512, key, m) == lib(SHA512, XorPad(block, 0x5C) + lib(SHA512, XorPad(block, 0x36) + m))
  {
    hide XorPad;
    assert |lib(SHA512, key)| == 64;
  }

  lemma MacMd5(lib: library, key: text, m: text)
    requires Sized(lib)
    ensures var k := (if |key| > 64 then lib(MD5, key) else key);
            |k| <= 64 && |Mac(lib, MD5, key, m)| == 16 &&
            var block := k + Sha256Spec.Zeros(64 - |k|);
            Mac(lib, MD5, key, m) == lib(MD5, XorPad(block, 0x5C) + lib(MD5, XorPad(block, 0x36) + m))
  {
    hide XorPad;
    assert |lib(MD5, key)| == 16;
  }

  /** Digest sizes, and which numbers stand for an algorithm. */
  lemma Algorithms(algo: int)
    ensures Supported(algo) <==> algo in {1, 2, 3, 4, 5}
    ensures SHA1 == 1 && SHA256 == 2 && SHA384 == 3 && SHA512 == 4 && MD5 == 5
    ensures HashSize(SHA1) == 20 && HashSize(SHA256) == 32 && HashSize(SHA384) == 48
    ensures HashSize(SHA512) == 64 && HashSize(MD5) == 16
  {
  }

  /** A short key and the same key with zero bytes added, up to a block, give the same MAC. */
  lemma ZeroPaddedKeys(lib: library, algo: int, key: text, n: nat, m: text)
    requires |key| + n <= BlockSize(algo)
    ensures Mac(lib, algo, key + Sha256Spec.Zeros(n), m) == Mac(lib, algo, key, m)
  {
    hide Hash, XorPad;
    assert KeyBlock(lib, algo, key + Sha256Spec.Zeros(n)) == KeyBlock(lib, algo, key);
  }
}
