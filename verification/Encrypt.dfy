/** Writing a container from a reader that may return its bytes in any pieces. */
module Encrypt {
  import opened Wrappers
  import opened Container
  import opened Decrypt

  // Any byte source: each call hands out some of what is left, at least one
  // byte unless none is left or none was asked for. One that may fail can do so
  // in any call.
  class Reader {
    var rest: bytes
    const mayFail: bool

    constructor (data: bytes, mayFail: bool)
      ensures rest == data && this.mayFail == mayFail
    {
      rest := data;
      this.mayFail := mayFail;
    }

    method Read(buf: array<byte>, from: nat, to: nat) returns (r: Result<nat, string>)
      requires from <= to <= buf.Length
      modifies this, buf
      ensures r.Err? ==> mayFail
      ensures r.Ok? ==> r.value <= to - from && r.value <= |old(rest)|
      ensures r.Ok? ==> (r.value == 0 <==> from == to || old(rest) == [])
      ensures r.Ok? ==> rest == old(rest)[r.value..]
      ensures r.Ok? ==> buf[..from] == old(buf[..from]) && buf[from..from + r.value] == old(rest)[..r.value]
    {
      if * {
        if mayFail {
          return Err("read failed");
        }
      }
      var most := Min(to - from, |rest|);
      var n :| (if most == 0 then 0 else 1) <= n <= most;
      ghost var was := rest;
      for i := 0 to n
        invariant rest == was
        invariant buf[..from] == old(buf[..from])
        invariant buf[from..from + i] == was[..i]
      {
        buf[from + i] := rest[i];
      }
      rest := rest[n..];
      r := Ok(n);
    }
  }

  // A chunk of at most 64 KiB is stored so that it decrypts to itself, in a length
  // that depends on its own length only; a longer one is refused.
  method EncryptChunk(a: Aead, key: Key, nonce: Nonce, plain: bytes) returns (r: Result<bytes, CryptoError>)
    ensures a.Lawful() && r.Ok? ==> |r.value| == StoredChunkLen(|plain|) && DecryptChunk(a, key, r.value) == Ok(plain)
    ensures r == if |plain| > PLAINTEXT_CHUNK_LEN then Err(LengthMismatch) else Ok(StoredChunk(a, key, nonce, plain))
  {
    if |plain| > PLAINTEXT_CHUNK_LEN {
      return Err(LengthMismatch);
    }
    var ct := a.seal(key, nonce, plain);
    r := Ok(nonce + ct);
    if a.Lawful() {
      StoredChunkDecrypts(a, key, nonce, plain);
    }
  }

  // Fills buf[..want] from the reader, however it cuts its bytes up.
  method ReadExactly(reader: Reader, buf: array<byte>, want: nat) returns (r: Result<(), CryptoError>)
    requires want <= buf.Length
    modifies reader, buf
    ensures r.Ok? ==> want <= |old(reader.rest)| && reader.rest == old(reader.rest)[want..]
    ensures r.Ok? ==> buf[..want] == old(reader.rest)[..want]
    ensures r.Err? ==> if r.error.Io? then reader.mayFail
                       else r.error == LengthMismatch && |old(reader.rest)| < want
  {
    var got := 0;
    while got < want
      invariant got <= want && got <= |old(reader.rest)|
      invariant reader.rest == old(reader.rest)[got..]
      invariant buf[..got] == old(reader.rest)[..got]
    {
      var n := reader.Read(buf, got, want);
      if n.Err? {
        return Err(Io(n.error));
      }
      if n.value == 0 {
        return Err(LengthMismatch);
      }
      assert buf[..got + n.value] == buf[..got] + buf[got..got + n.value];
      got := got + n.value;
    }
    r := Ok(());
  }

  // `out` is the container up to the plaintext byte `off`, where chunk i begins.
  ghost predicate Written(a: Aead, key: Key, nonces: nat -> Nonce, plain: bytes, i: nat, off: nat, out: bytes)
    requires off <= |plain|
  {
    out + StoredFrom(a, key, nonces, i, plain[off..])
    == EncodeHeader(|plain|) + StoredFrom(a, key, nonces, 0, plain)
  }

  lemma WrittenNothing(a: Aead, key: Key, nonces: nat -> Nonce, plain: bytes)
    ensures Written(a, key, nonces, plain, 0, 0, EncodeHeader(|plain|))
  {
    assert plain[0..] == plain;
  }

  lemma WrittenChunk(a: Aead, key: Key, nonces: nat -> Nonce, plain: bytes, i: nat, off: nat, out: bytes)
    requires off < |plain| && Written(a, key, nonces, plain, i, off, out)
    ensures var to := off + Min(|plain| - off, PLAINTEXT_CHUNK_LEN);
            Written(a, key, nonces, plain, i + 1, to, out + StoredChunk(a, key, nonces(i), plain[off..to]))
  {
    var want := Min(|plain| - off, PLAINTEXT_CHUNK_LEN);
    assert plain[off..][..want] == plain[off..off + want] && plain[off..][want..] == plain[off + want..];
  }

  lemma WrittenAll(a: Aead, key: Key, nonces: nat -> Nonce, plain: bytes, i: nat, out: bytes)
    requires Written(a, key, nonces, plain, i, |plain|, out)
    ensures ContainerOf(a, key, nonces, plain)
            == if plain == [] then out + StoredChunk(a, key, nonces(0), []) else out
  {
    assert StoredFrom(a, key, nonces, i, plain[|plain|..]) == [];
    assert out + [] == out;
    if plain == [] {
      assert out == EncodeHeader(0);
    }
  }

  // The chunk loop.
  method EncryptChunks(a: Aead, key: Key, nonces: nat -> Nonce, plainLen: nat, reader: Reader)
    returns (r: Result<bytes, CryptoError>)
    modifies reader
    ensures r.Err? ==> if r.error.Io? then reader.mayFail
                       else r.error == LengthMismatch && |old(reader.rest)| < plainLen
    ensures r.Ok? ==> |old(reader.rest)| >= plainLen && reader.rest == old(reader.rest)[plainLen..]
    ensures r.Ok? && |old(reader.rest)| == plainLen ==>
      exists i :: Written(a, key, nonces, old(reader.rest), i, plainLen, r.value)
  {
    ghost var plain := reader.rest;
    var out := EncodeHeader(plainLen);
    var remaining := plainLen;
    var buf := new byte[PLAINTEXT_CHUNK_LEN];
    var i := 0;
    ghost var off := 0;
    WrittenNothing(a, key, nonces, plain);
    while remaining > 0
      invariant 0 <= remaining <= plainLen && off == plainLen - remaining <= |plain|
      invariant reader.rest == plain[off..]
      invariant |plain| == plainLen ==> Written(a, key, nonces, plain, i, off, out)
    {
      var want := Min(remaining, PLAINTEXT_CHUNK_LEN);
      var filled := ReadExactly(reader, buf, want);
      if filled.Err? {
        return Err(filled.error);
      }
      assert buf[..want] == plain[off..off + want];
      var chunk := EncryptChunk(a, key, nonces(i), buf[..want]);
      assert chunk.Ok?;
      if |plain| == plainLen {
        WrittenChunk(a, key, nonces, plain, i, off, out);
      }
      out := out + chunk.value;
      remaining := remaining - want;
      i, off := i + 1, off + want;
    }
    r := Ok(out);
  }

  /** Encrypts `plainLen` bytes of the reader, chunk i under nonces(i). With a
      reader that cannot fail this succeeds exactly when the reader holds
      `plainLen` bytes, and then gives their container. A reader that can fail
      adds its own errors and changes nothing else. */
  method EncryptReader(a: Aead, key: Key, nonces: nat -> Nonce, plainLen: nat, reader: Reader)
    returns (r: Result<bytes, CryptoError>)
    requires plainLen < U64_LIMIT
    modifies reader
    ensures r.Err? && r.error.Io? ==> reader.mayFail
    ensures r.Ok? || !r.error.Io? ==>
      r == (if |old(reader.rest)| == plainLen then Ok(ContainerOf(a, key, nonces, old(reader.rest)))
            else Err(LengthMismatch))
  {
    ghost var plain := reader.rest;
    var chunks := EncryptChunks(a, key, nonces, plainLen, reader);
    if chunks.Err? {
      return Err(chunks.error);
    }
    var out := chunks.value;
    if |plain| == plainLen {
      ghost var i: nat :| Written(a, key, nonces, plain, i, plainLen, out);
      WrittenAll(a, key, nonces, plain, i, out);
    }
    if plainLen == 0 {
      var chunk := EncryptChunk(a, key, nonces(0), []);
      assert chunk.Ok?;
      out := out + chunk.value;
    }
    var extra := new byte[1];
    var more := reader.Read(extra, 0, 1);
    if more.Err? {
      return Err(Io(more.error));
    }
    if more.value != 0 {
      return Err(LengthMismatch);
    }
    r := Ok(out);
  }
}
