/** The fingerprint engine: hashlib's incremental hash object, the chunked
    read loops of chunk_reader (removeDups.py) and mdfiveSum
    (checkSumGetter.py, compareSums.py), and the hexdigest rendering. */
module Hashing {
  import opened Common

  /** A hashlib hash object. update() feeds bytes; digest() reports the
      algorithm's digest of everything fed so far. Keeping the consumed bytes
      as the object's state is what makes feeding a file chunk by chunk give
      the digest of the whole file. */
  class HashObject {
    const algorithm: Hash
    var consumed: Bytes

    constructor (algorithm: Hash)
      ensures this.algorithm == algorithm && consumed == []
    {
      this.algorithm := algorithm;
      consumed := [];
    }

    method Update(chunk: Bytes)
      modifies this
      ensures consumed == old(consumed) + chunk
    {
      consumed := consumed + chunk;
    }

    function Digest(): Bytes
      reads this
    {
      algorithm(consumed)
    }
  }

  /** f.read(n) on a file object positioned at pos. */
  function Read(content: Bytes, pos: nat, n: nat): Bytes
    requires pos <= |content|
  {
    content[pos..Min(pos + n, |content|)]
  }

  /** chunk_reader(fobj, chunkSize), and equally iter(lambda: f.read(n), b""):
      read chunkSize bytes at a time and stop at the first empty read. The
      chunks a generator would yield are collected in order. */
  method ReadChunks(content: Bytes, chunkSize: nat) returns (chunks: seq<Bytes>)
    ensures chunkSize == 0 ==> chunks == []
    ensures chunkSize > 0 ==> Flatten(chunks) == content
    ensures forall i :: 0 <= i < |chunks| ==> 0 < |chunks[i]| <= chunkSize
    ensures forall i :: 0 <= i < |chunks| - 1 ==> |chunks[i]| == chunkSize
  {
    var pos := 0;
    chunks := [];
    while true
      invariant pos <= |content|
      invariant Flatten(chunks) == content[..pos]
      invariant chunkSize == 0 ==> chunks == []
      invariant forall i :: 0 <= i < |chunks| ==> 0 < |chunks[i]| <= chunkSize
      invariant forall i :: 0 <= i < |chunks| - 1 ==> |chunks[i]| == chunkSize
      invariant chunks != [] && |chunks[|chunks| - 1]| < chunkSize ==> pos == |content|
      decreases |content| - pos
    {
      var chunk := Read(content, pos, chunkSize);
      if chunk == [] {
        break;
      }
      ReadExtends(content, pos, chunkSize, chunks);
      chunks := chunks + [chunk];
      pos := pos + |chunk|;
    }
    assert chunkSize > 0 ==> content[..pos] == content;
  }

  /** A read continues the bytes read so far, and comes up short only at
      the end of the file. */
  lemma ReadExtends(content: Bytes, pos: nat, n: nat, chunks: seq<Bytes>)
    requires pos <= |content| && Flatten(chunks) == content[..pos]
    ensures var chunk := Read(content, pos, n);
      && Flatten(chunks + [chunk]) == content[..pos + |chunk|]
      && |chunk| <= n
      && (|chunk| < n ==> pos + |chunk| == |content|)
  {
    var chunk := Read(content, pos, n);
    FlattenSnoc(chunks, chunk);
    assert content[..pos] + chunk == content[..pos + |chunk|];
  }

  /** Feed the chunks of a file into a fresh hash object and return its
      digest, as the loops at removeDups.py:66-69 and
      checkSumGetter.py:60-64 do. */
  method DigestInChunks(algorithm: Hash, content: Bytes, chunkSize: nat) returns (d: Bytes)
    ensures chunkSize > 0 ==> d == algorithm(content)
    ensures chunkSize == 0 ==> d == algorithm([])
  {
    var h := new HashObject(algorithm);
    var chunks := ReadChunks(content, chunkSize);
    for i := 0 to |chunks|
      invariant h.algorithm == algorithm
      invariant h.consumed == Flatten(chunks[..i])
    {
      assert chunks[..i + 1] == chunks[..i] + [chunks[i]];
      FlattenSnoc(chunks[..i], chunks[i]);
      h.Update(chunks[i]);
    }
    assert chunks[..|chunks|] == chunks;
    d := h.Digest();
  }

  // ---------------------------------------------------------------------
  // hexdigest()

  /** One lower-case hexadecimal digit. */
  function HexDigit(d: int): char
    requires 0 <= d < 16
  {
    if d < 10 then (48 + d) as char else (87 + d) as char
  }

  predicate IsHexDigit(c: char)
  {
    '0' <= c <= '9' || 'a' <= c <= 'f'
  }

  function HexByte(b: Byte): string
  {
    [HexDigit((b / 16) as int), HexDigit((b % 16) as int)]
  }

  /** hexdigest(): two lower-case hexadecimal digits per digest byte. */
  function Hex(d: Bytes): string
  {
    if d == [] then [] else HexByte(d[0]) + Hex(d[1..])
  }

  lemma {:induction false} HexShape(d: Bytes)
    ensures |Hex(d)| == 2 * |d|
    ensures forall i :: 0 <= i < |Hex(d)| ==> IsHexDigit(Hex(d)[i])
  {
    if d != [] {
      HexShape(d[1..]);
      var h := Hex(d);
      forall i | 0 <= i < |h|
        ensures IsHexDigit(h[i])
      {
        if i >= 2 {
          assert h[i] == Hex(d[1..])[i - 2];
        }
      }
    }
  }

  lemma HexByteInjective(a: Byte, b: Byte)
    requires HexByte(a) == HexByte(b)
    ensures a == b
  {
    assert HexByte(a)[0] == HexByte(b)[0] && HexByte(a)[1] == HexByte(b)[1];
  }

  /** Different digests render as different hex strings, so comparing
      hexdigests as strings is comparing digests. */
  lemma {:induction false} HexInjective(a: Bytes, b: Bytes)
    requires Hex(a) == Hex(b)
    ensures a == b
  {
    HexShape(a);
    HexShape(b);
    if a != [] {
      assert HexByte(a[0]) == Hex(a)[..2];
      assert HexByte(b[0]) == Hex(b)[..2];
      HexByteInjective(a[0], b[0]);
      assert Hex(a[1..]) == Hex(a)[2..];
      assert Hex(b[1..]) == Hex(b)[2..];
      HexInjective(a[1..], b[1..]);
    }
  }

  /** mdfiveSum(fname) of checkSumGetter.py and compareSums.py: the MD5
      hexdigest of the file, fed in 4096-byte chunks. Opening a missing file
      is the caller's concern (it aborts the script). */
  method MdfiveSum(md5: Hash, content: Bytes) returns (hex: string)
    ensures hex == Hex(md5(content))
  {
    var d := DigestInChunks(md5, content, 4096);
    hex := Hex(d);
  }
}
