/** The fixed-layout manifest: a printer that fills a buffer and a strict parser over a stream. */
module ManifestCodec {
  import opened Basics
  import opened Streams
  import KeyCodec

  const MAGIC: Str := [0x4c, 0x52, 0x42, 0x4c, 0x4f, 0x42, 0x30, 0x31]  // "LRBLOB01"
  const HEADER_BYTES: int := 52
  const MAX_MANIFEST_BYTES: int := 1024
  const MAX_INT64: int := 0x7fff_ffff_ffff_ffff

  /** The size is an int64, negative values included. */
  type Int64 = x: int | -0x8000_0000_0000_0000 <= x <= 0x7fff_ffff_ffff_ffff

  datatype Manifest = Manifest(key: Str, payload: Str, size: Int64, digest: Digest)

  // ---- big-endian integers

  function Power256(width: nat): (p: nat)
    ensures p > 0
  {
    if width == 0 then 1 else 256 * Power256(width - 1)
  }

  /** The low `width` bytes of n, most significant first. */
  function Big(n: nat, width: nat): (s: Str)
    ensures |s| == width
  {
    if width == 0 then [] else Big(n / 256, width - 1) + [n % 256]
  }

  function FromBig(s: Str): nat {
    if s == [] then 0 else 256 * FromBig(s[..|s| - 1]) + s[|s| - 1]
  }

  lemma {:induction false} BigRoundTrip(n: nat, width: nat)
    requires n < Power256(width)
    ensures FromBig(Big(n, width)) == n
  {
    if width > 0 {
      BigRoundTrip(n / 256, width - 1);
      assert Big(n, width)[..width - 1] == Big(n / 256, width - 1);
    }
  }

  lemma {:induction false} FromBigRoundTrip(s: Str)
    ensures FromBig(s) < Power256(|s|)
    ensures Big(FromBig(s), |s|) == s
  {
    if s != [] {
      FromBigRoundTrip(s[..|s| - 1]);
      assert s == s[..|s| - 1] + [s[|s| - 1]];
    }
  }

  lemma Powers()
    ensures Power256(2) == 0x1_0000 && Power256(8) == 0x1_0000_0000_0000_0000
  {
    assert Power256(4) == 0x1_0000_0000;
  }

  // ---- the grammar of internal keys, checked in one pass

  predicate ValidInternalKey(key: Str) {
    0 < |key| <= KeyCodec.MAX_OBJECT_KEY_BYTES && Grammar(key)
  }

  ghost predicate SegmentsAllowed(parts: seq<Str>) {
    forall segment :: segment in parts ==> AllowedSegment(segment)
  }

  /** Closing the segment [start, index) leaves exactly the rest of the key to check. */
  lemma CloseSegment(key: Str, start: nat, index: nat)
    requires start <= index <= |key| && SLASH !in key[start..index]
    requires index < |key| ==> key[index] == SLASH
    ensures SegmentsAllowed(Split(key[start..]))
            <==> AllowedSegment(key[start..index])
                 && (index < |key| ==> SegmentsAllowed(Split(key[index + 1..])))
  {
    var segment := key[start..index];
    SplitSlashFree(segment);
    if index < |key| {
      var rest := key[index + 1..];
      SplitAt(segment, rest);
      assert key[start..] == segment + [SLASH] + rest;
      var parts := Split(key[start..]);
      assert parts == [segment] + Split(rest);
      assert parts[0] == segment && parts[1..] == Split(rest);
    } else {
      assert key[start..] == segment;
      assert Split(key[start..])[0] == segment;
    }
  }

  method ValidInternalObjectKey(key: Str) returns (valid: bool)
    ensures valid == ValidInternalKey(key)
  {
    if key == [] || |key| > KeyCodec.MAX_OBJECT_KEY_BYTES {
      return false;
    }
    var start, index := 0, 0;
    assert key[start..] == key;
    while index <= |key|
      invariant 0 <= start <= index <= |key| + 1
      invariant index == |key| + 1 ==> start == index
      invariant forall i :: 0 <= i < index && i < |key| ==> key[i] == SLASH || AllowedByte(key[i])
      invariant index <= |key| ==> SLASH !in key[start..index]
      invariant SegmentsAllowed(Split(key)) <==> index > |key| || SegmentsAllowed(Split(key[start..]))
    {
      if index < |key| && key[index] != SLASH {
        if !AllowedByte(key[index]) {
          assert key[index] in key;
          return false;
        }
        assert key[start..index + 1] == key[start..index] + [key[index]];
        index := index + 1;
        continue;
      }
      CloseSegment(key, start, index);
      if !AllowedSegment(key[start..index]) {
        return false;
      }
      start := index + 1;
      index := index + 1;
    }
    return true;
  }

  // ---- the format

  predicate Encodable(m: Manifest) {
    && ValidName(m.key)
    && ValidInternalKey(m.payload)
    && m.size >= 0
    && HEADER_BYTES + |m.key| + |m.payload| <= MAX_MANIFEST_BYTES
  }

  function Bytes(m: Manifest): (s: Str)
    requires m.size >= 0
    ensures |s| == HEADER_BYTES + |m.key| + |m.payload|
  {
    MAGIC + Big(|m.key|, 2) + Big(|m.payload|, 2) + Big(m.size, 8) + m.digest + m.key + m.payload
  }

  /** What the parser makes of a complete body. */
  function Parse(x: Str): Option<Manifest> {
    if |x| < HEADER_BYTES || |x| > MAX_MANIFEST_BYTES || x[..8] != MAGIC then None else
    var keyLength, payloadLength, size := FromBig(x[8..10]), FromBig(x[10..12]), FromBig(x[12..20]);
    if HEADER_BYTES + keyLength + payloadLength != |x| || size > MAX_INT64 then None else
    var m := Manifest(x[52..52 + keyLength], x[52 + keyLength..52 + keyLength + payloadLength], size, x[20..52]);
    if ValidName(m.key) && ValidInternalKey(m.payload) then Some(m) else None
  }

  /** encodeManifest: None is its error return. Both key lengths fit their 16-bit fields once the bounds hold. */
  method EncodeManifest(m: Manifest) returns (encoded: Option<Str>)
    ensures encoded == if Encodable(m) then Some(Bytes(m)) else None
  {
    if !ValidName(m.key) {
      return None;
    }
    var valid := ValidInternalObjectKey(m.payload);
    if !valid || m.size < 0 {
      return None;
    }
    var encodedLength := HEADER_BYTES + |m.key| + |m.payload|;
    if encodedLength > MAX_MANIFEST_BYTES {
      return None;
    }
    var buffer := new Byte[encodedLength](_ => 0);
    Copy(buffer, 0, MAGIC);
    Copy(buffer, 8, Big(|m.key|, 2));
    Copy(buffer, 10, Big(|m.payload|, 2));
    Copy(buffer, 12, Big(m.size, 8));
    Copy(buffer, 20, m.digest);
    assert buffer[..52] == MAGIC + Big(|m.key|, 2) + Big(|m.payload|, 2) + Big(m.size, 8) + m.digest;
    var offset := HEADER_BYTES;
    Copy(buffer, offset, m.key);
    offset := offset + |m.key|;
    Copy(buffer, offset, m.payload);
    assert buffer[..] == Bytes(m);
    return Some(buffer[..]);
  }

  /** What decodeManifest makes of a stream: the announced length, then nothing more. */
  function DecodeStream(script: Script, contentLength: int): Option<Manifest> {
    if contentLength < HEADER_BYTES || contentLength > MAX_MANIFEST_BYTES then None else
    var f := Fill(script, contentLength);
    if !f.ok || Pull(f.rest, 1).data != [] then None else Parse(f.data)
  }

  method DecodeManifest(reader: Source, contentLength: int) returns (m: Option<Manifest>)
    modifies reader
    ensures m == DecodeStream(old(reader.script), contentLength)
  {
    if contentLength < HEADER_BYTES || contentLength > MAX_MANIFEST_BYTES {
      return None;
    }
    var encoded := new Byte[contentLength](_ => 0);
    var ok := ReadFull(reader, encoded);
    if !ok {
      return None;
    }
    var trailing := new Byte[1](_ => 0);
    var n, _ := reader.Read(trailing, 0, 1);
    if n != 0 {
      return None;
    }
    return Parse(encoded[..]);
  }

  // ---- the codec is a bijection between encodable manifests and accepted bodies

  lemma Fields(a: Str, b: Str, c: Str, d: Str, e: Str, f: Str, g: Str)
    requires |a| == 8 && |b| == 2 && |c| == 2 && |d| == 8 && |e| == 32
    ensures var x := a + b + c + d + e + f + g;
            && x[..8] == a && x[8..10] == b && x[10..12] == c && x[12..20] == d && x[20..52] == e
            && x[52..52 + |f|] == f && x[52 + |f|..52 + |f| + |g|] == g
  {
  }

  lemma ParseBytes(m: Manifest)
    requires Encodable(m)
    ensures Parse(Bytes(m)) == Some(m)
  {
    Powers();
    BigRoundTrip(|m.key|, 2);
    BigRoundTrip(|m.payload|, 2);
    BigRoundTrip(m.size, 8);
    Fields(MAGIC, Big(|m.key|, 2), Big(|m.payload|, 2), Big(m.size, 8), m.digest, m.key, m.payload);
  }

  /** A body is accepted as m exactly when it is the encoding of m: nothing else parses, in particular no other
      framing, no trailing byte and no size with the sign bit set. */
  lemma ParseIff(x: Str, m: Manifest)
    ensures Parse(x) == Some(m) <==> Encodable(m) && x == Bytes(m)
  {
    if Parse(x) == Some(m) {
      FromBigRoundTrip(x[8..10]);
      FromBigRoundTrip(x[10..12]);
      FromBigRoundTrip(x[12..20]);
      assert x == x[..8] + x[8..10] + x[10..12] + x[12..20] + x[20..52] + m.key + m.payload;
    }
    if Encodable(m) {
      ParseBytes(m);
    }
  }

  /** However the response body is chunked, it decodes to m exactly when m's encoding stands at its start, has the
      announced length, and the next read brings nothing; so always when the body is that encoding. */
  lemma DecodeStreamIff(script: Script, contentLength: int, m: Manifest)
    requires Terminated(script)
    ensures DecodeStream(script, contentLength) == Some(m)
            <==> Encodable(m) && Bytes(m) <= Content(script) && contentLength == |Bytes(m)|
                 && Pull(Fill(script, contentLength).rest, 1).data == []
    ensures Encodable(m) && Content(script) == Bytes(m) && contentLength == |Bytes(m)|
            ==> DecodeStream(script, contentLength) == Some(m)
  {
    if HEADER_BYTES <= contentLength <= MAX_MANIFEST_BYTES {
      FillReadsContent(script, contentLength);
      var f := Fill(script, contentLength);
      if f.ok {
        ParseIff(f.data, m);
        if m.size >= 0 && Content(script) == Bytes(m) && contentLength == |Bytes(m)| {
          assert Content(f.rest) == [];
          assert f.data == Content(script);
        }
      }
    }
  }

  /** A manifest for any valid key and its own payload key is always encodable, well inside the size bound. */
  lemma PutManifestEncodes(sha: Hash, prefix: Str, key: Str, attempt: Str, size: Int64, digest: Digest)
    requires ValidName(prefix) && |prefix| <= KeyCodec.MAX_PREFIX_BYTES && ValidName(key)
    requires |attempt| == KeyCodec.ATTEMPT_BYTES && size >= 0
    ensures var m := Manifest(key, KeyCodec.PayloadRow(sha, prefix, key, attempt), size, digest);
            Encodable(m) && |Bytes(m)| <= 930
  {
    KeyCodec.DerivationSucceeds(sha, prefix, key, attempt);
  }
}
