/** Backend object keys: manifest rows in two encodings, payload objects, and the strict row decoder. */
module KeyCodec {
  import opened Basics
  import Hex
  import Base64

  const BLOBS: Str := [0x62, 0x6c, 0x6f, 0x62, 0x73]  // "blobs"
  const PAYLOADS: Str := [0x70, 0x61, 0x79, 0x6c, 0x6f, 0x61, 0x64, 0x73]  // "payloads"
  const V1: Str := [0x76, 0x31]  // "v1"
  const MANIFEST_NAMESPACE: Str := BLOBS + [SLASH] + V1 + [SLASH]
  const PAYLOAD_NAMESPACE: Str := PAYLOADS + [SLASH] + V1 + [SLASH]

  const MAX_OBJECT_KEY_BYTES: int := 1024
  const MAX_SEGMENT_BYTES: int := 255
  const MAX_PREFIX_BYTES: int := 256

  datatype KeyError = InvalidName | KeyTooLong
  datatype Derived = Key(key: Str) | Refused(error: KeyError)

  function NamespaceRoot(prefix: Str, namespace: Str): Str {
    prefix + [SLASH] + namespace
  }

  /** What segmentEncoding builds. */
  function Segmented(encoded: Str): Str
    decreases |encoded|
  {
    if |encoded| <= MAX_SEGMENT_BYTES then encoded
    else encoded[..MAX_SEGMENT_BYTES] + [SLASH] + Segmented(encoded[MAX_SEGMENT_BYTES..])
  }

  /** The same split as a list: full segments, then one no longer. */
  function Segments(encoded: Str): (r: seq<Str>)
    ensures |r| > 0
    decreases |encoded|
  {
    if |encoded| <= MAX_SEGMENT_BYTES then [encoded]
    else [encoded[..MAX_SEGMENT_BYTES]] + Segments(encoded[MAX_SEGMENT_BYTES..])
  }

  method SegmentEncoding(input: Str) returns (built: Str)
    ensures built == Segmented(input)
  {
    var encoded := input;
    built := [];
    while |encoded| > MAX_SEGMENT_BYTES
      invariant built + Segmented(encoded) == Segmented(input)
      decreases |encoded|
    {
      built := built + encoded[..MAX_SEGMENT_BYTES];
      built := built + [SLASH];
      encoded := encoded[MAX_SEGMENT_BYTES..];
    }
    built := built + encoded;
  }

  function ManifestDigestRoot(sha: Hash, prefix: Str, logicalKey: Str): Str {
    NamespaceRoot(prefix, MANIFEST_NAMESPACE) + Hex.Encode(sha(logicalKey)) + [SLASH]
  }

  function CurrentRow(sha: Hash, prefix: Str, logicalKey: Str): Str {
    ManifestDigestRoot(sha, prefix, logicalKey) + Segmented(Base64.Encode(logicalKey))
  }

  function LegacyRow(sha: Hash, prefix: Str, logicalKey: Str): Str {
    ManifestDigestRoot(sha, prefix, logicalKey) + Base64.Encode(logicalKey)
  }

  function ManifestObjectKey(sha: Hash, prefix: Str, logicalKey: Str): Derived {
    if !ValidName(prefix) || !ValidName(logicalKey) then Refused(InvalidName)
    else if |CurrentRow(sha, prefix, logicalKey)| > MAX_OBJECT_KEY_BYTES then Refused(KeyTooLong)
    else Key(CurrentRow(sha, prefix, logicalKey))
  }

  /** None when the legacy encoding does not differ from the current one. */
  function LegacyManifestObjectKey(sha: Hash, prefix: Str, logicalKey: Str): Option<Str> {
    if |Base64.Encode(logicalKey)| <= MAX_SEGMENT_BYTES then None
    else Some(LegacyRow(sha, prefix, logicalKey))
  }

  function PayloadRoot(sha: Hash, prefix: Str, logicalKey: Str): Str {
    NamespaceRoot(prefix, PAYLOAD_NAMESPACE) + Hex.Encode(sha(logicalKey)) + [SLASH]
  }

  const ATTEMPT_BYTES: int := 16

  /** The payload key of one upload attempt; the attempt is the random part. */
  function PayloadRow(sha: Hash, prefix: Str, logicalKey: Str, attempt: Str): Str {
    PayloadRoot(sha, prefix, logicalKey) + Hex.Encode(attempt)
  }

  function NewPayloadObjectKey(sha: Hash, prefix: Str, logicalKey: Str, attempt: Str): Derived {
    if !ValidName(prefix) || !ValidName(logicalKey) then Refused(InvalidName)
    else if |PayloadRow(sha, prefix, logicalKey, attempt)| > MAX_OBJECT_KEY_BYTES then Refused(KeyTooLong)
    else Key(PayloadRow(sha, prefix, logicalKey, attempt))
  }

  predicate PayloadObjectKeyMatches(sha: Hash, prefix: Str, logicalKey: Str, payloadKey: Str) {
    var want := PayloadRoot(sha, prefix, logicalKey);
    && want <= payloadKey
    && |payloadKey| == |want| + 32
    && Hex.Decode(payloadKey[|want|..]).Some?
  }

  /** logicalKeyFromManifestObject: every component is checked; foreign rows give None. */
  function Decode(sha: Hash, prefix: Str, objectKey: Str): Option<Str> {
    var root := NamespaceRoot(prefix, MANIFEST_NAMESPACE);
    if root <= objectKey then DecodeParts(sha, Split(objectKey[|root|..])) else None
  }

  /** The components after the namespace root. */
  function DecodeParts(sha: Hash, parts: seq<Str>): Option<Str> {
    if |parts| < 2 || |parts[0]| != 64 then None else
    var encodedParts := parts[1..];
    var encoded := Concat(encodedParts);
    if |encodedParts| > 1 && Segmented(encoded) != Join(encodedParts) then None else
    var digest := Hex.Decode(parts[0]);
    if digest.None? || |digest.value| != 32 then None else
    var decoded := Base64.Decode(encoded);
    if decoded.None? || Base64.Encode(decoded.value) != encoded then None
    else if !ValidName(decoded.value) then None
    else if digest.value != sha(decoded.value) then None
    else Some(decoded.value)
  }

  // ---- digest comparison

  lemma BitsDiffer(a: bv8, b: bv8)
    ensures a ^ b == 0 <==> a == b
  {
  }

  /** equalDigest: every byte is looked at, and no difference is lost in the accumulator. */
  method EqualDigest(left: seq<bv8>, right: seq<bv8>) returns (equal: bool)
    ensures equal <==> left == right
  {
    if |left| != |right| {
      return false;
    }
    var difference: bv8 := 0;
    var i := 0;
    while i < |left|
      invariant 0 <= i <= |left|
      invariant difference == 0 <==> left[..i] == right[..i]
    {
      BitsDiffer(left[i], right[i]);
      var x := left[i] ^ right[i];
      assert difference | x == 0 <==> difference == 0 && x == 0;
      difference := difference | x;
      assert left[..i + 1] == left[..i] + [left[i]] && right[..i + 1] == right[..i] + [right[i]];
      i := i + 1;
    }
    assert left[..i] == left && right[..i] == right;
    return difference == 0;
  }

  // ---- segmentation

  lemma {:induction false} SegmentedSplits(encoded: Str)
    requires SLASH !in encoded
    ensures Split(Segmented(encoded)) == Segments(encoded)
    ensures Concat(Segments(encoded)) == encoded
    ensures Join(Segments(encoded)) == Segmented(encoded)
    decreases |encoded|
  {
    if |encoded| <= MAX_SEGMENT_BYTES {
      SplitSlashFree(encoded);
      assert Concat([encoded]) == encoded + Concat([]);
    } else {
      var head, tail := encoded[..MAX_SEGMENT_BYTES], encoded[MAX_SEGMENT_BYTES..];
      SegmentedSplits(tail);
      SplitSlashFree(head);
      SplitAt(head, Segmented(tail));
      assert Segments(encoded)[1..] == Segments(tail);
      assert head + tail == encoded;
    }
  }

  /** Every segment but the last is full, none is longer, and the slashes are counted exactly. */
  lemma {:induction false} SegmentShape(encoded: Str)
    requires encoded != []
    ensures |Segments(encoded)| == 1 + (|encoded| - 1) / MAX_SEGMENT_BYTES
    ensures |Segmented(encoded)| == |encoded| + (|encoded| - 1) / MAX_SEGMENT_BYTES
    ensures forall i :: 0 <= i < |Segments(encoded)| - 1 ==> |Segments(encoded)[i]| == MAX_SEGMENT_BYTES
    ensures forall i :: 0 <= i < |Segments(encoded)| ==> 0 < |Segments(encoded)[i]| <= MAX_SEGMENT_BYTES
    decreases |encoded|
  {
    if |encoded| > MAX_SEGMENT_BYTES {
      SegmentShape(encoded[MAX_SEGMENT_BYTES..]);
      assert Segments(encoded)[1..] == Segments(encoded[MAX_SEGMENT_BYTES..]);
    }
  }

  lemma EncodedIsSlashFree(b: Str)
    ensures SLASH !in Base64.Encode(b) && SLASH !in Hex.Encode(b)
  {
    Base64.EncodeIsUrlSafe(b);
    Hex.EncodeIsAllowed(b);
  }

  // ---- the decoder, characterised

  /** One accepted row shape: a digest segment that spells the key's digest in either case, then an encoding. */
  ghost predicate RowOf(sha: Hash, prefix: Str, objectKey: Str, key: Str, digits: Str) {
    && Hex.Fold(digits) == Hex.Encode(sha(key))
    && (var root := NamespaceRoot(prefix, MANIFEST_NAMESPACE) + digits + [SLASH];
        || objectKey == root + Segmented(Base64.Encode(key))
        || objectKey == root + Base64.Encode(key))
  }

  lemma DigitsAreSlashFree(digits: Str, b: Str)
    requires Hex.Fold(digits) == Hex.Encode(b)
    ensures SLASH !in digits
  {
    EncodedIsSlashFree(b);
    forall i | 0 <= i < |digits| ensures digits[i] != SLASH {
      assert Hex.Fold(digits)[i] in Hex.Encode(b);
    }
  }

  lemma PartsDecode(sha: Hash, key: Str, encoded: Str, digits: Str, encodedParts: seq<Str>)
    requires ValidName(key) && encoded == Base64.Encode(key) && Hex.Fold(digits) == Hex.Encode(sha(key))
    requires encodedParts != [] && Concat(encodedParts) == encoded
    requires |encodedParts| > 1 ==> Join(encodedParts) == Segmented(encoded)
    ensures DecodeParts(sha, [digits] + encodedParts) == Some(key)
  {
    Hex.DecodeIff(digits, sha(key));
    Base64.RoundTrip(key);
    assert ([digits] + encodedParts)[1..] == encodedParts;
  }

  lemma RemainderSplits(root: Str, digits: Str, tail: Str)
    requires SLASH !in digits
    ensures root <= root + digits + [SLASH] + tail
    ensures Split((root + digits + [SLASH] + tail)[|root|..]) == [digits] + Split(tail)
  {
    SplitSlashFree(digits);
    SplitAt(digits, tail);
    assert (root + digits + [SLASH] + tail)[|root|..] == digits + [SLASH] + tail;
  }

  lemma RowDecodes(sha: Hash, prefix: Str, objectKey: Str, key: Str, digits: Str)
    requires ValidName(key) && RowOf(sha, prefix, objectKey, key, digits)
    ensures Decode(sha, prefix, objectKey) == Some(key)
  {
    var encoded := Base64.Encode(key);
    EncodedIsSlashFree(key);
    DigitsAreSlashFree(digits, sha(key));
    SplitSlashFree(digits);
    var root := NamespaceRoot(prefix, MANIFEST_NAMESPACE);
    if objectKey == root + digits + [SLASH] + Segmented(encoded) {
      SegmentedSplits(encoded);
      PartsDecode(sha, key, encoded, digits, Segments(encoded));
      RemainderSplits(root, digits, Segmented(encoded));
    } else {
      SplitSlashFree(encoded);
      assert Concat([encoded]) == encoded + Concat([]);
      PartsDecode(sha, key, encoded, digits, [encoded]);
      RemainderSplits(root, digits, encoded);
    }
  }

  lemma DecodedIsRow(sha: Hash, prefix: Str, objectKey: Str) returns (digits: Str)
    requires Decode(sha, prefix, objectKey).Some?
    ensures ValidName(Decode(sha, prefix, objectKey).value)
    ensures RowOf(sha, prefix, objectKey, Decode(sha, prefix, objectKey).value, digits)
  {
    var root := NamespaceRoot(prefix, MANIFEST_NAMESPACE);
    var remainder := objectKey[|root|..];
    var parts := Split(remainder);
    JoinSplit(remainder);
    digits := parts[0];
    var key := Decode(sha, prefix, objectKey).value;
    Hex.DecodeIff(digits, sha(key));
    assert objectKey == root + digits + [SLASH] + Join(parts[1..]);
    if |parts[1..]| == 1 {
      assert Concat(parts[1..]) == parts[1] + Concat(parts[1..][1..]);
    }
  }

  /** The decoder accepts exactly the two rows of a valid key, up to the case of the digest segment. */
  lemma DecodeIff(sha: Hash, prefix: Str, objectKey: Str, key: Str)
    ensures Decode(sha, prefix, objectKey) == Some(key)
            <==> ValidName(key) && exists digits :: RowOf(sha, prefix, objectKey, key, digits)
  {
    if Decode(sha, prefix, objectKey) == Some(key) {
      var digits := DecodedIsRow(sha, prefix, objectKey);
    }
    if ValidName(key) && exists digits :: RowOf(sha, prefix, objectKey, key, digits) {
      var digits :| RowOf(sha, prefix, objectKey, key, digits);
      RowDecodes(sha, prefix, objectKey, key, digits);
    }
  }

  /** Both encodings of a valid key read back as that key, under any prefix. */
  lemma DecodeRoundTrip(sha: Hash, prefix: Str, key: Str)
    requires ValidName(key)
    ensures Decode(sha, prefix, CurrentRow(sha, prefix, key)) == Some(key)
    ensures Decode(sha, prefix, LegacyRow(sha, prefix, key)) == Some(key)
  {
    Hex.FoldEncode(sha(key));
    RowDecodes(sha, prefix, CurrentRow(sha, prefix, key), key, Hex.Encode(sha(key)));
    RowDecodes(sha, prefix, LegacyRow(sha, prefix, key), key, Hex.Encode(sha(key)));
  }

  // ---- derivation never fails

  /** The two encodings differ exactly for keys above 191 bytes. */
  lemma LegacyDiffersIff(sha: Hash, prefix: Str, key: Str)
    ensures LegacyManifestObjectKey(sha, prefix, key).Some? <==> |key| > 191
    ensures |key| > 191 <==> CurrentRow(sha, prefix, key) != LegacyRow(sha, prefix, key)
    ensures |key| > 191 ==> LegacyManifestObjectKey(sha, prefix, key) == Some(LegacyRow(sha, prefix, key))
  {
    var encoded := Base64.Encode(key);
    if encoded != [] {
      SegmentShape(encoded);
    }
    if |key| > 191 {
      assert |Segmented(encoded)| > |encoded|;
    }
  }

  lemma PlainGrammar(s: Str)
    requires s != [] && forall b :: b in s ==> AllowedByte(b) && b != DOT
    ensures Grammar(s)
  {
    SplitSlashFree(s);
    assert s[0] in s;
  }

  lemma NamespaceGrammar()
    ensures Grammar(PAYLOADS) && Grammar(V1)
  {
    PlainGrammar(PAYLOADS);
    PlainGrammar(V1);
  }

  lemma GrammarChain(a: Str, b: Str, c: Str, d: Str, e: Str)
    requires Grammar(a) && Grammar(b) && Grammar(c) && Grammar(d) && Grammar(e)
    ensures Grammar(a + [SLASH] + b + [SLASH] + c + [SLASH] + d + [SLASH] + e)
  {
    GrammarAt(a, b);
    GrammarAt(a + [SLASH] + b, c);
    GrammarAt(a + [SLASH] + b + [SLASH] + c, d);
    GrammarAt(a + [SLASH] + b + [SLASH] + c + [SLASH] + d, e);
  }

  /** Under a configured prefix every valid key has a current row and a payload key, and the payload key passes
      its own binding check and the grammar of internal keys. */
  lemma DerivationSucceeds(sha: Hash, prefix: Str, key: Str, attempt: Str)
    requires ValidName(prefix) && |prefix| <= MAX_PREFIX_BYTES && ValidName(key) && |attempt| == ATTEMPT_BYTES
    ensures ManifestObjectKey(sha, prefix, key) == Key(CurrentRow(sha, prefix, key))
    ensures |CurrentRow(sha, prefix, key)| <= 1016
    ensures var payload := PayloadRow(sha, prefix, key, attempt);
            && NewPayloadObjectKey(sha, prefix, key, attempt) == Key(payload)
            && |payload| <= 366
            && Grammar(payload)
            && PayloadObjectKeyMatches(sha, prefix, key, payload)
  {
    SegmentShape(Base64.Encode(key));
    var payload := PayloadRow(sha, prefix, key, attempt);
    var digits, suffix := Hex.Encode(sha(key)), Hex.Encode(attempt);
    Hex.FoldEncode(attempt);
    Hex.DecodeIff(suffix, attempt);
    assert payload[|PayloadRoot(sha, prefix, key)|..] == suffix;
    Hex.EncodeIsAllowed(sha(key));
    Hex.EncodeIsAllowed(attempt);
    PlainGrammar(digits);
    PlainGrammar(suffix);
    NamespaceGrammar();
    GrammarChain(prefix, PAYLOADS, V1, digits, suffix);
    assert payload == prefix + [SLASH] + PAYLOADS + [SLASH] + V1 + [SLASH] + digits + [SLASH] + suffix;
  }

  /** Whatever the prefix, no key longer than S3 takes is ever derived. */
  lemma DerivedKeysFit(sha: Hash, prefix: Str, key: Str, attempt: Str)
    ensures var row := ManifestObjectKey(sha, prefix, key); row.Key? ==> |row.key| <= MAX_OBJECT_KEY_BYTES
    ensures var payload := NewPayloadObjectKey(sha, prefix, key, attempt);
            payload.Key? ==> |payload.key| <= MAX_OBJECT_KEY_BYTES
  {
  }

  /** Under a configured prefix a key is derived exactly for the valid names, and an invalid one is refused as such. */
  lemma DerivationIff(sha: Hash, prefix: Str, key: Str, attempt: Str)
    requires ValidName(prefix) && |prefix| <= MAX_PREFIX_BYTES && |attempt| == ATTEMPT_BYTES
    ensures var row := ManifestObjectKey(sha, prefix, key);
            row == if ValidName(key) then Key(CurrentRow(sha, prefix, key)) else Refused(InvalidName)
    ensures var payload := NewPayloadObjectKey(sha, prefix, key, attempt);
            payload == if ValidName(key) then Key(PayloadRow(sha, prefix, key, attempt)) else Refused(InvalidName)
  {
    if ValidName(key) {
      DerivationSucceeds(sha, prefix, key, attempt);
    }
  }
}
