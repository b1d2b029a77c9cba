/** Deployments sharing one bucket never meet: every object key names its prefix, its kind and its contents. */
module Isolation {
  import opened Basics
  import opened KeyCodec
  import Hex
  import Base64

  /** The three kinds of object one deployment writes or honours. */
  datatype Object =
    | Current(key: Str)
    | Legacy(key: Str)
    | Payload(key: Str, attempt: Str)

  function Address(sha: Hash, prefix: Str, item: Object): Str {
    match item
    case Current(key) => CurrentRow(sha, prefix, key)
    case Legacy(key) => LegacyRow(sha, prefix, key)
    case Payload(key, attempt) => PayloadRow(sha, prefix, key, attempt)
  }

  /** The components a manifest row adds to its prefix. */
  ghost predicate RowShape(parts: seq<Str>) {
    && |parts| >= 4
    && parts[0] == BLOBS && parts[1] == V1 && |parts[2]| == 64
    && forall i :: 3 <= i < |parts| - 1 ==> |parts[i]| == MAX_SEGMENT_BYTES
  }

  /** The components a payload key adds to its prefix. */
  ghost predicate PayloadShape(parts: seq<Str>) {
    |parts| == 4 && parts[0] == PAYLOADS && parts[1] == V1 && |parts[2]| == 64
  }

  lemma Overlap(p: seq<Str>, a: seq<Str>, q: seq<Str>, b: seq<Str>)
    requires p + a == q + b && b != []
    ensures |p| <= |q| ==> |a| == |q| - |p| + |b| && a[|q| - |p|] == b[0]
  {
    if |p| <= |q| {
      assert (p + a)[|q|] == (q + b)[|q|];
    }
  }

  /** No shape can start inside another: the prefix is determined by the key. */
  lemma ShapesDoNotNest(p: seq<Str>, a: seq<Str>, q: seq<Str>, b: seq<Str>)
    requires p + a == q + b
    requires RowShape(a) || PayloadShape(a)
    requires RowShape(b) || PayloadShape(b)
    ensures p == q && a == b
  {
    Overlap(p, a, q, b);
    Overlap(q, b, p, a);
    assert |BLOBS| == 5 && |PAYLOADS| == 8 && |V1| == 2;
    assert |p| == |q|;
    assert p == (p + a)[..|p|] && q == (q + b)[..|p|];
    assert a == (p + a)[|p|..] && b == (q + b)[|p|..];
  }

  lemma SplitAfter(a: Str, b: Str)
    requires SLASH !in a
    ensures Split(a + [SLASH] + b) == [a] + Split(b)
  {
    SplitSlashFree(a);
    SplitAt(a, b);
  }

  lemma Regroup(a: Str, b: Str, c: Str, d: Str, e: Str, s: Str)
    ensures a + s + (b + s + c + s) + d + s + e == a + s + (b + s + (c + s + (d + s + e)))
  {
  }

  lemma ChainSplits(a: Str, b: Str, c: Str, d: Str, e: Str)
    requires SLASH !in b && SLASH !in c && SLASH !in d
    ensures Split(a + [SLASH] + (b + [SLASH] + c + [SLASH]) + d + [SLASH] + e) == Split(a) + [b, c, d] + Split(e)
  {
    Regroup(a, b, c, d, e, [SLASH]);
    SplitAfter(d, e);
    SplitAfter(c, d + [SLASH] + e);
    SplitAfter(b, c + [SLASH] + (d + [SLASH] + e));
    SplitAt(a, b + [SLASH] + (c + [SLASH] + (d + [SLASH] + e)));
  }

  /** How a row or payload key under a namespace splits. */
  lemma NamespaceSplits(prefix: Str, kind: Str, digits: Str, tail: Str)
    requires SLASH !in kind && SLASH !in digits
    ensures Split(NamespaceRoot(prefix, kind + [SLASH] + V1 + [SLASH]) + digits + [SLASH] + tail)
         == Split(prefix) + [kind, V1, digits] + Split(tail)
  {
    ChainSplits(prefix, kind, V1, digits, tail);
  }

  lemma KindsAreSlashFree()
    ensures SLASH !in BLOBS && SLASH !in PAYLOADS
  {
  }

  /** What an object adds to its prefix. */
  function Suffix(sha: Hash, item: Object): seq<Str> {
    match item
    case Current(key) => [BLOBS, V1, Hex.Encode(sha(key))] + Segments(Base64.Encode(key))
    case Legacy(key) => [BLOBS, V1, Hex.Encode(sha(key)), Base64.Encode(key)]
    case Payload(key, attempt) => [PAYLOADS, V1, Hex.Encode(sha(key)), Hex.Encode(attempt)]
  }

  lemma ManifestSplits(sha: Hash, prefix: Str, key: Str, tail: Str)
    ensures Split(ManifestDigestRoot(sha, prefix, key) + tail)
         == Split(prefix) + [BLOBS, V1, Hex.Encode(sha(key))] + Split(tail)
  {
    EncodedIsSlashFree(sha(key));
    KindsAreSlashFree();
    NamespaceSplits(prefix, BLOBS, Hex.Encode(sha(key)), tail);
  }

  lemma PayloadSplits(sha: Hash, prefix: Str, key: Str, attempt: Str)
    ensures Split(PayloadRow(sha, prefix, key, attempt))
         == Split(prefix) + [PAYLOADS, V1, Hex.Encode(sha(key))] + [Hex.Encode(attempt)]
  {
    EncodedIsSlashFree(sha(key));
    EncodedIsSlashFree(attempt);
    KindsAreSlashFree();
    SplitSlashFree(Hex.Encode(attempt));
    NamespaceSplits(prefix, PAYLOADS, Hex.Encode(sha(key)), Hex.Encode(attempt));
  }

  lemma AddressSplits(sha: Hash, prefix: Str, item: Object)
    ensures Split(Address(sha, prefix, item)) == Split(prefix) + Suffix(sha, item)
  {
    EncodedIsSlashFree(item.key);
    match item
    case Current(key) =>
      SegmentedSplits(Base64.Encode(key));
      ManifestSplits(sha, prefix, key, Segmented(Base64.Encode(key)));
    case Legacy(key) =>
      SplitSlashFree(Base64.Encode(key));
      ManifestSplits(sha, prefix, key, Base64.Encode(key));
    case Payload(key, attempt) =>
      PayloadSplits(sha, prefix, key, attempt);
  }

  lemma SuffixShape(sha: Hash, item: Object)
    ensures if item.Payload? then PayloadShape(Suffix(sha, item)) else RowShape(Suffix(sha, item))
  {
    if item.Current? && Base64.Encode(item.key) != [] {
      SegmentShape(Base64.Encode(item.key));
    }
  }

  lemma SameAddress(sha: Hash, p: Str, x: Object, q: Str, y: Object)
    requires Address(sha, p, x) == Address(sha, q, y)
    ensures p == q && Suffix(sha, x) == Suffix(sha, y)
  {
    AddressSplits(sha, p, x);
    AddressSplits(sha, q, y);
    SuffixShape(sha, x);
    SuffixShape(sha, y);
    ShapesDoNotNest(Split(p), Suffix(sha, x), Split(q), Suffix(sha, y));
    JoinSplit(p);
    JoinSplit(q);
  }

  /** Objects of different deployments never share a key, nested prefixes included and whatever the names are. */
  lemma DeploymentsAreIsolated(sha: Hash, p: Str, x: Object, q: Str, y: Object)
    requires p != q
    ensures Address(sha, p, x) != Address(sha, q, y)
  {
    if Address(sha, p, x) == Address(sha, q, y) {
      SameAddress(sha, p, x, q, y);
    }
  }

  lemma SuffixCarriesKey(sha: Hash, item: Object)
    requires !item.Payload?
    ensures Concat(Suffix(sha, item)[3..]) == Base64.Encode(item.key)
  {
    var encoded := Base64.Encode(item.key);
    EncodedIsSlashFree(item.key);
    SegmentedSplits(encoded);
    assert Concat([encoded]) == encoded + Concat([]);
    assert Suffix(sha, item)[3..] == if item.Current? then Segments(encoded) else [encoded];
  }

  /** Within a deployment a key names one object: manifests never meet payloads, equal manifest keys name the same
      logical key (the two encodings of it coincide only up to 191 bytes), equal payload keys the same attempt.
      None of this needs the hash to be collision-free. */
  lemma AddressInjective(sha: Hash, prefix: Str, x: Object, y: Object)
    requires Address(sha, prefix, x) == Address(sha, prefix, y)
    ensures x.Payload? <==> y.Payload?
    ensures x.Payload? ==> x.attempt == y.attempt && sha(x.key) == sha(y.key)
    ensures !x.Payload? ==> x.key == y.key && (x == y || |x.key| <= 191)
  {
    SameAddress(sha, prefix, x, prefix, y);
    SuffixShape(sha, x);
    SuffixShape(sha, y);
    var a, b := Suffix(sha, x), Suffix(sha, y);
    assert a[0] == b[0] && a[2] == b[2];
    if x.Payload? {
      assert a[3] == b[3];
      Hex.EncodeInjective(x.attempt, y.attempt);
      Hex.EncodeInjective(sha(x.key), sha(y.key));
    } else {
      SuffixCarriesKey(sha, x);
      SuffixCarriesKey(sha, y);
      Base64.EncodeInjective(x.key, y.key);
      LegacyDiffersIff(sha, prefix, x.key);
    }
  }

  lemma ShapeWitness(p: seq<Str>, digits: Str, segments: seq<Str>, all: seq<Str>)
    requires |digits| == 64 && segments != [] && all == p + [BLOBS, V1, digits] + segments
    requires forall i :: 0 <= i < |segments| - 1 ==> |segments[i]| == MAX_SEGMENT_BYTES
    ensures exists parts :: RowShape(parts) && all == p + parts
  {
    var parts := [BLOBS, V1, digits] + segments;
    assert RowShape(parts) && all == p + parts;
  }

  lemma RowSplits(sha: Hash, p: Str, objectKey: Str, key: Str, digits: Str)
    requires RowOf(sha, p, objectKey, key, digits)
    ensures exists parts :: RowShape(parts) && Split(objectKey) == Split(p) + parts
  {
    var encoded := Base64.Encode(key);
    EncodedIsSlashFree(key);
    DigitsAreSlashFree(digits, sha(key));
    KindsAreSlashFree();
    var root := NamespaceRoot(p, MANIFEST_NAMESPACE) + digits + [SLASH];
    if objectKey == root + Segmented(encoded) {
      SegmentedSplits(encoded);
      NamespaceSplits(p, BLOBS, digits, Segmented(encoded));
      if encoded != [] {
        SegmentShape(encoded);
      }
      ShapeWitness(Split(p), digits, Segments(encoded), Split(objectKey));
    } else {
      SplitSlashFree(encoded);
      NamespaceSplits(p, BLOBS, digits, encoded);
      ShapeWitness(Split(p), digits, [encoded], Split(objectKey));
    }
  }

  /** The row decoder of one deployment refuses every object of another, and every payload of its own. */
  lemma DecoderRefusesForeignObjects(sha: Hash, p: Str, q: Str, y: Object)
    requires p != q || y.Payload?
    ensures Decode(sha, p, Address(sha, q, y)) == None
  {
    var objectKey := Address(sha, q, y);
    if Decode(sha, p, objectKey).Some? {
      var key := Decode(sha, p, objectKey).value;
      var digits := DecodedIsRow(sha, p, objectKey);
      RowSplits(sha, p, objectKey, key, digits);
      AddressSplits(sha, q, y);
      SuffixShape(sha, y);
      var parts :| RowShape(parts) && Split(objectKey) == Split(p) + parts;
      ShapesDoNotNest(Split(p), parts, Split(q), Suffix(sha, y));
      JoinSplit(p);
      JoinSplit(q);
    }
  }
}
