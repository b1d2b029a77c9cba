/** What ties the protocol's structured rows and manifests to the bytes in the bucket. */
module ManifestBinding {
  import opened Basics
  import opened KeyCodec
  import opened ManifestCodec
  import Hex
  import Isolation
  import Publication

  /** The checks readManifestAt makes on a complete body for a logical key. */
  function Accept(sha: Hash, prefix: Str, key: Str, body: Str): Option<Manifest> {
    var m := Parse(body);
    if m.Some? && m.value.key == key && PayloadObjectKeyMatches(sha, prefix, key, m.value.payload) then m else None
  }

  /** m names one of the key's own payloads. */
  ghost predicate NamesOwnPayload(sha: Hash, prefix: Str, key: Str, m: Manifest) {
    exists attempt: Str :: |attempt| == ATTEMPT_BYTES && m.payload == PayloadRow(sha, prefix, key, attempt)
  }

  lemma MatchesIff(sha: Hash, prefix: Str, key: Str, m: Manifest)
    requires Grammar(m.payload)
    ensures PayloadObjectKeyMatches(sha, prefix, key, m.payload) <==> NamesOwnPayload(sha, prefix, key, m)
  {
    var root := PayloadRoot(sha, prefix, key);
    if PayloadObjectKeyMatches(sha, prefix, key, m.payload) {
      var suffix := m.payload[|root|..];
      var attempt := Hex.Decode(suffix).value;
      Hex.DecodeIff(suffix, attempt);
      forall c | c in suffix ensures Hex.FoldByte(c) == c {
        assert c in m.payload;
      }
      assert Hex.Fold(suffix) == suffix;
      assert m.payload == root + suffix;
    }
    if NamesOwnPayload(sha, prefix, key, m) {
      var attempt: Str :| |attempt| == ATTEMPT_BYTES && m.payload == PayloadRow(sha, prefix, key, attempt);
      Hex.FoldEncode(attempt);
      Hex.DecodeIff(Hex.Encode(attempt), attempt);
      assert m.payload[|root|..] == Hex.Encode(attempt);
    }
  }

  /** The binding check also accepts upper-case attempts, but no manifest that parses can carry one: what is accepted
      is exactly the encoding of a manifest of this key that names a payload of this key in this deployment. */
  lemma AcceptIff(sha: Hash, prefix: Str, key: Str, body: Str, m: Manifest)
    ensures Accept(sha, prefix, key, body) == Some(m)
            <==> m.key == key && Encodable(m) && body == Bytes(m) && NamesOwnPayload(sha, prefix, key, m)
  {
    ParseIff(body, m);
    if Encodable(m) {
      MatchesIff(sha, prefix, key, m);
    }
  }

  // ---- the protocol's values

  /** The manifest the protocol writes as m. */
  function Stored(sha: Hash, prefix: Str, m: Publication.Manifest): Manifest
    requires m.content.size <= MAX_INT64
  {
    Manifest(m.key, PayloadRow(sha, prefix, m.key, m.attempt), m.content.size, m.content.digest)
  }

  ghost predicate WellNamed(m: Publication.Manifest) {
    ValidName(m.key) && |m.attempt| == ATTEMPT_BYTES && m.content.size <= MAX_INT64
  }

  /** A published manifest reads back as itself, and different manifests never share their bytes: the protocol may
      speak of manifests where the bucket holds encodings. */
  lemma StoredReadsBack(sha: Hash, prefix: Str, m: Publication.Manifest, n: Publication.Manifest)
    requires ValidName(prefix) && |prefix| <= MAX_PREFIX_BYTES && WellNamed(m) && WellNamed(n)
    ensures Accept(sha, prefix, m.key, Bytes(Stored(sha, prefix, m))) == Some(Stored(sha, prefix, m))
    ensures Bytes(Stored(sha, prefix, m)) == Bytes(Stored(sha, prefix, n)) ==> m == n
  {
    var a, b := Stored(sha, prefix, m), Stored(sha, prefix, n);
    PutManifestEncodes(sha, prefix, m.key, m.attempt, m.content.size, m.content.digest);
    PutManifestEncodes(sha, prefix, n.key, n.attempt, n.content.size, n.content.digest);
    assert NamesOwnPayload(sha, prefix, m.key, a);
    AcceptIff(sha, prefix, m.key, Bytes(a), a);
    if Bytes(a) == Bytes(b) {
      ParseBytes(a);
      ParseBytes(b);
      Isolation.AddressInjective(sha, prefix, Isolation.Payload(m.key, m.attempt), Isolation.Payload(n.key, n.attempt));
    }
  }

  function RowKey(sha: Hash, prefix: Str, r: Publication.Row): Str {
    if r.legacy then LegacyRow(sha, prefix, r.key) else CurrentRow(sha, prefix, r.key)
  }

  /** Different rows, and payloads of different attempts, are different objects, and no row is a payload: the protocol
      may keep them in separate maps. Its long keys are those with a legacy encoding of their own. */
  lemma StructuredKeysAreFaithful(sha: Hash, prefix: Str, q: Publication.Row, r: Publication.Row,
                                  key: Str, a: Str, other: Str, b: Str)
    requires (q.legacy ==> Publication.Long(q.key)) && (r.legacy ==> Publication.Long(r.key))
    ensures q != r ==> RowKey(sha, prefix, q) != RowKey(sha, prefix, r)
    ensures a != b ==> PayloadRow(sha, prefix, key, a) != PayloadRow(sha, prefix, other, b)
    ensures RowKey(sha, prefix, q) != PayloadRow(sha, prefix, key, a)
    ensures Publication.Long(key) <==> LegacyManifestObjectKey(sha, prefix, key).Some?
  {
    var x := if q.legacy then Isolation.Legacy(q.key) else Isolation.Current(q.key);
    var y := if r.legacy then Isolation.Legacy(r.key) else Isolation.Current(r.key);
    if RowKey(sha, prefix, q) == RowKey(sha, prefix, r) {
      Isolation.AddressInjective(sha, prefix, x, y);
    }
    if PayloadRow(sha, prefix, key, a) == PayloadRow(sha, prefix, other, b) {
      Isolation.AddressInjective(sha, prefix, Isolation.Payload(key, a), Isolation.Payload(other, b));
    }
    if RowKey(sha, prefix, q) == PayloadRow(sha, prefix, key, a) {
      Isolation.AddressInjective(sha, prefix, x, Isolation.Payload(key, a));
    }
    LegacyDiffersIff(sha, prefix, key);
  }
}
