/** Byte strings, the digest type, and the '/'-separated structure of names and object keys. */
module Basics {

  datatype Option<+T> = None | Some(value: T)

  type Byte = b: int | 0 <= b < 256

  /** A Go string: a sequence of bytes. */
  type Str = seq<Byte>

  /** A SHA-256 value. The hash itself stays uninterpreted: every result holds for any function of this type. */
  type Digest = d: Str | |d| == 32 witness seq(32, _ => 0)
  type Hash = Str -> Digest

  /** No two of these strings share a digest. No hash tells all byte strings apart, so what needs bytes, not digests, to
      agree assumes this of the strings that could be mistaken for each other. */
  ghost predicate InjectiveOn(sha: Hash, strings: iset<Str>) {
    forall a, b :: a in strings && b in strings && sha(a) == sha(b) ==> a == b
  }

  /** The assumption can be met: any 256 strings, however long, are told apart by some hash. */
  lemma SomeHashIsInjective(strings: seq<Str>) returns (sha: Hash)
    requires |strings| <= 256
    ensures InjectiveOn(sha, iset x | x in strings)
  {
    sha := (x: Str) => [IndexIn(strings, x)] + seq(31, _ => 0);
    forall a, b | a in strings && b in strings && sha(a) == sha(b) ensures a == b {
      assert sha(a)[0] == IndexIn(strings, a) && sha(b)[0] == IndexIn(strings, b);
    }
  }

  /** Where x stands in the list, or 0. */
  function IndexIn(strings: seq<Str>, x: Str): (i: Byte)
    requires |strings| <= 256
    ensures x in strings ==> i < |strings| && strings[i] == x
  {
    if strings == [] then 0
    else if strings[|strings| - 1] == x then |strings| - 1
    else IndexIn(strings[..|strings| - 1], x)
  }

  /** A payload is read back in ranges of at most 1 MiB. */
  const RANGE_BYTES: int := 0x10_0000

  function Min(a: int, b: int): (m: int)
    ensures m in {a, b} && m <= a && m <= b
  {
    if a < b then a else b
  }

  const SLASH: Byte := 0x2f
  const DOT: Byte := 0x2e

  /** strings.Split(s, "/"). */
  function Split(s: Str): (parts: seq<Str>)
    ensures |parts| > 0
  {
    if s == [] then [[]]
    else if s[0] == SLASH then [[]] + Split(s[1..])
    else
      var rest := Split(s[1..]);
      [[s[0]] + rest[0]] + rest[1..]
  }

  /** strings.Join(parts, "/"). */
  function Join(parts: seq<Str>): Str
    requires |parts| > 0
  {
    if |parts| == 1 then parts[0] else parts[0] + [SLASH] + Join(parts[1..])
  }

  /** strings.Join(parts, ""). */
  function Concat(parts: seq<Str>): Str {
    if parts == [] then [] else parts[0] + Concat(parts[1..])
  }

  lemma {:induction false} JoinSplit(s: Str)
    ensures Join(Split(s)) == s
  {
    if s == [] {
    } else if s[0] == SLASH {
      JoinSplit(s[1..]);
      assert Split(s)[1..] == Split(s[1..]);
    } else {
      JoinSplit(s[1..]);
      var rest := Split(s[1..]);
      if |rest| > 1 {
        assert Split(s)[1..] == rest[1..];
      }
    }
  }

  lemma {:induction false} SplitSlashFree(s: Str)
    requires SLASH !in s
    ensures Split(s) == [s]
  {
    if s != [] {
      SplitSlashFree(s[1..]);
      assert [s[0]] + s[1..] == s;
    }
  }

  lemma {:induction false} SplitPartsAreSlashFree(s: Str)
    ensures forall part :: part in Split(s) ==> SLASH !in part
  {
    if s != [] {
      SplitPartsAreSlashFree(s[1..]);
    }
  }

  /** Splitting distributes over a separator, wherever it stands. */
  lemma {:induction false} SplitAt(a: Str, b: Str)
    ensures Split(a + [SLASH] + b) == Split(a) + Split(b)
  {
    var s := a + [SLASH] + b;
    if a == [] {
      assert s[1..] == b;
    } else {
      assert s[1..] == a[1..] + [SLASH] + b;
      SplitAt(a[1..], b);
    }
  }

  predicate AllowedByte(b: Byte) {
    0x61 <= b <= 0x7a || 0x30 <= b <= 0x39 || b == 0x5f || b == DOT || b == 0x2d
  }

  predicate AllowedSegment(segment: Str) {
    segment != [] && segment != [DOT] && segment != [DOT, DOT]
  }

  /** The name grammar: lower-case letters, digits, '_', '.', '-' in non-empty segments that are not "." or "..". */
  predicate Grammar(name: Str) {
    && (forall b :: b in name ==> b == SLASH || AllowedByte(b))
    && (forall segment :: segment in Split(name) ==> AllowedSegment(segment))
  }

  const MAX_NAME_BYTES: int := 512

  /** storage.ValidateName, taken to be the grammar with a 512-byte limit. */
  predicate ValidName(name: Str) {
    0 < |name| <= MAX_NAME_BYTES && Grammar(name)
  }

  lemma GrammarAt(a: Str, b: Str)
    ensures Grammar(a + [SLASH] + b) <==> Grammar(a) && Grammar(b)
  {
    SplitAt(a, b);
    var s := a + [SLASH] + b;
    if Grammar(s) {
      forall x | x in a ensures x == SLASH || AllowedByte(x) { assert x in s; }
      forall x | x in b ensures x == SLASH || AllowedByte(x) { assert x in s; }
    }
  }

  /** Names that are no clean relative paths are refused: an empty component, "." or ".." may stand nowhere. */
  lemma UncleanNames(a: Str, segment: Str, b: Str)
    requires segment in {[], [DOT], [DOT, DOT]}
    ensures !Grammar(segment) && !Grammar(a + [SLASH] + segment) && !Grammar(segment + [SLASH] + b)
    ensures !Grammar(a + [SLASH] + (segment + [SLASH] + b))
  {
    SplitSlashFree(segment);
    assert segment in Split(segment);
    GrammarAt(a, segment);
    GrammarAt(segment, b);
    GrammarAt(a, segment + [SLASH] + b);
  }
}
