/** Subresource-integrity values as the `ssri` crate provides them: a
    non-empty list of (algorithm, digest) pairs, printed as
    `alg-digest alg-digest ...`. Digests are the hexadecimal stand-ins of
    module `Digests`; parsing and printing are written out and proved to be
    inverse. */
module Sri {
  import opened Wrappers
  import opened Text
  import opened Bytes
  import Digests

  datatype Algorithm = Sha512 | Sha384 | Sha256 | Sha1

  function AlgorithmName(a: Algorithm): string {
    match a
    case Sha512 => "sha512"
    case Sha384 => "sha384"
    case Sha256 => "sha256"
    case Sha1 => "sha1"
  }

  function ParseAlgorithm(s: string): Option<Algorithm> {
    if s == "sha512" then Some(Sha512)
    else if s == "sha384" then Some(Sha384)
    else if s == "sha256" then Some(Sha256)
    else if s == "sha1" then Some(Sha1)
    else None
  }

  predicate IsDigest(d: string) {
    |d| > 0 && Digests.IsHex(d)
  }

  type Digest = d: string | IsDigest(d) witness "0"

  datatype Hash = Hash(algorithm: Algorithm, digest: Digest)

  /** An integrity value always holds at least one hash. */
  datatype Integrity = Integrity(first: Hash, rest: seq<Hash>) {
    function Hashes(): seq<Hash> {
      [first] + rest
    }
  }

  // ---------------------------------------------------------------------
  // Printing and parsing

  /** A digest holds no separator of the printed forms. */
  lemma DigestHasNoSeparator(d: Digest)
    ensures ' ' !in d && '-' !in d && '\t' !in d && '\n' !in d
  {
    forall k | 0 <= k < |d|
      ensures d[k] != ' ' && d[k] != '-' && d[k] != '\t' && d[k] != '\n'
    {
      assert Digests.IsHexChar(d[k]);
    }
  }

  function HashText(h: Hash): (t: string)
    ensures t != "" && ' ' !in t && '\t' !in t && '\n' !in t
  {
    DigestHasNoSeparator(h.digest);
    AlgorithmName(h.algorithm) + "-" + h.digest
  }

  function ParseHash(t: string): Option<Hash> {
    var parts := Split(t, '-');
    if |parts| != 2 then None
    else
      match ParseAlgorithm(parts[0])
      case None => None
      case Some(a) => if IsDigest(parts[1]) then Some(Hash(a, parts[1])) else None
  }

  lemma ParseHashText(h: Hash)
    ensures ParseHash(HashText(h)) == Some(h)
  {
    var name := AlgorithmName(h.algorithm);
    DigestHasNoSeparator(h.digest);
    assert '-' !in name;
    SplitAppend(name, '-', h.digest);
    assert Split(HashText(h), '-') == [name, h.digest];
  }

  function HashTexts(hs: seq<Hash>): (ts: seq<string>)
    ensures |ts| == |hs|
    ensures forall k :: 0 <= k < |hs| ==> ts[k] == HashText(hs[k])
  {
    if hs == [] then [] else [HashText(hs[0])] + HashTexts(hs[1..])
  }

  /** `Integrity::to_string`: the hashes separated by single spaces. */
  function IntegrityText(i: Integrity): (t: string)
    ensures '\t' !in t && '\n' !in t
  {
    var ts := HashTexts(i.Hashes());
    NoTabInJoin(ts);
    Join(ts, ' ')
  }

  lemma {:induction false} NoTabInJoin(ts: seq<string>)
    requires |ts| >= 1
    requires forall t <- ts :: '\t' !in t && '\n' !in t
    ensures '\t' !in Join(ts, ' ') && '\n' !in Join(ts, ' ')
  {
    if |ts| > 1 {
      NoTabInJoin(ts[1..]);
    }
  }

  /** Whitespace-separated tokens; empty tokens are skipped and any other
      token must be a well-formed hash. */
  function ParseTokens(ts: seq<string>): Option<seq<Hash>> {
    if ts == [] then Some([])
    else if ts[0] == "" then ParseTokens(ts[1..])
    else
      match ParseHash(ts[0])
      case None => None
      case Some(h) =>
        match ParseTokens(ts[1..])
        case None => None
        case Some(hs) => Some([h] + hs)
  }

  /** `"...".parse::<Integrity>()`: fails on a malformed token or when no
      hash is present. */
  function ParseIntegrity(s: string): Option<Integrity> {
    match ParseTokens(Split(s, ' '))
    case None => None
    case Some(hs) => if hs == [] then None else Some(Integrity(hs[0], hs[1..]))
  }

  lemma {:induction false} ParseHashTexts(hs: seq<Hash>)
    ensures ParseTokens(HashTexts(hs)) == Some(hs)
  {
    if hs != [] {
      ParseHashText(hs[0]);
      ParseHashTexts(hs[1..]);
      var ts := HashTexts(hs);
      assert ts[0] == HashText(hs[0]) && ts[0] != "";
      assert ts[1..] == HashTexts(hs[1..]);
      assert hs == [hs[0]] + hs[1..];
    }
  }

  /** Printing an integrity value and parsing it again gives it back. */
  lemma ParseIntegrityText(i: Integrity)
    ensures ParseIntegrity(IntegrityText(i)) == Some(i)
  {
    var ts := HashTexts(i.Hashes());
    SplitJoin(ts, ' ');
    ParseHashTexts(i.Hashes());
  }

  /** Integrity values are told apart by their printed form. */
  lemma IntegrityTextInjective(a: Integrity, b: Integrity)
    requires IntegrityText(a) == IntegrityText(b)
    ensures a == b
  {
    ParseIntegrityText(a);
    ParseIntegrityText(b);
  }

  /** The placeholder `sha1-deadbeef` that the index returns when no
      integrity was supplied. */
  const Placeholder: Integrity := Integrity(Hash(Sha1, "deadbeef"), [])

  lemma PlaceholderParses()
    ensures ParseIntegrity("sha1-deadbeef") == Some(Placeholder)
  {
    var text := HashText(Placeholder.first);
    assert text == "sha1-deadbeef";
    assert HashTexts(Placeholder.Hashes()) == [text];
    assert IntegrityText(Placeholder) == text;
    ParseIntegrityText(Placeholder);
  }

  // ---------------------------------------------------------------------
  // Computing and matching

  /** `pick_algorithm`: the algorithm of the leading hash. */
  function PickAlgorithm(i: Integrity): Algorithm {
    i.first.algorithm
  }

  /** `hashes.iter().take_while(|h| h.algorithm == a)`. */
  function LeadingRun(hs: seq<Hash>, a: Algorithm): (run: seq<Hash>)
    ensures run <= hs
    ensures forall h <- run :: h.algorithm == a
    ensures |run| < |hs| ==> hs[|run|].algorithm != a
  {
    if hs == [] || hs[0].algorithm != a then [] else [hs[0]] + LeadingRun(hs[1..], a)
  }

  /** The expected integrity accepts the computed one when the computed
      leading hash is among the expected hashes that use the picked
      algorithm, before the first hash of another algorithm. */
  predicate Matches(expected: Integrity, computed: Integrity) {
    computed.first in LeadingRun(expected.Hashes(), PickAlgorithm(expected))
  }

  /** Matching compares like with like: a match implies the computed hash
      uses the expected value's picked algorithm, and a computed hash equal
      to the expected leading hash always matches. */
  lemma MatchesSameAlgorithm(expected: Integrity, computed: Integrity)
    ensures Matches(expected, computed) ==> computed.first.algorithm == PickAlgorithm(expected)
    ensures computed.first == expected.first ==> Matches(expected, computed)
  {
    var run := LeadingRun(expected.Hashes(), PickAlgorithm(expected));
    if computed.first == expected.first {
      assert run[0] == expected.first;
    }
  }

  function Width(a: Algorithm): nat {
    match a
    case Sha512 => 128
    case Sha384 => 96
    case Sha256 => 64
    case Sha1 => 40
  }

  function Seed(a: Algorithm): nat {
    match a
    case Sha512 => 5
    case Sha384 => 4
    case Sha256 => 3
    case Sha1 => 2
  }

  function DigestOf(a: Algorithm, data: seq<byte>): Digest {
    Digests.BytesHex(data, Seed(a), Width(a))
  }

  /** `Integrity::from(data, algorithm)`: the one-hash integrity of `data`. */
  function Compute(data: seq<byte>, a: Algorithm): (i: Integrity)
    ensures PickAlgorithm(i) == a && i.rest == []
  {
    Integrity(Hash(a, DigestOf(a, data)), [])
  }

  /** `sri.check(data)`: the picked algorithm when `data` hashes to one of
      the expected digests, and nothing otherwise. */
  function Check(sri: Integrity, data: seq<byte>): (r: Option<Algorithm>)
    ensures r.Some? ==> r.value == PickAlgorithm(sri)
  {
    if Matches(sri, Compute(data, PickAlgorithm(sri))) then Some(PickAlgorithm(sri)) else None
  }

  /** Data always passes the check against its own computed integrity. */
  lemma CheckComputed(data: seq<byte>, a: Algorithm)
    ensures Check(Compute(data, a), data) == Some(a)
  {
    MatchesSameAlgorithm(Compute(data, a), Compute(data, a));
  }
}
