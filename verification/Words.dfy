/** Little-endian words as they stand in a file. */
module Words {
  import opened Bytes

  /** The word `v` stands at `at`, least significant byte first. */
  predicate Stands(raw: seq<byte>, at: int, v: int) {
    0 <= at <= |raw| - 4 && 0 <= v <= MAX_U32 && raw[at..at + 4] == PackU32(v)
  }

  /** These words stand one after the other from `at` on. */
  ghost predicate AllStand(raw: seq<byte>, at: int, words: seq<int>) {
    forall k | 0 <= k < |words| :: Stands(raw, at + 4 * k, words[k])
  }

  lemma StandsIff(raw: seq<byte>, at: int, v: int)
    requires 0 <= at <= |raw| - 4
    ensures Stands(raw, at, v) <==> U32(raw, at) == v
  {
    PackUnpacked(raw, at);
    if 0 <= v <= MAX_U32 {
      UnpackPacked(v);
    }
    U32OfSlice(raw, at, at + 4, 0);
    hide PackU32, U32;
  }

  /** The words that stand somewhere. */
  function WordsAt(raw: seq<byte>, at: nat, n: nat): (words: seq<int>)
    requires at + 4 * n <= |raw|
    ensures |words| == n
  {
    seq(n, k requires 0 <= k < n => U32(raw, at + 4 * k))
  }

  lemma AllStandIff(raw: seq<byte>, at: nat, words: seq<int>)
    requires at + 4 * |words| <= |raw|
    ensures AllStand(raw, at, words) <==> WordsAt(raw, at, |words|) == words
  {
    hide Stands, U32;
    var found := WordsAt(raw, at, |words|);
    forall k | 0 <= k < |words| ensures Stands(raw, at + 4 * k, words[k]) <==> found[k] == words[k] {
      StandsIff(raw, at + 4 * k, words[k]);
    }
  }

  lemma FourWords(raw: seq<byte>, at: nat, a: int, b: int, c: int, d: int)
    requires at + 16 <= |raw|
    ensures AllStand(raw, at, [a, b, c, d]) <==>
      U32(raw, at) == a && U32(raw, at + 4) == b && U32(raw, at + 8) == c && U32(raw, at + 12) == d
  {
    hide U32;
    AllStandIff(raw, at, [a, b, c, d]);
    var w := WordsAt(raw, at, 4);
    assert w == [U32(raw, at), U32(raw, at + 4), U32(raw, at + 8), U32(raw, at + 12)];
  }

  /** The half word `v` stands at `at`, least significant byte first. */
  predicate HalfStands(raw: seq<byte>, at: int, v: int) {
    0 <= at <= |raw| - 2 && 0 <= v < 0x1_0000 && raw[at..at + 2] == [v % 0x100, v / 0x100]
  }

  lemma HalfStandsIff(raw: seq<byte>, at: int, v: int)
    requires 0 <= at <= |raw| - 2
    ensures HalfStands(raw, at, v) <==> U16(raw, at) == v
  {
    var u := U16(raw, at);
    assert u / 0x100 == raw[at + 1] && u % 0x100 == raw[at];
    assert raw[at..at + 2] == [u % 0x100, u / 0x100];
  }
}
