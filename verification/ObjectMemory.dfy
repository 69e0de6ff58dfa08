/** Byte-addressed memory: reading and writing runs of bytes and machine words. */
module ObjectMemory {
  import opened ObjectLayout

  type Byte = x: int | 0 <= x < 256 witness 0

  type Bytes = map<nat, Byte>

  function Power256(n: nat): (r: nat)
    ensures r > 0
  {
    if n == 0 then 1 else 256 * Power256(n - 1)
  }

  /** The low n bytes of a number, lowest first. */
  function Encode(v: nat, n: nat): (r: seq<Byte>)
    ensures |r| == n
    decreases n
  {
    if n == 0 then [] else [v % 256] + Encode(v / 256, n - 1)
  }

  function Decode(b: seq<Byte>): (r: nat) {
    if b == [] then 0 else b[0] + 256 * Decode(b[1..])
  }

  lemma {:induction false} DecodeEncode(v: nat, n: nat)
    requires v < Power256(n)
    ensures Decode(Encode(v, n)) == v
    decreases n
  {
    if n > 0 {
      assert Encode(v, n)[1..] == Encode(v / 256, n - 1);
      DecodeEncode(v / 256, n - 1);
    }
  }

  lemma {:induction false} DecodeInRange(b: seq<Byte>)
    ensures Decode(b) < Power256(|b|)
  {
    if b != [] { DecodeInRange(b[1..]); }
  }

  predicate IsWithin(k: nat, a: nat, n: nat) { a <= k < a + n }

  function Range(a: nat, n: nat): set<nat> { set k: nat | k < a + n && IsWithin(k, a, n) }

  predicate IsReadable(m: Bytes, a: nat, n: nat) { forall k :: a <= k < a + n ==> k in m }

  function Read(m: Bytes, a: nat, n: nat): (r: seq<Byte>)
    requires IsReadable(m, a, n)
    ensures |r| == n
  {
    seq(n, k requires 0 <= k < n => m[a + k])
  }

  function Write(m: Bytes, a: nat, b: seq<Byte>): (r: Bytes)
    ensures r.Keys == m.Keys + Range(a, |b|)
    ensures IsReadable(r, a, |b|) && Read(r, a, |b|) == b
    ensures forall k :: k in m && !(a <= k < a + |b|) ==> r[k] == m[k]
  {
    m + map k | k in Range(a, |b|) :: b[k - a]
  }

  lemma ReadFrame(m: Bytes, n: Bytes, a: nat, size: nat)
    requires IsReadable(m, a, size) && forall k :: a <= k < a + size ==> k in n && n[k] == m[k]
    ensures IsReadable(n, a, size) && Read(n, a, size) == Read(m, a, size)
  {
  }

  function ReadWord(m: Bytes, a: nat): nat
    requires IsReadable(m, a, WORD)
  {
    Decode(Read(m, a, WORD))
  }
}
