/** Bytes, 32-byte digests and little-endian numbers, shared by every other module. */
module Base {

  newtype byte = x: int | 0 <= x < 256

  type Bytes = seq<byte>

  type Digest = d: Bytes | |d| == 32 witness seq(32, _ => 0)

  /** A transaction hash followed by a four-byte output index. */
  type OutPoint = p: Bytes | |p| == 36 witness seq(36, _ => 0)

  /** blake2b-256 with CKB's personalization, never looked into: every result holds for each function of this type. */
  type HashFn = Bytes -> Digest

  /** CKB's short hash: the first 20 bytes. */
  function Blake160(h: HashFn, data: Bytes): (r: Bytes)
    ensures |r| == 20
  {
    h(data)[..20]
  }

  const U32_LIMIT := 0x1_0000_0000
  const U64_MAX := 0xFFFF_FFFF_FFFF_FFFF

  datatype Option<+T> = None | Some(value: T)

  datatype Result<+T, +E> = Ok(value: T) | Err(error: E)

  /** Thirty-two zero bytes. */
  const ZERO_DIGEST: Digest := Le(0, 32)

  /** Two different strings with the same digest. */
  ghost predicate Collide(h: HashFn, a: Bytes, b: Bytes) {
    a != b && h(a) == h(b)
  }

  function Min(a: nat, b: nat): nat {
    if a <= b then a else b
  }

  function SaturatingAdd(a: nat, b: nat): nat {
    Min(a + b, U64_MAX)
  }

  // ----- Little-endian numbers -----

  /** 256 to the power k. */
  function Range(k: nat): nat {
    if k == 0 then 1 else 256 * Range(k - 1)
  }

  /** The low k bytes of n, least significant first; higher bytes are cut off, as an `as` cast does. */
  function Le(n: nat, k: nat): (b: Bytes)
    ensures |b| == k
  {
    if k == 0 then [] else [(n % 256) as byte] + Le(n / 256, k - 1)
  }

  function FromLe(b: Bytes): nat {
    if b == [] then 0 else b[0] as nat + 256 * FromLe(b[1..])
  }

  lemma {:induction false} FromLeOfLe(n: nat, k: nat)
    requires n < Range(k)
    ensures FromLe(Le(n, k)) == n
  {
    if k > 0 {
      FromLeOfLe(n / 256, k - 1);
      assert Le(n, k)[1..] == Le(n / 256, k - 1);
    }
  }

  lemma {:induction false} LeOfFromLe(b: Bytes)
    ensures FromLe(b) < Range(|b|)
    ensures Le(FromLe(b), |b|) == b
  {
    if b != [] {
      LeOfFromLe(b[1..]);
      assert FromLe(b) / 256 == FromLe(b[1..]);
    }
  }

  lemma LeInjective(m: nat, n: nat, k: nat)
    requires m < Range(k) && n < Range(k) && Le(m, k) == Le(n, k)
    ensures m == n
  {
    FromLeOfLe(m, k);
    FromLeOfLe(n, k);
  }

  lemma Ranges()
    ensures Range(1) == 256
    ensures Range(2) == 65536
    ensures Range(4) == U32_LIMIT
    ensures Range(8) == U64_MAX + 1
  {
    assert Range(2) == 256 * Range(1);
    assert Range(4) == 256 * (256 * Range(2));
    assert Range(6) == 256 * (256 * Range(4));
    assert Range(8) == 256 * (256 * Range(6));
  }

  /** The first byte is the least significant one. */
  lemma LittleEndian(b: Bytes)
    requires |b| == 4
    ensures FromLe(b) == b[0] as nat + 0x100 * b[1] as nat + 0x1_0000 * b[2] as nat + 0x100_0000 * b[3] as nat
  {
    var three, two, one := b[1..], b[2..], b[3..];
    assert three[1..] == two && two[1..] == one && one[1..] == [];
    assert FromLe(one) == b[3] as nat;
    assert FromLe(two) == b[2] as nat + 256 * FromLe(one);
    assert FromLe(three) == b[1] as nat + 256 * FromLe(two);
    assert FromLe(b) == b[0] as nat + 256 * FromLe(three);
  }

  lemma {:induction false} ZeroBytes(k: nat)
    ensures forall i :: 0 <= i < k ==> Le(0, k)[i] == 0
  {
    if k > 0 {
      ZeroBytes(k - 1);
    }
  }

  // ----- Concatenation -----

  lemma Associative<T>(a: seq<T>, b: seq<T>, c: seq<T>)
    ensures a + b + c == a + (b + c)
  {
  }

  lemma Middle(before: Bytes, part: Bytes, after: Bytes)
    ensures (before + part + after)[|before|..|before| + |part|] == part
  {
  }

  function Join(parts: seq<Bytes>): Bytes {
    if parts == [] then [] else Join(parts[..|parts| - 1]) + parts[|parts| - 1]
  }

  lemma JoinStep(parts: seq<Bytes>, i: nat)
    requires i < |parts|
    ensures Join(parts[..i + 1]) == Join(parts[..i]) + parts[i]
  {
    assert parts[..i + 1][..i] == parts[..i];
  }

  lemma {:induction false} JoinPrefix(parts: seq<Bytes>, i: nat)
    requires i <= |parts|
    ensures Join(parts[..i]) <= Join(parts)
    decreases |parts| - i
  {
    if i == |parts| {
      assert parts[..i] == parts;
    } else {
      JoinStep(parts, i);
      JoinPrefix(parts, i + 1);
    }
  }

  /** Each part is a slice of the concatenation. */
  lemma JoinSlice(parts: seq<Bytes>, i: nat)
    requires i < |parts|
    ensures |Join(parts[..i])| + |parts[i]| <= |Join(parts)|
    ensures Join(parts)[|Join(parts[..i])|..|Join(parts[..i])| + |parts[i]|] == parts[i]
  {
    JoinStep(parts, i);
    JoinPrefix(parts, i + 1);
    var all := Join(parts);
    var end := |Join(parts[..i + 1])|;
    assert all[..end] == Join(parts[..i + 1]);
    assert all[|Join(parts[..i])|..end] == all[..end][|Join(parts[..i])|..];
  }

  /** Parts of one size: the concatenation is that many times longer. */
  lemma {:induction false} JoinUniform(parts: seq<Bytes>, size: nat)
    requires forall i :: 0 <= i < |parts| ==> |parts[i]| == size
    ensures |Join(parts)| == size * |parts|
  {
    if parts != [] {
      var n := |parts| - 1;
      JoinUniform(parts[..n], size);
      assert size * (n + 1) == size * n + size;
    }
  }

  /** Consecutive chunks of one size, as `chunks_exact` yields them. */
  function Chunks(b: Bytes, size: nat, count: nat): (parts: seq<Bytes>)
    requires |b| == size * count
    ensures |parts| == count
    ensures forall i :: 0 <= i < count ==> |parts[i]| == size
  {
    if count == 0 then [] else
      assert size * count == size * (count - 1) + size;
      Chunks(b[..size * (count - 1)], size, count - 1) + [b[size * (count - 1)..]]
  }

  lemma {:induction false} JoinOfChunks(b: Bytes, size: nat, count: nat)
    requires |b| == size * count
    ensures Join(Chunks(b, size, count)) == b
  {
    if count > 0 {
      assert size * count == size * (count - 1) + size;
      var c := Chunks(b, size, count);
      assert c[..count - 1] == Chunks(b[..size * (count - 1)], size, count - 1);
      JoinOfChunks(b[..size * (count - 1)], size, count - 1);
    }
  }

  lemma {:induction false} ChunksOfJoin(parts: seq<Bytes>, size: nat)
    requires forall i :: 0 <= i < |parts| ==> |parts[i]| == size
    ensures |Join(parts)| == size * |parts|
    ensures Chunks(Join(parts), size, |parts|) == parts
  {
    JoinUniform(parts, size);
    if parts != [] {
      var n := |parts| - 1;
      ChunksOfJoin(parts[..n], size);
      assert size * (n + 1) == size * n + size;
      assert Join(parts)[..size * n] == Join(parts[..n]);
      assert parts == parts[..n] + [parts[n]];
    }
  }

  lemma SpanFits(size: nat, i: nat, count: nat)
    requires i < count
    ensures size * i + size <= size * count
  {
    var rest := count - i - 1;
    assert size * count == size * i + size + size * rest by {
      assert count == i + 1 + rest;
    }
  }

  /** Chunk i is the slice at position size * i. */
  lemma {:induction false} ChunkAt(b: Bytes, size: nat, count: nat, i: nat)
    requires |b| == size * count
    requires i < count
    ensures 0 <= size * i <= size * i + size <= |b|
    ensures Chunks(b, size, count)[i] == b[size * i..size * i + size]
  {
    SpanFits(size, i, count);
    SpanFits(size, count - 1, count);
    if i < count - 1 {
      var front := b[..size * (count - 1)];
      ChunkAt(front, size, count - 1, i);
      assert front[size * i..size * i + size] == b[size * i..size * i + size];
    }
  }
}
