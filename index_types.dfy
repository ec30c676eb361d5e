/** The typed arrays (Uint16Array or Uint32Array) that hold a mesh's vertex indices. */
module IndexTypes {

  /** The element type of a typed index array. */
  datatype IndexType = Uint16 | Uint32

  function Capacity(t: IndexType): nat
  {
    if t == Uint16 then 0x1_0000 else 0x1_0000_0000
  }

  /** What a typed array holds after `array[i] = v` for a non-negative integer v: v modulo 2^bits. */
  function Stored(t: IndexType, v: nat): (r: nat)
    ensures r < Capacity(t)
    ensures v < Capacity(t) ==> r == v
  {
    v % Capacity(t)
  }

  /** `array[i] += d` on a typed array: the sum of the stored value and d, stored again. */
  lemma StoredAdd(t: IndexType, v: nat, d: nat)
    ensures Stored(t, Stored(t, v) + d) == Stored(t, v + d)
  {
    if t == Uint16 {
      ModAdd(v, d, 0x1_0000);
    } else {
      ModAdd(v, d, 0x1_0000_0000);
    }
  }

  lemma ModAdd(v: nat, d: nat, c: nat)
    requires c > 0
    ensures (v % c + d) % c == (v + d) % c
  {
    var q := v / c;
    var y := v % c + d;
    assert v + d == q * c + y;
    var r := y % c;
    assert y == (y / c) * c + r;
    assert v + d == (q + y / c) * c + r;
    assert 0 <= r < c;
    DivMod(v + d, c, q + y / c, r);
  }

  /** Euclidean division is unique. */
  lemma DivMod(a: nat, c: nat, k: int, r: int)
    requires c > 0 && 0 <= r < c && a == k * c + r
    ensures a / c == k && a % c == r
  {
    var k' := a / c;
    var r' := a % c;
    assert k' * c + r' == k * c + r;
    assert (k' - k) * c == r - r';
    if k' > k {
      MulAtLeast(k' - k, c);
    } else if k' < k {
      MulAtLeast(k - k', c);
    }
  }

  lemma {:induction false} MulAtLeast(a: nat, c: nat)
    requires a >= 1
    ensures a * c >= c
  {
    if a > 1 {
      MulAtLeast(a - 1, c);
      assert a * c == (a - 1) * c + c;
    }
  }

  lemma MulSucc(a: nat, c: nat)
    ensures (a + 1) * c == a * c + c
  {
  }

  lemma MulLe(a: nat, b: nat, c: nat)
    requires a <= b
    ensures a * c <= b * c
  {
  }

  /** The element type the mapped, geometry, ribbon and tube buffers choose for a
      mesh of the given vertex count: 32 bits once there are more than 65535 vertices. */
  function ForVertexCount(vertexCount: nat): (t: IndexType)
    ensures t == Uint16 ==> vertexCount <= Capacity(t)
  {
    if vertexCount > 65535 then Uint32 else Uint16
  }

  /** The chosen element type holds every vertex index of the mesh unchanged. */
  lemma ForVertexCountHolds(vertexCount: nat, v: nat)
    requires v < vertexCount <= 0x1_0000_0000
    ensures Stored(ForVertexCount(vertexCount), v) == v
  {
  }
}
