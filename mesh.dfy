/**
 * Vertex decoding and the index bookkeeping of tangent averaging.
 *
 * `Vertex::genList` reads an interleaved float array, eight values per
 * vertex (position, normal, texture coordinate), into vertex records.
 * `Vertex::calcTanVectors` adds each face's tangent to its three vertices,
 * counts in an `unsigned char` per vertex how many faces touched it, and
 * then divides by that count.  The tangent arithmetic itself is floating
 * point and is not modelled; what is modelled is which values are read,
 * how the counts come out, and which vertices get divided.
 */
module Mesh {
  import opened Bounds

  /** `glm::vec2`. */
  datatype Vec2 = Vec2(x: real, y: real)

  /** `Vertex`. */
  datatype Vertex = Vertex(pos: Vec3, normal: Vec3, texCoord: Vec2, tangent: Vec3)

  /** The number of floats per vertex in the interleaved array. */
  const Stride: nat := 8

  /** A value-initialised vertex: every component zero. */
  const Blank: Vertex := Vertex(Vec3(0.0, 0.0, 0.0), Vec3(0.0, 0.0, 0.0), Vec2(0.0, 0.0), Vec3(0.0, 0.0, 0.0))

  /** The vertex eight interleaved floats describe, with a zero tangent. */
  function DecodeChunk(c: seq<real>): Vertex
    requires |c| == Stride
  {
    Blank.(pos := Vec3(c[0], c[1], c[2]), normal := Vec3(c[3], c[4], c[5]), texCoord := Vec2(c[6], c[7]))
  }

  /** Vertex `i` of the interleaved array. */
  function Decode(vertices: seq<real>, i: nat): Vertex
    requires Stride * i + Stride <= |vertices|
  {
    DecodeChunk(vertices[Stride * i..Stride * i + Stride])
  }

  /** The first `n` vertices of the interleaved array. */
  function Decoded(vertices: seq<real>, n: nat): (list: seq<Vertex>)
    requires Stride * n <= |vertices|
    ensures |list| == n
  {
    seq(n, i requires 0 <= i < n => Decode(vertices, i))
  }

  /** The eight floats a vertex is stored as. */
  function Encode(v: Vertex): (fs: seq<real>)
    ensures |fs| == Stride
  {
    [v.pos.x, v.pos.y, v.pos.z, v.normal.x, v.normal.y, v.normal.z, v.texCoord.x, v.texCoord.y]
  }

  /** The interleaved array a vertex list is stored as. */
  function Flatten(list: seq<Vertex>): (fs: seq<real>)
    ensures |fs| == Stride * |list|
  {
    if list == [] then [] else Flatten(list[..|list| - 1]) + Encode(list[|list| - 1])
  }

  /** Vertex `i` is stored at floats `8i..8i+7` of the interleaved array. */
  lemma {:induction false} FlattenAt(list: seq<Vertex>, i: nat)
    requires i < |list|
    ensures Flatten(list)[Stride * i..Stride * i + Stride] == Encode(list[i])
  {
    var init := list[..|list| - 1];
    if i < |init| {
      FlattenAt(init, i);
      assert Flatten(list)[..Stride * |init|] == Flatten(init);
    }
  }

  /** Decoding `n` vertices and storing them again gives back the first `8n` floats. */
  lemma {:induction false} FlattenDecoded(vertices: seq<real>, n: nat)
    requires Stride * n <= |vertices|
    ensures Flatten(Decoded(vertices, n)) == vertices[..Stride * n]
  {
    if n > 0 {
      var list := Decoded(vertices, n);
      assert list[..n - 1] == Decoded(vertices, n - 1);
      FlattenDecoded(vertices, n - 1);
      var b := Stride * (n - 1);
      assert Encode(list[n - 1]) == vertices[b..b + Stride];
      assert vertices[..Stride * n] == vertices[..b] + vertices[b..b + Stride];
    }
  }

  /** Vertex `i` decodes from the stored array as it was, but for its tangent. */
  lemma DecodeFlattenAt(list: seq<Vertex>, i: nat)
    requires i < |list|
    ensures Decode(Flatten(list), i) == list[i].(tangent := Blank.tangent)
  {
    FlattenAt(list, i);
  }

  /** Storing vertices and decoding them again gives back everything but the tangents. */
  lemma DecodedFlatten(list: seq<Vertex>)
    ensures Decoded(Flatten(list), |list|) == seq(|list|, i requires 0 <= i < |list| => list[i].(tangent := Blank.tangent))
  {
    forall i | 0 <= i < |list|
      ensures Decoded(Flatten(list), |list|)[i] == list[i].(tangent := Blank.tangent)
    {
      DecodeFlattenAt(list, i);
    }
  }

  /**
   * `Vertex::genList`: a vector of `noVertices` value-initialised vertices,
   * then vertex `i` takes its position from floats `8i..8i+2`, its normal
   * from `8i+3..8i+5` and its texture coordinate from `8i+6..8i+7`.  Only
   * those floats are read, so the array must hold `8 * noVertices` of them.
   */
  method GenList(vertices: seq<real>, noVertices: int) returns (list: seq<Vertex>)
    requires 0 <= noVertices && Stride * noVertices <= |vertices|
    ensures |list| == noVertices
    ensures forall i :: 0 <= i < noVertices ==>
      && list[i].pos == Vec3(vertices[Stride * i], vertices[Stride * i + 1], vertices[Stride * i + 2])
      && list[i].normal == Vec3(vertices[Stride * i + 3], vertices[Stride * i + 4], vertices[Stride * i + 5])
      && list[i].texCoord == Vec2(vertices[Stride * i + 6], vertices[Stride * i + 7])
      && list[i].tangent == Blank.tangent
    ensures list == Decoded(vertices, noVertices)
  {
    var ret := new Vertex[noVertices](_ => Blank);
    for i := 0 to noVertices
      invariant forall k :: 0 <= k < i ==> ret[k] == Decode(vertices, k)
      invariant forall k :: i <= k < noVertices ==> ret[k] == Blank
    {
      var b := i * Stride;
      ret[i] := ret[i].(pos := Vec3(vertices[b], vertices[b + 1], vertices[b + 2]));
      ret[i] := ret[i].(normal := Vec3(vertices[b + 3], vertices[b + 4], vertices[b + 5]));
      ret[i] := ret[i].(texCoord := Vec2(vertices[b + 6], vertices[b + 7]));
    }
    list := ret[..];
  }

  /** How often vertex `v` occurs in `indices`. */
  function Occurrences(indices: seq<nat>, v: nat): nat {
    multiset(indices)[v]
  }

  /** `b + 1` on an `unsigned char` wraps from 255 to 0. */
  lemma ByteSucc(b: bv8)
    ensures (b + 1) as int == if b == 255 then 0 else b as int + 1
  {
  }

  /** The residue of `m + 1` modulo 256, from that of `m`. */
  lemma ModSucc(m: nat, r: nat)
    requires r == m % 256
    ensures (m + 1) % 256 == if r == 255 then 0 else r + 1
  {
  }

  /** An `unsigned char` counter after one `++`. */
  lemma BumpCount(b: bv8, m: nat)
    requires b as int == m % 256
    ensures (b + 1) as int == (m + 1) % 256
  {
    ByteSucc(b);
    ModSucc(m, b as int);
  }

  /** One more occurrence of `x` counts one more for `x` and none more for any other vertex. */
  lemma OccurrencesSnoc(s: seq<nat>, x: nat, v: nat)
    ensures Occurrences(s + [x], v) == Occurrences(s, v) + if x == v then 1 else 0
  {
    assert multiset(s + [x]) == multiset(s) + multiset{x};
  }

  /** `counts[x]++` after the indices `s` have been counted. */
  method Bump(c: array<bv8>, ghost s: seq<nat>, x: nat)
    requires x < c.Length
    requires forall v :: 0 <= v < c.Length ==> c[v] as int == Occurrences(s, v) % 256
    modifies c
    ensures forall v :: 0 <= v < c.Length ==> c[v] as int == Occurrences(s + [x], v) % 256
  {
    BumpCount(c[x], Occurrences(s, x));
    c[x] := c[x] + 1;
  }

  /** Every index names a vertex of the list. */
  predicate IndicesInRange(indices: seq<nat>, size: nat) {
    forall k :: 0 <= k < |indices| ==> indices[k] < size
  }

  /**
   * The count loop of `Vertex::calcTanVectors`: `counts` starts at zero
   * and each face `indices[i..i+2]` bumps the count of its three vertices.
   * The faces are read three indices at a time, so the index list holds
   * whole faces, and every index names a vertex.  Each count ends as the
   * number of times the vertex occurs in the index list, modulo 256.
   */
  method CountFaces(size: nat, indices: seq<nat>) returns (counts: seq<bv8>)
    requires |indices| % 3 == 0 && IndicesInRange(indices, size)
    ensures |counts| == size
    ensures forall v :: 0 <= v < size ==> counts[v] as int == Occurrences(indices, v) % 256
  {
    var c := new bv8[size](_ => 0);
    var i := 0;
    while i < |indices|
      invariant 0 <= i <= |indices| && i % 3 == 0
      invariant forall v :: 0 <= v < size ==> c[v] as int == Occurrences(indices[..i], v) % 256
    {
      Bump(c, indices[..i], indices[i]);
      assert indices[..i] + [indices[i]] == indices[..i + 1];
      Bump(c, indices[..i + 1], indices[i + 1]);
      assert indices[..i + 1] + [indices[i + 1]] == indices[..i + 2];
      Bump(c, indices[..i + 2], indices[i + 2]);
      assert indices[..i + 2] + [indices[i + 2]] == indices[..i + 3];
      i := i + 3;
    }
    assert indices[..i] == indices;
    counts := c[..];
  }

  /**
   * The averaging loop of `Vertex::calcTanVectors` as written: it runs
   * over the vertex count but takes `indices[i]` as the vertex to divide,
   * so it reads the first `list.size()` entries of the index list.
   * `divided[v]` is how many times vertex `v`'s tangent is divided by its
   * count: once per occurrence among those entries.
   */
  method AverageAsWritten(size: nat, indices: seq<nat>) returns (divided: seq<nat>)
    requires size <= |indices| && IndicesInRange(indices, size)
    ensures |divided| == size
    ensures forall v :: 0 <= v < size ==> divided[v] == Occurrences(indices[..size], v)
  {
    divided := seq(size, _ => 0);
    for i := 0 to size
      invariant |divided| == size
      invariant forall v :: 0 <= v < size ==> divided[v] == Occurrences(indices[..i], v)
    {
      assert indices[..i + 1] == indices[..i] + [indices[i]];
      divided := divided[indices[i] := divided[indices[i]] + 1];
    }
  }

  /** Two faces over four vertices: `(0, 1, 2)` and `(0, 2, 3)`. */
  const TwoFaces: seq<nat> := [0, 1, 2, 0, 2, 3]

  /** Vertex 0 occurs twice among the first four indices of `TwoFaces`. */
  lemma TwoFacesHeadCountsZeroTwice()
    ensures Occurrences(TwoFaces[..4], 0) == 2
  {
    assert TwoFaces[..4] == [0, 1, 2] + [0];
    assert [0, 1, 2] == [0] + [1, 2];
    assert 0 !in [1, 2];
    assert multiset([0, 1, 2])[0] == 1;
    OccurrencesSnoc([0, 1, 2], 0, 0);
  }

  /** Vertex 3 is not among the first four indices of `TwoFaces`. */
  lemma TwoFacesHeadMissesThree()
    ensures Occurrences(TwoFaces[..4], 3) == 0
  {
    assert TwoFaces[..4] == [0, 1, 2, 0];
    assert 3 !in TwoFaces[..4];
  }

  /** Vertex 3 belongs to the second face of `TwoFaces`. */
  lemma TwoFacesCountsThreeOnce()
    ensures Occurrences(TwoFaces, 3) == 1
  {
    assert TwoFaces == [0, 1, 2, 0, 2] + [3];
    assert 3 !in [0, 1, 2, 0, 2];
    OccurrencesSnoc([0, 1, 2, 0, 2], 3, 3);
  }

  /**
   * Over `TwoFaces` the averaging loop as written divides vertex 0 twice
   * and never divides vertex 3, which belongs to a face.
   */
  lemma AverageAsWrittenMissesVertex()
    ensures IndicesInRange(TwoFaces, 4) && |TwoFaces| % 3 == 0
    ensures Occurrences(TwoFaces[..4], 0) == 2
    ensures Occurrences(TwoFaces[..4], 3) == 0
    ensures Occurrences(TwoFaces, 3) == 1
  {
    TwoFacesHeadCountsZeroTwice();
    TwoFacesHeadMissesThree();
    TwoFacesCountsThreeOnce();
  }

  /**
   * The averaging loop as evidently intended: every vertex of the list is
   * divided by its own count exactly once.
   */
  method AverageEach(size: nat) returns (divided: seq<nat>)
    ensures |divided| == size
    ensures forall v :: 0 <= v < size ==> divided[v] == 1
  {
    divided := seq(size, _ => 0);
    for v := 0 to size
      invariant |divided| == size
      invariant forall u :: 0 <= u < size ==> divided[u] == if u < v then 1 else 0
    {
      divided := divided[v := divided[v] + 1];
    }
  }
}
