/**
 * The bookkeeping of src/gpu.c that does not depend on Vulkan: choosing a
 * memory type, rotating the swap-chain frame index, the per-layout element
 * sizes, the counts a mesh records, and what bind and draw put into a
 * command buffer. Vulkan calls are modelled by the commands they record.
 */
module Gpu {
  import opened CInt

  // ----- Memory type selection -----

  /** VK_MAX_MEMORY_TYPES. */
  const MaxMemoryTypes: nat := 32

  /** Memory type x is allowed by `bits` and has every requested property flag. */
  predicate Qualifies(typeFlags: seq<bv32>, bits: bv32, flags: bv32, x: nat)
    requires x < |typeFlags| <= MaxMemoryTypes
  {
    bits & ((1 as bv32) << x) != 0 && typeFlags[x] & flags == flags
  }

  /**
   * gpuGetMemoryTypeIndex: the first qualifying memory type, or 0 when none
   * qualifies. `typeFlags` are the propertyFlags of the device's memory types.
   */
  method GetMemoryTypeIndex(typeFlags: seq<bv32>, bits: bv32, flags: bv32) returns (r: nat)
    requires |typeFlags| <= MaxMemoryTypes
    ensures (exists y :: 0 <= y < |typeFlags| && Qualifies(typeFlags, bits, flags, y)) ==>
              r < |typeFlags| && Qualifies(typeFlags, bits, flags, r)
              && forall y :: 0 <= y < r ==> !Qualifies(typeFlags, bits, flags, y)
    ensures (forall y :: 0 <= y < |typeFlags| ==> !Qualifies(typeFlags, bits, flags, y)) ==> r == 0
  {
    var x := 0;
    while x < |typeFlags|
      invariant 0 <= x <= |typeFlags|
      invariant forall y :: 0 <= y < x ==> !Qualifies(typeFlags, bits, flags, y)
    {
      if bits & ((1 as bv32) << x) != 0 && typeFlags[x] & flags == flags {
        assert Qualifies(typeFlags, bits, flags, x);
        return x;
      }
      x := x + 1;
    }
    return 0;
  }

  // ----- Frame rotation -----

  /** The frame after `frameIdx` in a swap chain of `frameCount` images. */
  function NextFrame(frameIdx: nat, frameCount: nat): (r: nat)
    requires frameCount > 0
    ensures r < frameCount
    ensures frameIdx < frameCount - 1 ==> r == frameIdx + 1
    ensures frameIdx == frameCount - 1 ==> r == 0
  {
    (frameIdx + 1) % frameCount
  }

  function AdvanceFrames(frameIdx: nat, frameCount: nat, k: nat): nat
    requires frameCount > 0
  {
    if k == 0 then frameIdx else NextFrame(AdvanceFrames(frameIdx, frameCount, k - 1), frameCount)
  }

  /** After k frames the index has moved k places round the swap chain. */
  lemma {:induction false} AdvanceFramesIsModular(frameIdx: nat, frameCount: nat, k: nat)
    requires frameCount > 0 && frameIdx < frameCount
    ensures AdvanceFrames(frameIdx, frameCount, k) == (frameIdx + k) % frameCount
  {
    if k > 0 {
      AdvanceFramesIsModular(frameIdx, frameCount, k - 1);
      ModSucc(frameIdx + k - 1, frameCount);
    } else {
      DivModUnique(frameIdx, frameCount, 0, frameIdx);
    }
  }

  /** The swap chain's frame cursor. */
  class FrameRing {
    var frameIdx: nat
    const frameCount: nat

    ghost predicate Valid()
      reads this
    {
      0 < frameCount && frameIdx < frameCount
    }

    constructor Create(frameCount: nat)
      requires frameCount > 0
      ensures Valid() && frameIdx == 0 && this.frameCount == frameCount
    {
      this.frameCount := frameCount;
      frameIdx := 0;
    }

    /** gpuEndFrameUpdate: ends the current frame, returning its index, and moves to the next. */
    method EndFrameUpdate() returns (ended: nat)
      requires Valid()
      modifies this
      ensures Valid()
      ensures ended == old(frameIdx)
      ensures frameIdx == NextFrame(old(frameIdx), frameCount)
    {
      ended := frameIdx;
      frameIdx := (frameIdx + 1) % frameCount;
    }
  }

  // ----- Mesh layouts and counts -----

  datatype Layout = TriP444I2 | TriP444C444I2

  /** mesh_vtx_size: the byte size of one vertex. */
  function VertexSize(l: Layout): nat
  {
    match l
    case TriP444I2 => 12
    case TriP444C444I2 => 24
  }

  /** mesh_idx_size: the byte size of one index. */
  function IndexSize(l: Layout): nat
  {
    2
  }

  /** One vertex attribute of a layout: its byte offset and its byte size. */
  datatype Attribute = Attribute(offset: nat, size: nat)

  /** VK_FORMAT_R32G32B32_SFLOAT: three 4-byte floats. */
  const Float3Size: nat := 12

  /** The vertex binding stride the pipeline is told about. */
  function Stride(l: Layout): nat
  {
    match l
    case TriP444I2 => 12
    case TriP444C444I2 => 24
  }

  /** The vertex attributes: a position, plus a colour in the second layout. */
  function Attributes(l: Layout): seq<Attribute>
  {
    match l
    case TriP444I2 => [Attribute(0, Float3Size)]
    case TriP444C444I2 => [Attribute(0, Float3Size), Attribute(12, Float3Size)]
  }

  datatype IndexType = Uint16 | Uint32

  /** mesh_idx_type. */
  function IndexTypeOf(l: Layout): IndexType
  {
    Uint16
  }

  function IndexTypeSize(t: IndexType): nat
  {
    match t
    case Uint16 => 2
    case Uint32 => 4
  }

  /**
   * The layout tables describe each layout several times over; they agree:
   * the attributes are packed back to back from offset 0 and fill exactly
   * one stride, the stride is the vertex size used to count vertices, and
   * the index size is the width of the index type used to draw.
   */
  lemma LayoutTablesAgree(l: Layout)
    ensures |Attributes(l)| >= 1 && Attributes(l)[0].offset == 0
    ensures forall i :: 0 < i < |Attributes(l)| ==>
      Attributes(l)[i].offset == Attributes(l)[i - 1].offset + Attributes(l)[i - 1].size
    ensures Attributes(l)[|Attributes(l)| - 1].offset + Attributes(l)[|Attributes(l)| - 1].size == Stride(l)
    ensures VertexSize(l) == Stride(l)
    ensures IndexSize(l) == IndexTypeSize(IndexTypeOf(l))
  {
  }

  /**
   * C's int division, truncating toward zero: the quotient is the whole
   * number of divisors in the dividend, rounded toward zero from either side.
   */
  function CDiv(a: int, b: int): (r: int)
    requires b > 0
    ensures a >= 0 ==> 0 <= r && r * b <= a < (r + 1) * b
    ensures a < 0 ==> r <= 0 && (r - 1) * b < a <= r * b
  {
    CDivBounds(a, b);
    if a >= 0 then a / b else -((-a) / b)
  }

  lemma CDivBounds(a: int, b: int)
    requires b > 0
    ensures a >= 0 ==> 0 <= a / b && (a / b) * b <= a < (a / b + 1) * b
    ensures a < 0 ==> -((-a) / b) <= 0 && (-((-a) / b) - 1) * b < a <= -((-a) / b) * b
  {
    var n := if a >= 0 then a else -a;
    var q := n / b;
    DivModSplit(n, b);
    QuotientBounds(n, b, q, n % b);
    if a < 0 {
      MulNegate(q, b);
      MulNegate(q + 1, b);
      assert -q - 1 == -(q + 1);
    }
  }

  /** A quotient and remainder of a non-negative n bracket n between two multiples of b. */
  lemma QuotientBounds(n: int, b: int, q: int, m: int)
    requires b > 0 && n >= 0 && 0 <= m < b && n == q * b + m
    ensures q >= 0 && q * b <= n < (q + 1) * b
  {
    assert (q + 1) * b == q * b + b;
    if q < 0 {
      MulNonPositive(q + 1, b);
    }
  }

  lemma MulNegate(x: int, b: int)
    ensures (-x) * b == -(x * b)
  {
  }

  /** (int) data_size / element_size: the size is cast to int first. */
  function ElementCount(dataSize: nat, elementSize: nat): int
    requires elementSize > 0
  {
    CDiv(Wrap32(dataSize), elementSize)
  }

  /** Below 2^31 bytes the count is the number of whole elements in the data. */
  lemma ElementCountIsWholeElements(dataSize: nat, elementSize: nat)
    requires elementSize > 0 && dataSize <= INT32_MAX
    ensures 0 <= ElementCount(dataSize, elementSize)
    ensures ElementCount(dataSize, elementSize) * elementSize <= dataSize
    ensures dataSize < (ElementCount(dataSize, elementSize) + 1) * elementSize
  {
    DivModSplit(dataSize, elementSize);
  }

  /** From 2^31 bytes on the cast wraps and the count comes out negative. */
  lemma ElementCountWrapsNegative()
    ensures ElementCount(0x8000_0000, 2) == -0x4000_0000
  {
    assert Wrap32(0x8000_0000) == -0x8000_0000;
  }

  /** What gpuCreateMesh records about a mesh: its vertex and index counts. */
  datatype Mesh = Mesh(vtxCount: int, idxCount: int)

  function CreateMeshCounts(l: Layout, vtxDataSize: nat, idxDataSize: nat): (m: Mesh)
    ensures m.vtxCount == ElementCount(vtxDataSize, VertexSize(l))
    ensures m.idxCount == ElementCount(idxDataSize, IndexSize(l))
  {
    Mesh(ElementCount(vtxDataSize, VertexSize(l)), ElementCount(idxDataSize, IndexSize(l)))
  }

  // ----- Command buffer -----

  /** The commands recorded into a command buffer. */
  datatype Recorded = BindVertexBuffer | BindIndexBuffer | DrawIndexed(indices: int) | Draw(vertices: int)

  datatype Counts = Counts(vtxCount: int, idxCount: int)

  /** gpuCommandBindMesh: positive counts are bound and copied, the others become 0. */
  function BindStep(m: Mesh): (r: (Counts, seq<Recorded>))
    ensures m.vtxCount > 0 ==> r.0.vtxCount == m.vtxCount
    ensures m.vtxCount <= 0 ==> r.0.vtxCount == 0
    ensures m.idxCount > 0 ==> r.0.idxCount == m.idxCount
    ensures m.idxCount <= 0 ==> r.0.idxCount == 0
    ensures BindVertexBuffer in r.1 <==> m.vtxCount > 0
    ensures BindIndexBuffer in r.1 <==> m.idxCount > 0
    ensures |r.1| == (if m.vtxCount > 0 then 1 else 0) + (if m.idxCount > 0 then 1 else 0)
    ensures forall i, j :: 0 <= i < j < |r.1| ==> r.1[i] == BindVertexBuffer && r.1[j] == BindIndexBuffer
  {
    var vtx := if m.vtxCount > 0 then ([BindVertexBuffer], m.vtxCount) else ([], 0);
    var idx := if m.idxCount > 0 then ([BindIndexBuffer], m.idxCount) else ([], 0);
    (Counts(vtx.1, idx.1), vtx.0 + idx.0)
  }

  /** gpuCommandDraw: indexed when there are indices, plain otherwise. */
  function DrawStep(c: Counts): (r: Recorded)
    ensures c.idxCount != 0 <==> r.DrawIndexed?
    ensures r.DrawIndexed? ==> r.indices == c.idxCount
    ensures r.Draw? ==> r.vertices == c.vtxCount
  {
    if c.idxCount != 0 then DrawIndexed(c.idxCount) else Draw(c.vtxCount)
  }

  /**
   * Binding a mesh and drawing draws the mesh's indices when it has any,
   * otherwise its vertices, and never a negative count.
   */
  lemma BindThenDraw(m: Mesh)
    ensures m.idxCount > 0 ==> DrawStep(BindStep(m).0) == DrawIndexed(m.idxCount)
    ensures m.idxCount <= 0 && m.vtxCount > 0 ==> DrawStep(BindStep(m).0) == Draw(m.vtxCount)
    ensures m.idxCount <= 0 && m.vtxCount <= 0 ==> DrawStep(BindStep(m).0) == Draw(0)
  {
  }

  class CommandBuffer {
    var vtxCount: int
    var idxCount: int
    var recorded: seq<Recorded>

    constructor Create()
      ensures vtxCount == 0 && idxCount == 0 && recorded == []
    {
      vtxCount := 0;
      idxCount := 0;
      recorded := [];
    }

    /** gpuCommandBindMesh. */
    method BindMesh(m: Mesh)
      modifies this
      ensures Counts(vtxCount, idxCount) == BindStep(m).0
      ensures recorded == old(recorded) + BindStep(m).1
    {
      if m.vtxCount > 0 {
        recorded := recorded + [BindVertexBuffer];
        vtxCount := m.vtxCount;
      } else {
        vtxCount := 0;
      }
      if m.idxCount > 0 {
        recorded := recorded + [BindIndexBuffer];
        idxCount := m.idxCount;
      } else {
        idxCount := 0;
      }
    }

    /** gpuCommandDraw. */
    method DrawCommand()
      modifies this
      ensures vtxCount == old(vtxCount) && idxCount == old(idxCount)
      ensures recorded == old(recorded) + [DrawStep(Counts(vtxCount, idxCount))]
    {
      if idxCount != 0 {
        recorded := recorded + [DrawIndexed(idxCount)];
      } else {
        recorded := recorded + [Draw(vtxCount)];
      }
    }
  }
}
