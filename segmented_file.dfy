/** The layout of a file split into segments of numbered data chunks
    (file.go). A file of `fileSize` bytes is cut into `fileSize / chunkSize`
    data chunks, grouped `segmentLength` at a time; a remainder forms a
    shorter final segment. */
module SegmentedFile {

  /** Size units; `KB = 1 << 10`, and each further unit is 1024 times the last. */
  const KB: int := 1024
  const MB: int := 1024 * KB
  const GB: int := 1024 * MB
  const TB: int := 1024 * GB

  /** A chunk address shared by the file layout and the coordinator: the
      flat data-chunk index and the redundancy level (0 for data chunks). */
  datatype Chunk = Chunk(idx: int, r: int)

  datatype Segment = Segment(id: int, dataChunks: seq<Chunk>, parityChunks: seq<seq<Chunk>>)

  datatype Segfile = Segfile(segments: seq<Segment>, numSegments: int, numDataChunks: int, chunkSize: int)

  /** The descriptors this model accepts: positive sizes and a
      non-negative file size. The source itself panics only on a zero
      divisor, a negative segment count or a negative segment length; its
      one caller passes positive values. */
  predicate ValidDescriptor(fileSize: int, segmentLength: int, chunkSize: int)
  {
    fileSize >= 0 && segmentLength > 0 && chunkSize > 0
  }

  /** Number of segments for `numChunks` chunks: whole segments, plus one for a remainder. */
  function SegmentCount(numChunks: nat, segmentLength: nat): nat
    requires segmentLength > 0
  {
    numChunks / segmentLength + if numChunks % segmentLength != 0 then 1 else 0
  }

  /** Length of segment `i`: the remainder for the last segment when there is one. */
  function SegmentLen(numChunks: nat, segmentLength: nat, i: nat): nat
    requires segmentLength > 0
  {
    var r := numChunks % segmentLength;
    if i == SegmentCount(numChunks, segmentLength) - 1 && r != 0 then r else segmentLength
  }

  /** Segment `i` as it is built: id `i`, chunk `j` numbered `i * segmentLength + j`, no parity chunks. */
  function LayoutSegment(numChunks: nat, segmentLength: nat, i: nat): Segment
    requires segmentLength > 0
  {
    Segment(i, seq(SegmentLen(numChunks, segmentLength, i), j => Chunk(i * segmentLength + j, 0)), [])
  }

  /** The segmented file built from a descriptor. */
  function Layout(fileSize: int, segmentLength: int, chunkSize: int): Segfile
    requires ValidDescriptor(fileSize, segmentLength, chunkSize)
  {
    var numChunks := fileSize / chunkSize;
    var numSegments := SegmentCount(numChunks, segmentLength);
    Segfile(seq(numSegments, i requires 0 <= i => LayoutSegment(numChunks, segmentLength, i)), numSegments, numChunks, chunkSize)
  }

  /** Builds the segmented file with nested loops, filling one segment and
      one chunk at a time. */
  method NewSegfile(fileSize: int, segmentLength: int, chunkSize: int) returns (sf: Segfile)
    requires ValidDescriptor(fileSize, segmentLength, chunkSize)
    ensures sf == Layout(fileSize, segmentLength, chunkSize)
  {
    var numChunks := fileSize / chunkSize;
    var numSegments := numChunks / segmentLength;
    var r := numChunks % segmentLength;
    if r != 0 {
      numSegments := numSegments + 1;
    }
    assert numSegments == SegmentCount(numChunks, segmentLength);

    var segments := new Segment[numSegments];
    for i := 0 to numSegments
      invariant forall k :: 0 <= k < i ==> segments[k] == LayoutSegment(numChunks, segmentLength, k)
    {
      var segLen := segmentLength;
      if i == numSegments - 1 && r != 0 {
        segLen := r;
      }
      var chunks := new Chunk[segLen];
      for j := 0 to segLen
        modifies chunks
        invariant forall k :: 0 <= k < j ==> chunks[k] == Chunk(i * segmentLength + k, 0)
      {
        chunks[j] := Chunk(i * segmentLength + j, 0);
      }
      segments[i] := Segment(i, chunks[..], []);
    }
    sf := Segfile(segments[..], numSegments, numChunks, chunkSize);
  }

  /** The ids of a segment's data chunks, in order. */
  function SegmentIds(s: Segment): seq<int>
  {
    seq(|s.dataChunks|, j requires 0 <= j < |s.dataChunks| => s.dataChunks[j].idx)
  }

  /** The ids of all data chunks, segment after segment. */
  function Ids(segs: seq<Segment>): seq<int>
  {
    if segs == [] then [] else Ids(segs[..|segs| - 1]) + SegmentIds(segs[|segs| - 1])
  }

  /** Total number of data chunks over a list of segments. */
  function TotalDataChunks(segs: seq<Segment>): int
  {
    if segs == [] then 0 else TotalDataChunks(segs[..|segs| - 1]) + |segs[|segs| - 1].dataChunks|
  }

  /** The integers `lo, lo + 1, ..., hi - 1`. */
  function Range(lo: int, hi: int): (s: seq<int>)
    requires lo <= hi
    ensures |s| == hi - lo
    ensures forall k :: 0 <= k < |s| ==> s[k] == lo + k
  {
    seq(hi - lo, k => lo + k)
  }

  /** The count fields agree with the descriptor: `numDataChunks` is the
      number of whole chunks in the file, the chunk size is kept, and
      `numSegments` is the least number of segments of `segmentLength`
      chunks that hold them all. */
  lemma LayoutCounts(fileSize: int, segmentLength: int, chunkSize: int)
    requires ValidDescriptor(fileSize, segmentLength, chunkSize)
    ensures var sf := Layout(fileSize, segmentLength, chunkSize);
      && sf.numDataChunks * chunkSize <= fileSize < (sf.numDataChunks + 1) * chunkSize
      && sf.chunkSize == chunkSize
      && |sf.segments| == sf.numSegments
      && (sf.numSegments - 1) * segmentLength < sf.numDataChunks <= sf.numSegments * segmentLength
      && (sf.numSegments == sf.numDataChunks / segmentLength + 1 <==> sf.numDataChunks % segmentLength != 0)
  {
    var n := fileSize / chunkSize;
    var q, r := n / segmentLength, n % segmentLength;
    assert n == q * segmentLength + r;
    assert fileSize == n * chunkSize + fileSize % chunkSize;
  }

  /** Every segment but the last holds `segmentLength` chunks; the last
      holds the remainder when there is one and a full segment otherwise;
      segment `i` has id `i` and no parity chunks. */
  lemma SegmentSizes(fileSize: int, segmentLength: int, chunkSize: int, i: int)
    requires ValidDescriptor(fileSize, segmentLength, chunkSize)
    requires 0 <= i < Layout(fileSize, segmentLength, chunkSize).numSegments
    ensures var sf := Layout(fileSize, segmentLength, chunkSize);
      && sf.segments[i].id == i
      && sf.segments[i].parityChunks == []
      && 0 < |sf.segments[i].dataChunks| <= segmentLength
      && (i < sf.numSegments - 1 ==> |sf.segments[i].dataChunks| == segmentLength)
      && (i == sf.numSegments - 1 ==>
            |sf.segments[i].dataChunks| == if sf.numDataChunks % segmentLength != 0
                                           then sf.numDataChunks % segmentLength else segmentLength)
  {
  }

  /** Segment `i` ends where segment `i + 1` would start, or at the end
      of the file for a shorter last segment. */
  lemma SegmentEnd(numChunks: nat, segmentLength: nat, i: nat)
    requires segmentLength > 0
    requires i < SegmentCount(numChunks, segmentLength)
    ensures i * segmentLength + SegmentLen(numChunks, segmentLength, i)
            == if (i + 1) * segmentLength <= numChunks then (i + 1) * segmentLength else numChunks
  {
    var q, r := numChunks / segmentLength, numChunks % segmentLength;
    assert numChunks == q * segmentLength + r;
    assert (i + 1) * segmentLength == i * segmentLength + segmentLength;
    if i < q {
      assert (i + 1) * segmentLength <= q * segmentLength;
    } else {
      assert i == q && r != 0;
    }
  }

  /** The first `k` segments hold the chunks numbered `0 .. k * segmentLength`,
      cut off at the number of chunks. */
  lemma {:induction false} IdsPrefix(numChunks: nat, segmentLength: nat, k: nat)
    requires segmentLength > 0
    requires k <= SegmentCount(numChunks, segmentLength)
    ensures var segs := seq(SegmentCount(numChunks, segmentLength), i requires 0 <= i => LayoutSegment(numChunks, segmentLength, i));
      Ids(segs[..k]) == Range(0, if k * segmentLength <= numChunks then k * segmentLength else numChunks)
  {
    var count := SegmentCount(numChunks, segmentLength);
    var segs := seq(count, i requires 0 <= i => LayoutSegment(numChunks, segmentLength, i));
    if k == 0 {
      assert segs[..0] == [];
    } else {
      IdsPrefix(numChunks, segmentLength, k - 1);
      SegmentEnd(numChunks, segmentLength, k - 1);
      assert segs[..k][..k - 1] == segs[..k - 1];
      var last := LayoutSegment(numChunks, segmentLength, k - 1);
      assert segs[..k][k - 1] == last;
      var lo := (k - 1) * segmentLength;
      var hi := lo + SegmentLen(numChunks, segmentLength, k - 1);
      assert k * segmentLength == lo + segmentLength;
      assert lo <= numChunks;
      assert SegmentIds(last) == Range(lo, hi);
      assert Range(0, lo) + Range(lo, hi) == Range(0, hi);
    }
  }

  /** Read segment by segment, the chunk ids are exactly `0 .. numDataChunks - 1`,
      each once and in order. */
  lemma IdsAreAllChunks(fileSize: int, segmentLength: int, chunkSize: int)
    requires ValidDescriptor(fileSize, segmentLength, chunkSize)
    ensures var sf := Layout(fileSize, segmentLength, chunkSize);
      Ids(sf.segments) == Range(0, sf.numDataChunks)
  {
    var n := fileSize / chunkSize;
    var count := SegmentCount(n, segmentLength);
    var segs := seq(count, i requires 0 <= i => LayoutSegment(n, segmentLength, i));
    IdsPrefix(n, segmentLength, count);
    assert segs[..count] == segs;
    var q, r := n / segmentLength, n % segmentLength;
    assert n == q * segmentLength + r;
    assert n <= count * segmentLength by {
      if r != 0 {
        assert count * segmentLength == q * segmentLength + segmentLength;
      }
    }
  }

  /** Each segment contributes its chunk count to the id list. */
  lemma {:induction false} IdsLength(segs: seq<Segment>)
    ensures |Ids(segs)| == TotalDataChunks(segs)
  {
    if segs != [] {
      IdsLength(segs[..|segs| - 1]);
    }
  }

  /** The per-segment chunk counts add up to `numDataChunks`. */
  lemma SegmentSizesSum(fileSize: int, segmentLength: int, chunkSize: int)
    requires ValidDescriptor(fileSize, segmentLength, chunkSize)
    ensures var sf := Layout(fileSize, segmentLength, chunkSize);
      TotalDataChunks(sf.segments) == sf.numDataChunks
  {
    var sf := Layout(fileSize, segmentLength, chunkSize);
    IdsAreAllChunks(fileSize, segmentLength, chunkSize);
    IdsLength(sf.segments);
  }

  /** The simulator's own file: 12 MB in 512 KB chunks, 10 chunks per
      segment, gives 24 chunks in three segments of 10, 10 and 4. */
  lemma ExampleFile()
    ensures var sf := Layout(12 * MB, 10, 512 * KB);
      && sf.numDataChunks == 24
      && sf.numSegments == 3
      && |sf.segments[0].dataChunks| == 10
      && |sf.segments[1].dataChunks| == 10
      && |sf.segments[2].dataChunks| == 4
  {
    assert 12 * MB == 24 * (512 * KB);
  }
}
