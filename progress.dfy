/** The progress callback as an observer: one report per chunk, carrying the
    running byte count and the declared total. The speed argument (floating
    point) is not modelled. */
module Progress {
  import opened Bytes

  datatype Report = Report(transferred: nat, total: int)

  /** The reports made after each of `chunks`, in order. */
  function Reports(chunks: seq<seq<Byte>>, total: int): (rs: seq<Report>)
    ensures |rs| == |chunks|
    ensures forall j :: 0 <= j < |rs| ==> rs[j].total == total
    decreases |chunks|
  {
    if chunks == [] then []
    else Reports(chunks[..|chunks| - 1], total) + [Report(|Flatten(chunks)|, total)]
  }

  /** Report `j` counts exactly the bytes of the first `j + 1` chunks. */
  lemma {:induction false} ReportsAt(chunks: seq<seq<Byte>>, total: int, j: nat)
    requires j < |chunks|
    ensures Reports(chunks, total)[j] == Report(|Flatten(chunks[..j + 1])|, total)
    decreases |chunks|
  {
    if j < |chunks| - 1 {
      var init := chunks[..|chunks| - 1];
      ReportsAt(init, total, j);
      assert init[..j + 1] == chunks[..j + 1];
    } else {
      assert chunks[..j + 1] == chunks;
    }
  }

  /** Consecutive reports grow by the size of the chunk between them. */
  lemma ReportsStep(chunks: seq<seq<Byte>>, total: int, j: nat)
    requires j + 1 < |chunks|
    ensures Reports(chunks, total)[j + 1].transferred ==
            Reports(chunks, total)[j].transferred + |chunks[j + 1]|
  {
    ReportsAt(chunks, total, j);
    ReportsAt(chunks, total, j + 1);
    assert chunks[..j + 2] == chunks[..j + 1] + [chunks[j + 1]];
    FlattenSnoc(chunks[..j + 1], chunks[j + 1]);
  }

  /** One more chunk adds one report, counting every byte so far. */
  lemma ReportsSnoc(chunks: seq<seq<Byte>>, d: seq<Byte>, total: int)
    ensures Reports(chunks + [d], total) == Reports(chunks, total) + [Report(|Flatten(chunks)| + |d|, total)]
  {
    assert (chunks + [d])[..|chunks|] == chunks;
    FlattenSnoc(chunks, d);
  }
}
