/**
 * Block-parallel application of a per-variant kernel (`da.map_blocks` in
 * sgkit/stats/popgen.py). A kernel sees one variant's input and nothing else,
 * so applying it chunk by chunk and concatenating the chunk results gives the
 * same tensor whatever the chunking.
 */
module Blocks {

  /** Apply `kernel` to every variant row, keeping the variant order. */
  function MapRows<A, B>(kernel: A --> B, rows: seq<A>): (out: seq<B>)
    requires forall v :: 0 <= v < |rows| ==> kernel.requires(rows[v])
    ensures |out| == |rows|
    ensures forall v :: 0 <= v < |rows| ==> out[v] == kernel(rows[v])
  {
    if rows == [] then [] else MapRows(kernel, rows[..|rows| - 1]) + [kernel(rows[|rows| - 1])]
  }

  /** Concatenation of chunks along the variant axis. */
  function Concat<A>(chunks: seq<seq<A>>): (rows: seq<A>)
  {
    if chunks == [] then [] else Concat(chunks[..|chunks| - 1]) + chunks[|chunks| - 1]
  }

  /** The chunk-by-chunk evaluation: each chunk mapped on its own, results concatenated. */
  function MapChunks<A, B>(kernel: A --> B, chunks: seq<seq<A>>): (out: seq<seq<B>>)
    requires forall c, v :: 0 <= c < |chunks| && 0 <= v < |chunks[c]| ==> kernel.requires(chunks[c][v])
    ensures |out| == |chunks|
    ensures forall c :: 0 <= c < |chunks| ==> |out[c]| == |chunks[c]|
  {
    if chunks == [] then []
    else MapChunks(kernel, chunks[..|chunks| - 1]) + [MapRows(kernel, chunks[|chunks| - 1])]
  }

  lemma {:induction false} MapRowsConcat<A, B>(kernel: A --> B, xs: seq<A>, ys: seq<A>)
    requires forall v :: 0 <= v < |xs| ==> kernel.requires(xs[v])
    requires forall v :: 0 <= v < |ys| ==> kernel.requires(ys[v])
    ensures MapRows(kernel, xs + ys) == MapRows(kernel, xs) + MapRows(kernel, ys)
  {
    var zs := xs + ys;
    assert forall v :: 0 <= v < |zs| ==> kernel.requires(zs[v]);
    var l, r := MapRows(kernel, zs), MapRows(kernel, xs) + MapRows(kernel, ys);
    assert |l| == |r|;
    forall v | 0 <= v < |zs| ensures l[v] == r[v] {
      if v < |xs| { assert zs[v] == xs[v]; } else { assert zs[v] == ys[v - |xs|]; }
    }
  }

  /** Chunk-size independence: the chunked evaluation equals the kernel mapped over all variants. */
  lemma {:induction false} ChunkingIsInvisible<A, B>(kernel: A --> B, chunks: seq<seq<A>>)
    requires forall c, v :: 0 <= c < |chunks| && 0 <= v < |chunks[c]| ==> kernel.requires(chunks[c][v])
    ensures forall v :: 0 <= v < |Concat(chunks)| ==> kernel.requires(Concat(chunks)[v])
    ensures Concat(MapChunks(kernel, chunks)) == MapRows(kernel, Concat(chunks))
  {
    if chunks != [] {
      var init, last := chunks[..|chunks| - 1], chunks[|chunks| - 1];
      ChunkingIsInvisible(kernel, init);
      assert MapChunks(kernel, chunks)[..|chunks| - 1] == MapChunks(kernel, init);
      MapRowsConcat(kernel, Concat(init), last);
    }
  }
}
