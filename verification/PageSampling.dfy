/** Random sampling: which pages a chosen set of blocks leads to. */
module PageSampling {
  import opened Arithmetic
  import opened ImageFiles
  import opened Pages
  import opened Phase1
  import opened PageRuns

  /** The number of blocks, a last partial one included. */
  function MaxBlocks(size: nat, pagesize: nat): nat
    requires pagesize > 0
  {
    (size + pagesize - 1) / pagesize
  }

  /** The offsets at which pages are read. */
  function SampleOffsets(size: nat, pagesize: nat, offset: nat, blocks: seq<nat>): seq<nat>
    requires pagesize > 0
    decreases |blocks|
  {
    if offset == size || blocks == [] then []
    else
      var at := BlockOffset(size, pagesize, blocks[0]);
      if at == size then [] else [at] + SampleOffsets(size, pagesize, NextOffset(size, pagesize, at), blocks[1..])
  }

  predicate Unfiltered(env: Env) {
    env.pagesize > 0 && env.config == Config(0, 0, 0, {})
  }

  lemma BlockInside(size: nat, pagesize: nat, block: nat)
    requires pagesize > 0
    ensures BlockOffset(size, pagesize, block) <= size
    ensures BlockOffset(size, pagesize, block) < size ==>
              NextOffset(size, pagesize, BlockOffset(size, pagesize, block)) > BlockOffset(size, pagesize, block)
  {}

  /** A sampling run schedules, in order, exactly the sampled offsets it reaches and can read. */
  lemma {:induction false} SampledRun(env: Env, p: Progress, offset: nat, blocks: seq<nat>)
    requires Unfiltered(env) && offset <= |env.image|
    ensures var r := Run(env, p, Sampled(offset, blocks));
      Positions(r.scheduled)
      == Positions(p.scheduled) + Kept(env, Reached(env, SampleOffsets(|env.image|, env.pagesize, offset, blocks)))
    decreases |blocks|
  {
    hide Run, ReadPage, Visit, Positions, Kept, Exhausted, Scans, BlockOffset;
    RunOnce(env, p, Sampled(offset, blocks));
    NothingKept(env);
    var size := |env.image|;
    if offset < size && blocks != [] {
      var at := BlockOffset(size, env.pagesize, blocks[0]);
      BlockInside(size, env.pagesize, blocks[0]);
      if at == size {
        EndReached(env);
      } else {
        var rest := SampleOffsets(size, env.pagesize, NextOffset(size, env.pagesize, at), blocks[1..]);
        assert ([at] + rest)[1..] == rest;
        if !Exhausted(env, at) {
          VisitScheduled(env, p, at);
          SampledRun(env, Visit(env, p, at), NextOffset(size, env.pagesize, at), blocks[1..]);
          KeptFirst(env, at, Reached(env, rest));
        }
      }
    }
  }

  lemma EndReached(env: Env)
    requires Unfiltered(env)
    ensures Exhausted(env, |env.image|)
  {
    assert ReadAt(env.image, |env.image|, env.pagesize + env.margin) == [];
  }

  lemma MulMonotonic(a: nat, b: nat, p: nat)
    requires a < b
    ensures a * p + p <= b * p
  {
    Apart(p, a, b);
  }

  /** A block beyond the image is at the start of the last page or at the end. */
  lemma LastBlock(size: nat, pagesize: nat, block: nat, k: nat)
    requires pagesize > 0 && block * pagesize > size && k * pagesize <= size
    ensures k * pagesize <= BlockOffset(size, pagesize, block) <= size
    ensures NextOffset(size, pagesize, BlockOffset(size, pagesize, block)) == size
  {
    var q, r := size / pagesize, size % pagesize;
    assert size == q * pagesize + r;
    if k > q {
      MulMonotonic(q, k, pagesize);
    } else if k < q {
      MulMonotonic(k, q, pagesize);
    }
  }

  /** The sampled offsets ascend from `offset` on: no page is read twice. */
  lemma {:induction false} SamplesAscend(size: nat, pagesize: nat, offset: nat, blocks: seq<nat>, k: nat)
    requires pagesize > 0 && Ascending(blocks) && offset <= size
    requires offset < size ==> offset == k * pagesize && forall i :: 0 <= i < |blocks| ==> k <= blocks[i]
    ensures var s := SampleOffsets(size, pagesize, offset, blocks);
      Ascending(s) && forall i :: 0 <= i < |s| ==> offset <= s[i] < size
    decreases |blocks|
  {
    hide BlockOffset, NextOffset;
    if offset < size && blocks != [] {
      var b := blocks[0];
      var at := BlockOffset(size, pagesize, b);
      SampleStep(size, pagesize, offset, b, k);
      if at < size {
        var next := NextOffset(size, pagesize, at);
        SamplesAscend(size, pagesize, next, blocks[1..], b + 1);
        var rest := SampleOffsets(size, pagesize, next, blocks[1..]);
        assert forall i :: 0 <= i < |rest| ==> at < rest[i];
      }
    }
  }

  /** One block on: its page is not before the offset reached, and the next offset is a multiple of the page size. */
  lemma SampleStep(size: nat, pagesize: nat, offset: nat, b: nat, k: nat)
    requires pagesize > 0 && offset < size && offset == k * pagesize && k <= b
    ensures var at := BlockOffset(size, pagesize, b);
      && offset <= at <= size
      && (at < size ==> var next := NextOffset(size, pagesize, at);
            at < next <= size && (next < size ==> next == (b + 1) * pagesize))
  {
    BlockInside(size, pagesize, b);
    if b * pagesize > size {
      LastBlock(size, pagesize, b, k);
    } else if k < b {
      MulMonotonic(k, b, pagesize);
    }
    assert (b + 1) * pagesize == b * pagesize + pagesize;
  }

  /** Every chosen block that lies in the image is read. */
  lemma {:induction false} SamplesCover(size: nat, pagesize: nat, offset: nat, blocks: seq<nat>, i: nat)
    requires pagesize > 0 && Ascending(blocks) && offset <= size
    requires i < |blocks| && offset <= blocks[i] * pagesize < size
    ensures blocks[i] * pagesize in SampleOffsets(size, pagesize, offset, blocks)
    decreases |blocks|
  {
    var b := blocks[0];
    BlockInside(size, pagesize, b);
    if i > 0 {
      MulMonotonic(b, blocks[i], pagesize);
      assert BlockOffset(size, pagesize, b) == b * pagesize;
      SamplesCover(size, pagesize, NextOffset(size, pagesize, b * pagesize), blocks[1..], i - 1);
    }
  }

  /** What is read is a chosen block, or the last page in place of a block beyond it. */
  lemma {:induction false} SamplesChosen(size: nat, pagesize: nat, offset: nat, blocks: seq<nat>, o: nat)
    requires pagesize > 0 && offset <= size && o in SampleOffsets(size, pagesize, offset, blocks)
    ensures exists i :: 0 <= i < |blocks| && o == BlockOffset(size, pagesize, blocks[i])
    decreases |blocks|
  {
    var at := BlockOffset(size, pagesize, blocks[0]);
    BlockInside(size, pagesize, blocks[0]);
    if o != at {
      SamplesChosen(size, pagesize, NextOffset(size, pagesize, at), blocks[1..], o);
      var i :| 0 <= i < |blocks[1..]| && o == BlockOffset(size, pagesize, blocks[1..][i]);
      assert blocks[i + 1] == blocks[1..][i];
    }
  }

  /** Below the block count, a block starts inside the image. */
  lemma BlockBelowMax(size: nat, pagesize: nat, block: nat)
    requires pagesize > 0
    ensures block < MaxBlocks(size, pagesize) <==> block * pagesize < size
  {
    var n := MaxBlocks(size, pagesize);
    var total := size + pagesize - 1;
    assert total == n * pagesize + total % pagesize;
    if block < n {
      MulMonotonic(block, n, pagesize);
    } else if block > n {
      MulMonotonic(n, block, pagesize);
    }
  }

  /** The block lies in the image, so that its own page is read. */
  predicate InImage(env: Env, block: nat) { env.pagesize > 0 && block < MaxBlocks(|env.image|, env.pagesize) }

  predicate Readable(env: Env, block: nat) { ReadPage(env, block * env.pagesize).Page? }

  /** For any ascending choice of blocks, the upper bound included, and any read errors: no page is scanned
      twice, nothing is scanned but chosen blocks and the last page for a block beyond the image, and every
      chosen block of the image is scanned if and only if each can be read. */
  lemma SamplingIsExact(env: Env, blocks: seq<nat>)
    requires Unfiltered(env) && Ascending(blocks)
    ensures var scanned := Positions(Run(env, Begin(true), Sampled(0, blocks)).scheduled);
      && Ascending(scanned)
      && (forall o :: o in scanned ==>
            exists i :: 0 <= i < |blocks| && o == BlockOffset(|env.image|, env.pagesize, blocks[i]))
      && ((forall i :: 0 <= i < |blocks| && InImage(env, blocks[i]) ==> blocks[i] * env.pagesize in scanned)
          <==> forall i :: 0 <= i < |blocks| && InImage(env, blocks[i]) ==> Readable(env, blocks[i]))
  {
    hide Run, SampleOffsets, BlockOffset, Ascending, Kept, Reached, InImage, Readable, ReadPage;
    SampledRun(env, Begin(true), 0, blocks);
    var s := SampleOffsets(|env.image|, env.pagesize, 0, blocks);
    var scanned := Kept(env, Reached(env, s));
    assert Positions([]) == [] && [] + scanned == scanned;
    SamplesAscend(|env.image|, env.pagesize, 0, blocks, 0);
    ReachedAscends(env, s);
    KeptAscends(env, Reached(env, s));
    forall o | o in scanned
      ensures o in s && Scans(env, o)
      ensures exists i :: 0 <= i < |blocks| && o == BlockOffset(|env.image|, env.pagesize, blocks[i])
    {
      KeptIn(env, Reached(env, s), o);
      SamplesChosen(|env.image|, env.pagesize, 0, blocks, o);
    }
    if forall i :: 0 <= i < |blocks| && InImage(env, blocks[i]) ==> Readable(env, blocks[i]) {
      forall i | 0 <= i < |blocks| && InImage(env, blocks[i]) ensures blocks[i] * env.pagesize in scanned {
        ReadableScanned(env, blocks, i);
      }
    }
    forall i | 0 <= i < |blocks| && InImage(env, blocks[i]) && blocks[i] * env.pagesize in scanned
      ensures Readable(env, blocks[i])
    {
      ScanIsReadable(env, blocks[i]);
    }
  }

  lemma ScanIsReadable(env: Env, block: nat)
    requires Scans(env, block * env.pagesize)
    ensures Readable(env, block)
  {}

  /** If every chosen block of the image can be read, the reader gets to each of them. */
  lemma ReadableScanned(env: Env, blocks: seq<nat>, i: nat)
    requires Unfiltered(env) && Ascending(blocks) && i < |blocks| && InImage(env, blocks[i])
    requires forall k :: 0 <= k < |blocks| && InImage(env, blocks[k]) ==> Readable(env, blocks[k])
    ensures blocks[i] * env.pagesize
         in Kept(env, Reached(env, SampleOffsets(|env.image|, env.pagesize, 0, blocks)))
  {
    var size, o := |env.image|, blocks[i] * env.pagesize;
    var s := SampleOffsets(size, env.pagesize, 0, blocks);
    BlockBelowMax(size, env.pagesize, blocks[i]);
    SamplesCover(size, env.pagesize, 0, blocks, i);
    SamplesAscend(size, env.pagesize, 0, blocks, 0);
    hide SampleOffsets, BlockOffset, ReadPage, Kept, Reached, MaxBlocks;
    var j :| 0 <= j < |s| && s[j] == o;
    forall k | 0 <= k <= j ensures !Exhausted(env, s[k]) {
      SamplesChosen(size, env.pagesize, 0, blocks, s[k]);
      var m :| 0 <= m < |blocks| && s[k] == BlockOffset(size, env.pagesize, blocks[m]);
      EarlierIsChosen(size, env.pagesize, blocks[i], blocks[m]);
      BlockBelowMax(size, env.pagesize, blocks[m]);
    }
    ReachedHas(env, s, j);
    KeptIn(env, Reached(env, s), o);
    assert Wanted(env, o) && Readable(env, blocks[i]);
  }

  /** No replacement for a block beyond the image comes before a block in it. */
  lemma EarlierIsChosen(size: nat, pagesize: nat, block: nat, other: nat)
    requires pagesize > 0 && block * pagesize < size && BlockOffset(size, pagesize, other) <= block * pagesize
    ensures other * pagesize < size || block * pagesize == BlockOffset(size, pagesize, other)
    ensures other * pagesize < size ==> BlockOffset(size, pagesize, other) == other * pagesize
  {
    var q := size / pagesize;
    assert size == q * pagesize + size % pagesize;
    if block > q {
      MulMonotonic(q, block, pagesize);
    } else if block < q {
      MulMonotonic(block, q, pagesize);
    }
  }
}
