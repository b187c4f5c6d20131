/** ClientServerExecutor: how the task list is cut into blocks of `chunk`
    consecutive tasks dealt round-robin to the MPI processes. */
module TaskBlocks {
  import opened Wrappers
  import opened IntArith

  /** A run of `size` consecutive tasks starting at task `orig`; `status`
      counts the tasks already done. */
  datatype TaskBlock = TaskBlock(orig: nat, size: nat, status: nat)
  {
    /** GetTaskUnit: the task index of the idx-th task of the block. */
    function GetTaskUnit(idx: nat): nat { orig + idx }

    predicate IsFinished() { status >= size }
  }

  const DefaultBlock: TaskBlock := TaskBlock(0, 0, 0)

  /** The executor parameters: chunk comes from TaskExecutorBase (default 1,
      -1 meaning "compute it"), the rest from SetAdditionalParameters. */
  datatype Executor = Executor(chunk: int, mpiRank: int, nbMpiProcess: int, nbOpenmpProcess: int)

  /** The constructor: chunk 1, rank 0, one MPI process, one OpenMP thread. */
  const NewExecutor: Executor := Executor(1, 0, 1, 1)

  /** SetAdditionalParameters takes exactly three values, in the order rank,
      MPI process count, OpenMP thread count; any other count is an error.
      A chunk smaller than the thread count is only logged. */
  function SetAdditionalParameters(e: Executor, params: seq<int>): (r: Result<Executor>)
    ensures r.Success? <==> |params| == 3
    ensures r.Success? ==>
      && r.value.mpiRank == params[0] && r.value.nbMpiProcess == params[1]
      && r.value.nbOpenmpProcess == params[2] && r.value.chunk == e.chunk
  {
    if |params| == 3 then
      Success(e.(mpiRank := params[0], nbMpiProcess := params[1], nbOpenmpProcess := params[2]))
    else Failure("incorrect number of parameters")
  }

  /** The chunk InitializeBlocks works with, as coded: -1 is replaced by the
      task count divided by the thread count. */
  function ResolveChunkAsWritten(chunk: int, nbTasks: nat, nbOpenmp: nat): (c: int)
    requires chunk == -1 ==> nbOpenmp > 0
    ensures chunk != -1 ==> c == chunk
    ensures chunk == -1 ==> c * nbOpenmp <= nbTasks < (c + 1) * nbOpenmp
  {
    if chunk == -1 then nbTasks / nbOpenmp else chunk
  }

  /** With fewer tasks than threads the computed chunk is 0, and the block
      loop then divides by zero and never advances. */
  lemma ResolvedChunkCanBeZero()
    ensures ResolveChunkAsWritten(-1, 3, 4) == 0
  {
  }

  /** The evidently intended chunk: at least one task per block. */
  function ResolveChunk(chunk: int, nbTasks: nat, nbOpenmp: nat): (c: int)
    requires chunk == -1 ==> nbOpenmp > 0
    ensures chunk != -1 ==> c == chunk
    ensures chunk == -1 ==> c >= 1 && (nbTasks >= nbOpenmp ==> c == ResolveChunkAsWritten(chunk, nbTasks, nbOpenmp))
  {
    if chunk == -1 then (if nbTasks / nbOpenmp == 0 then 1 else nbTasks / nbOpenmp) else chunk
  }

  /** The block of chunk number `c`, clipped to the end of the task list. */
  function BlockAt(nbTasks: nat, chunk: nat, c: nat): (b: TaskBlock)
    requires chunk > 0 && c * chunk < nbTasks
    ensures b.orig == c * chunk && 0 < b.size <= chunk && b.orig + b.size <= nbTasks
    ensures b.orig + b.size < nbTasks ==> b.size == chunk
  {
    TaskBlock(c * chunk, if c * chunk + chunk > nbTasks then nbTasks - c * chunk else chunk, 0)
  }

  /** The blocks that process `rank` receives among the first `c` chunks. */
  function Dealt(nbTasks: nat, chunk: nat, nbMpi: nat, rank: int, c: nat): seq<TaskBlock>
    requires chunk > 0 && nbMpi > 0 && c <= ChunkCount(nbTasks, chunk)
  {
    if c == 0 then []
    else
      BelowCount(nbTasks, chunk, c - 1);
      var earlier := Dealt(nbTasks, chunk, nbMpi, rank, c - 1);
      if (c - 1) % nbMpi == rank then earlier + [BlockAt(nbTasks, chunk, c - 1)] else earlier
  }

  function ChunkCount(nbTasks: nat, chunk: nat): (n: nat)
    requires chunk > 0
    ensures n * chunk >= nbTasks && (n == 0 || (n - 1) * chunk < nbTasks)
  {
    var n := nbTasks / chunk + (if nbTasks % chunk != 0 then 1 else 0);
    assert nbTasks == (nbTasks / chunk) * chunk + nbTasks % chunk;
    n
  }

  lemma BelowCount(nbTasks: nat, chunk: nat, j: nat)
    requires chunk > 0 && j < ChunkCount(nbTasks, chunk)
    ensures j * chunk < nbTasks
  {
    MulMono(j, ChunkCount(nbTasks, chunk) - 1, chunk);
  }

  /** Task x is inside one of the blocks. */
  predicate Covered(blocks: seq<TaskBlock>, x: nat) {
    exists k | 0 <= k < |blocks| :: blocks[k].orig <= x < blocks[k].orig + blocks[k].size
  }

  /** ClientServerExecutor::InitializeBlocks for a resolved chunk: walk the
      task list in steps of chunk and keep the blocks whose chunk number is
      congruent to the rank modulo the process count. */
  method InitializeBlocks(nbTasks: nat, chunk: nat, nbMpi: nat, rank: int) returns (blocks: seq<TaskBlock>)
    requires chunk > 0 && nbMpi > 0
    ensures blocks == Dealt(nbTasks, chunk, nbMpi, rank, ChunkCount(nbTasks, chunk))
    ensures forall k | 0 <= k < |blocks| ::
      blocks[k].orig % chunk == 0 && (blocks[k].orig / chunk) % nbMpi == rank
  {
    blocks := [];
    var t: nat := 0;
    ghost var c: nat := 0;
    while t < nbTasks
      invariant t == c * chunk
      invariant c <= ChunkCount(nbTasks, chunk)
      invariant blocks == Dealt(nbTasks, chunk, nbMpi, rank, c)
      decreases nbTasks - t
    {
      RowMajorOf(c, 0, chunk);
      CountBound(nbTasks, chunk, c);
      if (t / chunk) % nbMpi == rank {
        var size := chunk;
        if t + chunk > nbTasks {
          size := nbTasks - t;
        }
        blocks := blocks + [TaskBlock(t, size, 0)];
      }
      MulSucc(c, chunk);
      t := t + chunk;
      c := c + 1;
    }
    CountBound(nbTasks, chunk, c);
    DealtOwned(nbTasks, chunk, nbMpi, rank, c);
  }

  lemma CountBound(nbTasks: nat, chunk: nat, c: nat)
    requires chunk > 0 && c <= ChunkCount(nbTasks, chunk)
    ensures c * chunk < nbTasks ==> c < ChunkCount(nbTasks, chunk)
    ensures c * chunk >= nbTasks ==> c == ChunkCount(nbTasks, chunk)
  {
    var n := ChunkCount(nbTasks, chunk);
    MulMono(n, c, chunk);
    if n > 0 {
      MulMono(c, n - 1, chunk);
    }
  }

  /** Every block of a process starts a chunk whose number is congruent to its rank. */
  lemma {:induction false} DealtOwned(nbTasks: nat, chunk: nat, nbMpi: nat, rank: int, c: nat)
    requires chunk > 0 && nbMpi > 0 && c <= ChunkCount(nbTasks, chunk)
    ensures forall k | 0 <= k < |Dealt(nbTasks, chunk, nbMpi, rank, c)| ::
      Dealt(nbTasks, chunk, nbMpi, rank, c)[k].orig % chunk == 0
      && (Dealt(nbTasks, chunk, nbMpi, rank, c)[k].orig / chunk) % nbMpi == rank
  {
    if c > 0 {
      DealtOwned(nbTasks, chunk, nbMpi, rank, c - 1);
      RowMajorOf(c - 1, 0, chunk);
    }
  }

  /** Chunk number of task x: the block that starts at (x / chunk) * chunk. */
  lemma ChunkOf(x: nat, chunk: nat, c: nat)
    requires chunk > 0
    ensures c * chunk <= x < c * chunk + chunk <==> x / chunk == c
  {
    if c * chunk <= x < c * chunk + chunk {
      ChunkInside(x, chunk, c);
    }
    if x / chunk == c {
      ChunkBounds(x, chunk, c);
    }
  }

  lemma ChunkInside(x: nat, chunk: nat, c: nat)
    requires chunk > 0 && c * chunk <= x < c * chunk + chunk
    ensures x / chunk == c
  {
    var r: nat := x - c * chunk;
    assert c * chunk + r == x;
    RowMajorOf(c, r, chunk);
  }

  lemma ChunkBounds(x: nat, chunk: nat, c: nat)
    requires chunk > 0 && x / chunk == c
    ensures c * chunk <= x < c * chunk + chunk
  {
    DivModNat(x, chunk);
    assert x == (x / chunk) * chunk + x % chunk;
  }

  /** Among the first c chunks, process `rank` covers task x iff x lies in one
      of those chunks and its chunk number is congruent to `rank`. */
  lemma {:induction false} DealtCovers(nbTasks: nat, chunk: nat, nbMpi: nat, rank: int, c: nat, x: nat)
    requires chunk > 0 && nbMpi > 0 && c <= ChunkCount(nbTasks, chunk) && x < nbTasks
    ensures Covered(Dealt(nbTasks, chunk, nbMpi, rank, c), x)
        <==> x / chunk < c && (x / chunk) % nbMpi == rank
  {
    if c > 0 {
      BelowCount(nbTasks, chunk, c - 1);
      DealtCovers(nbTasks, chunk, nbMpi, rank, c - 1, x);
      var earlier := Dealt(nbTasks, chunk, nbMpi, rank, c - 1);
      var b := BlockAt(nbTasks, chunk, c - 1);
      BlockHolds(nbTasks, chunk, c - 1, x, b);
      if (c - 1) % nbMpi == rank {
        CoveredSnoc(earlier, b, x);
      }
    }
  }

  /** Task x lies in the block of chunk c iff c is x's chunk number. */
  lemma BlockHolds(nbTasks: nat, chunk: nat, c: nat, x: nat, b: TaskBlock)
    requires chunk > 0 && c * chunk < nbTasks && x < nbTasks && b == BlockAt(nbTasks, chunk, c)
    ensures b.orig <= x < b.orig + b.size <==> x / chunk == c
  {
    ChunkOf(x, chunk, c);
  }

  /** Appending a block adds exactly its tasks to the covered ones. */
  lemma CoveredSnoc(blocks: seq<TaskBlock>, b: TaskBlock, x: nat)
    ensures Covered(blocks + [b], x) <==> Covered(blocks, x) || b.orig <= x < b.orig + b.size
  {
    var s := blocks + [b];
    if Covered(s, x) {
      var k :| 0 <= k < |s| && s[k].orig <= x < s[k].orig + s[k].size;
      if k < |blocks| { assert blocks[k] == s[k]; }
    }
    if Covered(blocks, x) {
      var k :| 0 <= k < |blocks| && blocks[k].orig <= x < blocks[k].orig + blocks[k].size;
      assert s[k] == blocks[k];
    }
    if b.orig <= x < b.orig + b.size { assert s[|blocks|] == b; }
  }

  /** The blocks of all processes partition the task list: for a rank in
      [0, nbMpi), task x is covered by that rank's blocks iff x's chunk
      number modulo nbMpi is the rank, so exactly one rank holds each task. */
  lemma BlocksPartitionTasks(nbTasks: nat, chunk: nat, nbMpi: nat, rank: int, x: nat)
    requires chunk > 0 && nbMpi > 0 && x < nbTasks
    ensures Covered(Dealt(nbTasks, chunk, nbMpi, rank, ChunkCount(nbTasks, chunk)), x)
        <==> (x / chunk) % nbMpi == rank
  {
    var n := ChunkCount(nbTasks, chunk);
    DealtCovers(nbTasks, chunk, nbMpi, rank, n, x);
    RowMajorSplit(x, chunk, n);
  }

  /** Each process's blocks come in strictly ascending order of origin. */
  lemma {:induction false} DealtAscending(nbTasks: nat, chunk: nat, nbMpi: nat, rank: int, c: nat)
    requires chunk > 0 && nbMpi > 0 && c <= ChunkCount(nbTasks, chunk)
    ensures forall i, j | 0 <= i < j < |Dealt(nbTasks, chunk, nbMpi, rank, c)| ::
      Dealt(nbTasks, chunk, nbMpi, rank, c)[i].orig < Dealt(nbTasks, chunk, nbMpi, rank, c)[j].orig
    ensures forall i | 0 <= i < |Dealt(nbTasks, chunk, nbMpi, rank, c)| ::
      Dealt(nbTasks, chunk, nbMpi, rank, c)[i].orig < c * chunk
  {
    if c > 0 {
      BelowCount(nbTasks, chunk, c - 1);
      MulMono(c - 1, c, chunk);
      MulSucc(c - 1, chunk);
      DealtAscending(nbTasks, chunk, nbMpi, rank, c - 1);
    }
  }
}
