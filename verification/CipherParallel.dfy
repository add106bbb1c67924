/** Decoding by several goroutines, each over its own chunk, in any order of their steps.
    Models decodeParallel and DecodeData of internal/insecuresocketslayer/codec.go. */
module CipherParallel {
  import opened Arithmetic
  import opened Wrappers
  import opened CipherOps
  import opened CipherCodec

  /** A goroutine: the index it is at, the end of its chunk, and the byte it has read there. */
  datatype Worker = Worker(j: nat, end: nat, element: Option<Byte>)

  // ---------- The chunks are a partition ----------

  /** Every index below n has one owner, the worker whose chunk it lies in. */
  ghost predicate Partition(starts: seq<nat>, workers: seq<Worker>, owner: seq<nat>, n: nat) {
    && |starts| == |workers| && |owner| == n
    && (forall w :: 0 <= w < |workers| ==> starts[w] <= workers[w].end <= n)
    && (forall j :: 0 <= j < n ==> owner[j] < |workers| && starts[owner[j]] <= j < workers[owner[j]].end)
    && (forall w, j :: 0 <= w < |workers| && starts[w] <= j < workers[w].end ==> owner[j] == w)
  }

  function ChunkEnd(start: nat, chunkSize: nat, n: nat): nat {
    if start + chunkSize > n then n else start + chunkSize
  }

  /** Rounded up, the chunks of all workers reach the end of the data. */
  lemma CeilCovers(n: nat, numWorkers: nat)
    requires numWorkers > 0
    ensures numWorkers * ((n + numWorkers - 1) / numWorkers) >= n
  {
    var q := (n + numWorkers - 1) / numWorkers;
    assert n + numWorkers - 1 == q * numWorkers + (n + numWorkers - 1) % numWorkers;
  }

  /** The chunk that index j lies in. */
  lemma InChunk(j: nat, w: nat, chunkSize: nat)
    requires chunkSize > 0 && w * chunkSize <= j < w * chunkSize + chunkSize
    ensures j / chunkSize == w
  {
    var q := j / chunkSize;
    assert j == q * chunkSize + j % chunkSize;
    if q < w {
      MulMonotone(q + 1, w, chunkSize);
    } else if w < q {
      MulMonotone(w + 1, q, chunkSize);
    }
  }

  lemma OwnerOf(j: nat, count: nat, chunkSize: nat, n: nat)
    requires j < n <= count * chunkSize && chunkSize > 0
    ensures var q := j / chunkSize;
            q < count && q * chunkSize <= j < ChunkEnd(q * chunkSize, chunkSize, n)
  {
    var q := j / chunkSize;
    assert j == q * chunkSize + j % chunkSize;
    if count <= q {
      MulMonotone(count, q, chunkSize);
    }
  }

  /** The workers are those of the chunks from the first one on, and none of these is empty. */
  ghost predicate Launched(starts: seq<nat>, workers: seq<Worker>, chunkSize: nat, n: nat) {
    && |starts| == |workers|
    && (forall w :: 0 <= w < |workers| ==> starts[w] == w * chunkSize && starts[w] < n)
    && (forall w :: 0 <= w < |workers| ==> workers[w] == Worker(starts[w], ChunkEnd(starts[w], chunkSize, n), None))
  }

  /** Chunks of one size that reach the end are a partition. */
  lemma ChunksPartition(starts: seq<nat>, workers: seq<Worker>, chunkSize: nat, n: nat) returns (owner: seq<nat>)
    requires Launched(starts, workers, chunkSize, n) && n <= |workers| * chunkSize
    ensures Partition(starts, workers, owner, n)
  {
    if chunkSize == 0 {
      return [];
    }
    owner := seq(n, j requires 0 <= j < n => j / chunkSize);
    forall j | 0 <= j < n
      ensures owner[j] < |workers| && starts[owner[j]] <= j < workers[owner[j]].end
    {
      OwnerOf(j, |workers|, chunkSize, n);
    }
    forall w, j | 0 <= w < |workers| && starts[w] <= j < workers[w].end
      ensures owner[j] == w
    {
      InChunk(j, w, chunkSize);
    }
  }

  // ---------- The goroutines ----------

  /** What holds between any two steps: a worker is inside its chunk, the byte it has read is the
      encoded one, and exactly the indices that their owners have passed are decoded. */
  ghost predicate Progress(decodeOps: seq<Instruction>, startPos: nat, data: seq<Byte>,
                           decoded: seq<Byte>, starts: seq<nat>, workers: seq<Worker>, owner: seq<nat>) {
    && |decoded| == |data|
    && Partition(starts, workers, owner, |data|)
    && (forall w :: 0 <= w < |workers| ==> starts[w] <= workers[w].j <= workers[w].end)
    && (forall w :: 0 <= w < |workers| && workers[w].element.Some? ==>
          workers[w].j < workers[w].end && workers[w].element.value == data[workers[w].j])
    && (forall j :: 0 <= j < |data| ==>
          decoded[j] == if j < workers[owner[j]].j then DecodeByte(decodeOps, startPos + j, data[j]) else data[j])
  }

  /** The indices that are still to be decoded, and the workers that have read nothing. */
  ghost function Todo(workers: seq<Worker>, owner: seq<nat>): set<nat> {
    set j | 0 <= j < |owner| && owner[j] < |workers| && workers[owner[j]].j <= j
  }

  ghost function Idle(workers: seq<Worker>): set<nat> {
    set w | 0 <= w < |workers| && workers[w].element == None
  }

  /** A worker reads the byte at its index. */
  method ReadByte(decoded: array<Byte>, me: Worker) returns (after: Worker)
    requires me.j < decoded.Length
    ensures after == me.(element := Some(decoded[..][me.j]))
  {
    after := me.(element := Some(decoded[me.j]));
  }

  /** A worker applies the inverse operations to the byte it has read and writes it back. */
  method WriteByte(decodeOps: seq<Instruction>, startPos: nat, decoded: array<Byte>, me: Worker)
    returns (after: Worker)
    requires me.j < decoded.Length && me.element.Some?
    modifies decoded
    ensures decoded[..] == old(decoded[..])[me.j := DecodeByte(decodeOps, startPos + me.j, me.element.value)]
    ensures after == Worker(me.j + 1, me.end, None)
  {
    var element := DecodeOne(decodeOps, startPos + me.j, me.element.value);
    decoded[me.j] := element;
    after := Worker(me.j + 1, me.end, None);
  }

  /** A read keeps the progress: the byte at the index of a worker is still the encoded one. */
  lemma WasRead(decodeOps: seq<Instruction>, startPos: nat, data: seq<Byte>,
                decoded: seq<Byte>, starts: seq<nat>, workers: seq<Worker>, owner: seq<nat>, w: nat)
    requires Progress(decodeOps, startPos, data, decoded, starts, workers, owner)
    requires w < |workers| && workers[w].j < workers[w].end && workers[w].element == None
    ensures var after := workers[w := workers[w].(element := Some(decoded[workers[w].j]))];
            && Progress(decodeOps, startPos, data, decoded, starts, after, owner)
            && Todo(after, owner) == Todo(workers, owner) && Idle(after) < Idle(workers)
  {
    var after := workers[w := workers[w].(element := Some(decoded[workers[w].j]))];
    assert owner[workers[w].j] == w;
    assert w in Idle(workers) && w !in Idle(after);
  }

  /** A write keeps the progress: it touches a byte that no other worker reads or writes. */
  lemma Written(decodeOps: seq<Instruction>, startPos: nat, data: seq<Byte>,
                decoded: seq<Byte>, starts: seq<nat>, workers: seq<Worker>, owner: seq<nat>, w: nat)
    requires Progress(decodeOps, startPos, data, decoded, starts, workers, owner)
    requires w < |workers| && workers[w].element.Some?
    ensures var me := workers[w];
            && Progress(decodeOps, startPos, data,
                        decoded[me.j := DecodeByte(decodeOps, startPos + me.j, me.element.value)],
                        starts, workers[w := Worker(me.j + 1, me.end, None)], owner)
            && Todo(workers[w := Worker(me.j + 1, me.end, None)], owner) < Todo(workers, owner)
  {
    hide DecodeByte, Todo;
    var me := workers[w];
    var after := workers[w := Worker(me.j + 1, me.end, None)];
    var now := decoded[me.j := DecodeByte(decodeOps, startPos + me.j, data[me.j])];
    MovedOn(starts, workers, owner, |data|, w);
    TodoShrinks(starts, workers, owner, |data|, w);
    forall j | 0 <= j < |data|
      ensures now[j] == if j < after[owner[j]].j then DecodeByte(decodeOps, startPos + j, data[j]) else data[j]
    {
      assert decoded[j] == if j < workers[owner[j]].j then DecodeByte(decodeOps, startPos + j, data[j]) else data[j];
    }
  }

  /** A step of one worker changes nobody's chunk, and passes just the index it was at. */
  lemma MovedOn(starts: seq<nat>, workers: seq<Worker>, owner: seq<nat>, n: nat, w: nat)
    requires Partition(starts, workers, owner, n)
    requires w < |workers| && starts[w] <= workers[w].j < workers[w].end
    ensures var after := workers[w := Worker(workers[w].j + 1, workers[w].end, None)];
            && Partition(starts, after, owner, n)
            && (forall j :: 0 <= j < n ==>
                  (j < after[owner[j]].j <==> j < workers[owner[j]].j || j == workers[w].j))
  {
    assert owner[workers[w].j] == w;
  }

  lemma TodoShrinks(starts: seq<nat>, workers: seq<Worker>, owner: seq<nat>, n: nat, w: nat)
    requires Partition(starts, workers, owner, n)
    requires w < |workers| && starts[w] <= workers[w].j < workers[w].end
    ensures Todo(workers[w := Worker(workers[w].j + 1, workers[w].end, None)], owner) < Todo(workers, owner)
  {
    var me := workers[w];
    var after := workers[w := Worker(me.j + 1, me.end, None)];
    MovedOn(starts, workers, owner, n, w);
    assert me.j in Todo(workers, owner) && me.j !in Todo(after, owner);
  }

  /** One step of one goroutine: it reads the byte at its index, or writes the one it has read. */
  method Step(decodeOps: seq<Instruction>, startPos: nat, ghost data: seq<Byte>, decoded: array<Byte>,
              ghost starts: seq<nat>, workers: seq<Worker>, ghost owner: seq<nat>, w: nat)
    returns (after: seq<Worker>)
    requires Progress(decodeOps, startPos, data, decoded[..], starts, workers, owner)
    requires w < |workers| && workers[w].j < workers[w].end
    modifies decoded
    ensures Progress(decodeOps, startPos, data, decoded[..], starts, after, owner)
    ensures Todo(after, owner) < Todo(workers, owner) ||
            (Todo(after, owner) == Todo(workers, owner) && Idle(after) < Idle(workers))
  {
    hide Progress, Todo, Idle, DecodeByte;
    var me := workers[w];
    InRange(decodeOps, startPos, data, decoded[..], starts, workers, owner, w);
    if me.element == None {
      WasRead(decodeOps, startPos, data, decoded[..], starts, workers, owner, w);
      me := ReadByte(decoded, me);
    } else {
      Written(decodeOps, startPos, data, decoded[..], starts, workers, owner, w);
      me := WriteByte(decodeOps, startPos, decoded, me);
    }
    after := workers[w := me];
  }

  lemma InRange(decodeOps: seq<Instruction>, startPos: nat, data: seq<Byte>,
                decoded: seq<Byte>, starts: seq<nat>, workers: seq<Worker>, owner: seq<nat>, w: nat)
    requires Progress(decodeOps, startPos, data, decoded, starts, workers, owner)
    requires w < |workers| && workers[w].j < workers[w].end
    ensures workers[w].j < |data| == |decoded|
  {
  }

  /** When the goroutines are launched, nothing is decoded. */
  lemma NothingDecoded(decodeOps: seq<Instruction>, startPos: nat, data: seq<Byte>,
                       starts: seq<nat>, workers: seq<Worker>, owner: seq<nat>, chunkSize: nat)
    requires Partition(starts, workers, owner, |data|) && Launched(starts, workers, chunkSize, |data|)
    ensures Progress(decodeOps, startPos, data, data, starts, workers, owner)
  {
  }

  /** When no worker has anything left, everything is decoded. */
  lemma AllDecoded(decodeOps: seq<Instruction>, startPos: nat, data: seq<Byte>,
                   decoded: seq<Byte>, starts: seq<nat>, workers: seq<Worker>, owner: seq<nat>)
    requires Progress(decodeOps, startPos, data, decoded, starts, workers, owner)
    requires forall w :: 0 <= w < |workers| ==> workers[w].j >= workers[w].end
    ensures decoded == Decoded(decodeOps, startPos, data)
  {
    forall j | 0 <= j < |data|
      ensures decoded[j] == DecodeByte(decodeOps, startPos + j, data[j])
    {
      var w := owner[j];
      assert j < workers[w].j;
    }
  }

  /** The loop that launches a goroutine for each chunk that is not empty. */
  method Launch(n: nat, numWorkers: nat, chunkSize: nat) returns (workers: seq<Worker>, ghost starts: seq<nat>)
    requires chunkSize == 0 ==> n == 0
    requires n <= numWorkers * chunkSize
    ensures Launched(starts, workers, chunkSize, n) && n <= |workers| * chunkSize
  {
    workers, starts := [], [];
    for i := 0 to numWorkers
      invariant |workers| <= i && Launched(starts, workers, chunkSize, n)
      invariant |workers| < i ==> n <= |workers| * chunkSize
    {
      var chunkStart := i * chunkSize;
      var chunkEnd := chunkStart + chunkSize;
      if chunkEnd > n {
        chunkEnd := n;
      }
      MulMonotone(|workers|, i, chunkSize);
      if chunkStart < chunkEnd {
        LaunchedOne(starts, workers, chunkSize, n, chunkStart);
        workers, starts := workers + [Worker(chunkStart, chunkEnd, None)], starts + [chunkStart];
      }
    }
  }

  lemma LaunchedOne(starts: seq<nat>, workers: seq<Worker>, chunkSize: nat, n: nat, start: nat)
    requires Launched(starts, workers, chunkSize, n) && start == |workers| * chunkSize && start < n
    ensures Launched(starts + [start], workers + [Worker(start, ChunkEnd(start, chunkSize, n), None)], chunkSize, n)
  {
  }

  /** decodeParallel decodes like the sequential loop, for every number of workers and every order
      in which the goroutines read and write. */
  method DecodeParallel(decodeOps: seq<Instruction>, startPos: nat, data: seq<Byte>, numWorkers: nat)
    returns (r: seq<Byte>)
    requires numWorkers > 0
    ensures r == Decoded(decodeOps, startPos, data)
  {
    var n := |data|;
    var decoded := new Byte[n](i requires 0 <= i < n => data[i]);
    var chunkSize := (n + numWorkers - 1) / numWorkers;
    var workers, starts := Launch(n, numWorkers, chunkSize);
    CeilCovers(n, numWorkers);
    ghost var owner := ChunksPartition(starts, workers, chunkSize, n);
    assert decoded[..] == data;
    NothingDecoded(decodeOps, startPos, data, starts, workers, owner, chunkSize);
    while exists w :: 0 <= w < |workers| && workers[w].j < workers[w].end
      invariant fresh(decoded)
      invariant Progress(decodeOps, startPos, data, decoded[..], starts, workers, owner)
      decreases Todo(workers, owner), Idle(workers)
    {
      hide Progress, Todo, Idle;
      var w :| 0 <= w < |workers| && workers[w].j < workers[w].end;
      workers := Step(decodeOps, startPos, data, decoded, starts, workers, owner, w);
    }
    r := decoded[..];
    AllDecoded(decodeOps, startPos, data, r, starts, workers, owner);
  }

  const PARALLEL_DECODE_THRESHOLD := 2048

  /** DecodeData: the dispatcher. */
  method DecodeData(decodeOps: seq<Instruction>, startPos: nat, data: seq<Byte>, numCPU: nat) returns (r: seq<Byte>)
    ensures r == Decoded(decodeOps, startPos, data)
  {
    if |data| < PARALLEL_DECODE_THRESHOLD || numCPU <= 1 {
      r := DecodeSequential(decodeOps, startPos, data);
    } else {
      r := DecodeParallel(decodeOps, startPos, data, numCPU);
    }
  }
}
