/** The arena of arena.c: a list of chunks, newest first, cut back to where it was by every pop. */
module Arena {

  import opened Octets

  const WORD_SIZE: nat := 8

  /** `arena_chunk`, with its memory. */
  class Chunk {
    const sz: nat
    const memory: array<Byte>
    var used: nat
    var pushPoint: bool
    var prev: Chunk?

    /** `alloc_arena_chunk` */
    constructor (sz: nat, prev: Chunk?)
      ensures this.sz == sz && this.prev == prev && used == 0 && !pushPoint && fresh(memory)
      ensures Ok()
    {
      this.sz, this.prev := sz, prev;
      memory := new Byte[sz](i => 0);
      used, pushPoint := 0, false;
    }

    /** Within its size, aligned, and zero where nothing has been allocated. */
    ghost predicate Ok()
      reads this`used, memory
    {
      && used <= sz == memory.Length && used % WORD_SIZE == 0
      && forall k :: used <= k < sz ==> memory[k] == 0
    }
  }

  /** What `arena_calloc` returns: `size` bytes at `at`. */
  datatype Block = Block(chunk: Chunk, at: nat, size: nat)

  /** The request with its header, rounded up to whole words. */
  function Rounded(n: nat): (r: nat)
    ensures r % WORD_SIZE == 0 && n + WORD_SIZE <= r < n + 2 * WORD_SIZE
  {
    (n + WORD_SIZE + (WORD_SIZE - 1)) / WORD_SIZE * WORD_SIZE
  }

  lemma NextWord(at: nat)
    requires at % WORD_SIZE == 0
    ensures (at + WORD_SIZE) % WORD_SIZE == 0
  {
  }

  function First(s: seq<Chunk>): Chunk? {
    if s == [] then null else s[0]
  }

  function Memories(s: seq<Chunk>): set<array<Byte>> {
    set c | c in s :: c.memory
  }

  /** Chunks in order, linked by `prev`, each with its own memory. */
  ghost predicate Stack(s: seq<Chunk>)
    reads s`prev, s`used, Memories(s)
  {
    s != [] ==>
      && s[0].Ok() && s[0].prev == First(s[1..])
      && s[0] !in s[1..] && s[0].memory !in Memories(s[1..]) && Stack(s[1..])
  }

  ghost predicate NoPush(s: seq<Chunk>)
    reads s`pushPoint
  {
    forall c :: c in s ==> !c.pushPoint
  }

  /** The chunks from the newest push point on. */
  ghost function Pushed(s: seq<Chunk>): (r: seq<Chunk>)
    reads s`pushPoint
  {
    if s == [] || s[0].pushPoint then s else Pushed(s[1..])
  }

  /** Requests, and balanced pairs of push and pop with more of the same between them. */
  datatype Op = Alloc(nmem: nat, size: nat) | Scope(ops: seq<Op>)

  class Arena {
    var a: Chunk?
    ghost var chunks: seq<Chunk>

    ghost predicate Valid()
      reads this, chunks, Memories(chunks)
    {
      a == First(chunks) && (a != null ==> !a.pushPoint) && Stack(chunks)
    }

    constructor ()
      ensures Valid() && chunks == []
    {
      a := null;
      chunks := [];
    }

    /** `cmark_arena_push`: nothing at all while there is no chunk. */
    method Push()
      requires Valid()
      modifies this, if a == null then {} else {a}
      ensures Valid()
      ensures old(a) == null ==> chunks == []
      ensures old(a) != null ==> chunks == [a] + old(chunks) && a.sz == 10240 && a.used == 0 && fresh(a) && fresh(a.memory) && old(a).pushPoint
                                 && old(a).used == old(a.used) && old(a).prev == old(a.prev)
    {
      if a != null {
        a.pushPoint := true;
        ghost var was := chunks;
        a := new Chunk(10240, a);
        chunks := [a] + was;
        assert chunks[1..] == was;
      }
    }

    /** What a pop writes: the chunk marked by the push it undoes. */
    ghost function Marked(): set<object>
      reads this, chunks
    {
      if Pushed(chunks) == [] then {} else {Pushed(chunks)[0]}
    }

    /** `cmark_arena_pop`: back to the newest push point, or to nothing. */
    method Pop() returns (ret: bool)
      requires Valid()
      modifies this, Marked()
      ensures Valid() && ret == (old(a) != null) && chunks == old(Pushed(chunks))
      ensures forall c :: c in chunks ==> c.used == old(c.used) && c.prev == old(c.prev)
    {
      ret := true;
      if a == null {
        ret := false;
      } else {
        while a != null && !a.pushPoint
          invariant forall c :: c in chunks ==> c in old(chunks)
          invariant a == First(chunks) && Stack(chunks) && Pushed(chunks) == old(Pushed(chunks))
          decreases |chunks|
          modifies this
        {
          a := a.prev;
          chunks := chunks[1..];
        }
        assert chunks == old(Pushed(chunks));
        if a != null {
          a.pushPoint := false;
        }
      }
    }

    /** All that an allocation may write of what is there. */
    ghost function Top(): set<object>
      reads this
    {
      if a == null then {} else {a, a.memory}
    }

    /** `arena_calloc`: a block at the end of a chunk's used part, zero and aligned.  Only the newest chunk
        is written; a request too large for it gets a chunk of its own, behind it.  `x` are the chunks
        that now stand where the newest one stood. */
    method Calloc(nmem: nat, size: nat) returns (b: Block, ghost x: seq<Chunk>)
      requires Valid()
      modifies this, Top()
      ensures Valid() && chunks == x + Rest(old(chunks)) && Regrown(old(a), x) && b.chunk in x
      ensures forall c :: c in x && c != old(a) ==> fresh(c) && fresh(c.memory)
      ensures b.size == Rounded(nmem * size) - WORD_SIZE >= nmem * size && b.at % WORD_SIZE == 0 && b.at >= WORD_SIZE && b.at + b.size == b.chunk.used
      ensures b.chunk.used <= b.chunk.sz == b.chunk.memory.Length && forall k :: b.at <= k < b.at + b.size ==> b.chunk.memory[k] == 0
      ensures b.chunk == old(a) ==> b.at - WORD_SIZE == old(a.used)
      ensures old(a) != null ==> Kept(old(a), old(a.used), old(a.memory[..]))
    {
      hide Stack, Rounded;
      if chunks != [] { StackApart(chunks); }
      Initialise();
      var sz := Rounded(nmem * size);
      var chunk;
      chunk, x := Room(sz);
      var ptr := Carve(chunk, sz);
      NextWord(ptr);
      b := Block(chunk, ptr + WORD_SIZE, sz - WORD_SIZE);
    }

    /** `init_arena`, when there is no chunk yet. */
    method Initialise()
      requires Valid()
      modifies this
      ensures Valid() && a != null
      ensures if old(a) == null then chunks == [a] && fresh(a) && fresh(a.memory) && a.used == 0 else a == old(a) && chunks == old(chunks)
    {
      if a == null {
        a := new Chunk(4 * 1048576, null);
        chunks := [a];
      }
    }

    /** Any run of requests and balanced pairs works on what stands in place of the newest chunk: the chunks
        below, and what was allocated before, are as they were. */
    method Run(ops: seq<Op>) returns (ghost x: seq<Chunk>)
      requires Valid()
      modifies this, Top()
      ensures Valid() && chunks == x + Rest(old(chunks)) && Regrown(old(a), x)
      ensures forall c :: c in x && c != old(a) ==> fresh(c) && fresh(c.memory)
      ensures old(a) != null ==> Kept(old(a), old(a.used), old(a.memory[..]))
      decreases ops, 0
    {
      hide Stack;
      StackApart(chunks);
      if ops == [] {
        x := TopOf(chunks);
      } else {
        ghost var y := RunOne(ops[0]);
        StackApart(chunks);
        ghost var next := Run(ops[1..]);
        x := next + Rest(y);
        Regroup(next, y, Rest(old(chunks)));
      }
    }

    /** One request, or one balanced pair. */
    method RunOne(op: Op) returns (ghost x: seq<Chunk>)
      requires Valid()
      modifies this, Top()
      ensures Valid() && chunks == x + Rest(old(chunks)) && Regrown(old(a), x) && (x == [] ==> old(chunks) == [])
      ensures forall c :: c in x && c != old(a) ==> fresh(c) && fresh(c.memory)
      ensures old(a) != null ==> Kept(old(a), old(a.used), old(a.memory[..]))
      decreases op, 2
    {
      match op
      case Alloc(nmem, size) =>
        var b;
        b, x := Calloc(nmem, size);
      case Scope(inner) =>
        InScope(inner);
        x := TopOf(chunks);
    }

    /** Push, a run, pop: the list of chunks and the record of each of them are as before. */
    method InScope(ops: seq<Op>)
      requires Valid()
      modifies this, if a == null then {} else {a}
      ensures Valid() && a == old(a) && chunks == old(chunks)
      ensures forall c :: c in chunks ==> c.used == old(c.used) && c.prev == old(c.prev) && c.pushPoint == old(c.pushPoint)
      decreases ops, 1
    {
      Push();
      ghost var x := Run(ops);
      assert chunks == x + old(chunks);
      PushedBelow(x, old(chunks));
      var ret := Pop();
    }

    /** The chunk to take a request from: the newest, one behind it for the request alone, or a new one half
        as large again. */
    method Room(sz: nat) returns (chunk: Chunk, ghost x: seq<Chunk>)
      requires Valid() && a != null
      modifies this, a
      ensures Valid() && chunks == x + old(chunks)[1..] && NoPush(x) && old(a) in x && chunk in x && chunk in chunks[..Two(|chunks|)]
      ensures if sz > old(a).sz then x == [old(a), chunk] && chunk.sz == sz
              else if sz > old(a).sz - old(a.used) then x == [chunk, old(a)] && chunk.sz == old(a).sz + old(a).sz / 2
              else x == [old(a)] && chunk == old(a)
      ensures sz <= chunk.sz - chunk.used && (chunk != old(a) ==> chunk.used == 0)
      ensures forall c :: c in x && c != old(a) ==> fresh(c) && fresh(c.memory)
      ensures old(a).used == old(a.used)
    {
      ghost var was := chunks;
      if sz > a.sz {
        chunk := new Chunk(sz, a.prev);
        a.prev := chunk;
        x := [a, chunk];
        chunks := x + was[1..];
        assert chunks[1..] == [chunk] + was[1..] && chunks[1..][1..] == was[1..];
      } else if sz > a.sz - a.used {
        chunk := new Chunk(a.sz + a.sz / 2, a);
        x := [chunk, a];
        chunks := x + was[1..];
        assert chunks[1..] == was;
        a := chunk;
      } else {
        chunk := a;
        x := [a];
        assert chunks == x + was[1..];
      }
    }

    /** Take the next `sz` bytes of a chunk and write the header. */
    method Carve(chunk: Chunk, sz: nat) returns (ptr: nat)
      requires Valid() && chunk in chunks[..Two(|chunks|)] && WORD_SIZE <= sz <= chunk.sz - chunk.used && sz % WORD_SIZE == 0
      modifies chunk`used, chunk.memory
      ensures ptr == old(chunk.used) && ptr % WORD_SIZE == 0
      ensures Valid() && chunk.used == old(chunk.used) + sz <= chunk.sz == chunk.memory.Length
      ensures forall k :: 0 <= k < old(chunk.used) ==> chunk.memory[k] == old(chunk.memory[k])
      ensures forall k :: old(chunk.used) + WORD_SIZE <= k < chunk.used ==> chunk.memory[k] == 0
    {
      ghost var rest := chunks[1..];
      assert chunk == chunks[0] || (rest != [] && chunk == rest[0]);
      if chunk != chunks[0] { assert Stack(rest) && rest[0].Ok() && rest[0] in rest; }
      ptr := chunk.used;
      chunk.used := chunk.used + sz;
      WriteWord(chunk.memory, ptr, sz - WORD_SIZE);
      if chunk != chunks[0] { assert Stack(rest[1..]); }
      assert Stack(rest);
    }
  }

  lemma {:induction false} AllOk(s: seq<Chunk>)
    requires Stack(s)
    ensures forall c :: c in s ==> c.Ok()
  {
    if s != [] { AllOk(s[1..]); }
  }

  ghost function TopOf(s: seq<Chunk>): (x: seq<Chunk>)
    ensures s == x + Rest(s) && x == if s == [] then [] else [s[0]]
  {
    if s == [] then [] else [s[0]]
  }

  lemma Regroup(next: seq<Chunk>, y: seq<Chunk>, r: seq<Chunk>)
    requires y == [] ==> r == []
    ensures next + Rest(y + r) == next + Rest(y) + r
    ensures y != [] ==> (y + r)[0] == y[0] && y[0] in y
    ensures (forall c :: c in Rest(y) ==> c in y && c in (y + r)[1..]) && forall c :: c in y ==> c == y[0] || c in Rest(y)
  {
  }

  lemma StackApart(s: seq<Chunk>)
    requires Stack(s)
    ensures s != [] ==> s[0].Ok() && forall c :: c in s[1..] ==> c != s[0] && c.memory != s[0].memory
  {
  }

  /** Above a push point, chunks that are none go. */
  lemma {:induction false} PushedBelow(x: seq<Chunk>, s: seq<Chunk>)
    requires NoPush(x) && (s != [] ==> s[0].pushPoint)
    ensures Pushed(x + s) == s
  {
    if x == [] {
      assert x + s == s;
    } else {
      assert (x + s)[1..] == x[1..] + s && x[0] in x;
      PushedBelow(x[1..], s);
    }
  }

  // ---------------------------------------------------------------- many requests

  /** A block in use: inside its chunk, aligned, still zero. */
  ghost predicate Held(b: Block)
    reads b.chunk`used, b.chunk.memory
  {
    && b.at >= WORD_SIZE && b.at % WORD_SIZE == 0 && b.at + b.size <= b.chunk.used <= b.chunk.memory.Length
    && forall k :: b.at <= k < b.at + b.size ==> b.chunk.memory[k] == 0
  }

  /** No byte in both, headers included. */
  predicate Apart(b: Block, c: Block) {
    b.chunk == c.chunk ==> b.at + b.size + WORD_SIZE <= c.at || c.at + c.size + WORD_SIZE <= b.at
  }

  /** One request more, beside blocks in use. */
  method AllocMore(arena: Arena, bs: seq<Block>, nmem: nat, size: nat) returns (b: Block)
    requires arena.Valid() && forall j :: 0 <= j < |bs| ==> bs[j].chunk in arena.chunks && Held(bs[j])
    modifies arena, arena.Top()
    ensures arena.Valid() && arena.a != null && (arena.a == old(arena.a) || (fresh(arena.a) && fresh(arena.a.memory)))
    ensures forall j :: 0 <= j < |bs| ==> bs[j].chunk in arena.chunks && Held(bs[j]) && Apart(bs[j], b)
    ensures b.chunk in arena.chunks && Held(b) && b.size >= nmem * size
  {
    hide Stack;
    ghost var top, before := arena.a, arena.chunks;
    StackApart(arena.chunks);
    ghost var x;
    b, x := arena.Calloc(nmem, size);
    Regroup([], x, Rest(before));
    AllOk(arena.chunks);
    forall j | 0 <= j < |bs| ensures bs[j].chunk in arena.chunks && Held(bs[j]) && Apart(bs[j], b) {
      var c := bs[j];
      assert c.chunk in before;
      if c.chunk != top {
        assert c.chunk in Rest(before);
        assert unchanged(c.chunk`used) && unchanged(c.chunk.memory);
      }
    }
  }

  /** Requests served one after the other do not touch each other. */
  method AllocAll(arena: Arena, requests: seq<(nat, nat)>) returns (bs: seq<Block>)
    requires arena.Valid()
    modifies arena, arena.Top()
    ensures arena.Valid() && |bs| == |requests|
    ensures forall i :: 0 <= i < |bs| ==> bs[i].chunk in arena.chunks && Held(bs[i]) && bs[i].size >= requests[i].0 * requests[i].1
    ensures forall i, j :: 0 <= i < j < |bs| ==> Apart(bs[i], bs[j])
  {
    hide Held, Apart, Stack;
    bs := [];
    for i := 0 to |requests|
      invariant arena.Valid() && |bs| == i
      invariant arena.a == old(arena.a) || (arena.a != null && fresh(arena.a) && fresh(arena.a.memory))
      invariant forall j :: 0 <= j < i ==> bs[j].chunk in arena.chunks && Held(bs[j])
      invariant forall j :: 0 <= j < i ==> bs[j].size >= requests[j].0 * requests[j].1
      invariant forall j, k :: 0 <= j < k < i ==> Apart(bs[j], bs[k])
    {
      var b := AllocMore(arena, bs, requests[i].0, requests[i].1);
      bs := bs + [b];
    }
  }

  function Two(n: nat): nat { if n < 2 then n else 2 }

  ghost function Rest(s: seq<Chunk>): seq<Chunk> {
    if s == [] then [] else s[1..]
  }

  /** The old newest chunk is still there, among new ones, and none of them is a push point. */
  ghost predicate Regrown(a: Chunk?, x: seq<Chunk>)
    reads x`pushPoint
  {
    NoPush(x) && (a != null ==> a in x)
  }

  /** What was allocated in the chunk before is as it was. */
  ghost predicate Kept(c: Chunk, used: nat, memory: seq<Byte>)
    reads c`used, c.memory
  {
    used <= c.used && |memory| == c.memory.Length && used <= |memory| && forall k :: 0 <= k < used ==> c.memory[k] == memory[k]
  }

  /** Little end first. */
  method WriteWord(memory: array<Byte>, at: nat, value: nat)
    requires at + WORD_SIZE <= memory.Length
    modifies memory
    ensures forall k :: 0 <= k < memory.Length && !(at <= k < at + WORD_SIZE) ==> memory[k] == old(memory[k])
  {
    var v := value;
    for i := 0 to WORD_SIZE
      invariant forall k :: 0 <= k < memory.Length && !(at <= k < at + WORD_SIZE) ==> memory[k] == old(memory[k])
    {
      memory[at + i] := v % 256;
      v := v / 256;
    }
  }
}
