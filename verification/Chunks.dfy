/** Chunked user lists (controller/users_chunk.go and the receive loop in controller/rpc/user.go). */
module Chunks {
  import opened Base
  import opened Common

  /** The range of a 64-bit index. */
  const RANGE: nat := 0x1_0000_0000_0000_0000

  type Index = i: nat | i < RANGE witness 0

  datatype Chunk = Chunk(index: Index, users: seq<User>, last: bool)

  datatype Error = NoFinalChunk | MissingChunk(index: nat) | NoUsers | StreamFailed

  type Gathered = map<Index, seq<User>>

  // ---- reassembly ---------------------------------------------------------

  /** The first `n` chunks in index order; a missing one adds nothing. */
  function Concat(chunks: Gathered, n: nat): seq<User> {
    if n == 0 then [] else Concat(chunks, n - 1) + (if n - 1 in chunks then chunks[n - 1] else [])
  }

  ghost predicate Complete(chunks: Gathered, n: nat) {
    forall i: nat :: i < n ==> i in chunks
  }

  /** All of it, or the first gap, or the complaint that it is empty. */
  ghost predicate IsAssembly(chunks: Gathered, last: Index, r: Result<seq<User>, Error>) {
    match r
    case Ok(users) => Complete(chunks, last + 1) && users == Concat(chunks, last + 1) && users != []
    case Err(MissingChunk(i)) => i <= last && i !in chunks && Complete(chunks, i)
    case Err(NoUsers) => Complete(chunks, last + 1) && Concat(chunks, last + 1) == []
    case _ => false
  }

  /**
   * It succeeds exactly when every index up to the last arrived with some user among them, and its answer is settled.
   */
  lemma AssemblyIsSettled(chunks: Gathered, last: Index, r: Result<seq<User>, Error>, r': Result<seq<User>, Error>)
    requires IsAssembly(chunks, last, r) && IsAssembly(chunks, last, r')
    ensures r == r'
    ensures r.Ok? <==> Complete(chunks, last + 1) && Concat(chunks, last + 1) != []
  {
  }

  /** A map with every index below `n` has at least `n` entries. */
  lemma {:induction false} CompleteIsLarge(chunks: Gathered, n: nat)
    requires Complete(chunks, n)
    ensures n <= |chunks|
  {
    if n > 0 {
      assert n - 1 in chunks;
      var k: Index := n - 1;
      var rest := chunks - {k};
      assert Complete(rest, n - 1);
      CompleteIsLarge(rest, n - 1);
      assert rest.Keys == chunks.Keys - {k};
      assert |rest| == |rest.Keys| && |chunks| == |chunks.Keys|;
    }
  }

  /**
   * The loop bound `i <= last` never fails at the largest index, yet the loop ends: some index is missing from memory.
   */
  method BuildUsersFromChunks(chunks: Gathered, lastIndex: Index, sawLast: bool)
    returns (r: Result<seq<User>, Error>, ghost turns: nat)
    requires |chunks| < RANGE
    ensures if sawLast then IsAssembly(chunks, lastIndex, r) else r == Err(NoFinalChunk)
    ensures turns <= |chunks| + 1
  {
    turns := 0;
    if !sawLast {
      return Err(NoFinalChunk), 0;
    }
    var users := [];
    var i: Index := 0;
    while i <= lastIndex
      invariant i <= lastIndex + 1 && turns == i && Complete(chunks, i) && users == Concat(chunks, i)
      decreases RANGE - i
    {
      CompleteIsLarge(chunks, i);
      turns := turns + 1;
      if i !in chunks {
        return Err(MissingChunk(i)), turns;
      }
      users := users + chunks[i];
      assert Complete(chunks, i + 1);
      CompleteIsLarge(chunks, i + 1);
      i := (i + 1) % RANGE;
    }
    CompleteIsLarge(chunks, i);
    if users == [] {
      return Err(NoUsers), turns;
    }
    r := Ok(users);
  }

  // ---- the receive loop ---------------------------------------------------

  /** Chunks of one index are appended in arrival order. */
  function Gather(arrived: seq<Chunk>): Gathered {
    if arrived == [] then map[]
    else
      var c, before := arrived[|arrived| - 1], Gather(arrived[..|arrived| - 1]);
      before[c.index := (if c.index in before then before[c.index] else []) + c.users]
  }

  /** The position of the first chunk flagged last, or the end. */
  function FirstLast(arrived: seq<Chunk>): (n: nat)
    ensures n <= |arrived| && (n < |arrived| ==> arrived[n].last) && forall i :: 0 <= i < n ==> !arrived[i].last
  {
    if arrived == [] then 0 else if arrived[0].last then 0 else 1 + FirstLast(arrived[1..])
  }

  lemma {:induction false} GatherIsSmall(arrived: seq<Chunk>)
    ensures |Gather(arrived)| <= |arrived|
  {
    if arrived != [] {
      var c, init := arrived[|arrived| - 1], arrived[..|arrived| - 1];
      GatherIsSmall(init);
      assert Gather(arrived).Keys == Gather(init).Keys + {c.index};
      assert |Gather(init).Keys + {c.index}| <= |Gather(init).Keys| + 1;
    }
  }

  /** The users a stream delivers; `fails` says whether it breaks off instead of ending. */
  method ReceiveUsers(arrived: seq<Chunk>, fails: bool) returns (r: Result<seq<User>, Error>)
    requires |arrived| < RANGE
    ensures var n := FirstLast(arrived);
            if n < |arrived| then IsAssembly(Gather(arrived[..n + 1]), arrived[n].index, r)
            else r == Err(if fails then StreamFailed else NoFinalChunk)
  {
    var chunks: Gathered, lastIndex: Index, sawLast := map[], 0, false;
    var i := 0;
    while true
      invariant i <= FirstLast(arrived) && chunks == Gather(arrived[..i]) && !sawLast
      decreases |arrived| - i
    {
      if i == |arrived| {
        if fails {
          return Err(StreamFailed);
        }
        break;
      }
      var chunk := arrived[i];
      assert arrived[..i + 1] == arrived[..i] + [chunk];
      GatherLast(arrived[..i], chunk);
      chunks := chunks[chunk.index := (if chunk.index in chunks then chunks[chunk.index] else []) + chunk.users];
      if chunk.last {
        sawLast, lastIndex := true, chunk.index;
        break;
      }
      i := i + 1;
    }
    GatherIsSmall(arrived[..if i < |arrived| then i + 1 else i]);
    ghost var turns;
    r, turns := BuildUsersFromChunks(chunks, lastIndex, sawLast);
  }

  // ---- a list cut into chunks ---------------------------------------------

  /** The chunks are the pieces of the list between the cuts. */
  ghost predicate Pieces(users: seq<User>, cuts: seq<nat>, chunks: Gathered) {
    && |cuts| > 0 && cuts[0] == 0 && (forall i :: 0 <= i < |cuts| ==> cuts[i] <= |users|)
    && (forall i: nat :: i + 1 < |cuts| ==> cuts[i] <= cuts[i + 1])
    && (forall i: nat :: i + 1 < |cuts| ==> i in chunks && chunks[i] == users[cuts[i]..cuts[i + 1]])
  }

  /** Putting the pieces together in index order gives the list back, wherever it was cut. */
  lemma {:induction false} CutsComeTogether(users: seq<User>, cuts: seq<nat>, chunks: Gathered, n: nat)
    requires Pieces(users, cuts, chunks) && n < |cuts|
    ensures Complete(chunks, n) && Concat(chunks, n) == users[..cuts[n]]
  {
    if n > 0 {
      CutsComeTogether(users, cuts, chunks, n - 1);
      assert chunks[n - 1] == users[cuts[n - 1]..cuts[n - 1 + 1]];
      assert users[..cuts[n - 1]] + users[cuts[n - 1]..cuts[n]] == users[..cuts[n]];
    }
  }

  /** So a list that is not empty, cut anywhere and sent as chunks, is what reassembly answers. */
  lemma RoundTrip(users: seq<User>, cuts: seq<nat>, chunks: Gathered, last: Index, r: Result<seq<User>, Error>)
    requires users != [] && Pieces(users, cuts, chunks) && last + 2 == |cuts| && cuts[last + 1] == |users|
    requires IsAssembly(chunks, last, r)
    ensures r == Ok(users)
  {
    CutsComeTogether(users, cuts, chunks, last + 1);
    assert users[..|users|] == users;
    AssemblyIsSettled(chunks, last, r, Ok(users));
  }

  function Sent(chunks: Gathered, k: Index): seq<User> {
    if k in chunks then chunks[k] else []
  }

  /** Chunks of one index are joined in the order of their arrival. */
  lemma {:induction false} GatherJoins(a: seq<Chunk>, b: seq<Chunk>, k: Index)
    ensures Sent(Gather(a + b), k) == Sent(Gather(a), k) + Sent(Gather(b), k)
    ensures k in Gather(a + b) <==> k in Gather(a) || k in Gather(b)
  {
    if b == [] {
      assert a + b == a;
    } else {
      var init, last := b[..|b| - 1], b[|b| - 1];
      assert a + b == (a + init) + [last] && b == init + [last];
      GatherJoins(a, init, k);
      GatherLast(a + init, last);
      GatherLast(init, last);
    }
  }

  lemma GatherOne(c: Chunk)
    ensures Gather([c]) == map[c.index := c.users]
  {
    var none: seq<Chunk>, nobody: seq<User> := [], [];
    assert [c][..0] == none && Gather(none) == map[];
    assert nobody + c.users == c.users;
  }

  // ---- arrival order ------------------------------------------------------

  ghost predicate DistinctIndexes(arrived: seq<Chunk>) {
    forall i, j :: 0 <= i < j < |arrived| ==> arrived[i].index != arrived[j].index
  }

  lemma {:induction false} GatherDistinct(arrived: seq<Chunk>)
    requires DistinctIndexes(arrived)
    ensures forall c :: c in arrived ==> c.index in Gather(arrived) && Gather(arrived)[c.index] == c.users
    ensures forall k :: k in Gather(arrived) ==> exists c :: c in arrived && c.index == k
  {
    if arrived != [] {
      var last, init := arrived[|arrived| - 1], arrived[..|arrived| - 1];
      assert arrived == init + [last];
      GatherDistinct(init);
      forall k | k in Gather(arrived) ensures exists c :: c in arrived && c.index == k {
        if k in Gather(init) {
          var c :| c in init && c.index == k;
          assert c in arrived;
        } else {
          assert last in arrived;
        }
      }
    }
  }

  lemma GatherAnyOrder(a: seq<Chunk>, b: seq<Chunk>)
    requires DistinctIndexes(a) && DistinctIndexes(b) && forall c :: c in a <==> c in b
    ensures Gather(a) == Gather(b)
  {
    GatherDistinct(a);
    GatherDistinct(b);
    forall k ensures k in Gather(a) <==> k in Gather(b) {
      if k in Gather(a) {
        var c :| c in a && c.index == k;
        assert c in b;
      }
      if k in Gather(b) {
        var c :| c in b && c.index == k;
        assert c in a;
      }
    }
    forall k | k in Gather(a) ensures Gather(a)[k] == Gather(b)[k] {
      var c :| c in a && c.index == k;
    }
  }

  lemma FirstLastAfter(earlier: seq<Chunk>, last: Chunk, rest: seq<Chunk>)
    requires last.last && forall c :: c in earlier ==> !c.last
    ensures FirstLast(earlier + [last] + rest) == |earlier|
  {
    var all := earlier + [last] + rest;
    assert forall i :: 0 <= i < |earlier| ==> all[i] == earlier[i] && earlier[i] in earlier;
    assert all[|earlier|] == last;
  }

  /** Earlier chunks with distinct indexes may arrive in any order, and whatever follows the final chunk is not read. */
  lemma ArrivalOrderIrrelevant(a: seq<Chunk>, b: seq<Chunk>, last: Chunk, rest: seq<Chunk>, rest': seq<Chunk>,
                               r: Result<seq<User>, Error>, r': Result<seq<User>, Error>)
    requires DistinctIndexes(a) && DistinctIndexes(b) && (forall c :: c in a <==> c in b)
    requires last.last && forall c :: c in a ==> !c.last
    requires var n, arrived := FirstLast(a + [last] + rest), a + [last] + rest;
             n < |arrived| && IsAssembly(Gather(arrived[..n + 1]), arrived[n].index, r)
    requires var n, arrived := FirstLast(b + [last] + rest'), b + [last] + rest';
             n < |arrived| && IsAssembly(Gather(arrived[..n + 1]), arrived[n].index, r')
    ensures r == r'
  {
    AssembledAfter(a, last, rest, r);
    AssembledAfter(b, last, rest', r');
    GatherAnyOrder(a, b);
    GatherLast(a, last);
    GatherLast(b, last);
    AssemblyIsSettled(Gather(a + [last]), last.index, r, r');
  }

  lemma GatherLast(a: seq<Chunk>, last: Chunk)
    ensures Gather(a + [last]) ==
            Gather(a)[last.index := (if last.index in Gather(a) then Gather(a)[last.index] else []) + last.users]
  {
    assert (a + [last])[..|a|] == a;
  }

  lemma AssembledAfter(a: seq<Chunk>, last: Chunk, rest: seq<Chunk>, r: Result<seq<User>, Error>)
    requires last.last && forall c :: c in a ==> !c.last
    requires var n, arrived := FirstLast(a + [last] + rest), a + [last] + rest;
             n < |arrived| && IsAssembly(Gather(arrived[..n + 1]), arrived[n].index, r)
    ensures IsAssembly(Gather(a + [last]), last.index, r)
  {
    FirstLastAfter(a, last, rest);
    assert (a + [last] + rest)[..|a| + 1] == a + [last];
  }
}
