/**
 * What concreteTree computes, stated on values. A `Thread` is a stored comment
 * with the threads of its replies; `Attach(id, pool)` gives the threads hung
 * under the node with that id and the pool left afterwards, following the
 * recursion over the shared, shrinking pool. The lemmas prove the partition of
 * the pool, the reachability characterisation, the placement under the direct
 * parent, the sibling order and the content of the views.
 */
module CommentTree {
  import opened CommentModel
  import opened CommentOrder

  datatype Thread = Thread(comment: Comment, replies: seq<Thread>)

  function ThreadTime(t: Thread): int { t.comment.createTime }

  /** The records of `pool` that reply to `id`, in scan order. */
  function RepliesTo(pool: seq<Comment>, id: nat): (r: seq<Comment>)
    ensures forall c :: c in r <==> c in pool && c.parentId == id
  {
    if pool == [] then []
    else
      var last := pool[|pool| - 1];
      assert pool == pool[..|pool| - 1] + [last];
      RepliesTo(pool[..|pool| - 1], id) + (if last.parentId == id then [last] else [])
  }

  /** The records of `pool` that do not reply to `id`, in scan order. */
  function Remaining(pool: seq<Comment>, id: nat): (r: seq<Comment>)
    ensures forall c :: c in r <==> c in pool && c.parentId != id
    ensures multiset(RepliesTo(pool, id)) + multiset(r) == multiset(pool)
    ensures |RepliesTo(pool, id)| + |r| == |pool|
  {
    if pool == [] then []
    else
      var last := pool[|pool| - 1];
      assert pool == pool[..|pool| - 1] + [last];
      Remaining(pool[..|pool| - 1], id) + (if last.parentId == id then [] else [last])
  }

  /** `pool.removeAll(staged)`: the records of `pool` not among `staged`, in order. */
  function Without(pool: seq<Comment>, staged: seq<Comment>): (r: seq<Comment>)
    ensures forall c :: c in r <==> c in pool && c !in staged
  {
    if pool == [] then []
    else
      var last := pool[|pool| - 1];
      assert pool == pool[..|pool| - 1] + [last];
      Without(pool[..|pool| - 1], staged) + (if last in staged then [] else [last])
  }

  /** Removing the staged replies of `id` leaves exactly the records that do not reply to `id`. */
  lemma {:induction false} WithoutReplies(pool: seq<Comment>, staged: seq<Comment>, id: nat)
    requires forall c :: c in pool ==> (c in staged <==> c.parentId == id)
    ensures Without(pool, staged) == Remaining(pool, id)
  {
    if pool != [] {
      var front := pool[..|pool| - 1];
      assert pool == front + [pool[|pool| - 1]];
      WithoutReplies(front, staged, id);
    }
  }

  /** One scan of concreteTree: its staged records and the pool after `removeAll`
      split the pool, in order and without loss. */
  lemma ScanPartition(pool: seq<Comment>, id: nat)
    ensures Without(pool, RepliesTo(pool, id)) == Remaining(pool, id)
    ensures multiset(RepliesTo(pool, id)) + multiset(Without(pool, RepliesTo(pool, id))) == multiset(pool)
    ensures RepliesTo(pool, id) == [] ==> Without(pool, RepliesTo(pool, id)) == pool
  {
    WithoutReplies(pool, RepliesTo(pool, id), id);
    if RepliesTo(pool, id) == [] {
      NoRepliesRemainAll(pool, id);
    }
  }

  lemma {:induction false} NoRepliesRemainAll(pool: seq<Comment>, id: nat)
    requires RepliesTo(pool, id) == []
    ensures Remaining(pool, id) == pool
  {
    if pool != [] {
      var front := pool[..|pool| - 1];
      assert pool == front + [pool[|pool| - 1]];
      assert pool[|pool| - 1] in pool;
      assert RepliesTo(front, id) == [];
      NoRepliesRemainAll(front, id);
    }
  }

  /** The threads hung under the node `id` and the pool left afterwards (concreteTree). */
  function Attach(id: nat, pool: seq<Comment>, d: Direction): (r: (seq<Thread>, seq<Comment>))
    ensures |r.1| <= |pool|
    decreases |pool|, 0
  {
    if |pool| == 0 then ([], pool)
    else
      var batch := RepliesTo(pool, id);
      var rest := Remaining(pool, id);
      if batch == [] then ([], rest)
      else
        var (threads, left) := AttachEach(batch, rest, d);
        (SortBy(threads, ThreadTime, d), left)
  }

  /** Hangs each staged record's replies under it, in staging order, over the shared pool. */
  function AttachEach(batch: seq<Comment>, pool: seq<Comment>, d: Direction): (r: (seq<Thread>, seq<Comment>))
    ensures |r.1| <= |pool|
    decreases |pool|, 1, |batch|
  {
    if batch == [] then ([], pool)
    else
      var (replies, left) := Attach(batch[0].id, pool, d);
      var (threads, rest) := AttachEach(batch[1..], left, d);
      ([Thread(batch[0], replies)] + threads, rest)
  }

  /** One level of `Attach` over a non-empty pool that holds replies to `id`. */
  lemma AttachLevel(id: nat, pool: seq<Comment>, d: Direction)
    requires |pool| > 0 && RepliesTo(pool, id) != []
    ensures var each := AttachEach(RepliesTo(pool, id), Remaining(pool, id), d);
      Attach(id, pool, d) == (SortBy(each.0, ThreadTime, d), each.1)
  {
  }

  /** Without replies to `id`, nothing is hung under it and the pool stays as it is. */
  lemma AttachNoReplies(id: nat, pool: seq<Comment>, d: Direction)
    requires RepliesTo(pool, id) == []
    ensures Attach(id, pool, d) == ([], pool)
  {
    NoRepliesRemainAll(pool, id);
  }

  /** The records placed in a forest, each counted once per node. */
  function Placed(ts: seq<Thread>): multiset<Comment>
    decreases ts
  {
    if ts == [] then multiset{} else PlacedIn(ts[0]) + Placed(ts[1..])
  }

  function PlacedIn(t: Thread): multiset<Comment>
    decreases t
  {
    multiset{t.comment} + Placed(t.replies)
  }

  /** The stored comments at the top of each thread. */
  function Roots(ts: seq<Thread>): (r: seq<Comment>)
    ensures |r| == |ts| && forall i :: 0 <= i < |ts| ==> r[i] == ts[i].comment
  {
    if ts == [] then [] else [ts[0].comment] + Roots(ts[1..])
  }

  lemma {:induction false} PlacedInsert(t: Thread, ts: seq<Thread>, d: Direction)
    ensures Placed(Insert(t, ts, ThreadTime, d)) == PlacedIn(t) + Placed(ts)
  {
    if ts == [] || Compare(d, ThreadTime(t), ThreadTime(ts[0])) <= 0 {
      assert ([t] + ts)[1..] == ts;
    } else {
      var u := Insert(t, ts[1..], ThreadTime, d);
      PlacedInsert(t, ts[1..], d);
      assert ([ts[0]] + u)[1..] == u;
    }
  }

  /** Sorting siblings neither adds nor drops a record. */
  lemma {:induction false} PlacedSortBy(ts: seq<Thread>, d: Direction)
    ensures Placed(SortBy(ts, ThreadTime, d)) == Placed(ts)
  {
    if ts != [] {
      PlacedSortBy(ts[1..], d);
      PlacedInsert(ts[0], SortBy(ts[1..], ThreadTime, d), d);
    }
  }

  lemma FirstThread(t: Thread, ts: seq<Thread>)
    ensures Placed([t] + ts) == multiset{t.comment} + Placed(t.replies) + Placed(ts)
  {
    assert ([t] + ts)[1..] == ts;
  }

  /** Partition of the pool: every record of `pool` is either placed in the threads or
      left in the pool, as often as it occurs. */
  lemma {:induction false} AttachPartition(id: nat, pool: seq<Comment>, d: Direction)
    ensures multiset(pool) == Placed(Attach(id, pool, d).0) + multiset(Attach(id, pool, d).1)
    decreases |pool|, 0
  {
    if |pool| > 0 && RepliesTo(pool, id) != [] {
      var batch, rest := RepliesTo(pool, id), Remaining(pool, id);
      AttachEachPartition(batch, rest, d);
      PlacedSortBy(AttachEach(batch, rest, d).0, d);
    }
  }

  lemma {:induction false} AttachEachPartition(batch: seq<Comment>, pool: seq<Comment>, d: Direction)
    ensures multiset(batch) + multiset(pool) == Placed(AttachEach(batch, pool, d).0) + multiset(AttachEach(batch, pool, d).1)
    ensures multiset(AttachEach(batch, pool, d).1) <= multiset(pool)
    decreases |pool|, 1, |batch|
  {
    if batch != [] {
      var b, tail := batch[0], batch[1..];
      var sub := Attach(b.id, pool, d);
      AttachPartition(b.id, pool, d);
      var more := AttachEach(tail, sub.1, d);
      AttachEachPartition(tail, sub.1, d);
      assert AttachEach(batch, pool, d) == ([Thread(b, sub.0)] + more.0, more.1);
      PartitionStep(batch, pool, Thread(b, sub.0), sub.1, more.0, more.1);
    }
  }

  lemma PartitionStep(batch: seq<Comment>, pool: seq<Comment>, t: Thread, left: seq<Comment>, threads: seq<Thread>, rest: seq<Comment>)
    requires batch != [] && batch[0] == t.comment
    requires multiset(pool) == Placed(t.replies) + multiset(left)
    requires multiset(batch[1..]) + multiset(left) == Placed(threads) + multiset(rest)
    requires multiset(rest) <= multiset(left)
    ensures multiset(batch) + multiset(pool) == Placed([t] + threads) + multiset(rest)
    ensures multiset(rest) <= multiset(pool)
  {
    FirstThread(t, threads);
    assert batch == [t.comment] + batch[1..];
    Regroup(multiset{t.comment}, multiset(batch[1..]), multiset(pool), Placed(t.replies), multiset(left), Placed(threads), multiset(rest));
    Shrinks(multiset(pool), Placed(t.replies), multiset(left), multiset(rest));
  }

  lemma Shrinks<T>(pool: multiset<T>, sub: multiset<T>, left: multiset<T>, rest: multiset<T>)
    requires pool == sub + left && rest <= left
    ensures rest <= pool
  {
    forall x ensures rest[x] <= pool[x] {
      assert pool[x] == sub[x] + left[x];
    }
  }

  lemma Regroup<T>(b: multiset<T>, tail: multiset<T>, pool: multiset<T>, sub: multiset<T>, left: multiset<T>, more: multiset<T>, rest: multiset<T>)
    requires pool == sub + left && tail + left == more + rest
    ensures b + tail + pool == b + sub + more + rest
  {
    forall x ensures (b + tail + pool)[x] == (b + sub + more + rest)[x] {
      assert (tail + left)[x] == (more + rest)[x];
    }
  }

  lemma Members(pool: seq<Comment>, placed: multiset<Comment>, left: seq<Comment>)
    requires multiset(pool) == placed + multiset(left)
    ensures forall c :: c in pool <==> c in placed || c in left
  {
    forall c ensures c in pool <==> c in placed || c in left {
      assert multiset(pool)[c] == placed[c] + multiset(left)[c];
    }
  }

  lemma SubMembers(rest: seq<Comment>, pool: seq<Comment>)
    requires multiset(rest) <= multiset(pool)
    ensures forall c :: c in rest ==> c in pool
  {
    forall c | c in rest ensures c in pool {
      assert multiset(rest)[c] <= multiset(pool)[c];
    }
  }

  /** What is left in the pool replies neither to `id` nor to any placed record. */
  lemma {:induction false} AttachSettles(id: nat, pool: seq<Comment>, d: Direction)
    ensures forall c :: c in Attach(id, pool, d).1 ==> c.parentId != id
    ensures forall c, p :: c in Attach(id, pool, d).1 && p in Placed(Attach(id, pool, d).0) ==> c.parentId != p.id
    decreases |pool|, 0
  {
    if |pool| > 0 && RepliesTo(pool, id) != [] {
      var batch, rest := RepliesTo(pool, id), Remaining(pool, id);
      var (threads, left) := AttachEach(batch, rest, d);
      AttachEachSettles(batch, rest, d);
      AttachEachPartition(batch, rest, d);
      PlacedSortBy(threads, d);
      SubMembers(left, rest);
    }
  }

  lemma {:induction false} AttachEachSettles(batch: seq<Comment>, pool: seq<Comment>, d: Direction)
    ensures forall c, p :: c in AttachEach(batch, pool, d).1 && p in Placed(AttachEach(batch, pool, d).0) ==> c.parentId != p.id
    decreases |pool|, 1, |batch|
  {
    if batch != [] {
      var b := batch[0];
      var (replies, left) := Attach(b.id, pool, d);
      AttachSettles(b.id, pool, d);
      var (threads, rest) := AttachEach(batch[1..], left, d);
      AttachEachSettles(batch[1..], left, d);
      AttachEachPartition(batch[1..], left, d);
      FirstThread(Thread(b, replies), threads);
      SubMembers(rest, left);
    }
  }

  /** `line` climbs from a record through its parents in `pool`, the last one replying to `ancestor`. */
  ghost predicate IsReplyChain(pool: seq<Comment>, line: seq<Comment>, ancestor: nat) {
    && |line| > 0
    && (forall i :: 0 <= i < |line| ==> line[i] in pool)
    && (forall i :: 0 <= i < |line| - 1 ==> line[i].parentId == line[i + 1].id)
    && line[|line| - 1].parentId == ancestor
  }

  /** The parent chain of `c` within `pool` reaches `ancestor`. */
  ghost predicate DescendsFrom(pool: seq<Comment>, c: Comment, ancestor: nat) {
    exists line :: IsReplyChain(pool, line, ancestor) && line[0] == c
  }

  lemma ExtendChain(pool: seq<Comment>, universe: seq<Comment>, line: seq<Comment>, b: Comment, id: nat)
    requires IsReplyChain(pool, line, b.id)
    requires forall c :: c in pool ==> c in universe
    requires b in universe && b.parentId == id
    ensures IsReplyChain(universe, line + [b], id) && (line + [b])[0] == line[0]
  {
    var l := line + [b];
    forall i | 0 <= i < |l| - 1 ensures l[i].parentId == l[i + 1].id {
      if i < |line| - 1 {
        assert l[i] == line[i] && l[i + 1] == line[i + 1];
      }
    }
  }

  /** Every placed record descends from `id` through records of the pool. */
  lemma {:induction false} AttachSound(id: nat, pool: seq<Comment>, d: Direction)
    ensures forall c :: c in Placed(Attach(id, pool, d).0) ==> DescendsFrom(pool, c, id)
    decreases |pool|, 0
  {
    if |pool| > 0 && RepliesTo(pool, id) != [] {
      var batch, rest := RepliesTo(pool, id), Remaining(pool, id);
      AttachEachSound(batch, rest, d, pool, id);
      PlacedSortBy(AttachEach(batch, rest, d).0, d);
    }
  }

  lemma {:induction false} AttachEachSound(batch: seq<Comment>, pool: seq<Comment>, d: Direction, universe: seq<Comment>, id: nat)
    requires forall b :: b in batch ==> b in universe && b.parentId == id
    requires forall c :: c in pool ==> c in universe
    ensures forall c :: c in Placed(AttachEach(batch, pool, d).0) ==> DescendsFrom(universe, c, id)
    decreases |pool|, 1, |batch|
  {
    if batch != [] {
      var b := batch[0];
      var (replies, left) := Attach(b.id, pool, d);
      AttachSound(b.id, pool, d);
      AttachPartition(b.id, pool, d);
      Members(pool, Placed(replies), left);
      AttachEachSound(batch[1..], left, d, universe, id);
      var (threads, rest) := AttachEach(batch[1..], left, d);
      assert AttachEach(batch, pool, d).0 == [Thread(b, replies)] + threads;
      SoundStep(b, replies, threads, pool, universe, id);
    }
  }

  lemma SoundStep(b: Comment, replies: seq<Thread>, threads: seq<Thread>, pool: seq<Comment>, universe: seq<Comment>, id: nat)
    requires forall c :: c in Placed(replies) ==> DescendsFrom(pool, c, b.id)
    requires forall c :: c in Placed(threads) ==> DescendsFrom(universe, c, id)
    requires forall c :: c in pool ==> c in universe
    requires b in universe && b.parentId == id
    ensures forall c :: c in Placed([Thread(b, replies)] + threads) ==> DescendsFrom(universe, c, id)
  {
    FirstThread(Thread(b, replies), threads);
    forall c | c in Placed([Thread(b, replies)] + threads) ensures DescendsFrom(universe, c, id) {
      if c == b {
        assert IsReplyChain(universe, [b], id);
      } else if c in Placed(replies) {
        var line :| IsReplyChain(pool, line, b.id) && line[0] == c;
        ExtendChain(pool, universe, line, b, id);
      }
    }
  }

  /** Every record of a reply chain to `id` is placed. */
  lemma AttachComplete(id: nat, pool: seq<Comment>, d: Direction, line: seq<Comment>)
    requires IsReplyChain(pool, line, id)
    ensures forall k :: 0 <= k < |line| ==> line[k] in Placed(Attach(id, pool, d).0)
  {
    var (threads, rest) := Attach(id, pool, d);
    AttachPartition(id, pool, d);
    Members(pool, Placed(threads), rest);
    AttachSettles(id, pool, d);
    ChainPlaced(pool, Placed(threads), rest, id, line);
  }

  /** A chain climbs only through placed records when nothing left over replies to
      `id` or to a placed record. */
  lemma ChainPlaced(pool: seq<Comment>, placed: multiset<Comment>, rest: seq<Comment>, id: nat, line: seq<Comment>)
    requires forall c :: c in pool <==> c in placed || c in rest
    requires forall c :: c in rest ==> c.parentId != id
    requires forall c, p :: c in rest && p in placed ==> c.parentId != p.id
    requires IsReplyChain(pool, line, id)
    ensures forall k :: 0 <= k < |line| ==> line[k] in placed
  {
    var k := |line|;
    while k > 0
      invariant 0 <= k <= |line|
      invariant forall j :: k <= j < |line| ==> line[j] in placed
    {
      k := k - 1;
      assert line[k] in placed by {
        if k < |line| - 1 {
          assert line[k + 1] in placed;
        }
      }
    }
  }

  /** Reachability: a record is placed iff its parent chain reaches `id`; it stays in
      the pool iff it is in the pool and its chain does not (orphans, cycles). */
  lemma PlacedIffDescends(id: nat, pool: seq<Comment>, d: Direction)
    ensures forall c :: c in Placed(Attach(id, pool, d).0) <==> c in pool && DescendsFrom(pool, c, id)
    ensures forall c :: c in Attach(id, pool, d).1 <==> c in pool && !DescendsFrom(pool, c, id)
    ensures forall c :: DescendsFrom(pool, c, id) ==> Placed(Attach(id, pool, d).0)[c] == multiset(pool)[c]
  {
    var (threads, rest) := Attach(id, pool, d);
    AttachPartition(id, pool, d);
    Members(pool, Placed(threads), rest);
    AttachSound(id, pool, d);
    AttachSettles(id, pool, d);
    Reachability(pool, Placed(threads), rest, id);
  }

  /** With unique ids, every record whose chain reaches `id` is placed exactly once. */
  lemma PlacedOnce(id: nat, pool: seq<Comment>, d: Direction)
    requires forall i, j :: 0 <= i < j < |pool| ==> pool[i].id != pool[j].id
    ensures forall c :: DescendsFrom(pool, c, id) ==> Placed(Attach(id, pool, d).0)[c] == 1
  {
    PlacedIffDescends(id, pool, d);
    forall c | DescendsFrom(pool, c, id) ensures multiset(pool)[c] == 1 {
      var line :| IsReplyChain(pool, line, id) && line[0] == c;
      assert line[0] in pool;
      UniqueOnce(pool, c);
    }
  }

  lemma {:induction false} UniqueOnce(pool: seq<Comment>, c: Comment)
    requires forall i, j :: 0 <= i < j < |pool| ==> pool[i].id != pool[j].id
    requires c in pool
    ensures multiset(pool)[c] == 1
  {
    assert pool == [pool[0]] + pool[1..];
    if pool[0] == c {
      assert c !in pool[1..] by {
        forall k | 0 <= k < |pool| - 1 ensures pool[1..][k] != c {
          assert pool[1..][k] == pool[k + 1];
        }
      }
    } else {
      UniqueOnce(pool[1..], c);
    }
  }

  /** Records whose parents, as far as the pool has them, stay among themselves and
      none of which replies to `id` (an orphan alone, or a cycle of replies) are all
      left in the pool. */
  lemma ClosedGroupStaysBehind(id: nat, pool: seq<Comment>, d: Direction, group: set<Comment>)
    requires forall s :: s in group ==> s in pool && s.parentId != id
    requires forall s, p :: s in group && p in pool && p.id == s.parentId ==> p in group
    ensures forall s :: s in group ==> s in Attach(id, pool, d).1
  {
    PlacedIffDescends(id, pool, d);
    forall line | IsReplyChain(pool, line, id) && line[0] in group ensures line[|line| - 1] in group {
      ChainInGroup(pool, line, id, group);
    }
  }

  /** A reply chain that starts in a closed group never leaves it. */
  lemma ChainInGroup(pool: seq<Comment>, line: seq<Comment>, id: nat, group: set<Comment>)
    requires forall s, p :: s in group && p in pool && p.id == s.parentId ==> p in group
    requires IsReplyChain(pool, line, id) && line[0] in group
    ensures forall k :: 0 <= k < |line| ==> line[k] in group
  {
    var k := 0;
    while k < |line| - 1
      invariant 0 <= k < |line|
      invariant forall j :: 0 <= j <= k ==> line[j] in group
    {
      assert line[k + 1] in pool && line[k + 1].id == line[k].parentId;
      k := k + 1;
    }
  }

  lemma Reachability(pool: seq<Comment>, placed: multiset<Comment>, rest: seq<Comment>, id: nat)
    requires multiset(pool) == placed + multiset(rest)
    requires forall c :: c in pool <==> c in placed || c in rest
    requires forall c :: c in rest ==> c.parentId != id
    requires forall c, p :: c in rest && p in placed ==> c.parentId != p.id
    requires forall c :: c in placed ==> DescendsFrom(pool, c, id)
    ensures forall c :: c in placed <==> c in pool && DescendsFrom(pool, c, id)
    ensures forall c :: c in rest <==> c in pool && !DescendsFrom(pool, c, id)
    ensures forall c :: DescendsFrom(pool, c, id) ==> placed[c] == multiset(pool)[c]
  {
    forall c | DescendsFrom(pool, c, id) ensures c in placed && c !in rest && placed[c] == multiset(pool)[c] {
      DescendantPlaced(pool, placed, rest, id, c);
    }
  }

  lemma DescendantPlaced(pool: seq<Comment>, placed: multiset<Comment>, rest: seq<Comment>, id: nat, c: Comment)
    requires multiset(pool) == placed + multiset(rest)
    requires forall c :: c in pool <==> c in placed || c in rest
    requires forall c :: c in rest ==> c.parentId != id
    requires forall c, p :: c in rest && p in placed ==> c.parentId != p.id
    requires DescendsFrom(pool, c, id)
    ensures c in placed && c !in rest && placed[c] == multiset(pool)[c]
  {
    var line :| IsReplyChain(pool, line, id) && line[0] == c;
    ChainPlaced(pool, placed, rest, id, line);
    if |line| > 1 {
      assert line[1] in placed;
    }
    assert multiset(pool)[c] == placed[c] + multiset(rest)[c];
  }

  lemma {:induction false} AttachEachRoots(batch: seq<Comment>, pool: seq<Comment>, d: Direction)
    ensures Roots(AttachEach(batch, pool, d).0) == batch
    decreases |batch|
  {
    if batch != [] {
      var sub := Attach(batch[0].id, pool, d);
      var more := AttachEach(batch[1..], sub.1, d).0;
      AttachEachRoots(batch[1..], sub.1, d);
      assert AttachEach(batch, pool, d).0 == [Thread(batch[0], sub.0)] + more;
      RootsCons(Thread(batch[0], sub.0), more);
      assert batch == [batch[0]] + batch[1..];
    }
  }

  lemma RootsCons(t: Thread, ts: seq<Thread>)
    ensures Roots([t] + ts) == [t.comment] + Roots(ts)
  {
  }

  /** The threads directly under `id` start with exactly the records of the pool that
      reply to `id`, stable-sorted by creation time. */
  lemma AttachRoots(id: nat, pool: seq<Comment>, d: Direction)
    ensures Roots(Attach(id, pool, d).0) == SortBy(RepliesTo(pool, id), CommentTime, d)
  {
    if |pool| > 0 && RepliesTo(pool, id) != [] {
      var batch, rest := RepliesTo(pool, id), Remaining(pool, id);
      var threads := AttachEach(batch, rest, d).0;
      AttachEachRoots(batch, rest, d);
      RootsSorted(threads, d);
    }
  }

  lemma RootsSorted(ts: seq<Thread>, d: Direction)
    ensures Roots(SortBy(ts, ThreadTime, d)) == SortBy(Roots(ts), CommentTime, d)
  {
    var top := (t: Thread) => t.comment;
    SortByMap(ts, ThreadTime, top, CommentTime, d);
    assert Roots(SortBy(ts, ThreadTime, d)) == MapSeq(top, SortBy(ts, ThreadTime, d));
    assert MapSeq(top, ts) == Roots(ts);
  }

  /** Every thread of `ts` hangs under `id` and is arranged below. */
  predicate Arranged(ts: seq<Thread>, id: nat, d: Direction)
    decreases ts, 1
  {
    && SortedBy(ts, ThreadTime, d)
    && forall t :: t in ts ==> WellPlaced(t, id, d)
  }

  /** `t` replies to `id`, and its replies are arranged under it. */
  predicate WellPlaced(t: Thread, id: nat, d: Direction)
    decreases t, 0
  {
    t.comment.parentId == id && Arranged(t.replies, t.comment.id, d)
  }

  /** The shape concreteTree promises: every node sits under its direct parent and
      every list of siblings is ordered by the comparator. */
  lemma {:induction false} AttachArranged(id: nat, pool: seq<Comment>, d: Direction)
    ensures Arranged(Attach(id, pool, d).0, id, d)
    decreases |pool|, 0
  {
    if |pool| > 0 && RepliesTo(pool, id) != [] {
      var batch, rest := RepliesTo(pool, id), Remaining(pool, id);
      var threads := AttachEach(batch, rest, d).0;
      AttachEachArranged(batch, rest, d, id);
      forall t | t in SortBy(threads, ThreadTime, d) ensures WellPlaced(t, id, d) {
        assert t in multiset(SortBy(threads, ThreadTime, d));
      }
    }
  }

  lemma {:induction false} AttachEachArranged(batch: seq<Comment>, pool: seq<Comment>, d: Direction, id: nat)
    requires forall b :: b in batch ==> b.parentId == id
    ensures forall t :: t in AttachEach(batch, pool, d).0 ==> WellPlaced(t, id, d)
    decreases |pool|, 1, |batch|
  {
    if batch != [] {
      var sub := Attach(batch[0].id, pool, d);
      AttachArranged(batch[0].id, pool, d);
      AttachEachArranged(batch[1..], sub.1, d, id);
      assert AttachEach(batch, pool, d).0 == [Thread(batch[0], sub.0)] + AttachEach(batch[1..], sub.1, d).0;
    }
  }
}
