/**
 * concreteTree as the service runs it: one scan of the shared pool stages the
 * replies of the parent and builds their views, `removeAll` takes the staged
 * records out of the pool, each child is concreted in turn over what is left,
 * and the children are sorted with the comparator.
 */
module TreeBuilder {
  import opened CommentModel
  import opened CommentOrder
  import opened CommentTree
  import opened CommentView

  /** The list of not yet placed comments that every level of concreteTree shares
      and shrinks (the LinkedList copy made by pageVosBy). */
  class CommentPool {
    var comments: seq<Comment>

    constructor(comments: seq<Comment>)
      ensures this.comments == comments
    {
      this.comments := comments;
    }

    /** `removeAll(staged)`: drops every record equal to a staged one, keeps the order of the rest. */
    method RemoveAll(staged: seq<Comment>)
      modifies this
      ensures comments == Without(old(comments), staged)
    {
      var kept: seq<Comment> := [];
      var i := 0;
      while i < |comments|
        invariant 0 <= i <= |comments|
        invariant kept == Without(comments[..i], staged)
      {
        assert comments[..i + 1][..i] == comments[..i];
        if comments[i] !in staged {
          kept := kept + [comments[i]];
        }
        i := i + 1;
      }
      assert comments[..i] == comments;
      comments := kept;
    }
  }

  /** The scan of concreteTree: the records of the pool that reply to `parent`, in
      pool order, and their views. Nothing is changed. */
  method Stage(parent: CommentVO, pool: CommentPool, template: Template) returns (staged: seq<Comment>, vos: seq<CommentVO>)
    ensures staged == RepliesTo(pool.comments, parent.id)
    ensures |vos| == |staged|
    ensures forall k :: 0 <= k < |staged| ==> vos[k] == ToVO(staged[k], parent.author, template)
  {
    staged, vos := [], [];
    var i := 0;
    while i < |pool.comments|
      invariant 0 <= i <= |pool.comments|
      invariant staged == RepliesTo(pool.comments[..i], parent.id)
      invariant |vos| == |staged|
      invariant forall k :: 0 <= k < |staged| ==> vos[k] == ToVO(staged[k], parent.author, template)
    {
      var c := pool.comments[i];
      assert pool.comments[..i + 1][..i] == pool.comments[..i];
      if parent.id == c.parentId {
        staged := staged + [c];
        var vo := CommentVO(c.id, c.parentId, c.createTime, c.author, c.content, []);
        if vo.parentId > 0 {
          vo := vo.(content := template(parent.id, parent.author, vo.content));
        }
        vos := vos + [vo];
      }
      i := i + 1;
    }
    assert pool.comments[..i] == pool.comments;
  }

  /** Fills in the children of `parent` (a node that has none yet) from the pool,
      removing from the pool every record it places. The result is the view of the
      threads `Attach` hangs under the parent, and the pool keeps what `Attach` leaves. */
  method ConcreteTree(parent: CommentVO, pool: CommentPool, d: Direction, template: Template) returns (tree: CommentVO)
    requires parent.children == []
    modifies pool
    ensures tree == parent.(children := RenderAll(Attach(parent.id, old(pool.comments), d).0, parent.author, template))
    ensures pool.comments == Attach(parent.id, old(pool.comments), d).1
    decreases |pool.comments|, 0
  {
    if |pool.comments| == 0 {
      return parent;
    }
    ghost var start := pool.comments;
    var staged, vos := Stage(parent, pool, template);
    pool.RemoveAll(staged);
    ScanPartition(start, parent.id);
    if vos == [] {
      AttachNoReplies(parent.id, start, d);
      return parent;
    }
    ghost var threads := AttachEach(staged, pool.comments, d).0;
    var done := ConcreteAll(staged, vos, parent.author, pool, d, template);
    RenderSorted(threads, parent.author, template, d);
    AttachLevel(parent.id, start, d);
    tree := parent.(children := SortBy(done, VoTime, d));
  }

  /** Concretes the views of the staged records one after another over the shared
      pool: the children of one level, before they are sorted. */
  method ConcreteAll(staged: seq<Comment>, vos: seq<CommentVO>, parentAuthor: string, pool: CommentPool, d: Direction, template: Template)
    returns (done: seq<CommentVO>)
    requires |vos| == |staged|
    requires forall k :: 0 <= k < |staged| ==> vos[k] == ToVO(staged[k], parentAuthor, template)
    modifies pool
    ensures done == RenderAll(AttachEach(staged, old(pool.comments), d).0, parentAuthor, template)
    ensures pool.comments == AttachEach(staged, old(pool.comments), d).1
    decreases |pool.comments|, 1
  {
    ghost var target := AttachEach(staged, pool.comments, d);
    ghost var threads: seq<Thread> := [];
    done := [];
    var j := 0;
    assert staged[j..] == staged;
    assert threads + target.0 == target.0;
    while j < |vos|
      invariant 0 <= j <= |vos|
      invariant |pool.comments| <= |old(pool.comments)|
      invariant threads + AttachEach(staged[j..], pool.comments, d).0 == target.0
      invariant AttachEach(staged[j..], pool.comments, d).1 == target.1
      invariant done == RenderAll(threads, parentAuthor, template)
    {
      ghost var before := pool.comments;
      var child := ConcreteTree(vos[j], pool, d, template);
      ghost var sub := Attach(staged[j].id, before, d);
      EachStep(staged[j..], before, d, threads, target);
      assert staged[j..][1..] == staged[j + 1..];
      assert child == Render(Thread(staged[j], sub.0), parentAuthor, template);
      RenderAllSnoc(threads, Thread(staged[j], sub.0), parentAuthor, template);
      threads := threads + [Thread(staged[j], sub.0)];
      done := done + [child];
      j := j + 1;
    }
    assert staged[j..] == [];
  }

  /** Concreting the first remaining staged record advances `AttachEach` by one thread. */
  lemma EachStep(batch: seq<Comment>, before: seq<Comment>, d: Direction, threads: seq<Thread>, target: (seq<Thread>, seq<Comment>))
    requires batch != []
    requires threads + AttachEach(batch, before, d).0 == target.0
    requires AttachEach(batch, before, d).1 == target.1
    ensures var sub := Attach(batch[0].id, before, d);
      && (threads + [Thread(batch[0], sub.0)]) + AttachEach(batch[1..], sub.1, d).0 == target.0
      && AttachEach(batch[1..], sub.1, d).1 == target.1
  {
    var sub := Attach(batch[0].id, before, d);
    var more := AttachEach(batch[1..], sub.1, d);
    assert AttachEach(batch, before, d) == ([Thread(batch[0], sub.0)] + more.0, more.1);
    assert threads + ([Thread(batch[0], sub.0)] + more.0) == (threads + [Thread(batch[0], sub.0)]) + more.0;
  }

  lemma RenderAllSnoc(ts: seq<Thread>, t: Thread, parentAuthor: string, template: Template)
    ensures RenderAll(ts + [t], parentAuthor, template) == RenderAll(ts, parentAuthor, template) + [Render(t, parentAuthor, template)]
  {
  }
}
