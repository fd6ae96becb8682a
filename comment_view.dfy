/**
 * The tree view built from the threads: each stored comment becomes a CommentVO
 * (convertFrom), a reply's content is rewritten with the comment template naming
 * its parent, and the children of a node are the views of its replies.
 */
module CommentView {
  import opened CommentModel
  import opened CommentOrder
  import opened CommentTree

  /** The format applied to a reply's content: parent id, parent author, reply content.
      The template text itself is not part of this model, so it is a parameter. */
  type Template = (nat, string, string) -> string

  /** Id of the virtual top comment all top-level comments hang under. */
  const ROOT_ID: nat := 0

  /** Author of the virtual top comment (Java leaves it null; it is never formatted). */
  const ROOT_AUTHOR: string := ""

  /** The virtual top comment of the tree, before its children are concreted. */
  const ROOT: CommentVO := CommentVO(ROOT_ID, 0, 0, ROOT_AUTHOR, "", [])

  /** convertFrom, then the reply content of a comment whose parent id is positive. */
  function ToVO(c: Comment, parentAuthor: string, template: Template): CommentVO {
    var content := if c.parentId > 0 then template(c.parentId, parentAuthor, c.content) else c.content;
    CommentVO(c.id, c.parentId, c.createTime, c.author, content, [])
  }

  /** The view of a thread whose parent node has author `parentAuthor`. */
  function Render(t: Thread, parentAuthor: string, template: Template): CommentVO
    decreases t
  {
    ToVO(t.comment, parentAuthor, template).(children := RenderAll(t.replies, t.comment.author, template))
  }

  function RenderAll(ts: seq<Thread>, parentAuthor: string, template: Template): (r: seq<CommentVO>)
    ensures |r| == |ts|
    ensures forall i :: 0 <= i < |ts| ==> r[i] == Render(ts[i], parentAuthor, template)
    decreases ts
  {
    if ts == [] then [] else [Render(ts[0], parentAuthor, template)] + RenderAll(ts[1..], parentAuthor, template)
  }

  /** Sorting the views of siblings with the comparator gives the views of the
      siblings sorted by creation time: the views can be sorted after they are built. */
  lemma RenderSorted(ts: seq<Thread>, parentAuthor: string, template: Template, d: Direction)
    ensures SortBy(RenderAll(ts, parentAuthor, template), VoTime, d) == RenderAll(SortBy(ts, ThreadTime, d), parentAuthor, template)
  {
    var view := (t: Thread) => Render(t, parentAuthor, template);
    SortByMap(ts, ThreadTime, view, VoTime, d);
    assert RenderAll(ts, parentAuthor, template) == MapSeq(view, ts);
    assert RenderAll(SortBy(ts, ThreadTime, d), parentAuthor, template) == MapSeq(view, SortBy(ts, ThreadTime, d));
  }

  /** The top-level comments of the tree view of `comments`. */
  function Forest(comments: seq<Comment>, d: Direction, template: Template): seq<CommentVO> {
    RenderAll(Attach(ROOT_ID, comments, d).0, ROOT_AUTHOR, template)
  }

  /** Every node lies under its direct parent and all siblings are in comparator order. */
  predicate VoArranged(vs: seq<CommentVO>, id: nat, d: Direction)
    decreases vs, 1
  {
    && SortedBy(vs, VoTime, d)
    && forall v :: v in vs ==> VoWellPlaced(v, id, d)
  }

  predicate VoWellPlaced(v: CommentVO, id: nat, d: Direction)
    decreases v, 0
  {
    v.parentId == id && VoArranged(v.children, v.id, d)
  }

  lemma {:induction false} RenderArranged(ts: seq<Thread>, id: nat, parentAuthor: string, template: Template, d: Direction)
    requires Arranged(ts, id, d)
    ensures VoArranged(RenderAll(ts, parentAuthor, template), id, d)
    decreases ts
  {
    var vs := RenderAll(ts, parentAuthor, template);
    forall i, j | 0 <= i < j < |vs| ensures Compare(d, VoTime(vs[i]), VoTime(vs[j])) <= 0 {
      assert ThreadTime(ts[i]) == VoTime(vs[i]) && ThreadTime(ts[j]) == VoTime(vs[j]);
    }
    forall v | v in vs ensures VoWellPlaced(v, id, d) {
      var i :| 0 <= i < |vs| && vs[i] == v;
      assert ts[i] in ts && WellPlaced(ts[i], id, d);
      RenderArranged(ts[i].replies, ts[i].comment.id, ts[i].comment.author, template, d);
    }
  }

  /** The tree view promised to readers: every reply sits under the comment it
      replies to and every list of siblings is ordered by the comparator. */
  lemma ForestArranged(comments: seq<Comment>, d: Direction, template: Template)
    ensures VoArranged(Forest(comments, d, template), ROOT_ID, d)
  {
    AttachArranged(ROOT_ID, comments, d);
    RenderArranged(Attach(ROOT_ID, comments, d).0, ROOT_ID, ROOT_AUTHOR, template, d);
  }

  /** The top level of the tree view: one node per top-level comment, sorted by
      creation time, with the comment's id, author and unchanged content. */
  lemma ForestTop(comments: seq<Comment>, d: Direction, template: Template)
    ensures |Forest(comments, d, template)| == |RepliesTo(comments, ROOT_ID)|
    ensures forall i :: 0 <= i < |Forest(comments, d, template)| ==>
      var c := SortBy(RepliesTo(comments, ROOT_ID), CommentTime, d)[i];
      var v := Forest(comments, d, template)[i];
      v.id == c.id && v.parentId == ROOT_ID && v.author == c.author && v.content == c.content
  {
    var threads := Attach(ROOT_ID, comments, d).0;
    AttachRoots(ROOT_ID, comments, d);
    AttachArranged(ROOT_ID, comments, d);
    forall i | 0 <= i < |threads| ensures threads[i].comment.parentId == ROOT_ID {
      assert threads[i] in threads;
    }
  }

  /** The view of a reply hung under a node names that node: its content is the
      template applied to the node's id and author and the reply's own content, and a
      record hung under the virtual top comment (id 0) keeps its content. */
  lemma ReplyContent(t: Thread, parentAuthor: string, template: Template, i: nat)
    requires i < |t.replies| && t.replies[i].comment.parentId == t.comment.id
    ensures Render(t, parentAuthor, template).children[i].content ==
      if t.comment.id > 0 then template(t.comment.id, t.comment.author, t.replies[i].comment.content)
      else t.replies[i].comment.content
  {
  }
}
