/**
 * The two read operations of the comment service: the paged tree view of a post
 * (pageVosBy) and the flat page in which each comment carries its parent
 * (pageWithParentVoBy). The persistence layer is outside the model: the records
 * it returns are parameters.
 */
module CommentService {
  import opened Wrappers
  import opened CommentModel
  import opened CommentOrder
  import opened CommentTree
  import opened CommentView
  import opened TreeBuilder
  import opened CommentPaging

  /** pageVosBy over `comments`, the published comments of the post: the tree is
      concreted under the virtual top comment with the comparator of the request's
      sort (descending creation time when it has none), and the page is cut out of
      the top-level comments. */
  method PageVosBy(comments: seq<Comment>, pageNumber: nat, pageSize: nat, sort: Sort, template: Template)
    returns (page: CommentPage<CommentVO>)
    ensures page.content == PageWindow(Forest(comments, CreateTimeDirection(SortOr(sort, DEFAULT_SORT)), template), pageNumber, pageSize)
    ensures page.totalElements == |RepliesTo(comments, ROOT_ID)|
    ensures page.commentCount == |comments|
    ensures page.pageNumber == pageNumber && page.pageSize == pageSize
  {
    var pool := new CommentPool(comments);
    var d := CreateTimeDirection(SortOr(sort, DEFAULT_SORT));
    var root := ConcreteTree(ROOT, pool, d, template);
    var topComments := root.children;
    ForestTop(comments, d, template);
    page := CommentPage(PageWindow(topComments, pageNumber, pageSize), pageNumber, pageSize, |topComments|, |comments|);
  }

  /** `fetchProperty(comments, getParentId)`: the set of the parent ids of the page. */
  function ParentIds(comments: seq<Comment>): set<nat> {
    if comments == [] then {} else ParentIds(comments[..|comments| - 1]) + {comments[|comments| - 1].parentId}
  }

  /** The parent id of every comment of the page is among the parent ids. */
  lemma {:induction false} ParentIdsMember(comments: seq<Comment>, i: nat)
    requires i < |comments|
    ensures comments[i].parentId in ParentIds(comments)
  {
    if i < |comments| - 1 {
      var init := comments[..|comments| - 1];
      assert init[i] == comments[i];
      ParentIdsMember(init, i);
    }
  }

  /** The parent ids are exactly the ids some comment of the page replies to. */
  lemma {:induction false} ParentIdsMembers(comments: seq<Comment>)
    ensures forall id :: id in ParentIds(comments) <==> exists i :: 0 <= i < |comments| && comments[i].parentId == id
  {
    forall i | 0 <= i < |comments| ensures comments[i].parentId in ParentIds(comments) {
      ParentIdsMember(comments, i);
    }
    if comments != [] {
      var init := comments[..|comments| - 1];
      ParentIdsMembers(init);
      forall id | id in ParentIds(init) ensures exists i :: 0 <= i < |comments| && comments[i].parentId == id {
        var i :| 0 <= i < |init| && init[i].parentId == id;
        assert comments[i] == init[i];
      }
    }
  }

  /** `convertToMap(comments, getId)`: each id that occurs, mapped to the first record with it. */
  function IdMap(comments: seq<Comment>): (r: map<nat, Comment>)
    ensures forall id :: id in r <==> exists i :: 0 <= i < |comments| && comments[i].id == id
    ensures forall id :: id in r ==> r[id].id == id && r[id] in comments
  {
    if comments == [] then map[]
    else
      var m := IdMap(comments[1..]);
      assert forall i :: 1 <= i < |comments| ==> comments[i] == comments[1..][i - 1];
      m[comments[0].id := comments[0]]
  }

  /** The first record with an id is the one kept. */
  lemma {:induction false} IdMapKeepsFirst(comments: seq<Comment>, i: nat)
    requires i < |comments|
    requires forall j :: 0 <= j < i ==> comments[j].id != comments[i].id
    ensures IdMap(comments)[comments[i].id] == comments[i]
  {
    if i > 0 {
      var tail := comments[1..];
      assert tail[i - 1] == comments[i];
      forall j | 0 <= j < i - 1 ensures tail[j].id != tail[i - 1].id {
        assert tail[j] == comments[j + 1];
      }
      IdMapKeepsFirst(tail, i - 1);
    }
  }

  /** The view of a parent: the record alone, without its own parent. */
  function ParentView(parent: Comment): CommentWithParentVO {
    CommentWithParentVO(parent, None)
  }

  /** The view of `c` with its parent looked up among `parents`. */
  function WithParent(c: Comment, parents: map<nat, Comment>): CommentWithParentVO {
    CommentWithParentVO(c, if c.parentId in parents then Some(ParentView(parents[c.parentId])) else None)
  }

  /** pageWithParentVoBy over `commentPage`, a page of the post's published comments;
      `findAllByIdIn` is the repository lookup of comments by id. The views of the
      parents are cached by id as they are met: the result is the page of `WithParent`
      views all the same, and the cache ends up holding one view per parent found, each
      converted once: `converted` lists the ids of the parent records turned into views. */
  method PageWithParentVoBy(commentPage: Page<Comment>, findAllByIdIn: set<nat> -> seq<Comment>)
    returns (result: Page<CommentWithParentVO>, ghost cache: map<nat, CommentWithParentVO>, ghost converted: seq<nat>)
    ensures |result.content| == |commentPage.content|
    ensures forall i :: 0 <= i < |commentPage.content| ==>
      result.content[i] == WithParent(commentPage.content[i], IdMap(findAllByIdIn(ParentIds(commentPage.content))))
    ensures result.pageNumber == commentPage.pageNumber && result.pageSize == commentPage.pageSize
    ensures result.totalElements == commentPage.totalElements
    ensures forall id :: id in cache <==> id in ParentIds(commentPage.content) && id in IdMap(findAllByIdIn(ParentIds(commentPage.content)))
    ensures forall id :: id in cache ==> cache[id] == ParentView(IdMap(findAllByIdIn(ParentIds(commentPage.content)))[id])
    ensures forall id :: id in cache <==> id in converted
    ensures forall a, b :: 0 <= a < b < |converted| ==> converted[a] != converted[b]
  {
    var comments := commentPage.content;
    var parentIds := ParentIds(comments);
    var parentComments := findAllByIdIn(parentIds);
    var parentCommentMap := IdMap(parentComments);
    var content;
    content, cache, converted := ResolveParents(comments, parentCommentMap);
    ParentIdsMembers(comments);
    result := Page(content, commentPage.pageNumber, commentPage.pageSize, commentPage.totalElements);
  }

  /** The loop of pageWithParentVoBy over the page's comments, with `parentCommentMap`
      the fetched parents by id: each comment gets the view of its parent, taken from
      the cache when that parent was met before and converted (and cached) otherwise. */
  method ResolveParents(comments: seq<Comment>, parentCommentMap: map<nat, Comment>)
    returns (content: seq<CommentWithParentVO>, ghost cache: map<nat, CommentWithParentVO>, ghost converted: seq<nat>)
    requires forall id :: id in parentCommentMap ==> parentCommentMap[id].id == id
    ensures |content| == |comments|
    ensures forall k :: 0 <= k < |comments| ==> content[k] == WithParent(comments[k], parentCommentMap)
    ensures forall id :: id in cache ==> id in parentCommentMap && cache[id] == ParentView(parentCommentMap[id])
    ensures forall id :: id in cache ==> id in ParentIds(comments)
    ensures forall k :: 0 <= k < |comments| && comments[k].parentId in parentCommentMap ==> comments[k].parentId in cache
    ensures forall id :: id in cache <==> id in converted
    ensures forall a, b :: 0 <= a < b < |converted| ==> converted[a] != converted[b]
  {
    var parentCommentVoMap: map<nat, CommentWithParentVO> := map[];
    content := [];
    converted := [];
    for i := 0 to |comments|
      invariant |content| == i
      invariant forall k :: 0 <= k < i ==> content[k] == WithParent(comments[k], parentCommentMap)
      invariant forall id :: id in parentCommentVoMap ==>
        id in parentCommentMap && parentCommentVoMap[id] == ParentView(parentCommentMap[id])
      invariant forall id :: id in parentCommentVoMap ==> id in ParentIds(comments)
      invariant forall k :: 0 <= k < i && comments[k].parentId in parentCommentMap ==> comments[k].parentId in parentCommentVoMap
      invariant forall id :: id in parentCommentVoMap <==> id in converted
      invariant forall a, b :: 0 <= a < b < |converted| ==> converted[a] != converted[b]
    {
      var comment := comments[i];
      var parentCommentVo: Option<CommentWithParentVO> :=
        if comment.parentId in parentCommentVoMap then Some(parentCommentVoMap[comment.parentId]) else None;
      if parentCommentVo == None {
        if comment.parentId in parentCommentMap {
          var parentComment := parentCommentMap[comment.parentId];
          ParentIdsMember(comments, i);
          parentCommentVo := Some(CommentWithParentVO(parentComment, None));
          parentCommentVoMap := parentCommentVoMap[parentComment.id := parentCommentVo.value];
          converted := converted + [parentComment.id];
        }
      }
      assert parentCommentVo == WithParent(comment, parentCommentMap).parent;
      content := content + [CommentWithParentVO(comment, parentCommentVo)];
    }
    cache := parentCommentVoMap;
  }

  /** What a comment of the flat page carries: a parent exactly when a record with its
      parent id was fetched, and then that record, by id, with no parent of its own. */
  lemma WithParentFound(c: Comment, fetched: seq<Comment>)
    ensures WithParent(c, IdMap(fetched)).comment == c
    ensures WithParent(c, IdMap(fetched)).parent.Some? <==> exists j :: 0 <= j < |fetched| && fetched[j].id == c.parentId
    ensures WithParent(c, IdMap(fetched)).parent.Some? ==>
      var p := WithParent(c, IdMap(fetched)).parent.value;
      p.comment.id == c.parentId && p.comment in fetched && p.parent == None
  {
  }
}
