/**
 * Small worked cases of the comment tree and its page window, each stated on
 * concrete records.
 */
module CommentExamples {
  import opened CommentModel
  import opened CommentOrder
  import opened CommentTree
  import opened CommentView
  import opened CommentPaging

  function Rec(id: nat, parentId: nat, createTime: int): Comment {
    Comment(id, 1, parentId, createTime, "a", "c", Published, false)
  }

  /** Under the default order the later of two top-level comments comes first. */
  lemma NewestFirst()
    ensures SortBy([Rec(1, 0, 10), Rec(2, 0, 20)], CommentTime, CreateTimeDirection(DEFAULT_SORT)) == [Rec(2, 0, 20), Rec(1, 0, 10)]
  {
    assert CreateTimeDirection(DEFAULT_SORT) == Desc;
  }

  /** Five top-level comments in pages of two: the third page holds the fifth alone,
      the fourth is empty. */
  lemma ThirdPageOfFive<T>(top: seq<T>)
    requires |top| == 5
    ensures PageWindow(top, 2, 2) == [top[4]]
    ensures PageWindow(top, 3, 2) == []
  {
  }
}
