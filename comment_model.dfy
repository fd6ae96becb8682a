/**
 * The entities the comment service works on: the stored comment record, the
 * tree view (CommentVO), the flat view with its parent (CommentWithParentVO)
 * and the two page envelopes.
 */
module CommentModel {
  import opened Wrappers

  /** CommentStatus; its declaration is not part of this model, so every status
      other than the two the service names is folded into `Other`. */
  datatype CommentStatus = Published | Auditing | Other

  /** A stored comment (the fields of BaseComment that the service reads). Id 0 is
      never given to a stored comment: it is the id of the synthetic root. */
  datatype Comment = Comment(
    id: nat,
    postId: nat,
    parentId: nat,
    createTime: int,
    author: string,
    content: string,
    status: CommentStatus,
    isAdmin: bool)

  /** A node of the comment tree. `children` is empty for a leaf (Java leaves it null). */
  datatype CommentVO = CommentVO(
    id: nat,
    parentId: nat,
    createTime: int,
    author: string,
    content: string,
    children: seq<CommentVO>)

  /** A comment of the flat page, with the view of its parent comment when there is one. */
  datatype CommentWithParentVO = CommentWithParentVO(comment: Comment, parent: Option<CommentWithParentVO>)

  /** A page of the persistence layer: its content and the request and total it was made for. */
  datatype Page<T> = Page(content: seq<T>, pageNumber: nat, pageSize: nat, totalElements: nat)

  /** The page of the tree view: `totalElements` counts top-level comments, `commentCount` all. */
  datatype CommentPage<T> = CommentPage(
    content: seq<T>,
    pageNumber: nat,
    pageSize: nat,
    totalElements: nat,
    commentCount: nat)

  /** Sort key of both record and node: the creation time. */
  function CommentTime(c: Comment): int { c.createTime }

  function VoTime(v: CommentVO): int { v.createTime }
}
