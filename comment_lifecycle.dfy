/**
 * The two writing operations of the comment service: createBy, which checks the
 * post and the parent, picks the author, the admin flag and the status of the new
 * comment and decides which event it raises, and updateStatus, which sets the status
 * of a stored comment and raises the pass event when it becomes published.
 *
 * The repository is outside the model: its state is the map from id to stored
 * comment and the set of post ids, and what it assigns on creation (the new id and
 * the creation time) are parameters. Publishing an event is returned as a value.
 */
module CommentLifecycle {
  import opened Wrappers
  import opened CommentModel

  /** The events the service publishes, each naming the comment it is about. */
  datatype CommentEvent = NewEvent(commentId: nat) | ReplyEvent(commentId: nat) | PassEvent(commentId: nat)

  /** The logged-in user, as far as createBy reads it. */
  datatype User = User(username: string, nickname: string)

  /** The submitted comment: the post it is for, the comment it replies to (0 for
      none), the author given in the form and the text. */
  datatype CommentParam = CommentParam(postId: nat, parentId: nat, author: string, content: string)

  /** The NotFoundException of the post check, of the parent check and of getById. */
  datatype NotFound = PostNotFound(postId: nat) | ParentNotFound(parentId: nat) | CommentNotFound(commentId: nat)

  /** The outcome of a write: the comment as stored, the new repository state and the
      event published, if any. */
  datatype Written = Written(comment: Comment, store: map<nat, Comment>, event: Option<CommentEvent>)

  /** A logged-in user signs with the nickname, or with the username when the nickname is empty. */
  function AuthorOf(user: User): (r: string)
    ensures user.nickname != [] ==> r == user.nickname
    ensures user.nickname == [] ==> r == user.username
  {
    if user.nickname == [] then user.username else user.nickname
  }

  /** The status of a new comment: published for the blogger; for a guest, under audit
      exactly when the audit option is on, which it is when it is not set. */
  function NewStatus(login: Option<User>, needAudit: Option<bool>): (r: CommentStatus)
    ensures r != Other
    ensures r == Auditing <==> login.None? && needAudit != Some(false)
  {
    if login.Some? then Published
    else if needAudit.GetOr(true) then Auditing else Published
  }

  /** The event createBy raises for the stored comment `c`. */
  function CreationEvent(c: Comment, login: Option<User>): (r: Option<CommentEvent>)
    ensures r.Some? ==> r.value.commentId == c.id
    ensures r == Some(ReplyEvent(c.id)) <==> c.parentId != 0
    ensures r == Some(NewEvent(c.id)) <==> c.parentId == 0 && login.None?
    ensures r == None <==> c.parentId == 0 && login.Some?
  {
    if c.parentId == 0 then
      if login.None? then Some(NewEvent(c.id)) else None
    else Some(ReplyEvent(c.id))
  }

  /** createBy. `login` is the authenticated user, if any; `needAudit` the audit option
      as configured; `posts` the ids of the stored posts; `newId` and `now` the id and
      creation time the repository gives the new record. */
  function CreateBy(param: CommentParam, login: Option<User>, needAudit: Option<bool>,
                    posts: set<nat>, store: map<nat, Comment>, newId: nat, now: int): (r: Result<Written, NotFound>)
    requires newId != 0 && newId !in store
    ensures param.postId !in posts ==> r == Failure(PostNotFound(param.postId))
    ensures param.postId in posts && param.parentId != 0 && param.parentId !in store ==>
      r == Failure(ParentNotFound(param.parentId))
    ensures r.Success? <==> param.postId in posts && (param.parentId == 0 || param.parentId in store)
    ensures r.Success? ==>
      var c := r.value.comment;
      && c.id == newId && c.postId == param.postId && c.parentId == param.parentId
      && c.content == param.content && c.createTime == now
      && c.author == (if login.Some? then AuthorOf(login.value) else param.author)
      && c.isAdmin == login.Some?
      && c.status == NewStatus(login, needAudit)
      && r.value.store == store[newId := c]
      && r.value.event == CreationEvent(c, login)
  {
    if param.postId !in posts then Failure(PostNotFound(param.postId))
    else if param.parentId != 0 && param.parentId !in store then Failure(ParentNotFound(param.parentId))
    else
      var author := if login.Some? then AuthorOf(login.value) else param.author;
      var c := Comment(newId, param.postId, param.parentId, now, author, param.content,
                       NewStatus(login, needAudit), login.Some?);
      Success(Written(c, store[newId := c], CreationEvent(c, login)))
  }

  /** updateStatus: the stored comment with its status replaced; the pass event is
      raised exactly when the new status is published. */
  function UpdateStatus(store: map<nat, Comment>, commentId: nat, status: CommentStatus): (r: Result<Written, NotFound>)
    ensures commentId !in store <==> r == Failure(CommentNotFound(commentId))
    ensures r.Success? ==>
      && r.value.comment == store[commentId].(status := status)
      && r.value.store == store[commentId := r.value.comment]
      && (r.value.event == Some(PassEvent(commentId)) <==> status == Published)
      && (r.value.event == None <==> status != Published)
  {
    if commentId !in store then Failure(CommentNotFound(commentId))
    else
      var c := store[commentId].(status := status);
      Success(Written(c, store[commentId := c], if status == Published then Some(PassEvent(commentId)) else None))
  }

  /** A created comment is stored under its new id, every other stored comment is
      kept, and a reply's parent is among the stored comments. */
  lemma CreateKeepsStore(param: CommentParam, login: Option<User>, needAudit: Option<bool>,
                         posts: set<nat>, store: map<nat, Comment>, newId: nat, now: int)
    requires newId != 0 && newId !in store
    requires CreateBy(param, login, needAudit, posts, store, newId, now).Success?
    ensures var w := CreateBy(param, login, needAudit, posts, store, newId, now).value;
      && w.store.Keys == store.Keys + {newId}
      && w.store[newId] == w.comment
      && (forall id :: id in store ==> w.store[id] == store[id])
      && (w.comment.parentId != 0 ==> w.comment.parentId in w.store && w.comment.parentId != newId)
  {
  }

  /** A guest's comment under the default audit option waits for audit and announces
      itself; passing it publishes exactly that record, changes nothing else and raises
      the pass event. */
  lemma AuditThenPass(param: CommentParam, posts: set<nat>, store: map<nat, Comment>, newId: nat, now: int)
    requires newId != 0 && newId !in store
    requires param.postId in posts && param.parentId == 0
    ensures var created := CreateBy(param, None, None, posts, store, newId, now);
      && created.Success?
      && created.value.comment.status == Auditing
      && created.value.event == Some(NewEvent(newId))
      && var passed := UpdateStatus(created.value.store, newId, Published);
      && passed.Success?
      && passed.value.comment == created.value.comment.(status := Published)
      && passed.value.store == store[newId := created.value.comment.(status := Published)]
      && passed.value.event == Some(PassEvent(newId))
  {
    var created := CreateBy(param, None, None, posts, store, newId, now);
    var c := created.value.comment;
    assert created.value.store[newId := c.(status := Published)] == store[newId := c.(status := Published)];
  }

  /** Setting a status twice is setting it once, except that the pass event is raised again. */
  lemma UpdateStatusIdempotent(store: map<nat, Comment>, commentId: nat, status: CommentStatus)
    requires commentId in store
    ensures var once := UpdateStatus(store, commentId, status).value;
      var twice := UpdateStatus(once.store, commentId, status).value;
      twice.store == once.store && twice.comment == once.comment && twice.event == once.event
  {
    var once := UpdateStatus(store, commentId, status).value;
    assert once.store[commentId := once.comment] == once.store;
  }
}
