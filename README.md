# Comment service of the halo blog, modelled in Dafny

This project models the core of `CommentServiceImpl` in the halo blog engine. It covers:

- building a post's comment tree from the flat list of its published comments (`concreteTree`);
- the comparator that orders siblings by creation time (`buildCommentComparator`);
- cutting one page of top-level comments out of the tree, with its totals (`pageVosBy`);
- resolving each comment's parent, through a cache, for the flat page (`pageWithParentVoBy`);
- the checks, status and event decisions when a comment is created (`createBy`);
- the status change, and its pass event, when a comment is audited (`updateStatus`).

The model has two layers.

- **Specification.** `CommentTree.Attach` states on values what concreteTree computes. It walks the same shared, shrinking pool in the same order and returns the threads hung under a node together with the records left over. The tree view is `CommentView.Forest`: each record becomes a `CommentVO`, and a reply's content goes through the comment template.
- **Implementation.** `TreeBuilder` follows the Java step by step. A `CommentPool` class holds the shared list: its `removeAll` is a loop, the scan of a level is a loop, and each child is concreted in turn over the pool. These methods are proved equal to the specification.

On top of the specification the lemmas prove:

- the pool is partitioned between the tree and the leftovers;
- a record is placed exactly when its parent chain reaches the root, and with unique ids exactly once;
- orphans and reply cycles stay behind;
- every reply sits under its direct parent;
- every sibling list is stably sorted by the comparator, and any stable sort gives the same list;
- the content of each view;
- the page window, and that the pages laid end to end spell out the top-level list.

The flat page and the two writing operations are modelled on values. The repository's results and state are parameters.

Files (one module each):

- `wrappers.dfy`: `Option` and `Result`.
- `comment_model.dfy`: the comment record, the two view types and the page envelopes.
- `comment_order.dfy`: sort orders, the comparator, and the stable sort `SortBy` with its sortedness, stability, uniqueness and map-commutation lemmas.
- `comment_tree.dfy`: the specification `Attach`/`AttachEach` and the partition, reachability, root and arrangement theorems.
- `comment_view.dfy`: the CommentVO views and the tree view `Forest`.
- `tree_builder.dfy`: concreteTree as the service runs it (the pool class, scan, removeAll, recursion, sort).
- `comment_paging.dfy`: the page window, on unbounded integers and with Java `int` arithmetic.
- `comment_service.dfy`: pageVosBy and pageWithParentVoBy.
- `comment_lifecycle.dfy`: createBy and updateStatus.
- `comment_examples.dfy`: two worked cases.

## Model

| member | source | states |
|---|---|---|
| CommentOrder.NoCreateTimeOrderIsDesc | src/main/java/run/halo/app/service/impl/CommentServiceImpl.java:341-346 | when the sort has no createTime order the comparator falls back to descending |
| CommentOrder.FirstCreateTimeOrderDecides | src/main/java/run/halo/app/service/impl/CommentServiceImpl.java:341-349 | the first createTime order of the sort decides the direction |
| CommentOrder.Compare | src/main/java/run/halo/app/service/impl/CommentServiceImpl.java:349-352 | the comparator returns -1, 0 or 1; it is 0 exactly for equal creation times, and negative exactly when the first comes first in the direction |
| CommentOrder.CompareIsSigned | src/main/java/run/halo/app/service/impl/CommentServiceImpl.java:349-352 | the comparator is sign times compareTo, sign +1 for ascending and -1 otherwise |
| CommentOrder.CompareAntisymmetric | src/main/java/run/halo/app/service/impl/CommentServiceImpl.java:349-352 | swapping the arguments negates the comparison |
| CommentOrder.CompareTransitive | src/main/java/run/halo/app/service/impl/CommentServiceImpl.java:349-352 | the order the comparator induces is transitive |
| CommentOrder.Insert | src/main/java/run/halo/app/service/impl/CommentServiceImpl.java:403 | inserting into a sibling list keeps its elements as a multiset and adds the new one |
| CommentOrder.InsertSorted | src/main/java/run/halo/app/service/impl/CommentServiceImpl.java:403 | inserting into a sorted list keeps it sorted |
| CommentOrder.SortBy | src/main/java/run/halo/app/service/impl/CommentServiceImpl.java:403 | List.sort: the result is a permutation of the input and sorted by the comparator |
| CommentOrder.SortByStable | src/main/java/run/halo/app/service/impl/CommentServiceImpl.java:403 | ties keep input order: the elements with one creation time appear in the order they came |
| CommentOrder.SortedStableUnique | src/main/java/run/halo/app/service/impl/CommentServiceImpl.java:403 | two lists that are both sorted and both keep input order among ties, over the same elements, are equal |
| CommentOrder.SortByIsTheStableSort | src/main/java/run/halo/app/service/impl/CommentServiceImpl.java:403 | any sorted, stable permutation of the input equals SortBy's result, so any stable sort (such as TimSort) gives that list |
| CommentOrder.SortByMap | src/main/java/run/halo/app/service/impl/CommentServiceImpl.java:403 | mapping every element then sorting by the mapped key equals sorting then mapping, so views can be sorted after they are built |
| CommentTree.RepliesTo | src/main/java/run/halo/app/service/impl/CommentServiceImpl.java:373-378 | the staged children of a node are exactly the pool records whose parent id is the node's id |
| CommentTree.Remaining | src/main/java/run/halo/app/service/impl/CommentServiceImpl.java:373-397 | the records left by the scan are the others; together with the staged ones they make up the pool as a multiset |
| CommentTree.Without | src/main/java/run/halo/app/service/impl/CommentServiceImpl.java:397 | removeAll keeps exactly the records not among the staged ones |
| CommentTree.WithoutReplies | src/main/java/run/halo/app/service/impl/CommentServiceImpl.java:373-397 | removing the staged replies leaves exactly the records that reply elsewhere |
| CommentTree.ScanPartition | src/main/java/run/halo/app/service/impl/CommentServiceImpl.java:373-397 | one level's scan and removeAll split the pool in order and without loss; with no replies the pool is unchanged |
| CommentTree.Attach | src/main/java/run/halo/app/service/impl/CommentServiceImpl.java:363-405 | concreteTree never grows the pool |
| CommentTree.AttachLevel | src/main/java/run/halo/app/service/impl/CommentServiceImpl.java:371-404 | one level: the replies are staged, each is concreted in turn over the shrinking pool, then the children are sorted |
| CommentTree.AttachNoReplies | src/main/java/run/halo/app/service/impl/CommentServiceImpl.java:393-399 | a node without replies gets no children and leaves the pool as it is |
| CommentTree.AttachPartition | src/main/java/run/halo/app/service/impl/CommentServiceImpl.java:371-404 | every record of the pool is either placed in the tree or left in the pool, as often as it occurs |
| CommentTree.AttachEachPartition | src/main/java/run/halo/app/service/impl/CommentServiceImpl.java:399-402 | concreting a list of staged children consumes exactly the records placed under them |
| CommentTree.AttachSettles | src/main/java/run/halo/app/service/impl/CommentServiceImpl.java:373-402 | what is left replies neither to the node nor to any placed record |
| CommentTree.AttachSound | src/main/java/run/halo/app/service/impl/CommentServiceImpl.java:373-402 | every placed record's parent chain in the pool reaches the node |
| CommentTree.AttachComplete | src/main/java/run/halo/app/service/impl/CommentServiceImpl.java:373-402 | every record of a reply chain to the node is placed |
| CommentTree.PlacedIffDescends | src/main/java/run/halo/app/service/impl/CommentServiceImpl.java:363-405 | a record is placed iff its parent chain reaches the node; it is left over iff it does not; each descendant is placed as often as it occurs in the pool |
| CommentTree.PlacedOnce | src/main/java/run/halo/app/service/impl/CommentServiceImpl.java:374-401 | with unique ids every descendant appears in the tree exactly once |
| CommentTree.ClosedGroupStaysBehind | src/main/java/run/halo/app/service/impl/CommentServiceImpl.java:374-401 | records whose parents stay among themselves and never reach the node (an orphan, a reply cycle) are silently left over |
| CommentTree.AttachEachRoots | src/main/java/run/halo/app/service/impl/CommentServiceImpl.java:399-402 | the children concreted in turn are the staged records, in order |
| CommentTree.AttachRoots | src/main/java/run/halo/app/service/impl/CommentServiceImpl.java:373-404 | a node's children are exactly its replies in the pool, stably sorted by creation time |
| CommentTree.AttachArranged | src/main/java/run/halo/app/service/impl/CommentServiceImpl.java:363-405 | every reply hangs under its direct parent and every sibling list is sorted by the comparator |
| CommentView.RenderAll | src/main/java/run/halo/app/service/impl/CommentServiceImpl.java:380-390 | a node's child list holds one view per child, in order |
| CommentView.RenderSorted | src/main/java/run/halo/app/service/impl/CommentServiceImpl.java:401-403 | sorting the views of siblings equals rendering the sorted siblings |
| CommentView.ForestArranged | src/main/java/run/halo/app/service/impl/CommentServiceImpl.java:227-232 | in the tree view every reply sits under its parent and every sibling list follows the comparator |
| CommentView.ForestTop | src/main/java/run/halo/app/service/impl/CommentServiceImpl.java:227-234 | the top level has one node per top-level comment, sorted by creation time, with its id, author and unchanged content |
| CommentView.ReplyContent | src/main/java/run/halo/app/service/impl/CommentServiceImpl.java:379-385 | a reply's view has its content formatted with the template, the parent's id and the parent's author |
| TreeBuilder.CommentPool.RemoveAll | src/main/java/run/halo/app/service/impl/CommentServiceImpl.java:397 | the pool becomes the records not among the staged ones, in order |
| TreeBuilder.Stage | src/main/java/run/halo/app/service/impl/CommentServiceImpl.java:373-394 | the scan stages exactly the pool records replying to the parent, in pool order, with their views (template applied to replies) |
| TreeBuilder.ConcreteTree | src/main/java/run/halo/app/service/impl/CommentServiceImpl.java:363-405 | the parent's children are the views of the threads Attach hangs under it, and the pool keeps exactly what Attach leaves |
| TreeBuilder.ConcreteAll | src/main/java/run/halo/app/service/impl/CommentServiceImpl.java:399-402 | concreting the staged children in turn yields the views of AttachEach's threads and its leftover pool |
| CommentPaging.PageWindow | src/main/java/run/halo/app/service/impl/CommentServiceImpl.java:239-253 | empty when the start index reaches the list's end; otherwise min(pageSize, size - start) elements starting at the start index |
| CommentPaging.PageOfIndex | src/main/java/run/halo/app/service/impl/CommentServiceImpl.java:239-253 | every top-level comment is found on page index / size at offset index % size |
| CommentPaging.PagesArePrefix | src/main/java/run/halo/app/service/impl/CommentServiceImpl.java:239-253 | the first n pages laid end to end are the first n * pageSize top-level comments |
| CommentPaging.Int32 | src/main/java/run/halo/app/service/impl/CommentServiceImpl.java:239 | Java int wrap-around: in range, congruent modulo 2^32, identity on int values |
| CommentPaging.AsWrittenAgrees | src/main/java/run/halo/app/service/impl/CommentServiceImpl.java:239-253 | while the end index fits in an int, the int computation gives the intended window |
| CommentPaging.WrappedPageRepeatsFirstPage | src/main/java/run/halo/app/service/impl/CommentServiceImpl.java:239-253 | page 2^30 of size 4 over five comments returns the first four, where the page is empty |
| CommentService.PageVosBy | src/main/java/run/halo/app/service/impl/CommentServiceImpl.java:217-256 | the page content is the window of the tree view's top level under the request's sort (descending by default); top-level total and comment count as computed |
| CommentService.ParentIdsMembers | src/main/java/run/halo/app/service/impl/CommentServiceImpl.java:272 | the parent ids are exactly the ids the page's comments reply to |
| CommentService.IdMap | src/main/java/run/halo/app/service/impl/CommentServiceImpl.java:278 | the map's keys are exactly the fetched ids, each mapped to a fetched record with that id |
| CommentService.IdMapKeepsFirst | src/main/java/run/halo/app/service/impl/CommentServiceImpl.java:278 | the first fetched record with an id is the one kept |
| CommentService.PageWithParentVoBy | src/main/java/run/halo/app/service/impl/CommentServiceImpl.java:259-307 | same length and order as the page; each comment carries the converted parent exactly when its parent id was fetched; the cache holds exactly the page's fetched parent ids, each converted once; page metadata kept |
| CommentService.ResolveParents | src/main/java/run/halo/app/service/impl/CommentServiceImpl.java:283-306 | the loop: each comment with its parent view, the cache only holds ids present in the map and every met parent found, no parent converted twice |
| CommentService.WithParentFound | src/main/java/run/halo/app/service/impl/CommentServiceImpl.java:288-303 | a comment has a parent iff a record with its parent id was fetched, and then it is that record with no parent of its own |
| CommentLifecycle.AuthorOf | src/main/java/run/halo/app/service/impl/CommentServiceImpl.java:162 | a logged-in user signs with the nickname, or with the username when it is empty |
| CommentLifecycle.NewStatus | src/main/java/run/halo/app/service/impl/CommentServiceImpl.java:189-198 | a new comment is under audit exactly when written by a guest with the audit option on or unset; otherwise published |
| CommentLifecycle.CreationEvent | src/main/java/run/halo/app/service/impl/CommentServiceImpl.java:203-211 | a reply raises the reply event, a top-level guest comment the new-comment event, a top-level blogger comment none |
| CommentLifecycle.CreateBy | src/main/java/run/halo/app/service/impl/CommentServiceImpl.java:154-214 | fails with post-not-found first, then parent-not-found for a missing non-zero parent, and succeeds otherwise; the stored comment has the author, admin flag, status and event of the decisions above |
| CommentLifecycle.UpdateStatus | src/main/java/run/halo/app/service/impl/CommentServiceImpl.java:310-329 | fails when the id is unknown; otherwise the comment's status is replaced and the pass event raised iff the new status is published |
| CommentLifecycle.CreateKeepsStore | src/main/java/run/halo/app/service/impl/CommentServiceImpl.java:177-200 | creation adds the new record under its id and keeps every other; a reply's parent is stored |
| CommentLifecycle.AuditThenPass | src/main/java/run/halo/app/service/impl/CommentServiceImpl.java:194-198 | a guest's top-level comment under the default option waits for audit and raises the new event; passing it publishes it and raises the pass event |
| CommentLifecycle.UpdateStatusIdempotent | src/main/java/run/halo/app/service/impl/CommentServiceImpl.java:310-329 | setting the same status twice leaves the store as setting it once |
| CommentExamples.NewestFirst | src/main/java/run/halo/app/service/impl/CommentServiceImpl.java:232 | under the default sort the later of two top-level comments comes first |
| CommentExamples.ThirdPageOfFive | src/main/java/run/halo/app/service/impl/CommentServiceImpl.java:239-253 | five top-level comments in pages of two: page 2 holds the fifth alone, page 3 is empty |

## Left out

- Repository and ORM calls (findAllByPostIdAndStatus, findAllByIdIn, existsById, getById, create, update) are parameters. The query builder buildSpecByQuery is not part of this model. Neither are pageLatest, pageBy, listBy and countByPostIds, which pass straight through to the repository.
- convertBy and formatContent are not part of this model: field-copying DTO glue, and unused HTML escaping.
- Authentication, servlet and validation calls are left out: SecurityContextHolder becomes the `login` parameter; IP address, user agent and ValidationUtils are not modelled.
- Library calls are left out: the md5 of the email, the email and authorUrl fields, and the blog URL option.
- Event publication is returned as a value (`Written.event`) rather than sent to the event bus.
- Logging is left out.
- BaseComment and the CommentStatus enum are not part of this model. The record holds the fields the service reads. removeAll is modelled with value equality of records. Statuses other than published and auditing are folded into `Other`.
- COMMENT_TEMPLATE is declared in an interface that is not part of this model, so it is the `template` parameter.
- CommentVO is modelled as a value. An empty child list stands for Java's null, and ConcreteTree returns the parent with its children filled in rather than mutating it. Each view is created once and only referenced from its parent's list, so no aliasing is lost.
- List.sort (TimSort) is modelled as a stable insertion sort. SortByIsTheStableSort shows any stable sort gives the same list.
- ServiceUtils is not part of this model. isEmptyId is taken as "id is 0", and convertToMap keeps the first record per id (IdMap), which is immaterial when ids are unique. fetchProperty is taken as the set of parent ids.
- TreeBuilder.ConcreteTree: requires the node to have no children yet, as every node concreteTree sees is fresh (the virtual root or a newly converted view).
- CommentService.PageVosBy: uses the unbounded window; the Java int arithmetic is modelled separately (see Findings), and Spring's bounds on Pageable are not modelled.
- How PageImpl adjusts its total for a short last page is not modelled.
- CommentService.PageWithParentVoBy: each parent view is modelled as the parent record without a parent of its own; the clone taken when setting the parent is the same value.

## Findings

| source | as written | input that shows it | evidently intended | confidence | as-written member | corrected member |
|---|---|---|---|---|---|---|
| src/main/java/run/halo/app/service/impl/CommentServiceImpl.java:239-243 | the start index `pageNumber * pageSize` and the end index `startIndex + pageSize` are Java int arithmetic and wrap around | page number 2^30, page size 4, five top-level comments: 2^32 wraps to 0, so the first four comments come back instead of an empty page | the window of the page on unbounded indices, empty past the end | medium, not executed | CommentPaging.WrappedPageRepeatsFirstPage | CommentPaging.PageWindow |
