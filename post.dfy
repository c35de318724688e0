/** app/models/post.rb and the comment records it owns: validation,
    lookups scoped to a group, and the cascades on destroy. */
module Posts {
  import opened Common
  import opened Params

  /** A post belongs to one group and (when valid) one user. */
  datatype Post = Post(groupId: nat, userId: Option<nat>, title: Option<string>,
                       description: Option<string>, postType: Option<string>)

  /** A comment; a fresh comment is attached to no post and no user. */
  datatype Comment = Comment(postId: Option<nat>, userId: Option<nat>, content: Option<string>)

  /** What saving a post demands: `validates :user_id, presence: true`, and
      the required `belongs_to :group` and `belongs_to :user`. */
  predicate PostValid(p: Post, groups: set<nat>, users: set<nat>) {
    p.userId.Some? && p.userId.value in users && p.groupId in groups
  }

  /** A post without a user_id is never valid, whatever exists. */
  lemma PostWithoutUserInvalid(p: Post, groups: set<nat>, users: set<nat>)
    ensures p.userId.None? ==> !PostValid(p, groups, users)
    ensures PostValid(p, groups, users) <==> p.groupId in groups && exists u :: u in users && p.userId == Some(u)
  {
    if PostValid(p, groups, users) {
      assert p.userId.value in users;
    }
  }

  const PostFields: set<string> := {"title", "description", "post_type"}
  const CommentFields: set<string> := {"content", "user_id", "post_id"}

  /** `@group.posts.new(post_params)` with `@post.user = current_user`. */
  function BuildPost(g: nat, author: nat, form: Form): (p: Post)
    ensures p.groupId == g && p.userId == Some(author)
    ensures p.title == Field(form, "title") && p.description == Field(form, "description") &&
            p.postType == Field(form, "post_type")
  {
    var f := Permit(form, PostFields);
    Post(g, Some(author), Field(f, "title"), Field(f, "description"), Field(f, "post_type"))
  }

  /** Fields outside title, description and post_type (a submitted user_id
      or group_id included) have no effect on the post built. */
  lemma BuildPostIgnoresOtherFields(g: nat, author: nat, f1: Form, f2: Form)
    requires forall k :: k in PostFields ==> Field(f1, k) == Field(f2, k)
    ensures BuildPost(g, author, f1) == BuildPost(g, author, f2)
  {
    assert "title" in PostFields && "description" in PostFields && "post_type" in PostFields;
  }

  /** `Comment.new`. */
  function NewComment(): (c: Comment)
    ensures c.postId.None? && c.userId.None? && c.content.None?
  {
    Comment(None, None, None)
  }

  /** `@post.comments.build(comment_params)` with `@comments.user =
      current_user`: the submitted post_id and user_id are overwritten. */
  function BuildComment(p: nat, author: nat, form: Form): (c: Comment)
    ensures c.postId == Some(p) && c.userId == Some(author)
    ensures c.content == Field(form, "content")
  {
    var f := Permit(form, CommentFields);
    Comment(Some(p), Some(author), Field(f, "content"))
  }

  /** Only the submitted content reaches the comment built. */
  lemma BuildCommentDependsOnlyOnContent(p: nat, author: nat, f1: Form, f2: Form)
    requires Field(f1, "content") == Field(f2, "content")
    ensures BuildComment(p, author, f1) == BuildComment(p, author, f2)
  {
  }

  /** `@group.posts.find(id)`: the post, provided it belongs to g. */
  function FindInGroup(posts: map<nat, Post>, g: nat, id: nat): (r: Option<Post>)
    ensures r.Some? <==> id in posts && posts[id].groupId == g
    ensures r.Some? ==> r.value == posts[id]
  {
    if id in posts && posts[id].groupId == g then Some(posts[id]) else None
  }

  /** `@group.posts.all`, as the set of post ids. */
  function PostsOf(posts: map<nat, Post>, g: nat): (r: set<nat>)
    ensures forall id :: id in r <==> id in posts && posts[id].groupId == g
  {
    set id | id in posts && posts[id].groupId == g
  }

  /** The comments left after post p is destroyed (`dependent: :destroy`). */
  function WithoutPostComments(cs: map<nat, Comment>, p: nat): (r: map<nat, Comment>)
    ensures forall id :: id in r <==> id in cs && cs[id].postId != Some(p)
    ensures forall id :: id in r ==> r[id] == cs[id]
  {
    map id | id in cs && cs[id].postId != Some(p) :: cs[id]
  }

  /** The comments left after user u is destroyed (`dependent: :destroy`). */
  function WithoutUserComments(cs: map<nat, Comment>, u: nat): (r: map<nat, Comment>)
    ensures forall id :: id in r <==> id in cs && cs[id].userId != Some(u)
    ensures forall id :: id in r ==> r[id] == cs[id]
  {
    map id | id in cs && cs[id].userId != Some(u) :: cs[id]
  }
}
