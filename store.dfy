/** The records the application keeps, and the destroy cascades declared
    on its models. */
module Store {
  import opened Common
  import opened Groups
  import opened Posts

  class Db {
    var users: set<nat>
    var groups: map<nat, Group>
    /** groups_users rows, in storage order. */
    var listed: seq<Listing>
    /** Membership records, in storage order. */
    var memberships: seq<Membership>
    var posts: map<nat, Post>
    var comments: map<nat, Comment>
    var nextGroupId: nat
    var nextPostId: nat
    var nextCommentId: nat

    /** Ids handed out so far lie below the counters, so a new id is unused. */
    ghost predicate Valid()
      reads this
    {
      && (forall id :: id in groups ==> id < nextGroupId)
      && (forall i :: 0 <= i < |memberships| ==> memberships[i].groupId < nextGroupId)
      && (forall i :: 0 <= i < |listed| ==> listed[i].groupId < nextGroupId)
      && (forall id :: id in posts ==> id < nextPostId)
      && (forall id :: id in comments ==> id < nextCommentId)
    }

    constructor (users: set<nat>)
      ensures Valid() && this.users == users
      ensures groups == map[] && listed == [] && memberships == [] && posts == map[] && comments == map[]
      ensures nextGroupId == 1 && nextPostId == 1 && nextCommentId == 1
    {
      this.users := users;
      groups, listed, memberships := map[], [], [];
      posts, comments := map[], map[];
      nextGroupId, nextPostId, nextCommentId := 1, 1, 1;
    }

    /** `group.destroy`: its memberships go with it (`dependent: :destroy`),
        and so do its groups_users rows. Its posts stay. */
    method DestroyGroup(g: nat)
      requires Valid() && g in groups
      modifies this
      ensures Valid()
      ensures groups == old(groups) - {g}
      ensures memberships == WithoutGroup(old(memberships), g)
      ensures listed == ListingsWithoutGroup(old(listed), g)
      ensures users == old(users) && posts == old(posts) && comments == old(comments)
      ensures nextGroupId == old(nextGroupId) && nextPostId == old(nextPostId) && nextCommentId == old(nextCommentId)
    {
      groups := groups - {g};
      memberships := WithoutGroup(memberships, g);
      listed := ListingsWithoutGroup(listed, g);
      assert forall m :: m in memberships ==> m.groupId < nextGroupId;
      assert forall l :: l in listed ==> l.groupId < nextGroupId;
    }

    /** `post.destroy`: the comments attached to it go with it. */
    method DestroyPost(p: nat)
      requires Valid() && p in posts
      modifies this
      ensures Valid()
      ensures posts == old(posts) - {p}
      ensures comments == WithoutPostComments(old(comments), p)
      ensures users == old(users) && groups == old(groups) && listed == old(listed) && memberships == old(memberships)
      ensures nextGroupId == old(nextGroupId) && nextPostId == old(nextPostId) && nextCommentId == old(nextCommentId)
    {
      posts := posts - {p};
      comments := WithoutPostComments(comments, p);
    }

    /** `user.destroy`: the user's comments go with it (`dependent:
        :destroy`), and so do its groups_users rows. Its posts and
        memberships stay. */
    method DestroyUser(u: nat)
      requires Valid() && u in users
      modifies this
      ensures Valid()
      ensures users == old(users) - {u}
      ensures comments == WithoutUserComments(old(comments), u)
      ensures listed == ListingsWithoutUser(old(listed), u)
      ensures forall g :: CheckGroupAdmin(listed, g, u) != Some(true)
      ensures groups == old(groups) && memberships == old(memberships) && posts == old(posts)
      ensures nextGroupId == old(nextGroupId) && nextPostId == old(nextPostId) && nextCommentId == old(nextCommentId)
    {
      users := users - {u};
      comments := WithoutUserComments(comments, u);
      ghost var listed0 := listed;
      listed := ListingsWithoutUser(listed, u);
      assert forall l :: l in listed ==> l.groupId < nextGroupId;
      forall g ensures CheckGroupAdmin(listed, g, u) != Some(true) {
        ListingsWithoutUserAdmin(listed0, u, g, u);
      }
    }
  }
}
