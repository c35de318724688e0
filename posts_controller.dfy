/** app/controllers/posts_controller.rb: a post is created inside the
    routed group with the acting user as author, and shown only from
    within its own group. */
module PostsController {
  import opened Common
  import opened Abilities
  import opened Posts
  import opened Params
  import opened Http
  import opened Store

  /** The denial handler's notice (its wording is the source's). */
  const DeniedNotice: string := "User not found"
  const CreatedNotice: string := "Atricle was successfully created."

  /** `create`: a post with the permitted fields, the routed group and the
      acting user as author is added when it validates; otherwise the form
      is rendered again with status 422 and nothing is added. */
  method Create(db: Db, actor: Actor, routeGroup: nat, form: Option<Form>) returns (resp: Response, id: Option<nat>)
    requires db.Valid()
    modifies db
    ensures db.Valid()
    ensures db.users == old(db.users) && db.groups == old(db.groups) && db.listed == old(db.listed)
    ensures db.memberships == old(db.memberships) && db.comments == old(db.comments)
    ensures Require(form).None? ==> resp == BadRequest && id == None && unchanged(db)
    ensures Require(form).Some? && routeGroup !in old(db.groups) ==> resp == NotFound && id == None && unchanged(db)
    ensures Require(form).Some? && routeGroup in old(db.groups) ==>
      var p := BuildPost(routeGroup, actor.id, form.value);
      if PostValid(p, old(db.groups).Keys, old(db.users)) then
        && id == Some(old(db.nextPostId)) && id.value !in old(db.posts)
        && db.posts == old(db.posts)[id.value := p]
        && resp == Redirect(UserGroupPage(actor.id, routeGroup), Some(CreatedNotice))
      else
        resp == Render("new", 422) && id == None && unchanged(db)
  {
    id := None;
    var f := Require(form);
    if f.None? {
      return BadRequest, id;
    }
    if routeGroup !in db.groups {
      return NotFound, id;
    }
    var p := BuildPost(routeGroup, actor.id, f.value);
    if PostValid(p, db.groups.Keys, db.users) {
      var pid := db.nextPostId;
      db.posts := db.posts[pid := p];
      db.nextPostId := pid + 1;
      id := Some(pid);
      resp := Redirect(UserGroupPage(actor.id, routeGroup), Some(CreatedNotice));
    } else {
      resp := Render("new", 422);
    }
  }

  /** `show`: the post must exist and be readable by the actor, and it is
      found only among the routed group's posts. */
  method Show(db: Db, actor: Actor, routeGroup: nat, postId: nat) returns (resp: Response, post: Option<Post>)
    ensures postId !in db.posts ==> resp == NotFound && post == None
    ensures postId in db.posts && !Authorized(actor, Read, Resource(PostKind, db.posts[postId].userId)) ==>
      resp == Redirect(Back, Some(DeniedNotice)) && post == None
    ensures postId in db.posts && Authorized(actor, Read, Resource(PostKind, db.posts[postId].userId)) ==>
      if routeGroup in db.groups && db.posts[postId].groupId == routeGroup
      then resp == Default && post == Some(db.posts[postId])
      else resp == NotFound && post == None
  {
    post := None;
    if postId !in db.posts {
      return NotFound, post;
    }
    if !Authorized(actor, Read, Resource(PostKind, db.posts[postId].userId)) {
      return Redirect(Back, Some(DeniedNotice)), post;
    }
    if routeGroup !in db.groups {
      return NotFound, post;
    }
    post := FindInGroup(db.posts, routeGroup, postId);
    resp := if post.Some? then Default else NotFound;
  }

  /** A post created by an existing user in an existing group is stored,
      and its author is that user. */
  lemma CreatedPostIsValid(groups: set<nat>, users: set<nat>, g: nat, author: nat, form: Form)
    requires g in groups && author in users
    ensures PostValid(BuildPost(g, author, form), groups, users)
    ensures BuildPost(g, author, form).userId == Some(author)
  {
  }
}
