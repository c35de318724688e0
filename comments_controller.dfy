/** app/controllers/comments_controller.rb: both the routed group and the
    routed post are looked up before every action; a comment is built on
    the routed post with the acting user as author. */
module CommentsController {
  import opened Common
  import opened Posts
  import opened Params
  import opened Http
  import opened Store

  /** The before action `get_this`: both `find`s must succeed. */
  predicate Found(db: Db, routeGroup: nat, routePost: nat)
    reads db
  {
    routeGroup in db.groups && routePost in db.posts
  }

  /** `new`: a fresh comment attached to no post. */
  method New(db: Db, routeGroup: nat, routePost: nat) returns (resp: Response, c: Option<Comment>)
    ensures !Found(db, routeGroup, routePost) ==> resp == NotFound && c == None
    ensures Found(db, routeGroup, routePost) ==> resp == Default && c == Some(NewComment())
    ensures c.Some? ==> c.value.postId == None
  {
    if !Found(db, routeGroup, routePost) {
      return NotFound, None;
    }
    return Default, Some(NewComment());
  }

  /** `create`: the comment carries the routed post and the acting user,
      whatever post_id or user_id was submitted; it is added when the
      storage accepts it. */
  method Create(db: Db, actorId: nat, routeGroup: nat, routePost: nat, form: Option<Form>, saveOk: bool)
    returns (resp: Response, id: Option<nat>)
    requires db.Valid()
    modifies db
    ensures db.Valid()
    ensures db.users == old(db.users) && db.groups == old(db.groups) && db.listed == old(db.listed)
    ensures db.memberships == old(db.memberships) && db.posts == old(db.posts)
    ensures Require(form).None? ==> resp == BadRequest && id == None && unchanged(db)
    ensures Require(form).Some? && !old(Found(db, routeGroup, routePost)) ==> resp == NotFound && id == None && unchanged(db)
    ensures Require(form).Some? && old(Found(db, routeGroup, routePost)) ==>
      && resp == Default
      && (saveOk ==> id == Some(old(db.nextCommentId)) && id.value !in old(db.comments) &&
                     db.comments == old(db.comments)[id.value := BuildComment(routePost, actorId, form.value)])
      && (!saveOk ==> id == None && unchanged(db))
  {
    id := None;
    var f := Require(form);
    if f.None? {
      return BadRequest, id;
    }
    if !Found(db, routeGroup, routePost) {
      return NotFound, id;
    }
    var c := BuildComment(routePost, actorId, f.value);
    if saveOk {
      var cid := db.nextCommentId;
      db.comments := db.comments[cid := c];
      db.nextCommentId := cid + 1;
      id := Some(cid);
    }
    resp := Default;
  }
}
