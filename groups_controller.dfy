/** app/controllers/groups_controller.rb: creating a group, joining it,
    accepting a join request and the membership gate on showing it. Each
    action first resolves the routed records and asks the acting user's
    rule list about the action; a denial redirects back with the handler's
    notice and changes nothing. */
module GroupsController {
  import opened Common
  import opened Abilities
  import opened Groups
  import opened Posts
  import opened Params
  import opened Http
  import opened Store

  const DeniedNotice: string := "User is not admin nor premium"
  const CreatedNotice: string := "Group was successfully created."
  const NotMemberNotice: string := "You are not member of this group"
  const RequestSentNotice: string := "request successfuly send"
  const JoinedNotice: string := "You have joined this group."
  const AlreadyJoinedNotice: string := "You have already joined this group"

  const GroupFields: set<string> := {"title", "group_type", "image"}

  /** A group record as authorized: rules about groups carry no condition. */
  const AnyGroup: Resource := Resource(GroupKind, None)

  /** `group_params`, as the fields of a new group. */
  function BuildGroup(form: Form): (g: Group)
    ensures g.title == Field(form, "title") && g.groupType == Field(form, "group_type") &&
            g.image == Field(form, "image")
  {
    var f := Permit(form, GroupFields);
    Group(Field(f, "title"), Field(f, "group_type"), Field(f, "image"))
  }

  /** The routed group and routed user both exist. */
  ghost predicate Resolves(db: Db, g: nat, u: nat)
    reads db
  {
    g in db.groups && u in db.users
  }

  /** `create`: on a valid group, the group is stored under a new id and
      the creator is listed as its first user. The creator's accepted
      membership is saved with the group when the storage accepts it; when
      it refuses it, the group save reports failure and the form is shown
      again, though the group and its listing are already stored. On an
      invalid group, the form is shown again only when the membership could
      not be saved either. */
  method Create(db: Db, actor: Actor, form: Option<Form>, joinSaveOk: bool) returns (resp: Response)
    requires db.Valid()
    modifies db
    ensures db.Valid()
    ensures db.users == old(db.users) && db.posts == old(db.posts) && db.comments == old(db.comments)
    ensures Require(form).None? ==> resp == BadRequest && unchanged(db)
    ensures Require(form).Some? && !Authorized(actor, Action.Create, AnyGroup) ==>
      resp == Redirect(Back, Some(DeniedNotice)) && unchanged(db)
    ensures Require(form).Some? && Authorized(actor, Action.Create, AnyGroup) ==>
      var grp := BuildGroup(form.value);
      var id := old(db.nextGroupId);
      if ValidGroup(grp) then
        && id !in old(db.groups)
        && db.groups == old(db.groups)[id := grp]
        && db.listed == old(db.listed) + [Listing(id, actor.id)]
        && CheckGroupAdmin(db.listed, id, actor.id) == Some(true)
        && (if joinSaveOk then
              && db.memberships == old(db.memberships) + [Membership(actor.id, id, true)]
              && resp == Redirect(Root, Some(CreatedNotice))
              && CheckRequestStatus(db.memberships, id, actor.id)
              && PendingReqCount(db.memberships, id) == 0
            else
              && db.memberships == old(db.memberships)
              && resp == Render("new", 422)
              && !CheckRequestStatus(db.memberships, id, actor.id))
      else
        && unchanged(db)
        && resp == (if joinSaveOk then Redirect(Root, Some(CreatedNotice)) else Render("new", 422))
  {
    var f := Require(form);
    if f.None? {
      return BadRequest;
    }
    if !Authorized(actor, Action.Create, AnyGroup) {
      return Redirect(Back, Some(DeniedNotice));
    }
    var grp := BuildGroup(f.value);
    if ValidGroup(grp) {
      StoreGroup(db, grp, actor.id, joinSaveOk);
      resp := if joinSaveOk then Redirect(Root, Some(CreatedNotice)) else Render("new", 422);
    } else if joinSaveOk {
      resp := Redirect(Root, Some(CreatedNotice));
    } else {
      resp := Render("new", 422);
    }
  }

  /** `current_user.groups.create` followed by the creator's membership
      with `req` 1, which is stored only when its save succeeds. */
  method StoreGroup(db: Db, grp: Group, creator: nat, joinSaveOk: bool)
    requires db.Valid()
    modifies db
    ensures db.Valid()
    ensures db.users == old(db.users) && db.posts == old(db.posts) && db.comments == old(db.comments)
    ensures var id := old(db.nextGroupId);
      && id !in old(db.groups)
      && db.groups == old(db.groups)[id := grp]
      && db.listed == old(db.listed) + [Listing(id, creator)]
      && CheckGroupAdmin(db.listed, id, creator) == Some(true)
      && db.memberships == old(db.memberships) + (if joinSaveOk then [Membership(creator, id, true)] else [])
      && CheckRequestStatus(db.memberships, id, creator) == joinSaveOk
      && PendingReqCount(db.memberships, id) == 0
  {
    var id := db.nextGroupId;
    ghost var ms0, listed0 := db.memberships, db.listed;
    db.groups := db.groups[id := grp];
    db.listed := db.listed + [Listing(id, creator)];
    if joinSaveOk {
      db.memberships := db.memberships + [Membership(creator, id, true)];
    } else {
      assert db.memberships + [] == db.memberships;
    }
    db.nextGroupId := id + 1;
    CreatorState(ms0, listed0, id, creator);
  }

  /** The ledger of a group just created: its creator is its admin; with the
      creator's membership saved, the creator is accepted, and without it the
      creator has no status; nothing is pending either way. */
  lemma CreatorState(ms: seq<Membership>, listed: seq<Listing>, id: nat, u: nat)
    requires forall i :: 0 <= i < |ms| ==> ms[i].groupId < id
    requires forall i :: 0 <= i < |listed| ==> listed[i].groupId < id
    ensures CheckRequestStatus(ms + [Membership(u, id, true)], id, u)
    ensures PendingReqCount(ms + [Membership(u, id, true)], id) == 0
    ensures !CheckRequestStatus(ms, id, u) && PendingReqCount(ms, id) == 0
    ensures CheckGroupAdmin(listed + [Listing(id, u)], id, u) == Some(true)
  {
    var join := Membership(u, id, true);
    StatusAfterJoin(ms, join);
    StatusIsFirstFlag(ms, id, u);
    PendingZeroIffAllAccepted(ms + [join], id);
    PendingZeroIffAllAccepted(ms, id);
    CreatorIsGroupAdmin(listed, [], id, u, u);
    assert listed + [Listing(id, u)] + [] == listed + [Listing(id, u)];
  }

  /** `join`: the acting user's membership is added, accepted for a group
      whose type is exactly "Public" and pending for any other type. When
      the storage refuses the record, nothing is added. */
  method Join(db: Db, actor: Actor, routeUser: nat, routeGroup: nat, saveOk: bool) returns (resp: Response)
    requires db.Valid()
    modifies db
    ensures db.Valid()
    ensures db.users == old(db.users) && db.groups == old(db.groups) && db.listed == old(db.listed)
    ensures db.posts == old(db.posts) && db.comments == old(db.comments)
    ensures routeGroup !in old(db.groups) ==> resp == NotFound && unchanged(db)
    ensures routeGroup in old(db.groups) && !Authorized(actor, Action.Join, AnyGroup) ==>
      resp == Redirect(Back, Some(DeniedNotice)) && unchanged(db)
    ensures routeGroup in old(db.groups) && Authorized(actor, Action.Join, AnyGroup) && routeUser !in old(db.users) ==>
      resp == NotFound && unchanged(db)
    ensures old(Resolves(db, routeGroup, routeUser)) && Authorized(actor, Action.Join, AnyGroup) ==>
      var public := IsPublic(old(db.groups)[routeGroup]);
      var page := UserGroupPage(actor.id, routeGroup);
      && db.memberships == (if saveOk then old(db.memberships) + [Membership(actor.id, routeGroup, public)]
                            else old(db.memberships))
      && resp == (if !saveOk then Redirect(page, Some(AlreadyJoinedNotice))
                  else if public then Redirect(page, Some(JoinedNotice))
                  else Redirect(Root, Some(RequestSentNotice)))
    // When the record is the user's first in this group, the new status
    // and pending count follow the group type.
    ensures old(Resolves(db, routeGroup, routeUser)) && Authorized(actor, Action.Join, AnyGroup) && saveOk &&
            !HasMembership(old(db.memberships), routeGroup, actor.id) ==>
      var public := IsPublic(old(db.groups)[routeGroup]);
      && CheckRequestStatus(db.memberships, routeGroup, actor.id) == public
      && PendingReqCount(db.memberships, routeGroup) ==
           PendingReqCount(old(db.memberships), routeGroup) + (if public then 0 else 1)
    // A storage that refuses exactly the duplicates keeps the ledger unique.
    ensures Unique(old(db.memberships)) && (saveOk <==> !HasMembership(old(db.memberships), routeGroup, actor.id)) ==>
      Unique(db.memberships)
  {
    if routeGroup !in db.groups {
      return NotFound;
    }
    if !Authorized(actor, Action.Join, AnyGroup) {
      return Redirect(Back, Some(DeniedNotice));
    }
    if routeUser !in db.users {
      return NotFound;
    }
    var page := UserGroupPage(actor.id, routeGroup);
    var public := IsPublic(db.groups[routeGroup]);
    var join := Membership(actor.id, routeGroup, public);
    if saveOk {
      ghost var ms0 := db.memberships;
      db.memberships := db.memberships + [join];
      PendingAfterAppend(ms0, join, routeGroup);
      if !HasMembership(ms0, routeGroup, actor.id) {
        StatusAfterJoin(ms0, join);
        if Unique(ms0) {
          AppendKeepsUnique(ms0, join);
        }
      }
      resp := if public then Redirect(page, Some(JoinedNotice)) else Redirect(Root, Some(RequestSentNotice));
    } else {
      resp := Redirect(page, Some(AlreadyJoinedNotice));
    }
  }

  /** `accept_request`: the routed user's membership in the group becomes
      accepted; no other record changes, and an accepted one stays so. */
  method AcceptRequest(db: Db, actor: Actor, routeUser: nat, routeGroup: nat) returns (resp: Response)
    requires db.Valid()
    // The source dereferences the membership found without a nil check,
    // after the finds and the authorization have passed.
    requires Resolves(db, routeGroup, routeUser) && Authorized(actor, Action.AcceptRequest, AnyGroup) ==>
      HasMembership(db.memberships, routeGroup, routeUser)
    modifies db
    ensures db.Valid()
    ensures db.users == old(db.users) && db.groups == old(db.groups) && db.listed == old(db.listed)
    ensures db.posts == old(db.posts) && db.comments == old(db.comments)
    ensures routeGroup !in old(db.groups) ==> resp == NotFound && unchanged(db)
    ensures routeGroup in old(db.groups) && !Authorized(actor, Action.AcceptRequest, AnyGroup) ==>
      resp == Redirect(Back, Some(DeniedNotice)) && unchanged(db)
    ensures routeGroup in old(db.groups) && Authorized(actor, Action.AcceptRequest, AnyGroup) && routeUser !in old(db.users) ==>
      resp == NotFound && unchanged(db)
    ensures old(Resolves(db, routeGroup, routeUser)) && Authorized(actor, Action.AcceptRequest, AnyGroup) ==>
      && db.memberships == Accept(old(db.memberships), routeGroup, routeUser)
      && resp == Redirect(Back, None)
      && CheckRequestStatus(db.memberships, routeGroup, routeUser)
      && (forall i :: 0 <= i < |db.memberships| && !InGroup(old(db.memberships)[i], routeGroup, routeUser) ==>
            db.memberships[i] == old(db.memberships)[i])
  {
    if routeGroup !in db.groups {
      return NotFound;
    }
    if !Authorized(actor, Action.AcceptRequest, AnyGroup) {
      return Redirect(Back, Some(DeniedNotice));
    }
    if routeUser !in db.users {
      return NotFound;
    }
    AcceptFacts(db.memberships, routeGroup, routeUser);
    db.memberships := Accept(db.memberships, routeGroup, routeUser);
    resp := Redirect(Back, None);
  }

  /** `show`: anyone whose status in the group is false (no membership, or
      a pending one) is sent to the root page; members see the group's posts. */
  method Show(db: Db, actor: Actor, routeUser: nat, routeGroup: nat) returns (resp: Response, shown: set<nat>)
    ensures !Resolves(db, routeGroup, routeUser) ==> resp == NotFound && shown == {}
    ensures Resolves(db, routeGroup, routeUser) ==>
      if CheckRequestStatus(db.memberships, routeGroup, actor.id)
      then resp == Default && shown == PostsOf(db.posts, routeGroup)
      else resp == Redirect(Root, Some(NotMemberNotice)) && shown == {}
  {
    shown := {};
    if routeGroup !in db.groups || routeUser !in db.users {
      return NotFound, shown;
    }
    if !CheckRequestStatus(db.memberships, routeGroup, actor.id) {
      return Redirect(Root, Some(NotMemberNotice)), shown;
    }
    resp, shown := Default, PostsOf(db.posts, routeGroup);
  }

  /** `show_request`: the group's memberships, for those allowed to see them. */
  method ShowRequest(db: Db, actor: Actor, routeUser: nat, routeGroup: nat) returns (resp: Response, requests: seq<Membership>)
    ensures routeGroup !in db.groups ==> resp == NotFound && requests == []
    ensures routeGroup in db.groups && !Authorized(actor, Action.ShowRequest, AnyGroup) ==>
      resp == Redirect(Back, Some(DeniedNotice)) && requests == []
    ensures routeGroup in db.groups && Authorized(actor, Action.ShowRequest, AnyGroup) && routeUser !in db.users ==>
      resp == NotFound && requests == []
    ensures Resolves(db, routeGroup, routeUser) && Authorized(actor, Action.ShowRequest, AnyGroup) ==>
      resp == Default && requests == MembershipsOf(db.memberships, routeGroup) &&
      (forall m :: m in requests <==> m in db.memberships && m.groupId == routeGroup)
  {
    requests := [];
    if routeGroup !in db.groups {
      return NotFound, requests;
    }
    if !Authorized(actor, Action.ShowRequest, AnyGroup) {
      return Redirect(Back, Some(DeniedNotice)), requests;
    }
    if routeUser !in db.users {
      return NotFound, requests;
    }
    resp, requests := Default, MembershipsOf(db.memberships, routeGroup);
  }

  /** Every user may pass the read check on a group, so `show` is gated by
      membership alone. */
  lemma EveryoneMayReadGroups(u: Actor)
    ensures Authorized(u, Read, AnyGroup)
  {
    RuleTableDecides(u, Read, AnyGroup);
  }
}
