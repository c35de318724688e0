/** End-to-end runs of the join/accept workflow and the permission table,
    stated over the model's own operations. */
module Scenarios {
  import opened Common
  import opened Abilities
  import opened Groups
  import opened Http
  import opened Store
  import Params
  import GroupsController

  function GroupForm(groupType: string): map<string, string> {
    map["title" := "Hikers", "group_type" := groupType, "image" := "hike.png"]
  }

  lemma GroupFormIsValid(groupType: string)
    requires groupType != [] && !IsSpace(groupType[0])
    ensures Params.Require(Some(GroupForm(groupType))) == Some(GroupForm(groupType))
    ensures GroupsController.BuildGroup(GroupForm(groupType)) == Group(Some("Hikers"), Some(groupType), Some("hike.png"))
    ensures ValidGroup(GroupsController.BuildGroup(GroupForm(groupType)))
  {
    var f := GroupForm(groupType);
    assert "title" in f;
    assert !IsSpace("Hikers"[0]) && !IsSpace("hike.png"[0]);
  }

  /** A premium owner creates a private group; a basic user asks to join and
      is pending; the owner accepts and the user becomes a member. */
  method PrivateGroupFlow() returns (created: Response, pendingBefore: nat, statusBefore: bool,
                                    statusAfter: bool, pendingAfter: nat)
    ensures created == Redirect(Root, Some(GroupsController.CreatedNotice))
    ensures !statusBefore && pendingBefore == 1
    ensures statusAfter && pendingAfter == 0
  {
    var owner := Actor(1, false, Some("Premium"));
    var c := Actor(2, false, Some("basic"));
    var db := new Db({1, 2});
    PremiumManagesGroups(owner, Action.Create, None);
    GroupFormIsValid("Private");
    created := GroupsController.Create(db, owner, Some(GroupForm("Private")), true);
    var g := 1;
    assert db.memberships == [Membership(1, g, true)];
    BasicManagesGroupsButCannotCreate(c, Action.Join, None);
    assert !HasMembership(db.memberships, g, 2);
    var joined := GroupsController.Join(db, c, 2, g, true);
    statusBefore := CheckRequestStatus(db.memberships, g, 2);
    pendingBefore := PendingReqCount(db.memberships, g);
    assert db.memberships == [Membership(1, g, true), Membership(2, g, false)];
    PremiumManagesGroups(owner, Action.AcceptRequest, None);
    assert InGroup(db.memberships[1], g, 2);
    var accepted := GroupsController.AcceptRequest(db, owner, 2, g);
    statusAfter := CheckRequestStatus(db.memberships, g, 2);
    pendingAfter := PendingReqCount(db.memberships, g);
    PendingAfterAccept([Membership(1, g, true), Membership(2, g, false)], g, 2, g);
  }

  /** The type test is case-sensitive: joining a "public" group leaves the
      request pending. */
  method LowercasePublicIsPrivate() returns (joined: Response, status: bool)
    ensures joined == Redirect(Root, Some(GroupsController.RequestSentNotice))
    ensures !status
  {
    var owner := Actor(1, true, None);
    var c := Actor(2, false, Some("Premium"));
    var db := new Db({1, 2});
    AdminMayDoAnything(owner, Action.Create, Resource(GroupKind, None));
    GroupFormIsValid("public");
    var created := GroupsController.Create(db, owner, Some(GroupForm("public")), true);
    PremiumManagesGroups(c, Action.Join, None);
    assert !HasMembership(db.memberships, 1, 2);
    joined := GroupsController.Join(db, c, 2, 1, true);
    status := CheckRequestStatus(db.memberships, 1, 2);
  }

  /** A basic user's attempt to create a group is turned away by the
      denial handler and stores nothing. */
  method BasicCannotCreateGroup() returns (resp: Response, groups: nat)
    ensures resp == Redirect(Back, Some(GroupsController.DeniedNotice)) && groups == 0
  {
    var u := Actor(3, false, Some("basic"));
    var db := new Db({3});
    BasicManagesGroupsButCannotCreate(u, Action.Create, None);
    GroupFormIsValid("Public");
    resp := GroupsController.Create(db, u, Some(GroupForm("Public")), true);
    groups := |db.groups|;
  }

  /** A default-plan author may create and update their post; another
      default-plan user may read it but not update it; an admin may. */
  lemma PostOwnership(a: nat, b: nat, admin: Actor)
    requires a != b && admin.isAdmin
    ensures Authorized(Actor(a, false, None), Action.Create, Resource(PostKind, Some(a)))
    ensures Authorized(Actor(b, false, None), Read, Resource(PostKind, Some(a)))
    ensures !Authorized(Actor(b, false, None), Update, Resource(PostKind, Some(a)))
    ensures Authorized(admin, Update, Resource(PostKind, Some(a)))
  {
    OwnRecordsAllowed(Actor(a, false, None), Action.Create, PostKind);
    DefaultPlanReadsAllWritesNoGroup(Actor(b, false, None), Read, Resource(PostKind, Some(a)));
    OthersRecordsDenied(Actor(b, false, None), Update, PostKind, Some(a));
    AdminMayDoAnything(admin, Update, Resource(PostKind, Some(a)));
  }
}
