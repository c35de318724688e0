# chitchat: permissions, group membership and posts, in Dafny

This project models the core of a Rails community application. Users join
groups, write posts inside groups and comment on posts. What a user may do
depends on an admin role and a plan string. The model covers three parts:

- **The permission rule table** (`Abilities`). `Ability#initialize` declares
  an ordered list of `can`/`cannot` rules from the user's admin role, plan
  and id. A check `can?(action, record)` is read as the authorization
  library reads it: the last matching rule decides, and a request no rule
  matches is denied. `:manage` matches every action and `:all` every kind of
  record. A hash condition `user_id: id` must equal the record's `user_id`.
  The class `Ability` appends the rules one by one, as the source does.
  `RuleTable` is the list it ends with. `Decision` restates the table by role
  and plan, without rules. `RuleTableDecides` proves the two agree.
- **The membership ledger and the join/accept workflow** (`Groups`,
  `GroupsController`). The ledger is a sequence of `(user, group, req)`
  records in storage order. The group queries are functions over it:
  `check_request_status`, `pending_req_count`, `check_group_admin`,
  `get_group_admin` and `generate_url`. The controller actions are methods
  over a `Store.Db` object: `create`, `join`, `accept_request`, `show` and
  `show_request`.
- **The post/comment registry** (`Posts`, `PostsController`,
  `CommentsController`, `Store`). A post is stamped with the acting user and
  the routed group. Posts are looked up only inside their group. Destroying
  a post, a user or a group removes what depends on it.
- **Users** (`Users`). The after-create hook adds the `:newuser` role. The
  `@ability ||= Ability.new(self)` memo is built once per user object and
  reused after later changes to the plan.

The acting user is an explicit `Actor` value: id, admin flag and plan. The
controllers ask a fresh rule list built from it, as the library's
controller helpers do. The memo on `User` is used only by `can?`/`cannot?`
on the user object.

Where an outcome depends on code that is not in the repository, the model
takes that outcome as a parameter. One example is whether the Membership
model lets a record be saved.

Some points of the code the model keeps exactly as written:
- `join` does not refuse a second join itself. It only reacts to the outcome
  of `save`, which the model takes as `saveOk`. The ledger stays at one
  record per (user, group) only when storage refuses exactly the
  duplicates, and `Join`'s last `ensures` states this as a condition.
- `accept_request` calls `update` on the membership it looks up without a
  nil check. Once the routed records are found and the action is
  authorized, a missing membership would raise. So for those callers the
  membership's existence is a precondition. Callers who are denied, or
  whose group or user is missing, get the denial or not-found answer.
- `check_group_admin` compares against `users.first`, a user listed for the
  group in the groups_users table, not against any membership. The model
  keeps those rows as `Db.listed`. `create` adds to them, and destroying a
  group or a user removes them.
- In `create`, the group is already stored by `groups.create` before the
  creator's membership is saved. When that membership is refused,
  `@group.save` and `@join.save` both report failure and the form is shown
  again with 422, though the group and its listing stay stored.
- The plan string is `"Premium"`, with a capital P. A lowercase
  `"premium"` gets the default rules (`UnknownPlanIsDefault`).

## Model

| member | source | states |
|---|---|---|
| Abilities.PermitsIsLastMatch | app/models/ability.rb:11-14 | a request is allowed exactly when some rule matches it, no later rule matches it, and that rule is a `can` |
| Abilities.UnmatchedIsDenied | app/models/ability.rb:6-35 | a request that no rule matches is denied |
| Abilities.Permits | app/models/user.rb:4 | `can?` over a rule list; by `PermitsIsLastMatch` it holds exactly when the last matching rule is a `can`, and by `UnmatchedIsDenied` it is false when nothing matches |
| Abilities.RuleTable | app/models/ability.rb:8-35 | the rules `initialize` declares for a user, in source order; by `RuleTableDecides` they answer every request as `Decision` does |
| Abilities.Decision | app/models/ability.rb:8-35 | the permission table per role and plan: admins may do everything; others may do anything to their own posts and comments; "basic" may do any group action but create, "Premium" every group action, any other plan only read |
| Abilities.Ability.constructor | app/models/ability.rb:6-35 | `initialize` appends the user's rules one by one, and the list comes out as `RuleTable(user)`, which depends only on admin role, plan and id |
| Abilities.Ability.Can | app/models/ability.rb:11-13 | `can` appends one allowing rule at the end and changes nothing else |
| Abilities.Ability.Cannot | app/models/ability.rb:14 | `cannot` appends one denying rule at the end |
| Abilities.Ability.Allows | app/models/user.rb:4 | `can?` holds exactly when the last matching rule allows |
| Abilities.RuleTableDecides | app/models/ability.rb:8-35 | the rule list built for any user answers every action on every record as the per-plan table says |
| Abilities.AdminMayDoAnything | app/models/ability.rb:33-34 | an admin may do every action on every record, whatever the plan |
| Abilities.BasicManagesGroupsButCannotCreate | app/models/ability.rb:10-14 | a "basic" non-admin may do any group action except create; the later `cannot` overrides `can :manage` |
| Abilities.PremiumManagesGroups | app/models/ability.rb:15-19 | a "Premium" non-admin may do every group action, create included |
| Abilities.UnknownPlanIsDefault | app/models/ability.rb:9-24 | any plan other than exactly "basic" or "Premium" ("premium", "Basic", nil) is answered as no plan |
| Abilities.OthersRecordsDenied | app/models/ability.rb:12-24 | without admin, every non-read action on another user's post or comment is denied; under "basic"/"Premium" reading it is denied too |
| Abilities.OwnRecordsAllowed | app/models/ability.rb:12-23 | every action on one's own post or comment is allowed, under every plan |
| Abilities.DefaultPlanReadsAllWritesNoGroup | app/models/ability.rb:20-24 | a default-plan user may read every record, and on a group may do nothing but read |
| Users.DefaultRolesFacts | app/models/user.rb:10-12 | no roles becomes exactly {:newuser}; existing roles are kept; the hook never grants admin; it is idempotent |
| Users.DefaultRoles | app/models/user.rb:10-12 | the roles after the after-create hook; by `DefaultRolesFacts` only an empty set changes, to {:newuser} |
| Users.User.Create | app/models/user.rb:3-12 | a created user holds the defaulted roles and has no ability built yet |
| Users.User.AssignDefaultRole | app/models/user.rb:10-12 | adds :newuser only to an empty role set, and touches nothing else |
| Users.User.GetAbility | app/models/user.rb:6-8 | the first call builds the rules from the user as it is then; later calls return the same object with the same rules |
| Users.User.CanQ | app/models/user.rb:4-8 | `can?` is answered by the memoised rule list |
| Users.User.CannotQ | app/models/user.rb:4-8 | `cannot?` is the negation of the memoised answer |
| Users.User.SetPlan | app/controllers/user_controller.rb:19 | a plan change updates the plan only; the memo stays |
| Users.StaleAbilityAfterPlanChange | app/models/user.rb:6-8 | a basic user moved to "Premium" on the same object is still refused group creation, though fresh rules would allow it |
| Users.NewcomerIsNotAdmin | app/models/user.rb:10-12 | a newly created user without roles is not an admin, so a basic newcomer may not create groups |
| Decimal.NatToString | app/models/group.rb:24 | an id is rendered as a non-empty string of digits with no leading zero |
| Decimal.ParseNatToString | app/models/group.rb:24 | reading the digits of a rendered id gives that id back |
| Groups.MissingFieldInvalid | app/models/group.rb:8 | a group is invalid exactly when its title, group_type or image is missing or blank |
| Groups.ValidGroup | app/models/group.rb:8 | the presence validation; by `MissingFieldInvalid` a group is valid exactly when title, group_type and image are all present and not blank |
| Groups.IsPublic | app/controllers/groups_controller.rb:60 | the join type test, exact and case-sensitive; `LowercasePublicIsPrivate` shows "public" does not pass it |
| Groups.MembershipsOf | app/models/group.rb:3 | a group's memberships are exactly the ledger records naming it |
| Groups.FindByUserId | app/models/group.rb:16 | `find_by_user_id` gives nothing exactly when no record has that user, otherwise a record of that user |
| Groups.FirstMatch | app/models/group.rb:16 | the position of the first record of (user, group), with none before it |
| Groups.FindInGroupIsFirstMatch | app/models/group.rb:16 | looking the user up among the group's memberships finds the ledger's first record of that pair |
| Groups.StatusIsFirstFlag | app/models/group.rb:15-17 | `check_request_status` is false without a membership, and otherwise equals the flag of the first one |
| Groups.StatusIsStoredFlag | app/models/group.rb:15-17 | in a ledger with one record per pair, the status is that record's stored `req` |
| Groups.CheckRequestStatus | app/models/group.rb:15-17 | `check_request_status` is true only when the user has a membership in the group; `StatusIsFirstFlag` gives its exact value |
| Groups.PendingReqCount | app/models/group.rb:27-29 | `pending_req_count` counts no more than the group's memberships; `PendingReqCountIsPendingIn` gives its exact value over the ledger |
| Groups.PendingReqCountIsPendingIn | app/models/group.rb:27-29 | `pending_req_count` equals the number of the group's ledger records with `req` false |
| Groups.PendingAfterAppend | app/models/group.rb:27-29 | a new record raises the count by one exactly when it is a pending record of that group |
| Groups.PendingZeroIffAllAccepted | app/models/group.rb:27-29 | the count is zero exactly when every record of the group is accepted |
| Groups.AcceptFacts | app/controllers/groups_controller.rb:45-51 | after accepting, the user's status is true; no other record changes; no flag goes from accepted to pending; accepting again changes nothing |
| Groups.Accept | app/controllers/groups_controller.rb:47-48 | the ledger keeps its length, and by `AcceptFacts` only the routed user's first record of the group changes, to accepted |
| Groups.PendingAfterAccept | app/controllers/groups_controller.rb:47-49 | accepting a pending request lowers that group's count by one; other counts stay |
| Groups.AppendKeepsUnique | app/controllers/groups_controller.rb:58-73 | adding a record for a pair with no record keeps the ledger at one record per pair |
| Groups.StatusAfterJoin | app/controllers/groups_controller.rb:58-73 | after a user's first record in a group is added, the status is that record's flag |
| Groups.FirstListed | app/models/group.rb:20 | `users.first` is nothing exactly when the group has no listed user, and otherwise a listed user of the group (the earliest row, see "Left out") |
| Groups.CheckGroupAdmin | app/models/group.rb:19-21 | `check_group_admin` fails (nil) without listed users, and is true only for a listed user of the group |
| Groups.CreatorIsGroupAdmin | app/controllers/groups_controller.rb:18 | once the creator is the first listed user, exactly the creator is the group's admin, whatever is listed later |
| Groups.GetGroupAdmin | app/models/group.rb:11-13 | the admin returned is user 1 whenever user 1 exists, independent of the group |
| Groups.JoinUrlRoundTrip | app/models/group.rb:23-25 | the URL is "[::1]:3000//user/<u>/groups/<g>/join", read back gives (u, g) |
| Groups.JoinUrlInjective | app/models/group.rb:23-25 | two different (user, group) pairs never share a URL |
| Groups.GenerateUrl | app/models/group.rb:23-25 | `generate_url`; by `JoinUrlRoundTrip` parsing its output gives back the user and group ids |
| Groups.WithoutGroup | app/models/group.rb:3 | destroying a group keeps exactly the records of other groups |
| Groups.WithoutGroupFacts | app/models/group.rb:3-4 | after destroy, no membership of the group remains, and every other group's memberships are exactly as before, in order |
| Groups.ListingsWithoutGroup | app/models/group.rb:5 | the destroyed group's groups_users rows go and all others stay |
| Params.Require | app/controllers/posts_controller.rb:43 | `require` fails exactly on a missing or empty form, otherwise passes it on |
| Params.Permit | app/controllers/posts_controller.rb:43 | `permit` keeps exactly the whitelisted submitted fields with their values |
| Params.PermitIgnoresOtherFields | app/controllers/groups_controller.rb:77-80 | forms that agree on the whitelisted fields permit the same thing |
| Posts.PostWithoutUserInvalid | app/models/post.rb:2-4 | a post is valid exactly when it has a user_id of an existing user and an existing group; without user_id it never is |
| Posts.PostValid | app/models/post.rb:2-4 | a post's validity; by `PostWithoutUserInvalid` it holds exactly when the post names an existing user and an existing group |
| Posts.BuildPost | app/controllers/posts_controller.rb:18-19 | a new post belongs to the routed group, its author is the current user, and only title, description and post_type come from the form |
| Posts.BuildPostIgnoresOtherFields | app/controllers/posts_controller.rb:42-44 | a submitted user_id, group_id or any other field has no effect on the post built |
| Posts.NewComment | app/controllers/comments_controller.rb:6-8 | a new comment belongs to no post and no user |
| Posts.BuildComment | app/controllers/comments_controller.rb:14-18 | a created comment belongs to the routed post and the current user, with the submitted content |
| Posts.BuildCommentDependsOnlyOnContent | app/controllers/comments_controller.rb:26-28 | submitted user_id and post_id are overridden: only content reaches the comment |
| Posts.FindInGroup | app/controllers/posts_controller.rb:39-41 | a post is found exactly when it exists and belongs to the routed group |
| Posts.PostsOf | app/controllers/groups_controller.rb:55 | the group's posts are exactly the posts naming it |
| Posts.WithoutPostComments | app/models/post.rb:5 | destroying a post removes exactly its comments and leaves the others unchanged |
| Posts.WithoutUserComments | app/models/user.rb:20 | destroying a user removes exactly that user's comments and leaves the others unchanged |
| Store.Db.DestroyGroup | app/models/group.rb:3-5 | the group, its memberships and its groups_users rows go; users, posts and comments stay |
| Store.Db.DestroyPost | app/models/post.rb:5 | the post and its comments go; nothing else changes |
| Store.Db.DestroyUser | app/models/user.rb:16-20 | the user, their comments and their groups_users rows go, so they are no group's admin any more; posts and memberships stay |
| GroupsController.BuildGroup | app/controllers/groups_controller.rb:77-80 | the new group takes title, group_type and image from the form and nothing else |
| GroupsController.Create | app/controllers/groups_controller.rb:17-28 | missing form: 400; denied: redirect back with "User is not admin nor premium"; valid group: stored with the creator listed as admin, and then the creator accepted with "Group was successfully created." if the membership saves, or no membership and the form re-shown with 422 if it does not; invalid group: nothing stored, and the form re-shown with 422 only if the membership save also fails |
| GroupsController.StoreGroup | app/controllers/groups_controller.rb:18-21 | a new group gets an unused id and the creator listed first; the accepted membership is added exactly when its save succeeds, so the creator's status is that outcome, and nothing is pending |
| GroupsController.CreatorState | app/controllers/groups_controller.rb:18-21 | in a freshly created group the creator is admin and nothing is pending; the creator is accepted with the membership saved and has no status without it |
| GroupsController.Join | app/controllers/groups_controller.rb:58-73 | missing group/user: not found; denied: redirect back; otherwise the current user's record is added, accepted only for type exactly "Public", with "You have joined this group." or "request successfuly send"; a refused save adds nothing and says "You have already joined this group" |
| GroupsController.AcceptRequest | app/controllers/groups_controller.rb:45-51 | missing group or user (the `get_group` finds): not found; denied: redirect back with "User is not admin nor premium"; otherwise the routed user's membership becomes accepted, no other record changes, and the response redirects back |
| GroupsController.Show | app/controllers/groups_controller.rb:53-56 | a user whose status is false (no membership or pending) is redirected with "You are not member of this group"; members get the group's posts |
| GroupsController.ShowRequest | app/controllers/groups_controller.rb:40-43 | an authorized user gets the group's memberships |
| GroupsController.EveryoneMayReadGroups | app/models/ability.rb:10-24 | every user passes the read check on a group, so only membership gates `show` |
| PostsController.Create | app/controllers/posts_controller.rb:17-26 | a valid post is added to the routed group with the current user as author and the response redirects to the group page; otherwise the form is re-rendered with 422 and nothing is added |
| PostsController.Show | app/controllers/posts_controller.rb:32-41 | an unreadable post redirects back with "User not found"; a post from another group is not found |
| PostsController.CreatedPostIsValid | app/controllers/posts_controller.rb:18-21 | a post made by an existing user in an existing group always validates and names that user |
| CommentsController.New | app/controllers/comments_controller.rb:6-8 | after both routed records are found, the new comment is attached to no post |
| CommentsController.Create | app/controllers/comments_controller.rb:14-18 | after both routed records are found, one comment on the routed post by the current user is added when saved |
| Scenarios.PrivateGroupFlow | app/controllers/groups_controller.rb:45-73 | in a private group: request gives pending (count 1), accept gives member (count 0) |
| Scenarios.LowercasePublicIsPrivate | app/controllers/groups_controller.rb:60-64 | joining a group of type "public" leaves the request pending |
| Scenarios.BasicCannotCreateGroup | app/controllers/groups_controller.rb:3-6 | a basic user's group creation is turned away by the denial handler and stores nothing |
| Scenarios.PostOwnership | app/models/ability.rb:20-24 | for default-plan users, the author may create and update a post; another user may read it but not update it; an admin may update it |

## Left out

- Front-end code, routing, the authentication hooks and the admin user
  listing are not part of this model. The acting user is an `Actor`
  parameter, and the admin role is the `AdminRole` member of a role set.
- The user plan editor is not modelled: it is a direct record update. Plan
  changes appear only as `User.SetPlan` and as the `plan` of an `Actor`.
- Mail on group creation is left out. `deliver_now` sends it synchronously
  inside the request, and a delivery failure would raise after the group is
  stored, in place of the redirect. Neither the delivery nor that failure
  is modelled.
- Image attachment in `edit`, pagination in `index`, rich text and the
  `pictures` collection are left out. They need I/O or blob storage.
- `GroupsController` `index`, `new`, `edit` and `update`,
  `PostsController` `index`, `new` and `show_posts`, and
  `CommentsController#index` are left out. Each only lists or builds records
  for a view, attaches an image, or performs an ORM update not covered here.
- Loading of resources by the authorization library is not modelled. The
  model authorizes `join`, `accept_request`, `show_request` and group
  `create` on a group record, and a post's `show` on that post's owner.
  Post and comment creation are not gated: the record is owned by the actor,
  and `OwnRecordsAllowed` shows every user passes that check. Group `show`
  is not gated either, because `EveryoneMayReadGroups` shows every user
  passes it. So a submitted comment `user_id` that the library would test,
  and the missing denial handler in `CommentsController`, are not modelled.
- Whether a membership or comment save succeeds depends on models that are
  not part of this repository's shown code. It is the input `saveOk` or
  `joinSaveOk`.
- GroupsController.Create: when the group is invalid but the membership
  save succeeds, the source stores a membership with no group. The model
  answers with the same redirect but records nothing.
- GroupsController.AcceptRequest: for an authorized caller whose routed
  group and user exist, the membership must exist, since the source calls
  `update` on nil otherwise. It also assumes the update saves.
- Groups.FirstListed: `users.first` on an association without an order
  returns the listed user with the lowest id. The model returns the user of
  the group's earliest groups_users row instead. The two agree on a group
  with one listed user, such as one `create` has just made.
- Which of the two same-named associations (has-many-through or
  has-and-belongs-to-many) is in force is an ORM matter. The model keeps
  the group's listed users abstractly (`Db.listed`).
- Presence checks treat only ASCII whitespace as blank. Ruby also treats
  other Unicode spaces as blank.
- Record ids are unbounded natural numbers. Concurrent requests and
  transactions belong to the database and are not modelled.
