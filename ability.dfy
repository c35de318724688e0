/** The permission rules of app/models/ability.rb and the reading of a rule
    list that the authorization library gives them: rules are kept in the
    order they were declared, the LAST rule that matches a request decides
    it, and a request no rule matches is denied. */
module Abilities {
  import opened Common

  /** Actions as the rule list sees them. Controller action names reach the
      rules through the library's aliases: index and show are Read, new is
      Create, edit is Update; join, show_request and accept_request keep
      their own names. */
  datatype Action = Read | Create | Update | Destroy | Join | ShowRequest | AcceptRequest

  /** The kinds of record a rule can name. */
  datatype Kind = GroupKind | PostKind | CommentKind | UserKind

  /** A record being checked: its kind and its user_id field (None when the
      record has no owner, or the field is nil). */
  datatype Resource = Resource(kind: Kind, userId: Option<nat>)

  /** The part of a user the rules are built from: the id, whether the user
      holds the admin role, and the plan string (None for nil). */
  datatype Actor = Actor(id: nat, isAdmin: bool, plan: Option<string>)

  /** `:manage` stands for every action. */
  datatype RuleAction = Manage | Only(action: Action)

  /** `:all` stands for every kind of record. */
  datatype Subject = All | Of(kind: Kind)

  /** One `can` (allowed) or `cannot` (not allowed) line; `owner` is the
      hash condition `user_id: ...` when the line has one. */
  datatype Rule = Rule(allowed: bool, action: RuleAction, subject: Subject, owner: Option<nat>)

  predicate Matches(rule: Rule, a: Action, r: Resource) {
    && (rule.action.Manage? || rule.action.action == a)
    && (rule.subject.All? || rule.subject.kind == r.kind)
    && (rule.owner.None? || r.userId == rule.owner)
  }

  /** The library's answer to `can?(a, r)`: scan from the newest rule back. */
  predicate Permits(rules: seq<Rule>, a: Action, r: Resource)
    decreases |rules|
  {
    if rules == [] then false
    else if Matches(rules[|rules| - 1], a, r) then rules[|rules| - 1].allowed
    else Permits(rules[..|rules| - 1], a, r)
  }

  /** Rule i matches and no later rule does. */
  ghost predicate DecidedBy(rules: seq<Rule>, a: Action, r: Resource, i: int) {
    0 <= i < |rules| && Matches(rules[i], a, r) &&
    forall j :: i < j < |rules| ==> !Matches(rules[j], a, r)
  }

  /** Permits is exactly "the last matching rule exists and allows". */
  lemma {:induction false} PermitsIsLastMatch(rules: seq<Rule>, a: Action, r: Resource)
    ensures Permits(rules, a, r) <==> exists i :: DecidedBy(rules, a, r, i) && rules[i].allowed
    decreases |rules|
  {
    if rules != [] {
      var n := |rules| - 1;
      var init := rules[..n];
      if Matches(rules[n], a, r) {
        assert DecidedBy(rules, a, r, n);
        forall i | DecidedBy(rules, a, r, i) ensures i == n { }
      } else {
        PermitsIsLastMatch(init, a, r);
        forall i ensures DecidedBy(rules, a, r, i) <==> DecidedBy(init, a, r, i) {
          if 0 <= i < n {
            assert init[i] == rules[i];
            assert forall j :: i < j < n ==> init[j] == rules[j];
          }
        }
      }
    }
  }

  /** A request that no rule matches is denied. */
  lemma {:induction false} UnmatchedIsDenied(rules: seq<Rule>, a: Action, r: Resource)
    requires forall i :: 0 <= i < |rules| ==> !Matches(rules[i], a, r)
    ensures !Permits(rules, a, r)
    decreases |rules|
  {
    if rules != [] {
      var init := rules[..|rules| - 1];
      assert forall i :: 0 <= i < |init| ==> init[i] == rules[i];
      UnmatchedIsDenied(init, a, r);
    }
  }

  /** The rule list Ability#initialize declares for a user, in order. */
  function RuleTable(u: Actor): seq<Rule> {
    if !u.isAdmin then
      if u.plan == Some("basic") then
        [ Rule(true, Manage, Of(GroupKind), None),
          Rule(true, Manage, Of(PostKind), Some(u.id)),
          Rule(true, Manage, Of(CommentKind), Some(u.id)),
          Rule(false, Only(Create), Of(GroupKind), None) ]
      else if u.plan == Some("Premium") then
        [ Rule(true, Manage, Of(GroupKind), None),
          Rule(true, Manage, Of(PostKind), Some(u.id)),
          Rule(true, Only(Create), Of(GroupKind), None),
          Rule(true, Manage, Of(CommentKind), Some(u.id)) ]
      else
        [ Rule(true, Manage, Of(PostKind), Some(u.id)),
          Rule(true, Only(Create), Of(PostKind), Some(u.id)),
          Rule(true, Manage, Of(CommentKind), Some(u.id)),
          Rule(true, Only(Read), All, None) ]
    else
      [ Rule(true, Manage, All, None) ]
  }

  /** A post or comment whose user_id is the user's id. */
  predicate OwnedBy(u: Actor, r: Resource) {
    (r.kind == PostKind || r.kind == CommentKind) && r.userId == Some(u.id)
  }

  /** The permission table, stated per role and plan without rule lists. */
  predicate Decision(u: Actor, a: Action, r: Resource) {
    if u.isAdmin then true
    else if u.plan == Some("basic") then OwnedBy(u, r) || (r.kind == GroupKind && a != Create)
    else if u.plan == Some("Premium") then OwnedBy(u, r) || r.kind == GroupKind
    else OwnedBy(u, r) || a == Read
  }

  /** Shorthand for the check a controller makes: a fresh rule list for the
      acting user, asked about one action on one record. */
  predicate Authorized(u: Actor, a: Action, r: Resource) {
    Permits(RuleTable(u), a, r)
  }

  /** The rule list built for a user answers every request as the table says. */
  lemma RuleTableDecides(u: Actor, a: Action, r: Resource)
    ensures Authorized(u, a, r) == Decision(u, a, r)
  {
    var rs := RuleTable(u);
    if !u.isAdmin {
      PermitsOfFour(rs, a, r);
    } else {
      assert rs[..0] == [];
    }
  }

  /** Unfolds the scan over a four-rule list. */
  lemma PermitsOfFour(rs: seq<Rule>, a: Action, r: Resource)
    requires |rs| == 4
    ensures Permits(rs, a, r) ==
      if Matches(rs[3], a, r) then rs[3].allowed
      else if Matches(rs[2], a, r) then rs[2].allowed
      else if Matches(rs[1], a, r) then rs[1].allowed
      else Matches(rs[0], a, r) && rs[0].allowed
  {
    var p3, p2, p1 := rs[..3], rs[..2], rs[..1];
    assert p3[..2] == p2 && p3[2] == rs[2];
    assert p2[..1] == p1 && p2[1] == rs[1];
    assert p1[..0] == [] && p1[0] == rs[0];
    assert Permits(p1, a, r) == (Matches(rs[0], a, r) && rs[0].allowed);
    assert Permits(p2, a, r) == if Matches(rs[1], a, r) then rs[1].allowed else Permits(p1, a, r);
    assert Permits(p3, a, r) == if Matches(rs[2], a, r) then rs[2].allowed else Permits(p2, a, r);
  }

  // ----- Properties of the table -----

  /** The admin role short-circuits every plan. */
  lemma AdminMayDoAnything(u: Actor, a: Action, r: Resource)
    requires u.isAdmin
    ensures Authorized(u, a, r)
  {
    RuleTableDecides(u, a, r);
  }

  /** A basic user may do anything to a group except create one: the later
      `cannot :create` overrides the earlier `can :manage`. */
  lemma BasicManagesGroupsButCannotCreate(u: Actor, a: Action, owner: Option<nat>)
    requires !u.isAdmin && u.plan == Some("basic")
    ensures Authorized(u, a, Resource(GroupKind, owner)) <==> a != Create
  {
    RuleTableDecides(u, a, Resource(GroupKind, owner));
  }

  /** A premium user may do anything to a group, creating one included. */
  lemma PremiumManagesGroups(u: Actor, a: Action, owner: Option<nat>)
    requires !u.isAdmin && u.plan == Some("Premium")
    ensures Authorized(u, a, Resource(GroupKind, owner))
  {
    RuleTableDecides(u, a, Resource(GroupKind, owner));
  }

  /** Plan strings are compared exactly: any plan other than "basic" and
      "Premium" (such as "premium", "Basic", or nil) gets the same answers
      as having no plan at all. */
  lemma UnknownPlanIsDefault(u: Actor, a: Action, r: Resource)
    requires u.plan != Some("basic") && u.plan != Some("Premium")
    ensures Authorized(u, a, r) == Authorized(u.(plan := None), a, r)
  {
    RuleTableDecides(u, a, r);
    RuleTableDecides(u.(plan := None), a, r);
  }

  /** Without the admin role, an action other than reading a post or comment
      owned by someone else is denied, whatever the plan; under "basic" and
      "Premium" even reading it is denied. */
  lemma OthersRecordsDenied(u: Actor, a: Action, k: Kind, owner: Option<nat>)
    requires !u.isAdmin && (k == PostKind || k == CommentKind) && owner != Some(u.id)
    ensures a != Read ==> !Authorized(u, a, Resource(k, owner))
    ensures u.plan == Some("basic") || u.plan == Some("Premium") ==> !Authorized(u, a, Resource(k, owner))
  {
    RuleTableDecides(u, a, Resource(k, owner));
  }

  /** Without the admin role, every action on one's own posts and comments is allowed. */
  lemma OwnRecordsAllowed(u: Actor, a: Action, k: Kind)
    requires k == PostKind || k == CommentKind
    ensures Authorized(u, a, Resource(k, Some(u.id)))
  {
    RuleTableDecides(u, a, Resource(k, Some(u.id)));
  }

  /** A user with no recognised plan may read everything and may not write
      groups. */
  lemma DefaultPlanReadsAllWritesNoGroup(u: Actor, a: Action, r: Resource)
    requires !u.isAdmin && u.plan != Some("basic") && u.plan != Some("Premium")
    ensures a == Read ==> Authorized(u, a, r)
    ensures r.kind == GroupKind ==> (Authorized(u, a, r) <==> a == Read)
  {
    RuleTableDecides(u, a, r);
  }

  /** The rule list Ability#initialize appends to, one `can` or `cannot` at a time. */
  class Ability {
    var rules: seq<Rule>

    constructor (u: Actor)
      ensures rules == RuleTable(u)
    {
      rules := [];
      new;
      if !u.isAdmin {
        if u.plan == Some("basic") {
          Can(Manage, Of(GroupKind), None);
          Can(Manage, Of(PostKind), Some(u.id));
          Can(Manage, Of(CommentKind), Some(u.id));
          Cannot(Only(Create), Of(GroupKind), None);
        } else if u.plan == Some("Premium") {
          Can(Manage, Of(GroupKind), None);
          Can(Manage, Of(PostKind), Some(u.id));
          Can(Only(Create), Of(GroupKind), None);
          Can(Manage, Of(CommentKind), Some(u.id));
        } else {
          Can(Manage, Of(PostKind), Some(u.id));
          Can(Only(Create), Of(PostKind), Some(u.id));
          Can(Manage, Of(CommentKind), Some(u.id));
          Can(Only(Read), All, None);
        }
      } else {
        Can(Manage, All, None);
      }
    }

    method Can(action: RuleAction, subject: Subject, owner: Option<nat>)
      modifies this
      ensures rules == old(rules) + [Rule(true, action, subject, owner)]
    {
      rules := rules + [Rule(true, action, subject, owner)];
    }

    method Cannot(action: RuleAction, subject: Subject, owner: Option<nat>)
      modifies this
      ensures rules == old(rules) + [Rule(false, action, subject, owner)]
    {
      rules := rules + [Rule(false, action, subject, owner)];
    }

    /** `can?`: the last matching rule allows. */
    predicate Allows(a: Action, r: Resource)
      reads this
      ensures Allows(a, r) <==> exists i :: DecidedBy(rules, a, r, i) && rules[i].allowed
    {
      PermitsIsLastMatch(rules, a, r);
      Permits(rules, a, r)
    }
  }
}
