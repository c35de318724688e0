/** app/models/user.rb: the role set a new user ends up with, and the
    Ability a user object builds once and then keeps. */
module Users {
  import opened Common
  import opened Abilities

  /** Role names held through the role library; only :admin is consulted
      by the rules and :newuser is the default one. */
  datatype Role = AdminRole | NewUserRole | OtherRole(name: string)

  /** The roles after the after-create hook: :newuser when there were none. */
  function DefaultRoles(roles: set<Role>): set<Role> {
    if roles == {} then {NewUserRole} else roles
  }

  /** A user created with no roles holds exactly :newuser afterwards, one
      created with roles keeps them unchanged, and the hook never yields
      the admin role by itself. */
  lemma DefaultRolesFacts(roles: set<Role>)
    ensures roles == {} ==> DefaultRoles(roles) == {NewUserRole}
    ensures roles != {} ==> DefaultRoles(roles) == roles
    ensures AdminRole in DefaultRoles(roles) <==> AdminRole in roles
    ensures DefaultRoles(DefaultRoles(roles)) == DefaultRoles(roles)
  {
  }

  class User {
    const id: nat
    var plan: Option<string>
    var roles: set<Role>
    /** The memo `@ability`; null until first used. */
    var ability: Ability?
    /** The user as it was when `ability` was built. */
    ghost var abilityFor: Actor

    ghost predicate Valid()
      reads this, ability
    {
      ability != null ==> ability.rules == RuleTable(abilityFor)
    }

    /** What the rules are built from: `has_role? :admin`, plan and id. */
    function Snapshot(): Actor
      reads this
    {
      Actor(id, AdminRole in roles, plan)
    }

    /** Creation followed by the after-create hook `assign_default_role`. */
    constructor Create(id: nat, plan: Option<string>, roles: set<Role>)
      ensures Valid() && ability == null
      ensures this.id == id && this.plan == plan && this.roles == DefaultRoles(roles)
    {
      this.id := id;
      this.plan := plan;
      this.roles := roles;
      ability := null;
      abilityFor := Actor(id, false, plan);
      new;
      AssignDefaultRole();
    }

    /** Adds :newuser when the user holds no role at all. */
    method AssignDefaultRole()
      modifies this`roles
      ensures roles == DefaultRoles(old(roles))
    {
      if roles == {} {
        roles := roles + {NewUserRole};
      }
    }

    /** A plan edit on this object; the memoised ability is left alone. */
    method SetPlan(p: Option<string>)
      modifies this`plan
      ensures plan == p
    {
      plan := p;
    }

    /** `@ability ||= Ability.new(self)`. */
    method GetAbility() returns (a: Ability)
      requires Valid()
      modifies this`ability, this`abilityFor
      ensures Valid() && ability == a
      ensures old(ability) != null ==> a == old(ability) && abilityFor == old(abilityFor)
      ensures old(ability) == null ==> fresh(a) && abilityFor == Snapshot()
      ensures a.rules == RuleTable(abilityFor)
    {
      if ability == null {
        var built := new Ability(Snapshot());
        ability := built;
        abilityFor := Snapshot();
      }
      a := ability;
    }

    /** `can?`, answered by this user's memoised Ability. */
    method CanQ(act: Action, r: Resource) returns (b: bool)
      requires Valid()
      modifies this`ability, this`abilityFor
      ensures Valid() && ability != null
      ensures old(ability) != null ==> ability == old(ability) && abilityFor == old(abilityFor)
      ensures old(ability) == null ==> abilityFor == Snapshot()
      ensures b == Permits(RuleTable(abilityFor), act, r)
    {
      var a := GetAbility();
      b := a.Allows(act, r);
    }

    /** `cannot?`: the negation of `can?`. */
    method CannotQ(act: Action, r: Resource) returns (b: bool)
      requires Valid()
      modifies this`ability, this`abilityFor
      ensures Valid() && ability != null
      ensures old(ability) != null ==> ability == old(ability) && abilityFor == old(abilityFor)
      ensures old(ability) == null ==> abilityFor == Snapshot()
      ensures b == !Permits(RuleTable(abilityFor), act, r)
    {
      var a := GetAbility();
      b := !a.Allows(act, r);
    }
  }

  /** A basic user who asks once, then changes plan to "Premium" on the same
      object, still gets the basic answer: the Ability is not rebuilt. A
      fresh rule list for the changed user would have allowed it. */
  method StaleAbilityAfterPlanChange(id: nat) returns (before: bool, after: bool, rebuilt: bool)
    ensures !before && !after && rebuilt
  {
    var u := new User.Create(id, Some("basic"), {});
    var group := Resource(GroupKind, None);
    before := u.CanQ(Create, group);
    BasicManagesGroupsButCannotCreate(u.abilityFor, Create, None);
    u.SetPlan(Some("Premium"));
    after := u.CanQ(Create, group);
    rebuilt := Authorized(u.Snapshot(), Create, group);
    PremiumManagesGroups(u.Snapshot(), Create, None);
  }

  /** A freshly created user without roles is not an admin, so the plan
      decides: a basic newcomer may not create groups. */
  method NewcomerIsNotAdmin(id: nat, plan: Option<string>) returns (admin: bool, createGroup: bool)
    ensures !admin
    ensures plan == Some("basic") ==> !createGroup
  {
    var u := new User.Create(id, plan, {});
    admin := AdminRole in u.roles;
    createGroup := u.CanQ(Create, Resource(GroupKind, None));
    if plan == Some("basic") {
      BasicManagesGroupsButCannotCreate(u.abilityFor, Create, None);
    }
  }
}
