/** app/models/group.rb: a group record, its presence validation, and the
    queries a group answers from the membership ledger. The ledger is the
    sequence of membership records in storage order; a group's memberships
    are the records naming it, in that order. */
module Groups {
  import opened Common
  import opened Decimal

  /** A membership record: `req` true is accepted, false is pending. */
  datatype Membership = Membership(userId: nat, groupId: nat, req: bool)

  /** A row of the groups_users table: the group's listed users. */
  datatype Listing = Listing(groupId: nat, userId: nat)

  /** A group's validated fields; `image` is the attached upload, if any. */
  datatype Group = Group(title: Option<string>, groupType: Option<string>, image: Option<string>)

  // ----- Presence validation -----

  predicate IsSpace(c: char) {
    c == ' ' || c == '\t' || c == '\n' || c == '\r' || c == '\U{000C}' || c == '\U{000B}'
  }

  /** Rails' notion of a blank string: empty or only whitespace. */
  predicate IsBlank(s: string) {
    forall i :: 0 <= i < |s| ==> IsSpace(s[i])
  }

  predicate Present(v: Option<string>) {
    v.Some? && !IsBlank(v.value)
  }

  /** `validates :title, :group_type, :image, presence: true`. */
  predicate ValidGroup(g: Group) {
    Present(g.title) && Present(g.groupType) && Present(g.image)
  }

  /** A group is valid exactly when none of the three fields is missing or blank. */
  lemma MissingFieldInvalid(g: Group)
    ensures !ValidGroup(g) <==>
      g.title.None? || g.groupType.None? || g.image.None? ||
      IsBlank(g.title.value) || IsBlank(g.groupType.value) || IsBlank(g.image.value)
    ensures ValidGroup(g) ==> |g.title.value| > 0 && |g.groupType.value| > 0 && |g.image.value| > 0
  {
  }

  /** The type test of the join action: exact, case-sensitive equality. */
  predicate IsPublic(g: Group) {
    g.groupType == Some("Public")
  }

  // ----- The ledger as seen from one group -----

  predicate InGroup(m: Membership, g: nat, u: nat) {
    m.groupId == g && m.userId == u
  }

  predicate HasMembership(ms: seq<Membership>, g: nat, u: nat) {
    exists i :: 0 <= i < |ms| && InGroup(ms[i], g, u)
  }

  /** At most one membership per (user, group). */
  ghost predicate Unique(ms: seq<Membership>) {
    forall i, j :: 0 <= i < j < |ms| ==> !InGroup(ms[j], ms[i].groupId, ms[i].userId)
  }

  /** `group.memberships`: the records naming g, in storage order. */
  function MembershipsOf(ms: seq<Membership>, g: nat): (r: seq<Membership>)
    ensures |r| <= |ms|
    ensures forall m :: m in r <==> m in ms && m.groupId == g
  {
    if ms == [] then []
    else if ms[0].groupId == g then [ms[0]] + MembershipsOf(ms[1..], g)
    else MembershipsOf(ms[1..], g)
  }

  /** `find_by_user_id`: the first record of user u. */
  function FindByUserId(ms: seq<Membership>, u: nat): (r: Option<Membership>)
    ensures r.None? <==> forall i :: 0 <= i < |ms| ==> ms[i].userId != u
    ensures r.Some? ==> r.value in ms && r.value.userId == u
  {
    if ms == [] then None
    else if ms[0].userId == u then Some(ms[0])
    else FindByUserId(ms[1..], u)
  }

  /** Index in the whole ledger of the first membership of u in g (|ms| if none). */
  function FirstMatch(ms: seq<Membership>, g: nat, u: nat): (k: nat)
    ensures k <= |ms|
    ensures k < |ms| ==> InGroup(ms[k], g, u)
    ensures forall j :: 0 <= j < k ==> !InGroup(ms[j], g, u)
  {
    if ms == [] then 0
    else if InGroup(ms[0], g, u) then 0
    else 1 + FirstMatch(ms[1..], g, u)
  }

  /** Looking u up among g's memberships finds the ledger's first record of (u, g). */
  lemma {:induction false} FindInGroupIsFirstMatch(ms: seq<Membership>, g: nat, u: nat)
    ensures FindByUserId(MembershipsOf(ms, g), u) ==
      (if FirstMatch(ms, g, u) < |ms| then Some(ms[FirstMatch(ms, g, u)]) else None)
  {
    if ms != [] {
      FindInGroupIsFirstMatch(ms[1..], g, u);
      if ms[0].groupId == g {
        assert MembershipsOf(ms, g) == [ms[0]] + MembershipsOf(ms[1..], g);
      }
    }
  }

  /** `check_request_status`: false when u has no membership in g, otherwise
      the stored `req` flag of the membership found. */
  function CheckRequestStatus(ms: seq<Membership>, g: nat, u: nat): (r: bool)
    ensures r ==> HasMembership(ms, g, u)
  {
    match FindByUserId(MembershipsOf(ms, g), u)
    case None => false
    case Some(m) => m.req
  }

  /** The status is the flag of the first membership of (u, g), false if none. */
  lemma StatusIsFirstFlag(ms: seq<Membership>, g: nat, u: nat)
    ensures !HasMembership(ms, g, u) ==> !CheckRequestStatus(ms, g, u)
    ensures CheckRequestStatus(ms, g, u) <==>
      FirstMatch(ms, g, u) < |ms| && ms[FirstMatch(ms, g, u)].req
  {
    FindInGroupIsFirstMatch(ms, g, u);
  }

  /** With one membership per (user, group), the status is that membership's flag. */
  lemma StatusIsStoredFlag(ms: seq<Membership>, i: nat)
    requires Unique(ms) && i < |ms|
    ensures CheckRequestStatus(ms, ms[i].groupId, ms[i].userId) == ms[i].req
  {
    var g, u := ms[i].groupId, ms[i].userId;
    StatusIsFirstFlag(ms, g, u);
    var k := FirstMatch(ms, g, u);
    assert k <= i;
    if k < i {
      assert InGroup(ms[i], ms[k].groupId, ms[k].userId);
    }
  }

  /** Number of records in a list with `req` false. */
  function Unaccepted(ms: seq<Membership>): (n: nat)
    ensures n <= |ms|
  {
    if ms == [] then 0 else (if ms[0].req then 0 else 1) + Unaccepted(ms[1..])
  }

  /** `pending_req_count`: `memberships.where(req: false).count`. */
  function PendingReqCount(ms: seq<Membership>, g: nat): (n: nat)
    ensures n <= |MembershipsOf(ms, g)|
  {
    Unaccepted(MembershipsOf(ms, g))
  }

  /** Counting pending records of g over the whole ledger, from the back. */
  function PendingIn(ms: seq<Membership>, g: nat): nat
    decreases |ms|
  {
    if ms == [] then 0
    else PendingIn(ms[..|ms| - 1], g) + (if ms[|ms| - 1].groupId == g && !ms[|ms| - 1].req then 1 else 0)
  }

  lemma {:induction false} PendingInCons(m: Membership, ms: seq<Membership>, g: nat)
    ensures PendingIn([m] + ms, g) == (if m.groupId == g && !m.req then 1 else 0) + PendingIn(ms, g)
    decreases |ms|
  {
    if ms != [] {
      var n := |ms| - 1;
      assert ([m] + ms)[..n + 1] == [m] + ms[..n];
      PendingInCons(m, ms[..n], g);
    }
  }

  /** The count of the group's query equals the count of g's pending
      records taken over the whole ledger. */
  lemma {:induction false} PendingReqCountIsPendingIn(ms: seq<Membership>, g: nat)
    ensures PendingReqCount(ms, g) == PendingIn(ms, g)
  {
    if ms != [] {
      PendingReqCountIsPendingIn(ms[1..], g);
      PendingInCons(ms[0], ms[1..], g);
      assert [ms[0]] + ms[1..] == ms;
      if ms[0].groupId == g {
        assert MembershipsOf(ms, g) == [ms[0]] + MembershipsOf(ms[1..], g);
      }
    }
  }

  /** Appending a record adds one to g's pending count exactly when the
      record is a pending one of g. */
  lemma PendingAfterAppend(ms: seq<Membership>, m: Membership, g: nat)
    ensures PendingReqCount(ms + [m], g) ==
      PendingReqCount(ms, g) + (if m.groupId == g && !m.req then 1 else 0)
  {
    PendingReqCountIsPendingIn(ms + [m], g);
    PendingReqCountIsPendingIn(ms, g);
    assert (ms + [m])[..|ms|] == ms;
  }

  /** No pending record of g exactly when g's pending count is zero. */
  lemma {:induction false} PendingZeroIffAllAccepted(ms: seq<Membership>, g: nat)
    ensures PendingReqCount(ms, g) == 0 <==> forall i :: 0 <= i < |ms| && ms[i].groupId == g ==> ms[i].req
  {
    if ms != [] {
      PendingZeroIffAllAccepted(ms[1..], g);
      if ms[0].groupId == g {
        assert MembershipsOf(ms, g) == [ms[0]] + MembershipsOf(ms[1..], g);
      }
      assert forall i :: 1 <= i < |ms| ==> ms[i] == ms[1..][i - 1];
    }
  }

  // ----- accept_request -----

  /** The ledger after accept_request: the first membership of u in g becomes
      accepted; every other record stays as it was. */
  function Accept(ms: seq<Membership>, g: nat, u: nat): (r: seq<Membership>)
    ensures |r| == |ms|
  {
    var k := FirstMatch(ms, g, u);
    if k < |ms| then ms[k := ms[k].(req := true)] else ms
  }

  lemma AcceptFacts(ms: seq<Membership>, g: nat, u: nat)
    requires HasMembership(ms, g, u)
    ensures CheckRequestStatus(Accept(ms, g, u), g, u)
    ensures forall i :: 0 <= i < |ms| && !InGroup(ms[i], g, u) ==> Accept(ms, g, u)[i] == ms[i]
    ensures forall i :: 0 <= i < |ms| ==> Accept(ms, g, u)[i].userId == ms[i].userId &&
                                          Accept(ms, g, u)[i].groupId == ms[i].groupId &&
                                          (ms[i].req ==> Accept(ms, g, u)[i].req)
    ensures Accept(Accept(ms, g, u), g, u) == Accept(ms, g, u)
  {
    var k := FirstMatch(ms, g, u);
    var r := Accept(ms, g, u);
    var i :| 0 <= i < |ms| && InGroup(ms[i], g, u);
    assert k < |ms|;
    FirstMatchStable(ms, r, g, u);
    StatusIsFirstFlag(r, g, u);
  }

  /** Changing only flags keeps the first match where it was. */
  lemma FirstMatchStable(ms: seq<Membership>, r: seq<Membership>, g: nat, u: nat)
    requires |r| == |ms|
    requires forall i :: 0 <= i < |ms| ==> r[i].userId == ms[i].userId && r[i].groupId == ms[i].groupId
    ensures FirstMatch(r, g, u) == FirstMatch(ms, g, u)
  {
    var k, k' := FirstMatch(ms, g, u), FirstMatch(r, g, u);
    if k < k' {
      assert false;
    } else if k' < k {
      assert false;
    }
  }

  /** Accepting a pending request lowers g's pending count by one; accepting
      an accepted one leaves it. Other groups' counts never change. */
  lemma PendingAfterAccept(ms: seq<Membership>, g: nat, u: nat, h: nat)
    requires HasMembership(ms, g, u)
    ensures var k := FirstMatch(ms, g, u);
      PendingReqCount(Accept(ms, g, u), h) ==
        PendingReqCount(ms, h) - (if h == g && !ms[k].req then 1 else 0)
  {
    var k := FirstMatch(ms, g, u);
    PendingReqCountIsPendingIn(ms, h);
    PendingReqCountIsPendingIn(Accept(ms, g, u), h);
    PendingInUpdate(ms, k, ms[k].(req := true), h);
  }

  lemma {:induction false} PendingInUpdate(ms: seq<Membership>, k: nat, m: Membership, h: nat)
    requires k < |ms| && m.groupId == ms[k].groupId
    ensures PendingIn(ms[k := m], h) ==
      PendingIn(ms, h) - (if h == ms[k].groupId && !ms[k].req then 1 else 0)
                       + (if h == m.groupId && !m.req then 1 else 0)
    decreases |ms|
  {
    var n := |ms| - 1;
    if k < n {
      assert ms[k := m][..n] == ms[..n][k := m];
      PendingInUpdate(ms[..n], k, m, h);
    } else {
      assert ms[k := m][..n] == ms[..n];
    }
  }

  /** Appending a record that is not yet there keeps the ledger unique. */
  lemma AppendKeepsUnique(ms: seq<Membership>, m: Membership)
    requires Unique(ms) && !HasMembership(ms, m.groupId, m.userId)
    ensures Unique(ms + [m])
  {
    var r := ms + [m];
    forall i, j | 0 <= i < j < |r| ensures !InGroup(r[j], r[i].groupId, r[i].userId) {
      if j == |ms| {
        if InGroup(r[j], r[i].groupId, r[i].userId) {
          assert InGroup(ms[i], m.groupId, m.userId);
        }
      }
    }
  }

  /** The status after a new record of (u, g) is appended to a ledger that had none. */
  lemma StatusAfterJoin(ms: seq<Membership>, m: Membership)
    requires !HasMembership(ms, m.groupId, m.userId)
    ensures CheckRequestStatus(ms + [m], m.groupId, m.userId) == m.req
  {
    var r := ms + [m];
    StatusIsFirstFlag(r, m.groupId, m.userId);
    var k := FirstMatch(r, m.groupId, m.userId);
    if k < |ms| {
      assert false;
    }
  }

  // ----- Listed users -----

  /** `users.first` of g: the first listed user, None when the list is empty. */
  function FirstListed(listed: seq<Listing>, g: nat): (r: Option<nat>)
    ensures r.None? <==> forall i :: 0 <= i < |listed| ==> listed[i].groupId != g
    ensures r.Some? ==> exists i :: 0 <= i < |listed| && listed[i] == Listing(g, r.value) &&
                                    forall j :: 0 <= j < i ==> listed[j].groupId != g
  {
    if listed == [] then None
    else if listed[0].groupId == g then Some(listed[0].userId)
    else
      var r := FirstListed(listed[1..], g);
      assert forall i :: 1 <= i < |listed| ==> listed[i] == listed[1..][i - 1];
      if r.Some? then
        var i :| 0 <= i < |listed[1..]| && listed[1..][i] == Listing(g, r.value) &&
                 forall j :: 0 <= j < i ==> listed[1..][j].groupId != g;
        assert listed[i + 1] == Listing(g, r.value);
        r
      else r
  }

  /** `check_group_admin`: whether g's first listed user is u. None models
      the nil `users.first` of a group with no listed user, whose `.id`
      raises. */
  function CheckGroupAdmin(listed: seq<Listing>, g: nat, u: nat): (r: Option<bool>)
    ensures r.None? <==> (forall i :: 0 <= i < |listed| ==> listed[i].groupId != g)
    ensures r == Some(true) ==> exists i :: 0 <= i < |listed| && listed[i] == Listing(g, u)
  {
    match FirstListed(listed, g)
    case None => None
    case Some(first) => Some(first == u)
  }

  /** Once g's first listed user is c, c and only c is g's admin, whatever
      is listed afterwards. */
  lemma {:induction false} CreatorIsGroupAdmin(listed: seq<Listing>, more: seq<Listing>, g: nat, c: nat, u: nat)
    requires forall i :: 0 <= i < |listed| ==> listed[i].groupId != g
    ensures CheckGroupAdmin(listed + [Listing(g, c)] + more, g, u) == Some(u == c)
    decreases |listed|
  {
    if listed != [] {
      assert (listed + [Listing(g, c)] + more)[1..] == listed[1..] + [Listing(g, c)] + more;
      CreatorIsGroupAdmin(listed[1..], more, g, c, u);
    }
  }

  /** `get_group_admin`: the user with id 1, which does not depend on the
      group at all; None when no such user exists (`find` raises). */
  function GetGroupAdmin(users: set<nat>): (r: Option<nat>)
    ensures r.Some? <==> 1 in users
    ensures r.Some? ==> r.value == 1
  {
    if 1 in users then Some(1) else None
  }

  // ----- generate_url -----

  const UrlHost: string := "[::1]:3000//user/"
  const UrlGroups: string := "/groups/"
  const UrlJoin: string := "/join"

  /** `generate_url(u)` for group g: "[::1]:3000//user/<u>/groups/<g>/join". */
  function GenerateUrl(g: nat, u: nat): string {
    UrlHost + NatToString(u) + UrlGroups + NatToString(g) + UrlJoin
  }

  /** Reads a join URL back into (user id, group id). */
  function ParseJoinUrl(s: string): Option<(nat, nat)> {
    if |s| < |UrlHost| || s[..|UrlHost|] != UrlHost then None
    else
      var rest := s[|UrlHost|..];
      var n := DigitRun(rest);
      if n == 0 then None
      else
        var afterUser := rest[n..];
        if |afterUser| < |UrlGroups| || afterUser[..|UrlGroups|] != UrlGroups then None
        else
          var tail := afterUser[|UrlGroups|..];
          var m := DigitRun(tail);
          if m == 0 || tail[m..] != UrlJoin then None
          else Some((ParseDigits(rest[..n]), ParseDigits(tail[..m])))
  }

  /** The join URL determines both ids it was made from. */
  lemma JoinUrlRoundTrip(g: nat, u: nat)
    ensures ParseJoinUrl(GenerateUrl(g, u)) == Some((u, g))
  {
    var s := GenerateUrl(g, u);
    var us, gs := NatToString(u), NatToString(g);
    assert s[..|UrlHost|] == UrlHost;
    var rest := s[|UrlHost|..];
    assert rest == us + (UrlGroups + gs + UrlJoin);
    DigitRunOfDigits(us, UrlGroups + gs + UrlJoin);
    assert rest[..|us|] == us;
    var afterUser := rest[|us|..];
    assert afterUser == UrlGroups + (gs + UrlJoin);
    assert afterUser[..|UrlGroups|] == UrlGroups;
    var tail := afterUser[|UrlGroups|..];
    assert tail == gs + UrlJoin;
    DigitRunOfDigits(gs, UrlJoin);
    assert tail[..|gs|] == gs && tail[|gs|..] == UrlJoin;
    ParseNatToString(u);
    ParseNatToString(g);
  }

  /** Different (user, group) pairs never share a join URL. */
  lemma JoinUrlInjective(g: nat, u: nat, g': nat, u': nat)
    requires GenerateUrl(g, u) == GenerateUrl(g', u')
    ensures g == g' && u == u'
  {
    JoinUrlRoundTrip(g, u);
    JoinUrlRoundTrip(g', u');
  }

  // ----- Cascade on destroy -----

  /** The ledger after group g is destroyed (`dependent: :destroy`). */
  function WithoutGroup(ms: seq<Membership>, g: nat): (r: seq<Membership>)
    ensures forall m :: m in r <==> m in ms && m.groupId != g
  {
    if ms == [] then []
    else if ms[0].groupId == g then WithoutGroup(ms[1..], g)
    else [ms[0]] + WithoutGroup(ms[1..], g)
  }

  /** Destroying g leaves no membership of g and every other group's
      memberships exactly as they were, in the same order. */
  lemma {:induction false} WithoutGroupFacts(ms: seq<Membership>, g: nat, h: nat)
    ensures MembershipsOf(WithoutGroup(ms, g), g) == []
    ensures h != g ==> MembershipsOf(WithoutGroup(ms, g), h) == MembershipsOf(ms, h)
  {
    if ms != [] {
      WithoutGroupFacts(ms[1..], g, h);
      if ms[0].groupId != g {
        assert WithoutGroup(ms, g) == [ms[0]] + WithoutGroup(ms[1..], g);
        assert ([ms[0]] + WithoutGroup(ms[1..], g))[1..] == WithoutGroup(ms[1..], g);
      }
    }
  }

  /** The groups_users rows after group g is destroyed. */
  function ListingsWithoutGroup(listed: seq<Listing>, g: nat): (r: seq<Listing>)
    ensures forall l :: l in r <==> l in listed && l.groupId != g
  {
    if listed == [] then []
    else if listed[0].groupId == g then ListingsWithoutGroup(listed[1..], g)
    else [listed[0]] + ListingsWithoutGroup(listed[1..], g)
  }

  /** The groups_users rows after user u is destroyed: the join rows of a
      `has_and_belongs_to_many` association go with either side. */
  function ListingsWithoutUser(listed: seq<Listing>, u: nat): (r: seq<Listing>)
    ensures forall l :: l in r <==> l in listed && l.userId != u
  {
    if listed == [] then []
    else if listed[0].userId == u then ListingsWithoutUser(listed[1..], u)
    else [listed[0]] + ListingsWithoutUser(listed[1..], u)
  }

  /** Once u's rows are gone, u is no group's admin, and a group that listed
      only u has no first user left (`check_group_admin` then raises). */
  lemma ListingsWithoutUserAdmin(listed: seq<Listing>, u: nat, g: nat, x: nat)
    ensures CheckGroupAdmin(ListingsWithoutUser(listed, u), g, u) != Some(true)
    ensures (forall i :: 0 <= i < |listed| && listed[i].groupId == g ==> listed[i].userId == u) ==>
      CheckGroupAdmin(ListingsWithoutUser(listed, u), g, x).None?
  {
    var r := ListingsWithoutUser(listed, u);
    forall i | 0 <= i < |r| ensures r[i].userId != u { assert r[i] in r; }
    if forall i :: 0 <= i < |listed| && listed[i].groupId == g ==> listed[i].userId == u {
      forall i | 0 <= i < |r| ensures r[i].groupId != g {
        assert r[i] in listed;
      }
    }
  }
}
