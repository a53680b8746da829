/** The administrator dashboard (src/pages/Admin.tsx): who may see it, the
    user list with the roles joined in, the search over all records, the
    statistics, and the moderation handlers, which act on the research store.
    The two backend queries are parameters: `None` stands for a query that
    answered with an error. */
module Admin {
  import opened Wrappers
  import opened Text
  import opened Seqs
  import opened Types
  import opened ResearchSearch
  import opened ResearchStore

  // ---------------------------------------------------------------- access

  datatype Redirect = ToLogin | ToDashboard | Stay

  /** The redirect effect: signed-out visitors go to the login page, every
      other non-administrator to the dashboard. */
  function AdminRedirect(isAuthenticated: bool, user: Option<User>): (r: Redirect)
    ensures r == Stay <==> isAuthenticated && user.Some? && user.value.role == Admin
    ensures r == ToLogin <==> !isAuthenticated
  {
    if !isAuthenticated then ToLogin
    else if user.None? || user.value.role != Admin then ToDashboard
    else Stay
  }

  // ---------------------------------------------------------------- users

  /** A row of the `profiles` table, with the role the page joins in. */
  datatype ProfileUser = ProfileUser(
    id: string,
    userId: string,
    email: string,
    fullName: string,
    affiliation: Option<string>,
    createdAt: string,
    role: string)

  /** A row of the `user_roles` table. */
  datatype RoleRow = RoleRow(userId: string, role: string)

  const DefaultRole := "student"
  const AdminRole := "admin"

  /** The `reduce` over the role rows: each row writes its user's entry, so
      the last row for a user wins. */
  function RolesMap(roles: seq<RoleRow>): (m: map<string, string>)
    ensures forall k :: k in m <==> exists i :: 0 <= i < |roles| && roles[i].userId == k
  {
    if roles == [] then map[]
    else
      var front := roles[..|roles| - 1];
      var last := roles[|roles| - 1];
      assert forall i :: 0 <= i < |front| ==> front[i] == roles[i];
      RolesMap(front)[last.userId := last.role]
  }

  /** The role shown for a user: the mapped role, or the default when there
      is none or it is empty (`||` treats `''` as missing). */
  function RoleOf(rolesMap: map<string, string>, userId: string): (r: string)
    ensures r != ""
    ensures userId in rolesMap && rolesMap[userId] != "" ==> r == rolesMap[userId]
    ensures userId !in rolesMap || rolesMap[userId] == "" ==> r == DefaultRole
  {
    if userId in rolesMap && rolesMap[userId] != "" then rolesMap[userId] else DefaultRole
  }

  /** The profiles with their roles, in the order the backend returned them. */
  function WithRoles(profiles: seq<ProfileUser>, roles: seq<RoleRow>): (r: seq<ProfileUser>)
    ensures |r| == |profiles|
    ensures forall i :: 0 <= i < |profiles| ==>
              r[i] == profiles[i].(role := RoleOf(RolesMap(roles), profiles[i].userId))
  {
    var m := RolesMap(roles);
    seq(|profiles|, i requires 0 <= i < |profiles| => profiles[i].(role := RoleOf(m, profiles[i].userId)))
  }

  /** The role given to a user is the one of the last row for that user. */
  lemma {:induction false} LastRoleWins(roles: seq<RoleRow>, k: int)
    requires 0 <= k < |roles|
    requires forall j :: k < j < |roles| ==> roles[j].userId != roles[k].userId
    ensures roles[k].userId in RolesMap(roles) && RolesMap(roles)[roles[k].userId] == roles[k].role
    decreases |roles|
  {
    if k < |roles| - 1 {
      var front := roles[..|roles| - 1];
      assert front[k] == roles[k];
      LastRoleWins(front, k);
    }
  }

  /** A user without a role row is shown with the default role. */
  lemma NoRoleIsDefault(roles: seq<RoleRow>, userId: string)
    requires forall i :: 0 <= i < |roles| ==> roles[i].userId != userId
    ensures RoleOf(RolesMap(roles), userId) == DefaultRole
  {
  }

  /** The users after `handleBanUser`. */
  function Banned(users: seq<ProfileUser>, userId: string): (r: seq<ProfileUser>)
    ensures forall u :: u in r <==> u in users && u.userId != userId
    ensures IsSubsequence(r, users)
    ensures |r| == |users| - |Filter(users, (u: ProfileUser) => u.userId == userId)|
  {
    FilterIsSubsequence(users, (u: ProfileUser) => u.userId != userId);
    FilterSplitCount(users, (u: ProfileUser) => u.userId != userId, (u: ProfileUser) => u.userId == userId);
    Filter(users, (u: ProfileUser) => u.userId != userId)
  }

  /** Banning twice is banning once. */
  lemma BanIdempotent(users: seq<ProfileUser>, userId: string)
    ensures Banned(Banned(users, userId), userId) == Banned(users, userId)
  {
    var b := Banned(users, userId);
    assert forall i :: 0 <= i < |b| ==> b[i] in b;
    FilterAll(b, (u: ProfileUser) => u.userId != userId);
  }

  /** Banning a user nobody has changes nothing. */
  lemma BanUnknown(users: seq<ProfileUser>, userId: string)
    requires forall i :: 0 <= i < |users| ==> users[i].userId != userId
    ensures Banned(users, userId) == users
  {
    FilterAll(users, (u: ProfileUser) => u.userId != userId);
  }

  /** The ban control is offered for every user but administrators. */
  function ShowBanControl(u: ProfileUser): (b: bool)
    ensures b <==> u.role != AdminRole
  {
    u.role != AdminRole
  }

  // ---------------------------------------------------------------- records

  /** The records listed for the search box: title or author name contains
      the query, ignoring case. */
  function FilteredResearches(researches: seq<Research>, searchQuery: string): (r: seq<Research>)
    ensures forall x :: x in r <==>
              x in researches && (ContainsIgnoreCase(x.title, searchQuery) || ContainsIgnoreCase(x.authorName, searchQuery))
    ensures IsSubsequence(r, researches)
  {
    FilterIsSubsequence(researches, (x: Research) =>
      ContainsIgnoreCase(x.title, searchQuery) || ContainsIgnoreCase(x.authorName, searchQuery));
    Filter(researches, (x: Research) =>
      ContainsIgnoreCase(x.title, searchQuery) || ContainsIgnoreCase(x.authorName, searchQuery))
  }

  /** An empty search box lists every record. */
  lemma EmptySearchKeepsAll(researches: seq<Research>)
    ensures FilteredResearches(researches, "") == researches
  {
    forall i | 0 <= i < |researches|
      ensures ContainsIgnoreCase(researches[i].title, "")
    {
      ContainsEmpty(LowerStr(researches[i].title));
    }
    FilterAll(researches, (x: Research) =>
      ContainsIgnoreCase(x.title, "") || ContainsIgnoreCase(x.authorName, ""));
  }

  /** The access level shown: a missing one reads as public. */
  function AccessLevelShown(r: Research): (a: AccessLevel)
    ensures r.accessLevel.Some? ==> a == r.accessLevel.value
    ensures r.accessLevel.None? ==> a == Public
  {
    if r.accessLevel.Some? then r.accessLevel.value else Public
  }

  // ---------------------------------------------------------------- statistics

  function PublicCount(researches: seq<Research>): nat
  {
    |Filter(researches, (r: Research) => r.accessLevel == Some(Public))|
  }

  function RestrictedCount(researches: seq<Research>): nat
  {
    |Filter(researches, (r: Research) => r.accessLevel == Some(Restricted))|
  }

  function TotalViews(researches: seq<Research>): int
  {
    SumOf(researches, ViewsOf)
  }

  /** The public and restricted counts never add up to more than the total,
      and the views total is never negative. */
  lemma StatsBounded(researches: seq<Research>)
    ensures PublicCount(researches) + RestrictedCount(researches) <= |researches|
    ensures TotalViews(researches) >= 0
  {
    FilterExclusiveCounts(researches, (r: Research) => r.accessLevel == Some(Public),
                          (r: Research) => r.accessLevel == Some(Restricted));
    SumOfNonNegative(researches, ViewsOf);
  }

  /** The views total is at least the views of any one record. */
  lemma {:induction false} TotalViewsCoversEach(researches: seq<Research>, i: int)
    requires 0 <= i < |researches|
    ensures researches[i].views <= TotalViews(researches)
  {
    SumOfNonNegative(researches[1..], ViewsOf);
    if i > 0 {
      TotalViewsCoversEach(researches[1..], i - 1);
    }
  }

  /** A record without an access level is listed as public but is not in the
      public count. */
  lemma UnsetAccessNotCounted(r: Research)
    requires r.accessLevel.None?
    ensures AccessLevelShown(r) == Public && PublicCount([r]) == 0
  {
    assert Filter([r], (x: Research) => x.accessLevel == Some(Public)) == [];
  }

  // ---------------------------------------------------------------- abstract visibility

  /** The switch is on unless the field is explicitly `false`. */
  predicate VisibilityShown(abstractVisible: Option<bool>)
  {
    abstractVisible != Some(false)
  }

  /** The value `handleToggleAbstractVisibility` writes, as written: the
      negation of the field, where a missing field negates to `true`. */
  function ToggledAsWritten(abstractVisible: Option<bool>): (r: Option<bool>)
    ensures r.Some?
    ensures abstractVisible.Some? ==> r.value == !abstractVisible.value
    ensures abstractVisible.None? ==> r.value
  {
    Some(if abstractVisible.Some? then !abstractVisible.value else true)
  }

  /** On a record with no visibility set, the first toggle leaves the switch
      on: the click changes nothing that is shown. */
  lemma ToggleAsWrittenKeepsSwitch()
    ensures VisibilityShown(None) && VisibilityShown(ToggledAsWritten(None))
  {
  }

  /** The value the toggle evidently means to write: the opposite of what the
      switch shows. */
  function Toggled(abstractVisible: Option<bool>): (r: Option<bool>)
    ensures r.Some? && (r.value <==> !VisibilityShown(abstractVisible))
  {
    Some(!VisibilityShown(abstractVisible))
  }

  /** The intended toggle always flips the switch, and agrees with the code
      whenever the field is set. */
  lemma ToggleFlipsSwitch(abstractVisible: Option<bool>)
    ensures VisibilityShown(Toggled(abstractVisible)) == !VisibilityShown(abstractVisible)
    ensures abstractVisible.Some? ==> Toggled(abstractVisible) == ToggledAsWritten(abstractVisible)
  {
  }

  /** The update the switch sends, as written: only the visibility, set to
      the negation of the record's field. */
  function VisibilityUpdate(r: Research): (u: ResearchUpdate)
    ensures u.abstractVisible == ToggledAsWritten(r.abstractVisible)
    ensures u == ResearchUpdate(None, None, None, None, None, None, None, u.abstractVisible, None, None, None)
  {
    ResearchUpdate(None, None, None, None, None, None, None, ToggledAsWritten(r.abstractVisible), None, None, None)
  }

  /** The update the access-level select sends. */
  function AccessLevelUpdate(level: AccessLevel): (u: ResearchUpdate)
    ensures u.accessLevel == Some(level)
    ensures u == ResearchUpdate(None, None, None, None, None, None, Some(level), None, None, None, None)
  {
    ResearchUpdate(None, None, None, None, None, None, Some(level), None, None, None, None)
  }

  /** After a successful access-level change, the record under the id shows
      the chosen level, and its visibility is untouched. */
  lemma AccessLevelChangeShown(rs: seq<Research>, id: string, level: AccessLevel, now: int)
    requires ResearchById(rs, id).Some?
    ensures ResearchById(Updated(rs, id, AccessLevelUpdate(level), now), id).Some?
    ensures AccessLevelShown(ResearchById(Updated(rs, id, AccessLevelUpdate(level), now), id).value) == level
  {
    UpdatedLookup(rs, id, AccessLevelUpdate(level), now);
  }

  /** After a successful toggle, the record under the id holds the negated
      field: its switch flips when the field was set, and stays on when it
      was not. */
  lemma ToggleChangeShown(rs: seq<Research>, id: string, now: int)
    requires ResearchById(rs, id).Some?
    ensures var before := ResearchById(rs, id).value;
            var after := ResearchById(Updated(rs, id, VisibilityUpdate(before), now), id);
            && after.Some?
            && after.value.abstractVisible == ToggledAsWritten(before.abstractVisible)
            && (before.abstractVisible.Some? ==>
                  VisibilityShown(after.value.abstractVisible) == !VisibilityShown(before.abstractVisible))
            && (before.abstractVisible.None? ==> VisibilityShown(after.value.abstractVisible))
  {
    var r := ResearchById(rs, id).value;
    UpdatedLookup(rs, id, VisibilityUpdate(r), now);
    ToggleFlipsSwitch(r.abstractVisible);
  }

  // ---------------------------------------------------------------- the panel

  class AdminPanel {
    var users: seq<ProfileUser>
    var isLoadingUsers: bool

    constructor ()
      ensures users == [] && isLoadingUsers
    {
      users := [];
      isLoadingUsers := true;
    }

    /** `fetchUsers`: nothing for a non-administrator; a failed profiles query
        keeps the list; a failed roles query leaves every user with the
        default role. */
    method FetchUsers(isAuthenticated: bool, user: Option<User>,
                      profiles: Option<seq<ProfileUser>>, roles: Option<seq<RoleRow>>)
      modifies this
      ensures !isAuthenticated || user.None? || user.value.role != Admin ==>
                users == old(users) && isLoadingUsers == old(isLoadingUsers)
      ensures isAuthenticated && user.Some? && user.value.role == Admin ==>
                !isLoadingUsers &&
                users == if profiles.None? then old(users)
                         else WithRoles(profiles.value, if roles.Some? then roles.value else [])
    {
      if !isAuthenticated || user.None? || user.value.role != Admin {
        return;
      }
      isLoadingUsers := true;
      if profiles.Some? {
        var rows := if roles.Some? then roles.value else [];
        users := WithRoles(profiles.value, rows);
      }
      isLoadingUsers := false;
    }

    /** `handleBanUser`: the users with the id leave the list. */
    method BanUser(userId: string)
      modifies this
      ensures users == Banned(old(users), userId)
      ensures isLoadingUsers == old(isLoadingUsers)
    {
      users := Filter(users, (u: ProfileUser) => u.userId != userId);
    }

    /** `handleToggleAbstractVisibility`, sent to the store. */
    method ToggleAbstractVisibility(store: Store, research: Research, ok: bool, now: int)
      modifies store
      ensures store.researches == if ok then Updated(old(store.researches), research.id, VisibilityUpdate(research), now)
                                  else old(store.researches)
      ensures store.bookmarks == old(store.bookmarks) && store.searchResults == old(store.searchResults)
    {
      store.UpdateResearch(research.id, VisibilityUpdate(research), ok, now);
    }

    /** `handleChangeAccessLevel`, sent to the store. */
    method ChangeAccessLevel(store: Store, research: Research, level: AccessLevel, ok: bool, now: int)
      modifies store
      ensures store.researches == if ok then Updated(old(store.researches), research.id, AccessLevelUpdate(level), now)
                                  else old(store.researches)
      ensures store.bookmarks == old(store.bookmarks) && store.searchResults == old(store.searchResults)
    {
      store.UpdateResearch(research.id, AccessLevelUpdate(level), ok, now);
    }

    /** `handleDeleteResearch`: only once the administrator confirms. */
    method DeleteResearch(store: Store, research: Research, confirmed: bool, ok: bool)
      modifies store
      ensures store.researches == if confirmed && ok then Deleted(old(store.researches), research.id)
                                  else old(store.researches)
      ensures store.bookmarks == old(store.bookmarks) && store.searchResults == old(store.searchResults)
    {
      if confirmed {
        store.DeleteResearch(research.id, ok);
      }
    }
  }
}
