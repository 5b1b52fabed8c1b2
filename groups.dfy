/**
 * Groups (web/src/lib/firebase/groups.ts): invite codes, the membership rules over the groups table, its
 * members sub-tables and the users' `groupId`, and the all-missions streak shown for each member.
 *
 * Members are keyed by (group id, user id), the path of the member document. A group has at most five
 * members, its `memberCount` is the number of its member documents, its owner is one of them, and a user's
 * `groupId` names a group exactly when the user has a member document there.
 */
module Groups {
  import opened Wrappers
  import opened Digits
  import opened Calendar
  import opened Counting
  import opened Users

  const MaxGroupMembers: nat := 5
  const InviteCodeLength: nat := 6
  const MaxGroupNameLength: nat := 50

  /** Upper-case letters and digits without the look-alikes 0, O, 1, I and L. */
  const InviteCodeChars: string := "ABCDEFGHJKMNPQRSTUVWXYZ23456789"

  // ---------------------------------------------------------------------------------------------
  // Invite codes
  // ---------------------------------------------------------------------------------------------

  /** `[A-Z0-9]`. */
  predicate IsInviteChar(c: char)
  {
    'A' <= c <= 'Z' || '0' <= c <= '9'
  }

  /** `isValidInviteCode`: six characters, each an upper-case letter or a digit. */
  predicate IsValidInviteCode(code: string)
  {
    if |code| != InviteCodeLength then false
    else forall i :: 0 <= i < |code| ==> IsInviteChar(code[i])
  }

  /** The look-alike characters the generator never uses. */
  predicate IsAmbiguous(c: char)
  {
    c == '0' || c == 'O' || c == '1' || c == 'I' || c == 'L'
  }

  /** `Math.floor(r * INVITE_CODE_CHARS.length)` for a draw `0 <= r < 1` of the random source. */
  function CharIndex(r: real): (k: nat)
    requires 0.0 <= r < 1.0
    ensures k < |InviteCodeChars|
  {
    (r * |InviteCodeChars| as real).Floor
  }

  /** Every character of the alphabet passes the format check and none is a look-alike. */
  lemma AlphabetChars(k: nat)
    requires k < |InviteCodeChars|
    ensures IsInviteChar(InviteCodeChars[k]) && !IsAmbiguous(InviteCodeChars[k])
  {
  }

  predicate IsDraw(random: seq<real>)
  {
    |random| == InviteCodeLength && forall i :: 0 <= i < |random| ==> 0.0 <= random[i] < 1.0
  }

  /** The code the generator builds from six draws of the random source. */
  function CodeOf(random: seq<real>): (code: string)
    requires IsDraw(random)
    ensures |code| == InviteCodeLength
  {
    seq(InviteCodeLength, i requires 0 <= i < InviteCodeLength => InviteCodeChars[CharIndex(random[i])])
  }

  /** Every code the generator can build passes `isValidInviteCode`. */
  lemma CodeOfValid(random: seq<real>)
    requires IsDraw(random)
    ensures IsValidInviteCode(CodeOf(random))
  {
    var code := CodeOf(random);
    forall j | 0 <= j < |code| ensures IsInviteChar(code[j]) {
      AlphabetChars(CharIndex(random[j]));
    }
  }

  /** No code the generator can build holds a look-alike character: the alphabet leaves out 0, O, 1, I and L. */
  lemma CodeOfUnambiguous(random: seq<real>)
    requires IsDraw(random)
    ensures forall i :: 0 <= i < |CodeOf(random)| ==> !IsAmbiguous(CodeOf(random)[i])
  {
    var code := CodeOf(random);
    forall j | 0 <= j < |code| ensures !IsAmbiguous(code[j]) {
      AlphabetChars(CharIndex(random[j]));
    }
  }

  /** `generateInviteCode`: appends one alphabet character per draw, six times. */
  method GenerateInviteCode(random: seq<real>) returns (code: string)
    requires IsDraw(random)
    ensures code == CodeOf(random)
  {
    code := "";
    for i := 0 to InviteCodeLength
      invariant |code| == i
      invariant forall j :: 0 <= j < i ==> code[j] == InviteCodeChars[CharIndex(random[j])]
    {
      var randomIndex := CharIndex(random[i]);
      code := code + [InviteCodeChars[randomIndex]];
    }
  }

  /** The accepted and rejected codes of the format check's documented cases. */
  lemma InviteCodeExamples()
    ensures IsValidInviteCode("ABC123") && IsValidInviteCode("ZZZZZ0") && IsValidInviteCode("000000")
    ensures !IsValidInviteCode("abc123") && !IsValidInviteCode("Abc123")
    ensures !IsValidInviteCode("ABC12") && !IsValidInviteCode("ABC1234") && !IsValidInviteCode("")
    ensures !IsValidInviteCode("ABC-12") && !IsValidInviteCode("ABC_12") && !IsValidInviteCode("ABC 12")
  {
    assert !IsInviteChar("abc123"[0]);
    assert !IsInviteChar("Abc123"[1]);
    assert !IsInviteChar("ABC-12"[3]);
    assert !IsInviteChar("ABC_12"[3]);
    assert !IsInviteChar("ABC 12"[3]);
  }

  // ---------------------------------------------------------------------------------------------
  // Tables and their invariants
  // ---------------------------------------------------------------------------------------------

  datatype Group = Group(name: string, inviteCode: string, ownerId: string, memberCount: int, createdAt: int)

  datatype GroupMember = GroupMember(userId: string, displayName: string, joinedAt: int)

  /** A group with its id attached, as the operations return it. */
  datatype GroupView = GroupView(id: string, group: Group)

  datatype GroupError =
    | NameRequired
    | NameTooLong
    | AlreadyInGroup
    | InvalidCodeFormat
    | InvalidCode
    | GroupFull
    | NotMember
    | GroupNotFound
    | OwnerCannotLeave
    | NotOwner
    | HasOtherMembers
    | UserMissing

  type Members = map<(string, string), GroupMember>

  /** `getUserGroupId`: the user's `groupId`, with a missing user, null and `''` all read as no group. */
  function GroupOf(users: map<string, UserDoc>, u: string): (g: Option<string>)
    ensures g.Some? ==> g.value != "" && u in users && users[u].groupId == g
    ensures g.None? <==> u !in users || users[u].groupId.None? || users[u].groupId == Some("")
  {
    if u in users && users[u].groupId.Some? && users[u].groupId.value != "" then users[u].groupId else None
  }

  /** Keys of the member documents of group `g`. */
  function MemberKeys(ms: Members, g: string): set<(string, string)>
  {
    set k | k in ms && k.0 == g
  }

  /** `displayName || 'Unknown'` of the user's document, `'Unknown'` without one. */
  function DisplayNameFor(users: map<string, UserDoc>, u: string): (name: string)
    ensures name != ""
  {
    if u in users && users[u].displayName.Some? && users[u].displayName.value != ""
    then users[u].displayName.value else "Unknown"
  }

  ghost predicate CountsAgree(gs: map<string, Group>, ms: Members)
  {
    forall g :: g in gs ==> gs[g].memberCount == |MemberKeys(ms, g)|
  }

  ghost predicate WithinCapacity(gs: map<string, Group>)
  {
    forall g :: g in gs ==> gs[g].memberCount <= MaxGroupMembers
  }

  /** Every member document lies in an existing group, the one its user's `groupId` names. */
  ghost predicate MembersBelong(gs: map<string, Group>, ms: Members, users: map<string, UserDoc>)
  {
    forall k :: k in ms ==> k.0 in gs && GroupOf(users, k.1) == Some(k.0)
  }

  /** A user whose `groupId` names a group has a member document there. */
  ghost predicate UsersBelong(ms: Members, users: map<string, UserDoc>)
  {
    forall u :: GroupOf(users, u).Some? ==> (GroupOf(users, u).value, u) in ms
  }

  ghost predicate OwnersAreMembers(gs: map<string, Group>, ms: Members)
  {
    forall g :: g in gs ==> (g, gs[g].ownerId) in ms
  }

  /** Invite codes are well formed and no two groups share one. */
  ghost predicate CodesUnique(gs: map<string, Group>)
  {
    (forall g :: g in gs ==> IsValidInviteCode(gs[g].inviteCode))
    && (forall g, h :: g in gs && h in gs && gs[g].inviteCode == gs[h].inviteCode ==> g == h)
  }

  ghost predicate GroupsValid(gs: map<string, Group>, ms: Members, users: map<string, UserDoc>)
  {
    CountsAgree(gs, ms) && WithinCapacity(gs) && MembersBelong(gs, ms, users) && UsersBelong(ms, users)
    && OwnersAreMembers(gs, ms) && CodesUnique(gs)
  }

  predicate CodeInUse(gs: map<string, Group>, code: string)
  {
    exists g :: g in gs && gs[g].inviteCode == code
  }

  /** The user's document pointing at group `g` (or at none). */
  function WithGroup(users: map<string, UserDoc>, u: string, g: Option<string>): map<string, UserDoc>
    requires u in users
  {
    users[u := users[u].(groupId := g)]
  }

  /** Adding member key `k` adds it to its own group's keys only, and raises that group's count by one. */
  lemma MemberKeysAdd(ms: Members, k: (string, string), m: GroupMember, g: string)
    requires k !in ms
    ensures |MemberKeys(ms[k := m], g)| == |MemberKeys(ms, g)| + (if k.0 == g then 1 else 0)
  {
    var before, after := MemberKeys(ms, g), MemberKeys(ms[k := m], g);
    assert before - {k} == after - {k};
    CardAfterSwap(before, after, k);
  }

  /** Removing member key `k` lowers its own group's count by one and no other. */
  lemma MemberKeysRemove(ms: Members, k: (string, string), g: string)
    requires k in ms
    ensures |MemberKeys(ms - {k}, g)| == |MemberKeys(ms, g)| - (if k.0 == g then 1 else 0)
  {
    var before, after := MemberKeys(ms, g), MemberKeys(ms - {k}, g);
    assert before - {k} == after - {k};
    CardAfterSwap(before, after, k);
  }

  /** A new member `(gid, u)` and a group record for `gid` counting one more member keep the counts right. */
  lemma AddMemberKeepsCounts(gs: map<string, Group>, ms: Members, gid: string, u: string, m: GroupMember, grp: Group)
    requires CountsAgree(gs, ms) && (gid, u) !in ms
    requires grp.memberCount == |MemberKeys(ms, gid)| + 1
    ensures CountsAgree(gs[gid := grp], ms[(gid, u) := m])
  {
    var gs', ms' := gs[gid := grp], ms[(gid, u) := m];
    forall g | g in gs' ensures gs'[g].memberCount == |MemberKeys(ms', g)| {
      MemberKeysAdd(ms, (gid, u), m, g);
    }
  }

  /** A user in no group who becomes a member of group `gid` and points at it keeps both links right. */
  lemma AddMemberKeepsLinks(gs: map<string, Group>, gs': map<string, Group>, ms: Members, users: map<string, UserDoc>,
                            gid: string, u: string, m: GroupMember)
    requires MembersBelong(gs, ms, users) && UsersBelong(ms, users)
    requires gs.Keys <= gs'.Keys && gid in gs' && u in users && GroupOf(users, u).None? && gid != ""
    ensures MembersBelong(gs', ms[(gid, u) := m], WithGroup(users, u, Some(gid)))
    ensures UsersBelong(ms[(gid, u) := m], WithGroup(users, u, Some(gid)))
  {
    var ms', us' := ms[(gid, u) := m], WithGroup(users, u, Some(gid));
    forall v | GroupOf(us', v).Some? ensures (GroupOf(us', v).value, v) in ms' {
      if v != u {
        assert GroupOf(us', v) == GroupOf(users, v);
      }
    }
    forall k | k in ms' ensures k.0 in gs' && GroupOf(us', k.1) == Some(k.0) {
      if k != (gid, u) {
        assert k.1 != u;
        assert GroupOf(us', k.1) == GroupOf(users, k.1);
      }
    }
  }

  /** Removing member `(gid, u)`, lowering the group's count by one, keeps the counts right. */
  lemma RemoveMemberKeepsCounts(gs: map<string, Group>, ms: Members, gid: string, u: string)
    requires CountsAgree(gs, ms) && gid in gs && (gid, u) in ms
    ensures CountsAgree(gs[gid := gs[gid].(memberCount := gs[gid].memberCount - 1)], ms - {(gid, u)})
    ensures CountsAgree(gs - {gid}, ms - {(gid, u)})
  {
    forall g | g in gs ensures |MemberKeys(ms - {(gid, u)}, g)| == |MemberKeys(ms, g)| - (if g == gid then 1 else 0) {
      MemberKeysRemove(ms, (gid, u), g);
    }
  }

  /**
   * Removing member `(gid, u)` of a user pointing at `gid` and clearing its `groupId` keeps both links right,
   * whether the group stays or goes along with its only member.
   */
  lemma RemoveMemberKeepsLinks(gs: map<string, Group>, gs': map<string, Group>, ms: Members,
                               users: map<string, UserDoc>, gid: string, u: string)
    requires MembersBelong(gs, ms, users) && UsersBelong(ms, users) && GroupOf(users, u) == Some(gid)
    requires gs'.Keys == gs.Keys || (gs'.Keys == gs.Keys - {gid} && MemberKeys(ms, gid) == {(gid, u)})
    ensures MembersBelong(gs', ms - {(gid, u)}, WithGroup(users, u, None))
    ensures UsersBelong(ms - {(gid, u)}, WithGroup(users, u, None))
  {
    var ms', us' := ms - {(gid, u)}, WithGroup(users, u, None);
    forall v | GroupOf(us', v).Some? ensures (GroupOf(us', v).value, v) in ms' {
      assert v != u;
      assert GroupOf(us', v) == GroupOf(users, v);
    }
    forall k | k in ms' ensures k.0 in gs' && GroupOf(us', k.1) == Some(k.0) {
      assert k.1 != u;
      assert GroupOf(us', k.1) == GroupOf(users, k.1);
      if k.0 == gid {
        assert k in MemberKeys(ms, gid);
      }
    }
  }

  /**
   * Creating group `gid` owned by `u`, who is in no group yet, with `u` as its one member and a fresh
   * well-formed code, keeps every invariant.
   */
  lemma CreateKeepsValid(gs: map<string, Group>, ms: Members, users: map<string, UserDoc>, gid: string, u: string,
                         grp: Group, m: GroupMember)
    requires GroupsValid(gs, ms, users)
    requires gid !in gs && gid != "" && u in users && GroupOf(users, u).None?
    requires grp.ownerId == u && grp.memberCount == 1
    requires IsValidInviteCode(grp.inviteCode) && !CodeInUse(gs, grp.inviteCode)
    ensures GroupsValid(gs[gid := grp], ms[(gid, u) := m], WithGroup(users, u, Some(gid)))
  {
    assert MemberKeys(ms, gid) == {};
    AddMemberKeepsCounts(gs, ms, gid, u, m, grp);
    AddMemberKeepsLinks(gs, gs[gid := grp], ms, users, gid, u, m);
  }

  /** Adding `u`, who is in no group yet, to group `gid` of fewer than five members keeps every invariant. */
  lemma JoinKeepsValid(gs: map<string, Group>, ms: Members, users: map<string, UserDoc>, gid: string, u: string,
                       m: GroupMember)
    requires GroupsValid(gs, ms, users)
    requires gid in gs && gs[gid].memberCount < MaxGroupMembers && u in users && GroupOf(users, u).None?
    ensures GroupsValid(gs[gid := gs[gid].(memberCount := gs[gid].memberCount + 1)], ms[(gid, u) := m],
                        WithGroup(users, u, Some(gid)))
  {
    var grp := gs[gid].(memberCount := gs[gid].memberCount + 1);
    assert (gid, u) !in ms;
    assert gid != "";
    AddMemberKeepsCounts(gs, ms, gid, u, m, grp);
    AddMemberKeepsLinks(gs, gs[gid := grp], ms, users, gid, u, m);
  }

  /**
   * A member `u` of group `gid` other than its owner leaving: its member document goes, the count drops by
   * one and its `groupId` is cleared.
   */
  lemma LeaveKeepsValid(gs: map<string, Group>, ms: Members, users: map<string, UserDoc>, gid: string, u: string)
    requires GroupsValid(gs, ms, users)
    requires gid in gs && GroupOf(users, u) == Some(gid) && gs[gid].ownerId != u
    ensures GroupsValid(gs[gid := gs[gid].(memberCount := gs[gid].memberCount - 1)], ms - {(gid, u)},
                        WithGroup(users, u, None))
  {
    var gs' := gs[gid := gs[gid].(memberCount := gs[gid].memberCount - 1)];
    var ms' := ms - {(gid, u)};
    assert (gid, u) in ms;
    RemoveMemberKeepsCounts(gs, ms, gid, u);
    RemoveMemberKeepsLinks(gs, gs', ms, users, gid, u);
    assert WithinCapacity(gs');
    assert OwnersAreMembers(gs', ms') by {
      forall g | g in gs' ensures (g, gs'[g].ownerId) in ms' {
        assert gs'[g].ownerId == gs[g].ownerId;
      }
    }
    assert CodesUnique(gs') by {
      forall g | g in gs' ensures gs'[g].inviteCode == gs[g].inviteCode {
      }
    }
  }

  /** The owner leaving as the only member: the member document, the group and the link all go. */
  lemma LeaveLastKeepsValid(gs: map<string, Group>, ms: Members, users: map<string, UserDoc>, gid: string, u: string)
    requires GroupsValid(gs, ms, users)
    requires gid in gs && gs[gid].ownerId == u && gs[gid].memberCount <= 1
    ensures u in users && GroupOf(users, u) == Some(gid) && gs[gid].memberCount == 1
    ensures GroupsValid(gs - {gid}, ms - {(gid, u)}, WithGroup(users, u, None))
  {
    var gs', ms' := gs - {gid}, ms - {(gid, u)};
    assert (gid, u) in ms;
    assert (gid, u) in MemberKeys(ms, gid);
    OnlyElement(MemberKeys(ms, gid), (gid, u));
    RemoveMemberKeepsCounts(gs, ms, gid, u);
    RemoveMemberKeepsLinks(gs, gs', ms, users, gid, u);
    assert OwnersAreMembers(gs', ms') by {
      forall g | g in gs' ensures (g, gs'[g].ownerId) in ms' {
        assert (g, gs[g].ownerId) in ms;
      }
    }
  }

  class GroupStore {
    var groups: map<string, Group>
    var members: Members
    var users: map<string, UserDoc>

    ghost predicate Valid()
      reads this
    {
      GroupsValid(groups, members, users)
    }

    constructor (gs: map<string, Group>, ms: Members, us: map<string, UserDoc>)
      ensures groups == gs && members == ms && users == us
    {
      groups, members, users := gs, ms, us;
    }

    /** Commits a batch: the three tables take their new contents together. */
    method Commit(gs: map<string, Group>, ms: Members, us: map<string, UserDoc>)
      requires GroupsValid(gs, ms, us)
      modifies this
      ensures Valid() && groups == gs && members == ms && users == us
    {
      groups, members, users := gs, ms, us;
    }

    /** `getGroup`. */
    method GetGroup(gid: string) returns (r: Option<Group>)
      ensures r.Some? <==> gid in groups
      ensures r.Some? ==> r.value == groups[gid]
    {
      r := if gid in groups then Some(groups[gid]) else None;
    }

    /** `getGroupByInviteCode`: the group holding the code, the only one while codes are unique. */
    method GetGroupByInviteCode(code: string) returns (r: Option<string>)
      ensures r.None? <==> !CodeInUse(groups, code)
      ensures r.Some? ==> r.value in groups && groups[r.value].inviteCode == code
      ensures r.Some? && CodesUnique(groups) ==> forall g :: g in groups && groups[g].inviteCode == code ==> g == r.value
    {
      if CodeInUse(groups, code) {
        var g :| g in groups && groups[g].inviteCode == code;
        r := Some(g);
      } else {
        r := None;
      }
    }

    /** One turn of the code loop: a code from one draw, and whether `getGroupByInviteCode` finds a group for it. */
    method DrawCode(random: seq<real>) returns (code: string, taken: bool)
      requires IsDraw(random)
      ensures code == CodeOf(random)
      ensures taken <==> CodeInUse(groups, code)
    {
      code := GenerateInviteCode(random);
      var existing := GetGroupByInviteCode(code);
      taken := existing.Some?;
    }

    /**
     * The code loop of `createGroup`: draws codes one after another, looking each up, until one is unused.
     * Some draw gives an unused code, so the loop ends.
     */
    method NewInviteCode(draws: seq<seq<real>>) returns (inviteCode: string)
      requires forall j :: 0 <= j < |draws| ==> IsDraw(draws[j])
      requires exists j :: 0 <= j < |draws| && !CodeInUse(groups, CodeOf(draws[j]))
      ensures IsValidInviteCode(inviteCode) && !CodeInUse(groups, inviteCode)
      ensures exists j :: 0 <= j < |draws| && inviteCode == CodeOf(draws[j])
    {
      ghost var first :| 0 <= first < |draws| && !CodeInUse(groups, CodeOf(draws[first]));
      inviteCode := "";
      var codeExists := true;
      var k := 0;
      while codeExists
        invariant 0 <= k <= first + 1
        invariant codeExists ==> k <= first
        invariant !codeExists ==> 0 < k && inviteCode == CodeOf(draws[k - 1])
        invariant !codeExists ==> !CodeInUse(groups, inviteCode)
        decreases first - k + (if codeExists then 1 else 0)
      {
        inviteCode, codeExists := DrawCode(draws[k]);
        k := k + 1;
      }
      CodeOfValid(draws[k - 1]);
    }

    /**
     * `createGroup`: the name must not be blank and at most 50 characters long, and the user in no group.
     * Codes are drawn from `draws` one after another until one is unused (some draw gives an unused code).
     * One batch stores the group under the fresh id `gid` with the trimmed name, the user as owner and only
     * member, and the user's `groupId`; the batch fails as a whole when the user has no document.
     */
    method CreateGroup(userId: string, name: string, draws: seq<seq<real>>, gid: string, now: int)
      returns (r: Result<GroupView, GroupError>)
      requires Valid()
      requires gid !in groups && gid != ""
      requires forall j :: 0 <= j < |draws| ==> IsDraw(draws[j])
      requires exists j :: 0 <= j < |draws| && !CodeInUse(groups, CodeOf(draws[j]))
      modifies this
      ensures Valid()
      ensures IsBlank(name) ==> r == Err(NameRequired)
      ensures !IsBlank(name) && |name| > MaxGroupNameLength ==> r == Err(NameTooLong)
      ensures (!IsBlank(name) && |name| <= MaxGroupNameLength && GroupOf(old(users), userId).Some?)
              ==> r == Err(AlreadyInGroup)
      ensures r.Err? ==> groups == old(groups) && members == old(members) && users == old(users)
      ensures r.Err? ==> r.error in {NameRequired, NameTooLong, AlreadyInGroup, UserMissing}
      ensures r.Ok? <==> !IsBlank(name) && |name| <= MaxGroupNameLength && GroupOf(old(users), userId).None?
                         && userId in old(users)
      ensures r.Ok? ==>
        var grp := r.value.group;
        r.value.id == gid && grp.name == Trim(name) && grp.ownerId == userId && grp.memberCount == 1
        && grp.createdAt == now && !CodeInUse(old(groups), grp.inviteCode)
        && (exists j :: 0 <= j < |draws| && grp.inviteCode == CodeOf(draws[j]))
        && groups == old(groups)[gid := grp]
        && members == old(members)[(gid, userId) := GroupMember(userId, DisplayNameFor(old(users), userId), now)]
        && users == WithGroup(old(users), userId, Some(gid))
    {
      if name == "" || |Trim(name)| == 0 {
        return Err(NameRequired);
      }
      if |name| > MaxGroupNameLength {
        return Err(NameTooLong);
      }
      if GroupOf(users, userId).Some? {
        return Err(AlreadyInGroup);
      }
      var displayName := DisplayNameFor(users, userId);
      var inviteCode := NewInviteCode(draws);

      if userId !in users {
        return Err(UserMissing);
      }
      var grp := Group(Trim(name), inviteCode, userId, 1, now);
      var member := GroupMember(userId, displayName, now);
      CreateKeepsValid(groups, members, users, gid, userId, grp, member);
      Commit(groups[gid := grp], members[(gid, userId) := member], WithGroup(users, userId, Some(gid)));
      r := Ok(GroupView(gid, grp));
    }

    /**
     * `joinGroup`: checks, in this order, the code's format, that the user is in no group, that the code
     * belongs to a group and that the group has fewer than five members; then one batch adds the member
     * document, raises `memberCount` by one and sets the user's `groupId`.
     */
    method JoinGroup(userId: string, inviteCode: string, now: int) returns (r: Result<GroupView, GroupError>)
      requires Valid()
      modifies this
      ensures Valid()
      ensures !IsValidInviteCode(inviteCode) ==> r == Err(InvalidCodeFormat)
      ensures IsValidInviteCode(inviteCode) && GroupOf(old(users), userId).Some? ==> r == Err(AlreadyInGroup)
      ensures (IsValidInviteCode(inviteCode) && GroupOf(old(users), userId).None? && !CodeInUse(old(groups), inviteCode))
              ==> r == Err(InvalidCode)
      ensures (IsValidInviteCode(inviteCode) && GroupOf(old(users), userId).None?
               && exists g :: g in old(groups) && old(groups)[g].inviteCode == inviteCode
                              && old(groups)[g].memberCount >= MaxGroupMembers) ==> r == Err(GroupFull)
      ensures r.Err? ==> groups == old(groups) && members == old(members) && users == old(users)
      ensures r.Ok? ==>
        var gid := r.value.id;
        gid in old(groups) && old(groups)[gid].inviteCode == inviteCode
        && old(groups)[gid].memberCount < MaxGroupMembers && GroupOf(old(users), userId).None? && userId in old(users)
        && r.value.group == old(groups)[gid].(memberCount := old(groups)[gid].memberCount + 1)
        && groups == old(groups)[gid := r.value.group]
        && members == old(members)[(gid, userId) := GroupMember(userId, DisplayNameFor(old(users), userId), now)]
        && users == WithGroup(old(users), userId, Some(gid))
      ensures (IsValidInviteCode(inviteCode) && GroupOf(old(users), userId).None? && userId in old(users)
               && exists g :: g in old(groups) && old(groups)[g].inviteCode == inviteCode
                              && old(groups)[g].memberCount < MaxGroupMembers) ==> r.Ok?
    {
      if !IsValidInviteCode(inviteCode) {
        return Err(InvalidCodeFormat);
      }
      if GroupOf(users, userId).Some? {
        return Err(AlreadyInGroup);
      }
      var found := GetGroupByInviteCode(inviteCode);
      if found.None? {
        return Err(InvalidCode);
      }
      var gid := found.value;
      var grp := groups[gid];
      if grp.memberCount >= MaxGroupMembers {
        return Err(GroupFull);
      }
      var displayName := DisplayNameFor(users, userId);
      if userId !in users {
        return Err(UserMissing);
      }
      var member := GroupMember(userId, displayName, now);
      var grown := grp.(memberCount := grp.memberCount + 1);
      JoinKeepsValid(groups, members, users, gid, userId, member);
      Commit(groups[gid := grown], members[(gid, userId) := member], WithGroup(users, userId, Some(gid)));
      r := Ok(GroupView(gid, grown));
    }

    /**
     * `leaveGroup`: the user's `groupId` must name the group, the group must exist, and its owner may not
     * leave while others remain. One batch removes the member document, lowers `memberCount`, clears the
     * user's `groupId` and, when the owner was the only member, deletes the group.
     */
    method LeaveGroup(userId: string, gid: string) returns (r: Result<(), GroupError>)
      requires Valid()
      modifies this
      ensures Valid()
      ensures GroupOf(old(users), userId) != Some(gid) ==> r == Err(NotMember)
      ensures (GroupOf(old(users), userId) == Some(gid) && gid in old(groups) && old(groups)[gid].ownerId == userId
               && old(groups)[gid].memberCount > 1) ==> r == Err(OwnerCannotLeave)
      ensures r.Err? ==> groups == old(groups) && members == old(members) && users == old(users)
      ensures r.Ok? <==> GroupOf(old(users), userId) == Some(gid) && gid in old(groups)
                         && !(old(groups)[gid].ownerId == userId && old(groups)[gid].memberCount > 1)
      ensures r.Ok? ==>
        var g := old(groups)[gid];
        members == old(members) - {(gid, userId)} && users == WithGroup(old(users), userId, None)
        && groups == if g.ownerId == userId && g.memberCount == 1 then old(groups) - {gid}
                     else old(groups)[gid := g.(memberCount := g.memberCount - 1)]
    {
      if GroupOf(users, userId) != Some(gid) {
        return Err(NotMember);
      }
      var found := GetGroup(gid);
      if found.None? {
        return Err(GroupNotFound);
      }
      var grp := found.value;
      if grp.ownerId == userId && grp.memberCount > 1 {
        return Err(OwnerCannotLeave);
      }
      var batchGroups := groups[gid := grp.(memberCount := grp.memberCount - 1)];
      if grp.ownerId == userId && grp.memberCount == 1 {
        batchGroups := batchGroups - {gid};
        assert batchGroups == groups - {gid};
      }
      if grp.ownerId == userId {
        LeaveLastKeepsValid(groups, members, users, gid, userId);
      } else {
        LeaveKeepsValid(groups, members, users, gid, userId);
      }
      Commit(batchGroups, members - {(gid, userId)}, WithGroup(users, userId, None));
      r := Ok(());
    }

    /**
     * `deleteGroup`: only the owner, and only while nobody else is a member. One batch removes the owner's
     * member document and the group and clears the owner's `groupId`.
     */
    method DeleteGroup(userId: string, gid: string) returns (r: Result<(), GroupError>)
      requires Valid()
      modifies this
      ensures Valid()
      ensures gid !in old(groups) ==> r == Err(GroupNotFound)
      ensures gid in old(groups) && old(groups)[gid].ownerId != userId ==> r == Err(NotOwner)
      ensures (gid in old(groups) && old(groups)[gid].ownerId == userId && old(groups)[gid].memberCount > 1)
              ==> r == Err(HasOtherMembers)
      ensures r.Err? ==> groups == old(groups) && members == old(members) && users == old(users)
      ensures r.Ok? <==> gid in old(groups) && old(groups)[gid].ownerId == userId
                         && old(groups)[gid].memberCount <= 1
      ensures r.Ok? ==> userId in old(users) && groups == old(groups) - {gid}
                        && members == old(members) - {(gid, userId)} && users == WithGroup(old(users), userId, None)
    {
      var found := GetGroup(gid);
      if found.None? {
        return Err(GroupNotFound);
      }
      var grp := found.value;
      if grp.ownerId != userId {
        return Err(NotOwner);
      }
      if grp.memberCount > 1 {
        return Err(HasOtherMembers);
      }
      LeaveLastKeepsValid(groups, members, users, gid, userId);
      Commit(groups - {gid}, members - {(gid, userId)}, WithGroup(users, userId, None));
      r := Ok(());
    }
  }

  // ---------------------------------------------------------------------------------------------
  // The all-missions streak
  // ---------------------------------------------------------------------------------------------

  /** Days the streak looks back at most, today included. */
  const StreakWindow: nat := 365

  /** An active mission of the user with its daily target. */
  datatype MissionTarget = MissionTarget(id: string, targetValue: real)

  /** The user's record value for a mission on a date, keyed by (date, mission id); 0 without a record. */
  function ValueOn(values: map<(string, string), real>, date: string, missionId: string): real
  {
    if (date, missionId) in values then values[(date, missionId)] else 0.0
  }

  /** Every active mission reached its target on `date`. */
  predicate AllCompletedOn(missions: seq<MissionTarget>, values: map<(string, string), real>, date: string)
  {
    forall j :: 0 <= j < |missions| ==> ValueOn(values, date, missions[j].id) >= missions[j].targetValue
  }

  /** `formatDate` of the day `k` days before `today`, stepping back one day at a time. */
  function DateKey(today: Date, k: nat): string
    requires ValidDate(today)
    decreases k
  {
    if k == 0 then FormatDate(today) else DateKey(PrevDay(today), k - 1)
  }

  /** The key is the one of any date `k` days before `today`, such as the one `setDate(getDate() - k)` reaches. */
  lemma {:induction false} DateKeyOf(today: Date, k: nat, e: Date)
    requires ValidDate(today) && ValidDate(e) && DayNumber(e) == DayNumber(today) - k
    ensures DateKey(today, k) == FormatDate(e)
    decreases k
  {
    if k == 0 {
      DayNumberOrder(today, e);
    } else {
      DayNumberPrev(today);
      DateKeyOf(PrevDay(today), k - 1, e);
    }
  }

  /** The date keys of the first `n` days counted back from today: entry `k` is the day `k` days before. */
  function CheckDates(today: Date, n: nat): (dates: seq<string>)
    requires ValidDate(today)
    ensures |dates| == n
  {
    seq(n, k requires 0 <= k < n => DateKey(today, k))
  }

  /** Completed days among `dates`, counted from entry `k` up to the first one that is not. */
  function RunFrom(missions: seq<MissionTarget>, values: map<(string, string), real>, dates: seq<string>, k: nat)
    : (n: nat)
    requires k <= |dates|
    ensures n <= |dates| - k
    decreases |dates| - k
  {
    if k == |dates| || !AllCompletedOn(missions, values, dates[k]) then 0
    else 1 + RunFrom(missions, values, dates, k + 1)
  }

  /**
   * The streak over `dates` (today first): none without active missions; otherwise today counts when it is
   * completed, and the completed days before it are counted back from yesterday until the first one that
   * is not.
   */
  function StreakOver(missions: seq<MissionTarget>, values: map<(string, string), real>, dates: seq<string>)
    : (n: nat)
    requires |dates| >= 1
    ensures n <= |dates|
  {
    if missions == [] then 0
    else (if AllCompletedOn(missions, values, dates[0]) then 1 else 0) + RunFrom(missions, values, dates, 1)
  }

  /** The streak of the last 365 days up to `today`. */
  function GroupStreakOf(missions: seq<MissionTarget>, values: map<(string, string), real>, today: Date): (n: nat)
    requires ValidDate(today)
    ensures n <= StreakWindow
    ensures missions == [] ==> n == 0
  {
    StreakOver(missions, values, CheckDates(today, StreakWindow))
  }

  /** Entries `i .. k - 1` completed and entry `k` not (or `k` the end): the run from `i` has `k - i` days. */
  lemma {:induction false} RunFromStops(missions: seq<MissionTarget>, values: map<(string, string), real>,
                                        dates: seq<string>, i: nat, k: nat)
    requires i <= k <= |dates|
    requires forall d :: i <= d < k ==> AllCompletedOn(missions, values, dates[d])
    requires k == |dates| || !AllCompletedOn(missions, values, dates[k])
    ensures RunFrom(missions, values, dates, i) == k - i
    decreases k - i
  {
    if i < k {
      RunFromStops(missions, values, dates, i + 1, k);
    }
  }

  /**
   * With active missions, a streak whose earlier days are completed from yesterday back to day `k - 1` and
   * not on day `k` is `k - 1`, plus one when today is completed: a failed today never ends the count, the
   * first failed earlier day does.
   */
  lemma GroupStreakCounts(missions: seq<MissionTarget>, values: map<(string, string), real>, today: Date, k: nat)
    requires ValidDate(today) && missions != [] && 1 <= k <= StreakWindow
    requires forall d :: 1 <= d < k ==> AllCompletedOn(missions, values, DateKey(today, d))
    requires k == StreakWindow || !AllCompletedOn(missions, values, DateKey(today, k))
    ensures GroupStreakOf(missions, values, today)
            == (if AllCompletedOn(missions, values, DateKey(today, 0)) then 1 else 0) + k - 1
  {
    var dates := CheckDates(today, StreakWindow);
        RunFromStops(missions, values, dates, 1, k);
  }

  /** The inner loop of `calculateStreak`: stops at the first mission whose value on `date` misses its target. */
  method AllCompletedCheck(missions: seq<MissionTarget>, values: map<(string, string), real>, date: string)
    returns (allCompleted: bool)
    ensures allCompleted <==> AllCompletedOn(missions, values, date)
  {
    allCompleted := true;
    var j := 0;
    while j < |missions|
      invariant 0 <= j <= |missions| && allCompleted
      invariant forall i :: 0 <= i < j ==> ValueOn(values, date, missions[i].id) >= missions[i].targetValue
    {
      var value := ValueOn(values, date, missions[j].id);
      if value < missions[j].targetValue {
        allCompleted := false;
        break;
      }
      j := j + 1;
    }
  }

  /** The date key `calculateStreak` looks up: a copy of today moved back `daysBack` days, formatted. */
  method CheckDateString(today: Date, daysBack: nat) returns (dateString: string)
    requires ValidDate(today)
    ensures dateString == DateKey(today, daysBack)
  {
    var checkDate := AddDays(today, -(daysBack as int));
    dateString := FormatDate(checkDate);
    DateKeyOf(today, daysBack, checkDate);
  }

  /**
   * The private `calculateStreak`: returns 0 without active missions; otherwise checks today and up to 364
   * earlier days, each completed when every active mission's value (0 without a record) reaches its
   * target, counting completed days and stopping at the first failed day other than today.
   */
  method CalculateGroupStreak(missions: seq<MissionTarget>, values: map<(string, string), real>, today: Date)
    returns (streak: nat)
    requires ValidDate(today)
    ensures streak == GroupStreakOf(missions, values, today)
  {
    if |missions| == 0 {
      return 0;
    }
    ghost var dates := CheckDates(today, StreakWindow);
    streak := 0;
    var daysBack := 0;
    while daysBack < StreakWindow
      invariant 0 <= daysBack <= StreakWindow
      invariant daysBack == 0 ==> streak == 0
      invariant daysBack > 0 ==> StreakOver(missions, values, dates) == streak + RunFrom(missions, values, dates, daysBack)
    {
      var dateString := CheckDateString(today, daysBack);
      var allCompleted := AllCompletedCheck(missions, values, dateString);
      if allCompleted {
        streak := streak + 1;
      } else if daysBack > 0 {
        break;
      }
      daysBack := daysBack + 1;
    }
  }
}
