/** src/app/api/groups/join/route.ts: joining a group by its invite code. */
module GroupsJoinApi {
  import opened Common
  import opened Store
  import opened GroupsApi

  /** The success body: the new membership with its group. */
  datatype Joined = Joined(member: Member, group: Group)

  /** The membership the route creates. */
  function NewMember(userId: string, groupId: string): Member {
    Member(userId, groupId, "member")
  }

  /** POST /api/groups/join: 401 without a session; 400 without a code; 404 when no group
      has the code; 400 when the caller already has a member row in it (owning it is not
      checked); otherwise one member row with role "member" is appended. */
  method JoinGroup(db: Db, session: Option<SessionUser>, inviteCode: string) returns (resp: Response<Joined>)
    modifies db`groupMembers
    ensures session.None? ==> resp == Fail(401, "Unauthorized") && db.groupMembers == old(db.groupMembers)
    ensures session.Some? && inviteCode == "" ==>
              resp == Fail(400, "Invite code is required") && db.groupMembers == old(db.groupMembers)
    ensures session.Some? && inviteCode != "" && (forall i :: 0 <= i < |db.groups| ==> db.groups[i].inviteCode != inviteCode) ==>
              resp == Fail(404, "Invalid invite code") && db.groupMembers == old(db.groupMembers)
    ensures session.Some? && inviteCode != "" && old(db.Valid()) ==> forall i :: 0 <= i < |db.groups| && db.groups[i].inviteCode == inviteCode ==>
              var member := NewMember(session.value.id, db.groups[i].id);
              if exists j :: 0 <= j < |old(db.groupMembers)| && MemberKey(old(db.groupMembers)[j]) == MemberKey(member) then
                resp == Fail(400, "You are already a member of this group") && db.groupMembers == old(db.groupMembers)
              else
                resp == Ok(201, Joined(member, db.groups[i])) && db.groupMembers == old(db.groupMembers) + [member]
    ensures old(db.Valid()) ==> db.Valid()
  {
    if session.None? {
      return Fail(401, "Unauthorized");
    }
    if inviteCode == "" {
      return Fail(400, "Invite code is required");
    }
    var found := FindByKey(db.groups, InviteCodeOf, inviteCode);
    if found.None? {
      return Fail(404, "Invalid invite code");
    }
    var group := db.groups[found.value];
    if db.Valid() {
      FindByKeyUnique(db.groups, InviteCodeOf, inviteCode);
    }
    var existing := FindByKey(db.groupMembers, MemberKey, (session.value.id, group.id));
    if existing.Some? {
      return Fail(400, "You are already a member of this group");
    }
    var member := NewMember(session.value.id, group.id);
    db.groupMembers := db.groupMembers + [member];
    resp := Ok(201, Joined(member, group));
  }

  /** After joining, the group is among the caller's groups. */
  lemma {:induction false} JoinedGroupIsVisible(groups: seq<Group>, members: seq<Member>, userId: string, i: nat)
    requires i < |groups|
    ensures groups[i] in VisibleGroups(groups, members + [NewMember(userId, groups[i].id)], userId)
  {
    var ms := members + [NewMember(userId, groups[i].id)];
    assert ms[|members|].groupId == groups[i].id && ms[|members|].userId == userId;
    assert Visible(ms, userId)(groups[i]);
  }

  /** Joining adds no other membership: every other user sees the same groups as before. */
  lemma {:induction false} JoinLeavesOthersAlone(groups: seq<Group>, members: seq<Member>, userId: string, groupId: string, other: string)
    requires other != userId
    ensures VisibleGroups(groups, members + [NewMember(userId, groupId)], other) == VisibleGroups(groups, members, other)
  {
    var ms := members + [NewMember(userId, groupId)];
    forall i | 0 <= i < |groups| ensures Visible(ms, other)(groups[i]) == Visible(members, other)(groups[i]) {
      if VisibleTo(ms, other, groups[i]) && groups[i].ownerId != other {
        var j :| 0 <= j < |ms| && ms[j].groupId == groups[i].id && ms[j].userId == other;
        assert j < |members|;
      }
      if VisibleTo(members, other, groups[i]) && groups[i].ownerId != other {
        var j :| 0 <= j < |members| && members[j].groupId == groups[i].id && members[j].userId == other;
        assert ms[j] == members[j];
      }
    }
    FilterExt(groups, Visible(ms, other), Visible(members, other));
  }
}
