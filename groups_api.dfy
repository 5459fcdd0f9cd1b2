/** src/app/api/groups/route.ts: the groups the caller can see (GET) and the creation of a
    group owned by the caller (POST). */
module GroupsApi {
  import opened Common
  import opened Store

  /** A group with its membership rows (the `members` include). */
  datatype GroupView = GroupView(group: Group, members: seq<Member>)

  /** The POST body; an absent name or description is "" / `None`. */
  datatype GroupRequest = GroupRequest(name: string, description: Option<string>)

  function InGroup(groupId: string): Member -> bool {
    (m: Member) => m.groupId == groupId
  }

  /** The `where` of the GET: the caller owns the group or has a member row in it. */
  predicate VisibleTo(members: seq<Member>, userId: string, g: Group) {
    g.ownerId == userId || exists j :: 0 <= j < |members| && members[j].groupId == g.id && members[j].userId == userId
  }

  function Visible(members: seq<Member>, userId: string): Group -> bool {
    (g: Group) => VisibleTo(members, userId, g)
  }

  function WithMembers(groups: seq<Group>, members: seq<Member>): (r: seq<GroupView>)
    ensures |r| == |groups|
    ensures forall i :: 0 <= i < |groups| ==> r[i] == GroupView(groups[i], Filter(members, InGroup(groups[i].id)))
  {
    if groups == [] then [] else [GroupView(groups[0], Filter(members, InGroup(groups[0].id)))] + WithMembers(groups[1..], members)
  }

  /** The groups the GET lists, in table order. */
  function VisibleGroups(groups: seq<Group>, members: seq<Member>, userId: string): seq<Group> {
    Filter(groups, Visible(members, userId))
  }

  /** GET /api/groups: 401 without a session, otherwise the visible groups with their
      members. */
  function GetGroups(db: Db, session: Option<SessionUser>): (r: Response<seq<GroupView>>)
    reads db
    ensures session.None? ==> r == Fail(401, "Unauthorized")
    ensures session.Some? ==> r.Ok? && r.status == 200
    ensures session.Some? ==> forall i :: 0 <= i < |r.value| ==>
              r.value[i].group in db.groups && VisibleTo(db.groupMembers, session.value.id, r.value[i].group)
              && r.value[i].members == Filter(db.groupMembers, InGroup(r.value[i].group.id))
  {
    if session.None? then Fail(401, "Unauthorized")
    else Ok(200, WithMembers(VisibleGroups(db.groups, db.groupMembers, session.value.id), db.groupMembers))
  }

  /** A group of the table is listed exactly when the caller owns it or is a member of it. */
  lemma {:induction false} ListedIffOwnerOrMember(db: Db, user: SessionUser, i: nat)
    requires i < |db.groups|
    ensures var listed := GetGroups(db, Some(user)).value;
      (exists k :: 0 <= k < |listed| && listed[k].group == db.groups[i])
      <==> (db.groups[i].ownerId == user.id
            || exists j :: 0 <= j < |db.groupMembers| && db.groupMembers[j].groupId == db.groups[i].id
                                                        && db.groupMembers[j].userId == user.id)
  {
    var vs := VisibleGroups(db.groups, db.groupMembers, user.id);
    var listed := GetGroups(db, Some(user)).value;
    if VisibleTo(db.groupMembers, user.id, db.groups[i]) {
      var k :| 0 <= k < |vs| && vs[k] == db.groups[i];
      assert listed[k].group == db.groups[i];
    }
    if exists k :: 0 <= k < |listed| && listed[k].group == db.groups[i] {
      var k :| 0 <= k < |listed| && listed[k].group == db.groups[i];
      assert listed[k].group == vs[k];
    }
  }

  /** The created group: named as asked, owned by the caller, with the generated code. */
  function NewGroup(ownerId: string, req: GroupRequest, newId: string, inviteCode: string): Group {
    Group(newId, req.name, req.description, inviteCode, ownerId)
  }

  /** POST /api/groups: 401 without a session; 400 without a name; a generated code that
      another group already has makes the insert fail, which the route reports as 500;
      otherwise the group is appended, owned by the caller, with no member row. */
  method PostGroup(db: Db, session: Option<SessionUser>, req: GroupRequest, newId: string, inviteCode: string)
    returns (resp: Response<GroupView>)
    requires forall i :: 0 <= i < |db.groups| ==> db.groups[i].id != newId
    modifies db`groups
    ensures session.None? ==> resp == Fail(401, "Unauthorized") && db.groups == old(db.groups)
    ensures session.Some? && req.name == "" ==>
              resp == Fail(400, "Group name is required") && db.groups == old(db.groups)
    ensures session.Some? && req.name != "" && (exists i :: 0 <= i < |old(db.groups)| && old(db.groups)[i].inviteCode == inviteCode) ==>
              resp == Fail(500, "Internal server error") && db.groups == old(db.groups)
    ensures session.Some? && req.name != "" && (forall i :: 0 <= i < |old(db.groups)| ==> old(db.groups)[i].inviteCode != inviteCode) ==>
              && resp.Ok? && resp.status == 201
              && resp.value.group == NewGroup(session.value.id, req, newId, inviteCode)
              && resp.value.members == Filter(db.groupMembers, InGroup(newId))
              && db.groups == old(db.groups) + [resp.value.group]
    ensures old(db.Valid()) ==> db.Valid()
  {
    if session.None? {
      return Fail(401, "Unauthorized");
    }
    if req.name == "" {
      return Fail(400, "Group name is required");
    }
    var clash := FindByKey(db.groups, InviteCodeOf, inviteCode);
    if clash.Some? {
      return Fail(500, "Internal server error");
    }
    var group := NewGroup(session.value.id, req, newId, inviteCode);
    db.groups := db.groups + [group];
    resp := Ok(201, GroupView(group, Filter(db.groupMembers, InGroup(newId))));
  }

  /** The creator sees the new group in the GET at once, though no member row was made. */
  lemma {:induction false} CreatorSeesNewGroup(groups: seq<Group>, members: seq<Member>, g: Group, userId: string)
    requires g.ownerId == userId
    ensures g in VisibleGroups(groups + [g], members, userId)
  {
    assert (groups + [g])[|groups|] == g;
  }
}
