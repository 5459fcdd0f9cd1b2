/** src/app/api/auth/delete-account/route.ts: the deletion of the caller's account, one
    `deleteMany` after another inside a transaction. */
module DeleteAccount {
  import opened Common
  import opened Store
  import opened ApiAuth
  import opened GroupsApi

  /** `where: { habit: { userId } }`: the entry's habit belongs to the user. */
  predicate OfOwnedHabit(habits: seq<HabitRow>, userId: string, e: EntryRow) {
    exists i :: 0 <= i < |habits| && habits[i].id == e.habitId && habits[i].userId == userId
  }

  function KeepEntry(habits: seq<HabitRow>, userId: string): EntryRow -> bool {
    (e: EntryRow) => !OfOwnedHabit(habits, userId, e)
  }

  function NotOwnHabit(userId: string): HabitRow -> bool {
    (h: HabitRow) => h.userId != userId
  }

  function NotOwnMembership(userId: string): Member -> bool {
    (m: Member) => m.userId != userId
  }

  function NotOwnSharedEntry(userId: string): SharedEntry -> bool {
    (e: SharedEntry) => e.userId != userId
  }

  function NotUser(userId: string): User -> bool {
    (u: User) => u.id != userId
  }

  /** `where: { members: { some: { userId } } }`. */
  function HasMember(members: seq<Member>, userId: string): Group -> bool {
    (g: Group) => exists j :: 0 <= j < |members| && members[j].groupId == g.id && members[j].userId == userId
  }

  /** No group is listed twice. */
  predicate DistinctIds(userGroups: seq<GroupView>) {
    forall i, j :: 0 <= i < j < |userGroups| ==> userGroups[i].group.id != userGroups[j].group.id
  }

  /** The ids of the first `n` listed groups that have exactly one member: the groups the
      loop has removed after `n` turns. */
  function SoleMemberIds(userGroups: seq<GroupView>, n: nat): (ids: set<string>)
    requires n <= |userGroups|
    ensures forall id :: id in ids ==> exists i :: 0 <= i < n && userGroups[i].group.id == id
  {
    if n == 0 then {}
    else
      SoleMemberIds(userGroups, n - 1)
      + (if |userGroups[n - 1].members| == 1 then {userGroups[n - 1].group.id} else {})
  }

  /** `where: { sharedHabit: { groupId } }` for every group of `ids`: the entry's shared habit
      belongs to one of them. */
  predicate OfGroups(sharedHabits: seq<SharedHabit>, ids: set<string>, e: SharedEntry) {
    exists j :: 0 <= j < |sharedHabits| && sharedHabits[j].id == e.sharedHabitId && sharedHabits[j].groupId in ids
  }

  function KeepSharedEntry(sharedHabits: seq<SharedHabit>, ids: set<string>): SharedEntry -> bool {
    (e: SharedEntry) => !OfGroups(sharedHabits, ids, e)
  }

  function KeepSharedHabit(ids: set<string>): SharedHabit -> bool {
    (h: SharedHabit) => h.groupId !in ids
  }

  function KeepGroup(ids: set<string>): Group -> bool {
    (g: Group) => g.id !in ids
  }

  /** The shared entries left after the groups of `ids` and then `gid` are handled are
      those of no shared habit of any of them. */
  lemma {:induction false} EntriesStep(entries0: seq<SharedEntry>, habits0: seq<SharedHabit>, ids: set<string>, gid: string)
    requires gid !in ids
    ensures Filter(Filter(entries0, KeepSharedEntry(habits0, ids)), KeepSharedEntry(Filter(habits0, KeepSharedHabit(ids)), {gid}))
            == Filter(entries0, KeepSharedEntry(habits0, ids + {gid}))
  {
    var habits := Filter(habits0, KeepSharedHabit(ids));
    forall k | 0 <= k < |entries0|
      ensures KeepSharedEntry(habits0, ids + {gid})(entries0[k])
              == (KeepSharedEntry(habits0, ids)(entries0[k]) && KeepSharedEntry(habits, {gid})(entries0[k]))
    {
      var e := entries0[k];
      if OfGroups(habits0, ids + {gid}, e) && !OfGroups(habits0, ids, e) {
        var j :| 0 <= j < |habits0| && habits0[j].id == e.sharedHabitId && habits0[j].groupId in ids + {gid};
        assert habits0[j] in habits;
      }
      if OfGroups(habits, {gid}, e) {
        var j :| 0 <= j < |habits| && habits[j].id == e.sharedHabitId && habits[j].groupId == gid;
        assert habits[j] in habits0;
      }
    }
    FilterFilter(entries0, KeepSharedEntry(habits0, ids), KeepSharedEntry(habits, {gid}), KeepSharedEntry(habits0, ids + {gid}));
  }

  /** One turn of the group loop's deletions for the group `gid`: its shared entries, its
      shared habits, then the group row, which must exist. */
  method DeleteGroup(db: Db, gid: string, ghost entries0: seq<SharedEntry>, ghost habits0: seq<SharedHabit>,
                     ghost groups0: seq<Group>, ghost ids: set<string>)
    requires db.Valid() && gid !in ids
    requires db.sharedEntries == Filter(entries0, KeepSharedEntry(habits0, ids))
    requires db.sharedHabits == Filter(habits0, KeepSharedHabit(ids))
    requires db.groups == Filter(groups0, KeepGroup(ids))
    requires exists i :: 0 <= i < |groups0| && groups0[i].id == gid
    modifies db`sharedEntries, db`sharedHabits, db`groups
    ensures db.Valid()
    ensures db.sharedEntries == Filter(entries0, KeepSharedEntry(habits0, ids + {gid}))
    ensures db.sharedHabits == Filter(habits0, KeepSharedHabit(ids + {gid}))
    ensures db.groups == Filter(groups0, KeepGroup(ids + {gid}))
  {
    var habits := db.sharedHabits;
    EntriesStep(entries0, habits0, ids, gid);
    db.DeleteManySharedEntries(KeepSharedEntry(habits, {gid}));
    FilterFilter(habits0, KeepSharedHabit(ids), KeepSharedHabit({gid}), KeepSharedHabit(ids + {gid}));
    db.DeleteManySharedHabits(KeepSharedHabit({gid}));
    assert exists i :: 0 <= i < |db.groups| && db.groups[i].id == gid by {
      var i :| 0 <= i < |groups0| && groups0[i].id == gid;
      assert groups0[i] in db.groups;
    }
    FilterFilter(groups0, KeepGroup(ids), KeepGroup({gid}), KeepGroup(ids + {gid}));
    db.DeleteManyGroups(KeepGroup({gid}));
  }

  /** The loop over `userGroups`: a group listed with exactly one member loses its shared
      entries, its shared habits and itself. */
  method DeleteSoleMemberGroups(db: Db, userGroups: seq<GroupView>)
    requires db.Valid()
    requires forall i :: 0 <= i < |userGroups| ==> userGroups[i].group in db.groups
    requires DistinctIds(userGroups)
    modifies db`sharedEntries, db`sharedHabits, db`groups
    ensures db.Valid()
    ensures db.sharedEntries == Filter(old(db.sharedEntries), KeepSharedEntry(old(db.sharedHabits), SoleMemberIds(userGroups, |userGroups|)))
    ensures db.sharedHabits == Filter(old(db.sharedHabits), KeepSharedHabit(SoleMemberIds(userGroups, |userGroups|)))
    ensures db.groups == Filter(old(db.groups), KeepGroup(SoleMemberIds(userGroups, |userGroups|)))
  {
    ghost var entries0, habits0, groups0 := db.sharedEntries, db.sharedHabits, db.groups;
    FilterAllPass(entries0, KeepSharedEntry(habits0, {}));
    FilterAllPass(habits0, KeepSharedHabit({}));
    FilterAllPass(groups0, KeepGroup({}));
    for i := 0 to |userGroups|
      invariant db.Valid()
      invariant db.sharedEntries == Filter(entries0, KeepSharedEntry(habits0, SoleMemberIds(userGroups, i)))
      invariant db.sharedHabits == Filter(habits0, KeepSharedHabit(SoleMemberIds(userGroups, i)))
      invariant db.groups == Filter(groups0, KeepGroup(SoleMemberIds(userGroups, i)))
    {
      DeleteTurn(db, userGroups, i, entries0, habits0, groups0);
    }
  }

  /** Turn `i` of the loop: the `i`-th listed group goes with its shared habits and their
      entries when it has exactly one member, and nothing changes otherwise. */
  method DeleteTurn(db: Db, userGroups: seq<GroupView>, i: nat, ghost entries0: seq<SharedEntry>, ghost habits0: seq<SharedHabit>,
                    ghost groups0: seq<Group>)
    requires i < |userGroups|
    requires userGroups[i].group in groups0
    requires DistinctIds(userGroups)
    requires db.Valid()
    requires db.sharedEntries == Filter(entries0, KeepSharedEntry(habits0, SoleMemberIds(userGroups, i)))
    requires db.sharedHabits == Filter(habits0, KeepSharedHabit(SoleMemberIds(userGroups, i)))
    requires db.groups == Filter(groups0, KeepGroup(SoleMemberIds(userGroups, i)))
    modifies db`sharedEntries, db`sharedHabits, db`groups
    ensures db.Valid()
    ensures db.sharedEntries == Filter(entries0, KeepSharedEntry(habits0, SoleMemberIds(userGroups, i + 1)))
    ensures db.sharedHabits == Filter(habits0, KeepSharedHabit(SoleMemberIds(userGroups, i + 1)))
    ensures db.groups == Filter(groups0, KeepGroup(SoleMemberIds(userGroups, i + 1)))
  {
    var group := userGroups[i];
    ghost var ids := SoleMemberIds(userGroups, i);
    if |group.members| != 1 {
      assert SoleMemberIds(userGroups, i + 1) == ids;
    } else {
      assert SoleMemberIds(userGroups, i + 1) == ids + {group.group.id};
      forall k | 0 <= k < i
        ensures userGroups[k].group.id != group.group.id
      {
      }
      NotYetHandled(userGroups, i, group.group.id);
      DeleteGroup(db, group.group.id, entries0, habits0, groups0, ids);
    }
  }

  /** A group id that none of the first `n` listed groups has is not among their removed
      ids. */
  lemma {:induction false} NotYetHandled(userGroups: seq<GroupView>, n: nat, gid: string)
    requires n <= |userGroups|
    requires forall k :: 0 <= k < n ==> userGroups[k].group.id != gid
    ensures gid !in SoleMemberIds(userGroups, n)
  {
    if n > 0 {
      NotYetHandled(userGroups, n - 1, gid);
    }
  }

  /** The memberships left after the first steps hold none of the user's, so the lookup of
      the user's groups finds nothing and the loop deletes nothing. */
  lemma {:induction false} NoGroupsLeftToDelete(groups: seq<Group>, members: seq<Member>, userId: string)
    ensures Filter(groups, HasMember(Filter(members, NotOwnMembership(userId)), userId)) == []
  {
    var rest := Filter(members, NotOwnMembership(userId));
    forall i | 0 <= i < |groups| ensures !HasMember(rest, userId)(groups[i]) {
      forall j | 0 <= j < |rest| ensures rest[j].userId != userId {
      }
    }
    FilterNone(groups, HasMember(rest, userId));
  }

  /** The tables the route touches, as they are. */
  datatype Snapshot = Snapshot(users: seq<User>, habits: seq<HabitRow>, habitEntries: seq<EntryRow>,
                               groups: seq<Group>, groupMembers: seq<Member>,
                               sharedHabits: seq<SharedHabit>, sharedEntries: seq<SharedEntry>)

  function SnapshotOf(db: Db): Snapshot
    reads db
  {
    Snapshot(db.users, db.habits, db.habitEntries, db.groups, db.groupMembers, db.sharedHabits, db.sharedEntries)
  }

  /** Whether a user row with id `userId` exists. */
  predicate HasUser(users: seq<User>, userId: string) {
    exists i :: 0 <= i < |users| && users[i].id == userId
  }

  /** The tables that survive the deletion of `userId`'s data, given the tables before; the
      user row goes too when `userRow` holds. */
  ghost predicate AccountRemoved(after: Snapshot, before: Snapshot, userId: string, userRow: bool) {
    && after.habitEntries == Filter(before.habitEntries, KeepEntry(before.habits, userId))
    && after.habits == Filter(before.habits, NotOwnHabit(userId))
    && after.groupMembers == Filter(before.groupMembers, NotOwnMembership(userId))
    && after.sharedEntries == Filter(before.sharedEntries, NotOwnSharedEntry(userId))
    && after.users == (if userRow then Filter(before.users, NotUser(userId)) else before.users)
    && after.groups == before.groups && after.sharedHabits == before.sharedHabits
  }

  /** Exactly the user's rows go: a habit, membership, shared entry or user row survives
      just when it is another user's, and a habit entry just when its habit is not the
      user's, whoever wrote the entry. */
  lemma {:induction false} OnlyTheUsersRowsGo(after: Snapshot, before: Snapshot, userId: string)
    requires AccountRemoved(after, before, userId, true)
    ensures forall h :: h in before.habits ==> (h in after.habits <==> h.userId != userId)
    ensures forall m :: m in before.groupMembers ==> (m in after.groupMembers <==> m.userId != userId)
    ensures forall e :: e in before.sharedEntries ==> (e in after.sharedEntries <==> e.userId != userId)
    ensures forall u :: u in before.users ==> (u in after.users <==> u.id != userId)
    ensures forall e :: e in before.habitEntries ==> (e in after.habitEntries <==> !OfOwnedHabit(before.habits, userId, e))
  {
    FilterMembers(before.habits, NotOwnHabit(userId));
    FilterMembers(before.groupMembers, NotOwnMembership(userId));
    FilterMembers(before.sharedEntries, NotOwnSharedEntry(userId));
    FilterMembers(before.users, NotUser(userId));
    FilterMembers(before.habitEntries, KeepEntry(before.habits, userId));
  }

  /** The route deletes no group the user owns: after a successful run such a group is
      still there, and no user row carries its owner id any more. */
  lemma {:induction false} OwnedGroupsOutliveOwner(after: Snapshot, before: Snapshot, userId: string, g: Group)
    requires AccountRemoved(after, before, userId, true)
    requires g in before.groups && g.ownerId == userId
    ensures g in after.groups
    ensures !HasUser(after.users, g.ownerId)
  {
    FilterMembers(before.users, NotUser(userId));
  }

  /** With user ids unique, deleting the rows of an existing user removes exactly one row. */
  lemma {:induction false} OneUserRowRemoved(users: seq<User>, userId: string)
    requires UniqueBy(users, UserId) && HasUser(users, userId)
    ensures |Filter(users, NotUser(userId))| == |users| - 1
  {
    if users[0].id == userId {
      forall j | 0 <= j < |users[1..]| ensures NotUser(userId)(users[1..][j]) {
        assert UserId(users[0]) != UserId(users[j + 1]);
      }
      FilterAllPass(users[1..], NotUser(userId));
    } else {
      var i :| 0 <= i < |users| && users[i].id == userId;
      assert users[1..][i - 1] == users[i];
      OneUserRowRemoved(users[1..], userId);
    }
  }

  /** The group step of the transaction: the groups the user belongs to, with their
      members, of which those with one member go. The memberships are gone by then, so
      nothing changes. */
  method DeleteLeftoverGroups(db: Db, userId: string, ghost members0: seq<Member>)
    requires db.Valid()
    requires db.groupMembers == Filter(members0, NotOwnMembership(userId))
    modifies db`sharedEntries, db`sharedHabits, db`groups
    ensures db.Valid()
    ensures db.sharedEntries == old(db.sharedEntries) && db.sharedHabits == old(db.sharedHabits)
    ensures db.groups == old(db.groups)
  {
    var members := db.groupMembers;
    var owners := Filter(db.groups, HasMember(members, userId));
    var userGroups := WithMembers(owners, members);
    NoGroupsLeftToDelete(db.groups, members0, userId);
    FilterAllPass(db.sharedEntries, KeepSharedEntry(db.sharedHabits, {}));
    FilterAllPass(db.sharedHabits, KeepSharedHabit({}));
    FilterAllPass(db.groups, KeepGroup({}));
    DeleteSoleMemberGroups(db, userGroups);
  }

  /** Every delete of the transaction but the last: the user's habit entries, habits,
      memberships, leftover groups and shared entries. */
  method DeleteUserData(db: Db, userId: string)
    requires db.Valid()
    modifies db`habitEntries, db`habits, db`groupMembers, db`sharedEntries, db`sharedHabits, db`groups
    ensures db.Valid()
    ensures AccountRemoved(SnapshotOf(db), old(SnapshotOf(db)), userId, false)
  {
    var habits := db.habits;
    db.DeleteManyHabitEntries(KeepEntry(habits, userId));
    db.DeleteManyHabits(NotOwnHabit(userId));
    ghost var members0 := db.groupMembers;
    db.DeleteManyMembers(NotOwnMembership(userId));
    DeleteLeftoverGroups(db, userId, members0);
    db.DeleteManySharedEntries(NotOwnSharedEntry(userId));
  }

  /** DELETE /api/auth/delete-account: 401 without a session. Otherwise, in one transaction:
      the entries of the user's habits, the user's habits, the user's memberships, the groups
      the user is still the only member of (none are left by then), the user's shared entries
      and the user row. If the user row is missing the final delete throws, the transaction
      is undone and the route answers 500 with every table as it was. */
  method DeleteAccountRoute(db: Db, session: Option<SessionUser>) returns (resp: Response<string>)
    requires db.Valid()
    modifies db`habitEntries, db`habits, db`groupMembers, db`sharedEntries, db`sharedHabits, db`groups, db`users
    ensures db.Valid()
    ensures session.None? ==> resp == Fail(401, "Authentication required") && SnapshotOf(db) == old(SnapshotOf(db))
    ensures session.Some? && !HasUser(old(db.users), session.value.id) ==>
              resp == Fail(500, "Failed to delete account") && SnapshotOf(db) == old(SnapshotOf(db))
    ensures session.Some? && HasUser(old(db.users), session.value.id) ==>
              resp == Ok(200, "Account deleted successfully")
              && AccountRemoved(SnapshotOf(db), old(SnapshotOf(db)), session.value.id, true)
  {
    if session.None? {
      return AuthRequired();
    }
    var userId := session.value.id;
    // The final `user.delete` throws when the row is missing, and the transaction is then
    // rolled back: the tables end as they began, so the lookup can come first.
    var found := FindByKey(db.users, UserId, userId);
    if found.None? {
      return Fail(500, "Failed to delete account");
    }
    DeleteUserData(db, userId);
    db.DeleteManyUsers(NotUser(userId));
    resp := Ok(200, "Account deleted successfully");
  }
}
