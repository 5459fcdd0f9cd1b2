/** The database behind the API routes, as tables of rows. Each table is a sequence in
    insertion order; `findMany` ties are broken by that order. The composite unique keys
    of the schema are kept as invariants of the table. */
module Store {
  import opened Common

  datatype User = User(
    id: string, email: string, name: Option<string>, username: Option<string>,
    password: string, avatar: Option<string>, createdAt: int)

  datatype HabitRow = HabitRow(
    id: string, userId: string, name: string, description: Option<string>, color: string,
    frequency: string, target: int, unit: Option<string>, isActive: bool, createdAt: int)

  /** A habit entry; its key is (userId, habitId, day). */
  datatype EntryRow = EntryRow(userId: string, habitId: string, day: int, value: int, notes: Option<string>)

  datatype BadgeRow = BadgeRow(id: string, name: string, category: string, points: int, rarity: string, createdAt: int)

  /** The award of a badge to a user; its key is (userId, badgeId). */
  datatype UserBadge = UserBadge(userId: string, badgeId: string, earnedAt: int)

  datatype Group = Group(id: string, name: string, description: Option<string>, inviteCode: string, ownerId: string)

  /** A membership; its key is (userId, groupId). */
  datatype Member = Member(userId: string, groupId: string, role: string)

  datatype SharedHabit = SharedHabit(id: string, groupId: string)

  datatype SharedEntry = SharedEntry(id: string, userId: string, sharedHabitId: string, day: int, value: int, createdAt: int)

  /** A calendar note; the model takes (userId, day, text) as its unique key. */
  datatype ActivityRow = ActivityRow(id: string, userId: string, text: string, color: string, day: int)

  /** `session.user` of a signed-in request; missing texts are "". */
  datatype SessionUser = SessionUser(id: string, email: string, name: Option<string>, username: Option<string>, avatar: Option<string>)

  function UserId(u: User): string {
    u.id
  }

  function UserEmail(u: User): string {
    u.email
  }

  function EntryKey(e: EntryRow): (string, string, int) {
    (e.userId, e.habitId, e.day)
  }

  function MemberKey(m: Member): (string, string) {
    (m.userId, m.groupId)
  }

  function UserBadgeKey(b: UserBadge): (string, string) {
    (b.userId, b.badgeId)
  }

  function InviteCodeOf(g: Group): string {
    g.inviteCode
  }

  function SharedEntryId(e: SharedEntry): string {
    e.id
  }

  function ActivityKey(a: ActivityRow): (string, int, string) {
    (a.userId, a.day, a.text)
  }

  /** No two rows of `s` share a key. */
  ghost predicate UniqueBy<T, K>(s: seq<T>, key: T -> K) {
    forall i, j :: 0 <= i < j < |s| ==> key(s[i]) != key(s[j])
  }

  /** The position of the row with key `k`, if any. */
  function FindByKey<T, K(==)>(s: seq<T>, key: T -> K, k: K): (r: Option<nat>)
    ensures r.Some? ==> r.value < |s| && key(s[r.value]) == k
    ensures r.None? ==> forall i :: 0 <= i < |s| ==> key(s[i]) != k
  {
    if s == [] then None
    else if key(s[|s| - 1]) == k then Some(|s| - 1)
    else FindByKey(s[..|s| - 1], key, k)
  }

  /** The position of the user row with id `userId`, as `findUnique({ where: { id } })`
      finds it. */
  function UserIndex(users: seq<User>, userId: string): Option<nat> {
    FindByKey(users, UserId, userId)
  }

  /** Under a unique key, the row found is the only one with that key. */
  lemma {:induction false} FindByKeyUnique<T, K>(s: seq<T>, key: T -> K, k: K)
    requires UniqueBy(s, key)
    ensures FindByKey(s, key, k).Some? ==>
              forall i :: 0 <= i < |s| && key(s[i]) == k ==> i == FindByKey(s, key, k).value
  {
  }

  /** Filtering, and so `deleteMany` with the negated condition, keeps rows apart on their
      keys. */
  lemma {:induction false} FilterKeepsUnique<T, K>(s: seq<T>, p: T -> bool, key: T -> K)
    requires UniqueBy(s, key)
    ensures UniqueBy(Filter(s, p), key)
  {
    if s != [] {
      FilterKeepsUnique(s[1..], p, key);
      var r := Filter(s[1..], p);
      if p(s[0]) {
        forall j | 0 <= j < |r| ensures key(s[0]) != key(r[j]) {
          var k :| 0 <= k < |s[1..]| && s[1..][k] == r[j];
          assert s[k + 1] == r[j];
        }
        assert Filter(s, p) == [s[0]] + r;
      }
    }
  }

  /** Appending a row whose key no row has keeps the rows apart on that key. */
  lemma {:induction false} AppendKeepsUnique<T, K>(s: seq<T>, x: T, key: T -> K)
    requires UniqueBy(s, key)
    requires forall i :: 0 <= i < |s| ==> key(s[i]) != key(x)
    ensures UniqueBy(s + [x], key)
  {
    var t := s + [x];
    forall i, j | 0 <= i < j < |t| ensures key(t[i]) != key(t[j]) {
      assert t[i] == s[i];
      if j < |s| { assert t[j] == s[j]; }
    }
  }

  /** Replacing a row by one with the same key keeps the rows apart on that key. */
  lemma {:induction false} ReplaceKeepsUnique<T, K>(s: seq<T>, i: nat, x: T, key: T -> K)
    requires i < |s| && UniqueBy(s, key) && key(x) == key(s[i])
    ensures UniqueBy(s[i := x], key)
  {
    var t := s[i := x];
    assert forall j :: 0 <= j < |t| ==> key(t[j]) == key(s[j]);
  }

  /** The whole database. */
  class Db {
    var users: seq<User>
    var habits: seq<HabitRow>
    var habitEntries: seq<EntryRow>
    var badges: seq<BadgeRow>
    var userBadges: seq<UserBadge>
    var groups: seq<Group>
    var groupMembers: seq<Member>
    var sharedHabits: seq<SharedHabit>
    var sharedEntries: seq<SharedEntry>
    var customActivities: seq<ActivityRow>

    /** The unique keys of the schema. */
    ghost predicate Valid()
      reads this
    {
      UniqueBy(users, (u: User) => u.id) && UniqueBy(users, (u: User) => u.email)
      && UniqueBy(habits, (h: HabitRow) => h.id)
      && UniqueBy(habitEntries, EntryKey)
      && UniqueBy(badges, (b: BadgeRow) => b.id)
      && UniqueBy(userBadges, UserBadgeKey)
      && UniqueBy(groups, (g: Group) => g.id) && UniqueBy(groups, InviteCodeOf)
      && UniqueBy(groupMembers, MemberKey)
      && UniqueBy(sharedHabits, (h: SharedHabit) => h.id)
      && UniqueBy(sharedEntries, SharedEntryId)
      && UniqueBy(customActivities, (a: ActivityRow) => a.id) && UniqueBy(customActivities, ActivityKey)
    }

    /** An empty database. */
    constructor()
      ensures users == [] && habits == [] && habitEntries == [] && badges == [] && userBadges == []
      ensures groups == [] && groupMembers == [] && sharedHabits == [] && sharedEntries == []
      ensures customActivities == []
      ensures Valid()
    {
      users, habits, habitEntries, badges, userBadges := [], [], [], [], [];
      groups, groupMembers, sharedHabits, sharedEntries, customActivities := [], [], [], [], [];
    }

    /** `deleteMany` on each table: the rows failing `keep` are removed, in place. */
    method DeleteManyHabitEntries(keep: EntryRow -> bool)
      requires Valid()
      modifies this`habitEntries
      ensures habitEntries == Filter(old(habitEntries), keep) && Valid()
    {
      FilterKeepsUnique(habitEntries, keep, EntryKey);
      habitEntries := Filter(habitEntries, keep);
    }

    method DeleteManyHabits(keep: HabitRow -> bool)
      requires Valid()
      modifies this`habits
      ensures habits == Filter(old(habits), keep) && Valid()
    {
      FilterKeepsUnique(habits, keep, (h: HabitRow) => h.id);
      habits := Filter(habits, keep);
    }

    method DeleteManyMembers(keep: Member -> bool)
      requires Valid()
      modifies this`groupMembers
      ensures groupMembers == Filter(old(groupMembers), keep) && Valid()
    {
      FilterKeepsUnique(groupMembers, keep, MemberKey);
      groupMembers := Filter(groupMembers, keep);
    }

    method DeleteManyGroups(keep: Group -> bool)
      requires Valid()
      modifies this`groups
      ensures groups == Filter(old(groups), keep) && Valid()
    {
      FilterKeepsUnique(groups, keep, (g: Group) => g.id);
      FilterKeepsUnique(groups, keep, InviteCodeOf);
      groups := Filter(groups, keep);
    }

    method DeleteManySharedHabits(keep: SharedHabit -> bool)
      requires Valid()
      modifies this`sharedHabits
      ensures sharedHabits == Filter(old(sharedHabits), keep) && Valid()
    {
      FilterKeepsUnique(sharedHabits, keep, (h: SharedHabit) => h.id);
      sharedHabits := Filter(sharedHabits, keep);
    }

    method DeleteManySharedEntries(keep: SharedEntry -> bool)
      requires Valid()
      modifies this`sharedEntries
      ensures sharedEntries == Filter(old(sharedEntries), keep) && Valid()
    {
      FilterKeepsUnique(sharedEntries, keep, SharedEntryId);
      sharedEntries := Filter(sharedEntries, keep);
    }

    /** `customActivity.create` of a row whose id and (user, day, text) key are new. */
    method InsertActivity(row: ActivityRow)
      requires forall i :: 0 <= i < |customActivities| ==>
                 customActivities[i].id != row.id && ActivityKey(customActivities[i]) != ActivityKey(row)
      modifies this`customActivities
      ensures customActivities == old(customActivities) + [row]
      ensures old(Valid()) ==> Valid()
    {
      if Valid() {
        AppendKeepsUnique(customActivities, row, (a: ActivityRow) => a.id);
        AppendKeepsUnique(customActivities, row, ActivityKey);
      }
      customActivities := customActivities + [row];
    }

    /** `user.update` of the row at `i` with its id and email kept. */
    method SetUser(i: nat, u: User)
      requires i < |users| && u.id == users[i].id && u.email == users[i].email
      modifies this`users
      ensures users == old(users)[i := u]
      ensures old(Valid()) ==> Valid()
    {
      if Valid() {
        ReplaceKeepsUnique(users, i, u, (u: User) => u.id);
        ReplaceKeepsUnique(users, i, u, (u: User) => u.email);
      }
      users := users[i := u];
    }

    method DeleteManyUsers(keep: User -> bool)
      requires Valid()
      modifies this`users
      ensures users == Filter(old(users), keep) && Valid()
    {
      FilterKeepsUnique(users, keep, (u: User) => u.id);
      FilterKeepsUnique(users, keep, (u: User) => u.email);
      users := Filter(users, keep);
    }
  }
}
