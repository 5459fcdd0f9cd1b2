/** src/app/api/badges/route.ts: the badge list with the caller's earned status and totals
    (GET), and the award of one badge to the caller (POST). Both run inside `withAuth`. */
module BadgesApi {
  import opened Common
  import opened Sorting
  import opened Store
  import opened ApiAuth

  /** A badge as listed, with `earned` and `earnedDate`. */
  datatype BadgeStatus = BadgeStatus(badge: BadgeRow, earned: bool, earnedDate: Option<int>)

  datatype UserStats = UserStats(totalPoints: int, badgesEarned: nat, currentStreak: nat, habitsCompleted: nat)

  datatype BadgesView = BadgesView(badges: seq<BadgeStatus>, userStats: UserStats)

  /** The POST's success body: the message and the new record with its badge. */
  datatype Award = Award(message: string, userBadge: UserBadge, badge: BadgeRow)

  function CreatedAt(b: BadgeRow): int {
    b.createdAt
  }

  function OfUser(userId: string): UserBadge -> bool {
    (ub: UserBadge) => ub.userId == userId
  }

  function AwardedBadgeId(ub: UserBadge): string {
    ub.badgeId
  }

  function BadgeId(b: BadgeRow): string {
    b.id
  }

  /** One badge with the caller's status, read from the map of the caller's records keyed by
      badge id (a later record of the same badge replaces an earlier one, as `new Map` does). */
  function StatusOf(b: BadgeRow, mine: seq<UserBadge>): (r: BadgeStatus)
    ensures r.badge == b
    ensures r.earned <==> exists j :: 0 <= j < |mine| && mine[j].badgeId == b.id
    ensures r.earnedDate.Some? <==> r.earned
    ensures r.earnedDate.Some? ==> exists j :: 0 <= j < |mine| && mine[j].badgeId == b.id && mine[j].earnedAt == r.earnedDate.value
  {
    match FindByKey(mine, AwardedBadgeId, b.id)
    case None => BadgeStatus(b, false, None)
    case Some(j) => BadgeStatus(b, true, Some(mine[j].earnedAt))
  }

  /** `allBadges.map(...)`. */
  function WithStatus(all: seq<BadgeRow>, mine: seq<UserBadge>): (r: seq<BadgeStatus>)
    ensures |r| == |all|
    ensures forall i :: 0 <= i < |all| ==> r[i] == StatusOf(all[i], mine)
  {
    if all == [] then [] else [StatusOf(all[0], mine)] + WithStatus(all[1..], mine)
  }

  function IsEarned(s: BadgeStatus): bool {
    s.earned
  }

  function StatusPoints(s: BadgeStatus): int {
    s.badge.points
  }

  /** The GET body for `userId`: every badge by creation time (ties in table order) with its
      status; the earned badges' points summed and counted; the two placeholder stats 0. */
  function BadgesOf(badges: seq<BadgeRow>, userBadges: seq<UserBadge>, userId: string): BadgesView {
    var statuses := WithStatus(SortBy(badges, CreatedAt), Filter(userBadges, OfUser(userId)));
    var earned := Filter(statuses, IsEarned);
    BadgesView(statuses, UserStats(SumOf(earned, StatusPoints), |earned|, 0, 0))
  }

  /** The GET handler over a snapshot of the two tables. */
  function GetHandler(badges: seq<BadgeRow>, userBadges: seq<UserBadge>): SessionUser -> Outcome<BadgesView> {
    (user: SessionUser) => Returned(Ok(200, BadgesOf(badges, userBadges, user.id)))
  }

  /** GET /api/badges. */
  function GetBadges(db: Db, session: Option<SessionUser>): (r: Response<BadgesView>)
    reads db
    ensures session.None? ==> r == Fail(401, "Authentication required")
    ensures session.Some? ==> r.Ok? && r.status == 200 && r.value == BadgesOf(db.badges, db.userBadges, session.value.id)
  {
    var badges := db.badges;
    var userBadges := db.userBadges;
    WithAuth(session, GetHandler(badges, userBadges))
  }

  /** The reference for "earned": the user has a record for the badge. */
  ghost predicate Awarded(userBadges: seq<UserBadge>, userId: string, badgeId: string) {
    exists j :: 0 <= j < |userBadges| && userBadges[j].userId == userId && userBadges[j].badgeId == badgeId
  }

  /** The rows listed, in order. */
  function Rows(statuses: seq<BadgeStatus>): (r: seq<BadgeRow>)
    ensures |r| == |statuses|
    ensures forall i :: 0 <= i < |statuses| ==> r[i] == statuses[i].badge
  {
    if statuses == [] then [] else [statuses[0].badge] + Rows(statuses[1..])
  }

  /** One record per badge of the table, in creation order. */
  lemma {:induction false} ListsEveryBadgeInCreationOrder(badges: seq<BadgeRow>, userBadges: seq<UserBadge>, userId: string)
    ensures var v := BadgesOf(badges, userBadges, userId);
      && multiset(Rows(v.badges)) == multiset(badges)
      && forall i, j :: 0 <= i < j < |v.badges| ==> v.badges[i].badge.createdAt <= v.badges[j].badge.createdAt
  {
    var sorted := SortBy(badges, CreatedAt);
    var v := BadgesOf(badges, userBadges, userId);
    SortBySorted(badges, CreatedAt);
    assert Rows(v.badges) == sorted;
  }

  /** A badge is earned exactly when the user has a record for it; it has an earned date
      exactly when it is earned, and that date is the record's. */
  lemma {:induction false} EarnedIffAwarded(badges: seq<BadgeRow>, userBadges: seq<UserBadge>, userId: string, i: nat)
    requires i < |badges|
    ensures var s := BadgesOf(badges, userBadges, userId).badges[i];
      && (s.earned <==> Awarded(userBadges, userId, s.badge.id))
      && (s.earnedDate.None? <==> !s.earned)
      && (s.earned ==> exists j :: 0 <= j < |userBadges| && UserBadgeKey(userBadges[j]) == (userId, s.badge.id)
                                   && s.earnedDate == Some(userBadges[j].earnedAt))
  {
    var mine := Filter(userBadges, OfUser(userId));
    var sorted := SortBy(badges, CreatedAt);
    assert BadgesOf(badges, userBadges, userId).badges[i] == StatusOf(sorted[i], mine);
    StatusIffAwarded(sorted[i], userBadges, userId, mine);
  }

  /** The status of one badge against the caller's records. */
  lemma {:induction false} StatusIffAwarded(b: BadgeRow, userBadges: seq<UserBadge>, userId: string, mine: seq<UserBadge>)
    requires mine == Filter(userBadges, OfUser(userId))
    ensures var s := StatusOf(b, mine);
      && (s.earned <==> Awarded(userBadges, userId, b.id))
      && (s.earned ==> exists j :: 0 <= j < |userBadges| && UserBadgeKey(userBadges[j]) == (userId, b.id)
                                   && s.earnedDate == Some(userBadges[j].earnedAt))
  {
    var s := StatusOf(b, mine);
    if Awarded(userBadges, userId, b.id) {
      var j :| 0 <= j < |userBadges| && userBadges[j].userId == userId && userBadges[j].badgeId == b.id;
      assert OfUser(userId)(userBadges[j]);
      assert userBadges[j] in mine;
    }
    if s.earned {
      var j :| 0 <= j < |mine| && mine[j].badgeId == b.id && mine[j].earnedAt == s.earnedDate.value;
      var k :| 0 <= k < |userBadges| && userBadges[k] == mine[j];
      assert UserBadgeKey(userBadges[k]) == (userId, b.id);
    }
  }

  /** The reference totals: the points of, and the number of, the badges of the table the
      user holds a record for. */
  function AwardedPoints(mine: seq<UserBadge>): BadgeRow -> int {
    (b: BadgeRow) => if StatusOf(b, mine).earned then b.points else 0
  }

  function AwardedTo(mine: seq<UserBadge>): BadgeRow -> bool {
    (b: BadgeRow) => StatusOf(b, mine).earned
  }

  function EarnedPoints(s: BadgeStatus): int {
    if s.earned then s.badge.points else 0
  }

  lemma {:induction false} SumOfEarned(statuses: seq<BadgeStatus>)
    ensures SumOf(Filter(statuses, IsEarned), StatusPoints) == SumOf(statuses, EarnedPoints)
  {
    if statuses != [] {
      SumOfEarned(statuses[1..]);
      if statuses[0].earned {
        assert Filter(statuses, IsEarned)[1..] == Filter(statuses[1..], IsEarned);
      }
    }
  }

  lemma {:induction false} StatusTotals(all: seq<BadgeRow>, mine: seq<UserBadge>)
    ensures SumOf(WithStatus(all, mine), EarnedPoints) == SumOf(all, AwardedPoints(mine))
    ensures Count(WithStatus(all, mine), IsEarned) == Count(all, AwardedTo(mine))
  {
    if all != [] {
      StatusTotals(all[1..], mine);
      assert WithStatus(all, mine)[1..] == WithStatus(all[1..], mine);
    }
  }

  /** `totalPoints` and `badgesEarned` do not depend on the listing order: they are the sum
      and number over the badge table of the badges the user has earned. */
  lemma {:induction false} TotalsMatchAwards(badges: seq<BadgeRow>, userBadges: seq<UserBadge>, userId: string)
    ensures var v := BadgesOf(badges, userBadges, userId); var mine := Filter(userBadges, OfUser(userId));
      && v.userStats.totalPoints == SumOf(badges, AwardedPoints(mine))
      && v.userStats.badgesEarned == Count(badges, AwardedTo(mine))
  {
    var mine := Filter(userBadges, OfUser(userId));
    var sorted := SortBy(badges, CreatedAt);
    var statuses := WithStatus(sorted, mine);
    SumOfEarned(statuses);
    FilterCount(statuses, IsEarned);
    StatusTotals(sorted, mine);
    SortByKeepsTotals(badges, CreatedAt, AwardedTo(mine), AwardedPoints(mine));
  }

  /** POST /api/badges: 401 without a session; 400 without a badge id; 404 for an unknown
      badge; 400 when the caller already holds it; otherwise one record (caller, badge, now)
      is added and returned with the badge. Only the award table changes. */
  method PostBadge(db: Db, session: Option<SessionUser>, badgeId: string, now: int)
    returns (resp: Response<Award>)
    modifies db`userBadges
    ensures session.None? ==> resp == Fail(401, "Authentication required") && db.userBadges == old(db.userBadges)
    ensures session.Some? && badgeId == "" ==>
              resp == Fail(400, "Badge ID is required") && db.userBadges == old(db.userBadges)
    ensures session.Some? && badgeId != "" && (forall i :: 0 <= i < |db.badges| ==> db.badges[i].id != badgeId) ==>
              resp == Fail(404, "Badge not found") && db.userBadges == old(db.userBadges)
    ensures session.Some? && badgeId != "" && (exists i :: 0 <= i < |db.badges| && db.badges[i].id == badgeId)
            && Awarded(old(db.userBadges), session.value.id, badgeId) ==>
              resp == Fail(400, "Badge already earned") && db.userBadges == old(db.userBadges)
    ensures session.Some? && badgeId != "" && (exists i :: 0 <= i < |db.badges| && db.badges[i].id == badgeId)
            && !Awarded(old(db.userBadges), session.value.id, badgeId) ==>
              && resp.Ok? && resp.status == 200
              && resp.value.message == "Badge awarded successfully"
              && resp.value.userBadge == UserBadge(session.value.id, badgeId, now)
              && resp.value.badge in db.badges && resp.value.badge.id == badgeId
              && db.userBadges == old(db.userBadges) + [resp.value.userBadge]
    ensures old(db.Valid()) ==> db.Valid()
  {
    if session.None? {
      return AuthRequired();
    }
    var user := session.value;
    if badgeId == "" {
      return Fail(400, "Badge ID is required");
    }
    var found := FindByKey(db.badges, BadgeId, badgeId);
    if found.None? {
      return Fail(404, "Badge not found");
    }
    var badge := db.badges[found.value];
    var existing := FindByKey(db.userBadges, UserBadgeKey, (user.id, badgeId));
    if existing.Some? {
      return Fail(400, "Badge already earned");
    }
    var userBadge := UserBadge(user.id, badgeId, now);
    db.userBadges := db.userBadges + [userBadge];
    resp := Ok(200, Award("Badge awarded successfully", userBadge, badge));
  }

  /** After an award the new badge is listed as earned, and `badgesEarned` grows by one. */
  lemma {:induction false} AwardCountsOnce(badges: seq<BadgeRow>, userBadges: seq<UserBadge>, userId: string, badgeId: string, now: int)
    requires UniqueBy(badges, BadgeId)
    requires exists i :: 0 <= i < |badges| && badges[i].id == badgeId
    requires !Awarded(userBadges, userId, badgeId)
    ensures Count(badges, AwardedTo(Filter(userBadges + [UserBadge(userId, badgeId, now)], OfUser(userId))))
            == Count(badges, AwardedTo(Filter(userBadges, OfUser(userId)))) + 1
  {
    var x := UserBadge(userId, badgeId, now);
    var mine := Filter(userBadges, OfUser(userId));
    var mine' := Filter(userBadges + [x], OfUser(userId));
    FilterAppend(userBadges, [x], OfUser(userId));
    assert mine' == mine + [x];
    MineLacksBadge(userBadges, userId, badgeId, mine);
    forall b: BadgeRow ensures AwardedTo(mine')(b) == (AwardedTo(mine)(b) || b.id == badgeId) {
      AwardedAfter(mine, x, b);
    }
    forall b: BadgeRow | b.id == badgeId ensures !AwardedTo(mine)(b) {
      assert !StatusOf(b, mine).earned;
    }
    var i :| 0 <= i < |badges| && badges[i].id == badgeId;
    CountSplit(badges, AwardedTo(mine), AwardedTo(mine'), badgeId, i);
  }

  /** None of the caller's records is for a badge the caller has not been awarded. */
  lemma {:induction false} MineLacksBadge(userBadges: seq<UserBadge>, userId: string, badgeId: string, mine: seq<UserBadge>)
    requires mine == Filter(userBadges, OfUser(userId))
    requires !Awarded(userBadges, userId, badgeId)
    ensures forall j :: 0 <= j < |mine| ==> mine[j].badgeId != badgeId
  {
    forall j | 0 <= j < |mine| ensures mine[j].badgeId != badgeId {
      var k :| 0 <= k < |userBadges| && userBadges[k] == mine[j];
      assert OfUser(userId)(mine[j]);
    }
  }

  /** A badge is held after appending a record exactly when it was held before or is the
      record's badge. */
  lemma {:induction false} AwardedAfter(mine: seq<UserBadge>, x: UserBadge, b: BadgeRow)
    ensures StatusOf(b, mine + [x]).earned == (StatusOf(b, mine).earned || b.id == x.badgeId)
  {
    var mine' := mine + [x];
    if StatusOf(b, mine').earned {
      var j :| 0 <= j < |mine'| && mine'[j].badgeId == b.id;
      if j < |mine| {
        assert mine[j] == mine'[j];
      }
    }
    if StatusOf(b, mine).earned {
      var j :| 0 <= j < |mine| && mine[j].badgeId == b.id;
      assert mine'[j] == mine[j];
    }
    if b.id == x.badgeId {
      assert mine'[|mine|] == x;
    }
  }

  /** Adding the one badge of id `id` to a test adds one to its count. */
  lemma {:induction false} CountSplit(s: seq<BadgeRow>, p: BadgeRow -> bool, q: BadgeRow -> bool, id: string, i: nat)
    requires UniqueBy(s, BadgeId)
    requires i < |s| && s[i].id == id
    requires forall b: BadgeRow :: q(b) == (p(b) || b.id == id)
    requires forall b: BadgeRow :: b.id == id ==> !p(b)
    ensures Count(s, q) == Count(s, p) + 1
  {
    if i == 0 {
      forall j | 0 <= j < |s[1..]| ensures q(s[1..][j]) == p(s[1..][j]) {
        assert BadgeId(s[0]) != BadgeId(s[j + 1]);
      }
      CountSame(s[1..], p, q);
    } else {
      assert BadgeId(s[0]) != BadgeId(s[i]);
      assert s[1..][i - 1] == s[i];
      CountSplit(s[1..], p, q, id, i - 1);
    }
  }

  lemma {:induction false} CountSame(s: seq<BadgeRow>, p: BadgeRow -> bool, q: BadgeRow -> bool)
    requires forall j :: 0 <= j < |s| ==> q(s[j]) == p(s[j])
    ensures Count(s, q) == Count(s, p)
  {
    if s != [] {
      CountSame(s[1..], p, q);
    }
  }
}
