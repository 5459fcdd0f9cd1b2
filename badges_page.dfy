/** src/app/badges/page.tsx: the points ladder (five tiers of three sub-levels), the
    rarity ordering of the badge list and the earned-badge totals. */
module BadgesPage {
  import opened Common
  import opened Sorting

  /** `tierThresholds`: BRONZE III, II, I, SILVER III, …, PLATINUM I. */
  const Thresholds: seq<int> := [0, 100, 250, 500, 900, 1400, 2000, 2700, 3500, 4400, 5400, 6500, 7700, 9000, 10400]
  const Tiers: seq<string> := ["BRONZE", "SILVER", "GOLD", "DIAMOND", "PLATINUM"]
  const Numerals: seq<string> := ["III", "II", "I"]

  /** The ladder starts at 0, climbs strictly and tops out at 10400. */
  lemma {:induction false} ThresholdsIncrease()
    ensures |Thresholds| == 15 && Thresholds[0] == 0 && Thresholds[14] == 10400
    ensures forall i, j :: 0 <= i < j < 15 ==> Thresholds[i] < Thresholds[j]
  {
  }

  /** The largest index below `n` whose threshold `points` reaches, or -1. */
  function LastReached(points: int, n: nat): (r: int)
    requires n <= 15
    ensures -1 <= r < n
    ensures r >= 0 ==> Thresholds[r] <= points
    ensures forall i :: r < i < n ==> points < Thresholds[i]
  {
    if n == 0 then -1
    else if points >= Thresholds[n - 1] then n - 1
    else LastReached(points, n - 1)
  }

  /** `tierThresholds[i + 1] || tierThresholds[i]`: past the top there is no next step. */
  function NextThreshold(i: nat): int
    requires i < 15
  {
    if i + 1 < 15 then Thresholds[i + 1] else Thresholds[i]
  }

  /** `nextThreshold - userPoints`, or 0 when that is not positive. */
  function PointsToNext(nextThreshold: int, points: int): (n: int)
    ensures n >= 0
    ensures n == 0 <==> nextThreshold <= points
    ensures n > 0 ==> points + n == nextThreshold
  {
    if nextThreshold - points > 0 then nextThreshold - points else 0
  }

  /** The tier loop: every threshold the points reach overwrites the tier, the numeral and
      the next threshold, so the last one reached wins; with no threshold reached the
      initial BRONZE III and 10400 stay. */
  method ComputeRank(userPoints: int)
    returns (tierIndex: nat, numeralIndex: nat, nextThreshold: int, pointsToNext: int)
    ensures LastReached(userPoints, 15) < 0 ==> tierIndex == 0 && numeralIndex == 0 && nextThreshold == 10400
    ensures LastReached(userPoints, 15) >= 0 ==>
              tierIndex == LastReached(userPoints, 15) / 3 && numeralIndex == LastReached(userPoints, 15) % 3
              && nextThreshold == NextThreshold(LastReached(userPoints, 15))
    ensures pointsToNext == PointsToNext(nextThreshold, userPoints)
  {
    tierIndex, numeralIndex := 0, 0;
    nextThreshold := Thresholds[|Thresholds| - 1];
    for i := 0 to |Thresholds|
      invariant LastReached(userPoints, i) < 0 ==> tierIndex == 0 && numeralIndex == 0 && nextThreshold == 10400
      invariant LastReached(userPoints, i) >= 0 ==>
                  tierIndex == LastReached(userPoints, i) / 3 && numeralIndex == LastReached(userPoints, i) % 3
                  && nextThreshold == NextThreshold(LastReached(userPoints, i))
    {
      if userPoints >= Thresholds[i] {
        tierIndex := i / 3;
        numeralIndex := i % 3;
        nextThreshold := if i + 1 < |Thresholds| then Thresholds[i + 1] else Thresholds[i];
      }
    }
    pointsToNext := if nextThreshold - userPoints > 0 then nextThreshold - userPoints else 0;
  }

  /** For non-negative points the rank is the largest step whose threshold is reached: its
      tier is 0..4, its numeral 0..2, and the points lie below the next step's threshold. */
  lemma {:induction false} RankIsLargestReached(points: int)
    requires points >= 0
    ensures 0 <= LastReached(points, 15) < 15
    ensures LastReached(points, 15) / 3 < |Tiers| && LastReached(points, 15) % 3 < |Numerals|
    ensures Thresholds[LastReached(points, 15)] <= points
    ensures LastReached(points, 15) < 14 ==> points < Thresholds[LastReached(points, 15) + 1]
    ensures forall i :: 0 <= i < 15 && Thresholds[i] <= points ==> i <= LastReached(points, 15)
  {
    assert Thresholds[0] == 0;
  }

  /** "Max Tier!" shows exactly when the points reach the top threshold 10400. */
  lemma {:induction false} MaxTierIffTopReached(points: int)
    ensures var r := LastReached(points, 15);
            var next := if r < 0 then 10400 else NextThreshold(r);
            PointsToNext(next, points) == 0 <==> points >= 10400
  {
    var r := LastReached(points, 15);
    if r >= 0 && r < 14 {
      assert Thresholds[r + 1] <= 10400;
    }
  }

  /** `tiers[tierIndex] || tiers[tiers.length - 1]`. */
  function TierName(tierIndex: nat): string {
    if tierIndex < |Tiers| then Tiers[tierIndex] else Tiers[|Tiers| - 1]
  }

  /** `numerals[numeralIndex] || numerals[2]`. */
  function NumeralName(numeralIndex: nat): string {
    if numeralIndex < |Numerals| then Numerals[numeralIndex] else Numerals[2]
  }

  /** The page's fixed 850 points: SILVER III, 900 points next, 50 to go. */
  lemma {:induction false} EightHundredFiftyPoints()
    ensures LastReached(850, 15) == 3
    ensures TierName(LastReached(850, 15) / 3) == "SILVER" && NumeralName(LastReached(850, 15) % 3) == "III"
    ensures NextThreshold(LastReached(850, 15)) == 900
    ensures PointsToNext(NextThreshold(LastReached(850, 15)), 850) == 50
  {
    assert LastReached(850, 4) == 3;
  }

  /** The rarities in increasing order of weight. */
  const Rarities: seq<string> := ["common", "uncommon", "rare", "epic", "legendary"]

  /** `getRarityWeight`: common 1 up to legendary 5, anything else 0. */
  function RarityWeight(rarity: string): (w: int)
    ensures 0 <= w <= |Rarities|
    ensures w > 0 ==> Rarities[w - 1] == rarity
    ensures w == 0 <==> rarity !in Rarities
  {
    match rarity
    case "legendary" => 5
    case "epic" => 4
    case "rare" => 3
    case "uncommon" => 2
    case "common" => 1
    case _ => 0
  }

  datatype Badge = Badge(id: string, category: string, points: int, rarity: string, earned: bool)

  function Weight(b: Badge): int {
    RarityWeight(b.rarity)
  }

  function InCategory(category: string): Badge -> bool {
    (b: Badge) => b.category == category
  }

  /** What `filteredBadges` holds: all badges for 'all', otherwise those of the category,
      ordered by rarity weight. */
  function Filtered(badges: seq<Badge>, selectedCategory: string): seq<Badge> {
    if selectedCategory == "all" then SortBy(badges, Weight)
    else SortBy(Filter(badges, InCategory(selectedCategory)), Weight)
  }

  /** `filteredBadges`. The comparator `a - b` puts the lighter rarity first, although the
      comment there says highest to lowest; for 'all' it sorts `badges` itself. */
  method FilteredBadges(badges: array<Badge>, selectedCategory: string) returns (filtered: seq<Badge>)
    modifies badges
    ensures filtered == Filtered(old(badges[..]), selectedCategory)
    ensures selectedCategory == "all" ==> badges[..] == filtered
    ensures selectedCategory != "all" ==> badges[..] == old(badges[..])
  {
    if selectedCategory == "all" {
      SortInPlace(badges, Weight);
      filtered := badges[..];
    } else {
      filtered := SortBy(Filter(badges[..], InCategory(selectedCategory)), Weight);
    }
  }

  /** The list is ordered from common to legendary, holds exactly the badges of the chosen
      category (every badge for 'all'), and each as often as before. */
  lemma {:induction false} FilteredIsOrderedSelection(badges: seq<Badge>, selectedCategory: string)
    ensures SortedBy(Filtered(badges, selectedCategory), Weight)
    ensures selectedCategory == "all" ==> multiset(Filtered(badges, selectedCategory)) == multiset(badges)
    ensures selectedCategory != "all" ==>
              multiset(Filtered(badges, selectedCategory)) == multiset(Filter(badges, InCategory(selectedCategory)))
    ensures forall b :: b in Filtered(badges, selectedCategory) ==>
              b in badges && (selectedCategory == "all" || b.category == selectedCategory)
    ensures forall b :: b in badges && (selectedCategory == "all" || b.category == selectedCategory) ==>
              b in Filtered(badges, selectedCategory)
  {
    if selectedCategory == "all" {
      SortBySorted(badges, Weight);
      assert forall b :: b in Filtered(badges, selectedCategory) <==> b in multiset(badges);
    } else {
      var f := Filter(badges, InCategory(selectedCategory));
      SortBySorted(f, Weight);
      assert forall b :: b in Filtered(badges, selectedCategory) <==> b in multiset(f);
      forall b | b in f ensures b in badges && b.category == selectedCategory {
        var i :| 0 <= i < |f| && f[i] == b;
      }
      forall b | b in badges && b.category == selectedCategory ensures b in f {
        var i :| 0 <= i < |badges| && badges[i] == b;
      }
    }
  }

  function IsEarned(b: Badge): bool {
    b.earned
  }

  function PointsOf(b: Badge): int {
    b.points
  }

  /** `totalPoints`: `reduce((sum, badge) => sum + badge.points, 0)` over the earned badges. */
  function TotalPoints(badges: seq<Badge>): int {
    SumOf(Filter(badges, IsEarned), PointsOf)
  }

  /** The points a badge adds to `totalPoints`. */
  function EarnedPoints(b: Badge): int {
    if b.earned then b.points else 0
  }

  lemma {:induction false} TotalPointsCons(b: Badge, badges: seq<Badge>)
    ensures TotalPoints([b] + badges) == EarnedPoints(b) + TotalPoints(badges)
  {
    assert ([b] + badges)[1..] == badges;
  }

  /** Summing the points of the earned badges is summing every badge's earned points. */
  lemma {:induction false} TotalPointsIsEarnedSum(badges: seq<Badge>)
    ensures TotalPoints(badges) == SumOf(badges, EarnedPoints)
  {
    if badges != [] {
      TotalPointsIsEarnedSum(badges[1..]);
      TotalPointsCons(badges[0], badges[1..]);
      assert [badges[0]] + badges[1..] == badges;
    }
  }

  /** Sorting the badges in place ('all') changes neither the earned points nor the number
      of earned badges shown in the summary cards. */
  lemma {:induction false} TotalsSurviveSort(badges: seq<Badge>)
    ensures TotalPoints(SortBy(badges, Weight)) == TotalPoints(badges)
    ensures Count(SortBy(badges, Weight), IsEarned) == Count(badges, IsEarned)
  {
    TotalPointsIsEarnedSum(badges);
    TotalPointsIsEarnedSum(SortBy(badges, Weight));
    SortByKeepsTotals(badges, Weight, IsEarned, EarnedPoints);
  }

  function NotEarned(b: Badge): bool {
    !b.earned
  }

  /** `earnedBadges.length` and `badges.length - earnedBadges.length` split the badges into
      the earned ones and the ones still to earn. */
  lemma {:induction false} EarnedAndToEarn(badges: seq<Badge>)
    ensures |Filter(badges, IsEarned)| == Count(badges, IsEarned)
    ensures |badges| - |Filter(badges, IsEarned)| == Count(badges, NotEarned)
  {
    FilterCount(badges, IsEarned);
    if badges != [] {
      EarnedAndToEarn(badges[1..]);
    }
  }
}
