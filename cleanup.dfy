/** cleanup-duplicates.js: removes repeated shared-habit entries, keeping for every
    (user, shared habit, date) the most recently created entry. */
module Cleanup {
  import opened Common
  import opened Sorting
  import opened Store

  /** The grouping key (userId, sharedHabitId, date). */
  type Key = (string, string, int)

  function KeyOf(e: SharedEntry): Key {
    (e.userId, e.sharedHabitId, e.day)
  }

  function HasKey(k: Key): SharedEntry -> bool {
    (e: SharedEntry) => KeyOf(e) == k
  }

  /** The comparator `b.createdAt - a.createdAt`: latest creation first. */
  function NewestFirst(e: SharedEntry): int {
    -e.createdAt
  }

  /** The bucket of key `k`, latest creation first; equal creation times keep table order. */
  function Ranked(all: seq<SharedEntry>, k: Key): seq<SharedEntry> {
    SortBy(Filter(all, HasKey(k)), NewestFirst)
  }

  /** The entry kept for its key: the head of its ranked bucket. */
  function IsSurvivor(all: seq<SharedEntry>): SharedEntry -> bool {
    (e: SharedEntry) => var r := Ranked(all, KeyOf(e)); r != [] && r[0] == e
  }

  /** The keys of the entries of `s`. */
  ghost function KeySet(s: seq<SharedEntry>): set<Key> {
    set i | 0 <= i < |s| :: KeyOf(s[i])
  }

  function NotId(id: string): SharedEntry -> bool {
    (e: SharedEntry) => e.id != id
  }

  /** The rows still present while the deletion loop runs: those not deleted yet, and of the
      keys already handled only the survivors. */
  function Remaining(all: seq<SharedEntry>, done: set<Key>, dropped: seq<SharedEntry>): SharedEntry -> bool {
    (e: SharedEntry) => e !in dropped && (KeyOf(e) in done ==> IsSurvivor(all)(e))
  }

  /** Rows with different ids are different rows. */
  lemma {:induction false} DistinctRows(s: seq<SharedEntry>)
    requires UniqueBy(s, SharedEntryId)
    ensures forall i, j :: 0 <= i < j < |s| ==> s[i] != s[j]
  {
    forall i, j | 0 <= i < j < |s| ensures s[i] != s[j] {
      assert SharedEntryId(s[i]) != SharedEntryId(s[j]);
    }
  }

  /** Deleting by an id that occurs once removes exactly one row. */
  lemma {:induction false} RemoveOneById(s: seq<SharedEntry>, id: string, i: nat)
    requires UniqueBy(s, SharedEntryId)
    requires i < |s| && s[i].id == id
    ensures |Filter(s, NotId(id))| == |s| - 1
  {
    if i == 0 {
      forall j | 0 <= j < |s[1..]| ensures NotId(id)(s[1..][j]) {
        assert SharedEntryId(s[0]) != SharedEntryId(s[j + 1]);
      }
      FilterAllPass(s[1..], NotId(id));
    } else {
      assert SharedEntryId(s[0]) != SharedEntryId(s[i]);
      assert s[1..][i - 1] == s[i];
      RemoveOneById(s[1..], id, i - 1);
    }
  }

  /** `prisma.sharedGroupHabitEntry.delete({ where: { id } })`, which requires the row to
      exist, removes that one row. */
  method DeleteSharedEntry(db: Db, id: string)
    requires db.Valid()
    requires exists i :: 0 <= i < |db.sharedEntries| && db.sharedEntries[i].id == id
    modifies db`sharedEntries
    ensures db.sharedEntries == Filter(old(db.sharedEntries), NotId(id))
    ensures |db.sharedEntries| == |old(db.sharedEntries)| - 1
    ensures db.Valid()
  {
    var i :| 0 <= i < |db.sharedEntries| && db.sharedEntries[i].id == id;
    RemoveOneById(db.sharedEntries, id, i);
    FilterKeepsUnique(db.sharedEntries, NotId(id), SharedEntryId);
    db.sharedEntries := Filter(db.sharedEntries, NotId(id));
  }

  /** What the bucket of a key holds: exactly the entries with that key, each once. */
  lemma {:induction false} RankedFacts(all: seq<SharedEntry>, k: Key)
    requires UniqueBy(all, SharedEntryId)
    ensures forall x :: x in Ranked(all, k) <==> x in all && KeyOf(x) == k
    ensures forall x :: multiset(Ranked(all, k))[x] <= 1
  {
    var g := Filter(all, HasKey(k));
    assert forall x :: x in Ranked(all, k) <==> x in multiset(g);
    FilterKeepsUnique(all, HasKey(k), SharedEntryId);
    DistinctRows(g);
    forall x ensures multiset(Ranked(all, k))[x] <= 1 {
      DistinctMultiset(g, x);
    }
  }

  /** An element held once is at the head of a sequence exactly when it is not in the tail. */
  lemma {:induction false} HeadOrTail(r: seq<SharedEntry>, x: SharedEntry)
    requires x in r && multiset(r)[x] <= 1
    ensures x !in r[1..] <==> r[0] == x
  {
    assert r == [r[0]] + r[1..];
    assert multiset(r) == multiset{r[0]} + multiset(r[1..]);
  }

  /** Deleting one more entry of the table. */
  lemma {:induction false} DropStep(all: seq<SharedEntry>, done: set<Key>, dropped: seq<SharedEntry>, e: SharedEntry)
    requires UniqueBy(all, SharedEntryId) && e in all
    ensures Filter(Filter(all, Remaining(all, done, dropped)), NotId(e.id))
            == Filter(all, Remaining(all, done, dropped + [e]))
  {
    forall i | 0 <= i < |all|
      ensures Remaining(all, done, dropped + [e])(all[i])
              == (Remaining(all, done, dropped)(all[i]) && NotId(e.id)(all[i]))
    {
      var j :| 0 <= j < |all| && all[j] == e;
      if i != j {
        if i < j {
          assert SharedEntryId(all[i]) != SharedEntryId(all[j]);
        } else {
          assert SharedEntryId(all[j]) != SharedEntryId(all[i]);
        }
      }
    }
    FilterFilter(all, Remaining(all, done, dropped), NotId(e.id), Remaining(all, done, dropped + [e]));
  }

  /** Once the bucket of `k` has lost every entry but its head, the key counts as handled. */
  lemma {:induction false} GroupDone(all: seq<SharedEntry>, done: set<Key>, k: Key)
    requires UniqueBy(all, SharedEntryId)
    requires k !in done && Ranked(all, k) != []
    ensures Filter(all, Remaining(all, done, Ranked(all, k)[1..]))
            == Filter(all, Remaining(all, done + {k}, []))
  {
    var r := Ranked(all, k);
    RankedFacts(all, k);
    forall i | 0 <= i < |all|
      ensures Remaining(all, done, r[1..])(all[i]) == Remaining(all, done + {k}, [])(all[i])
    {
      var x := all[i];
      if KeyOf(x) == k {
        assert x in r;
        HeadOrTail(r, x);
        assert IsSurvivor(all)(x) == (r != [] && r[0] == x);
      } else {
        assert x !in r;
      }
    }
    FilterExt(all, Remaining(all, done, r[1..]), Remaining(all, done + {k}, []));
  }

  /** When every key is handled, the rows remaining are the survivors. */
  lemma {:induction false} AllDone(all: seq<SharedEntry>, done: set<Key>)
    requires forall i :: 0 <= i < |all| ==> KeyOf(all[i]) in done
    ensures Filter(all, Remaining(all, done, [])) == Filter(all, IsSurvivor(all))
  {
    FilterExt(all, Remaining(all, done, []), IsSurvivor(all));
  }

  /** Appending one element to a sequence appends it to what the filter keeps, if it passes. */
  lemma {:induction false} FilterSnoc(s: seq<SharedEntry>, e: SharedEntry, p: SharedEntry -> bool)
    ensures Filter(s + [e], p) == Filter(s, p) + (if p(e) then [e] else [])
  {
    FilterAppend(s, [e], p);
  }

  /** `grouped` and the order of its keys after the entries `s`: every key of `s` has the
      bucket of its entries, in order, and `keys` lists each key once. */
  ghost predicate Grouped(grouped: map<Key, seq<SharedEntry>>, keys: seq<Key>, s: seq<SharedEntry>) {
    && (forall k :: k in grouped <==> k in keys)
    && (forall p, q :: 0 <= p < q < |keys| ==> keys[p] != keys[q])
    && (forall j :: 0 <= j < |s| ==> KeyOf(s[j]) in grouped)
    && (forall k :: k in grouped ==> grouped[k] != [] && grouped[k] == Filter(s, HasKey(k)))
  }

  /** One turn of the grouping loop: `if (!grouped[key]) grouped[key] = []` and
      `grouped[key].push(entry)`. */
  method AddToGroup(grouped: map<Key, seq<SharedEntry>>, keys: seq<Key>, ghost s: seq<SharedEntry>, entry: SharedEntry)
    returns (grouped': map<Key, seq<SharedEntry>>, keys': seq<Key>)
    requires Grouped(grouped, keys, s)
    ensures Grouped(grouped', keys', s + [entry])
  {
    var key := KeyOf(entry);
    grouped', keys' := grouped, keys;
    if key !in grouped' {
      FilterNone(s, HasKey(key));
      grouped' := grouped'[key := []];
      keys' := keys' + [key];
    }
    grouped' := grouped'[key := grouped'[key] + [entry]];
    forall k | k in grouped' ensures grouped'[k] != [] && grouped'[k] == Filter(s + [entry], HasKey(k)) {
      FilterSnoc(s, entry, HasKey(k));
    }
    forall j | 0 <= j < |s + [entry]| ensures KeyOf((s + [entry])[j]) in grouped' {
      if j < |s| {
        assert (s + [entry])[j] == s[j];
      }
    }
  }

  /** The grouping loop: `grouped[key]` collects the entries of each key in table order,
      and `keys` lists the keys in the order they first appear (`Object.entries` order). */
  method GroupByKey(allEntries: seq<SharedEntry>)
    returns (grouped: map<Key, seq<SharedEntry>>, keys: seq<Key>)
    ensures Grouped(grouped, keys, allEntries)
  {
    grouped := map[];
    keys := [];
    for i := 0 to |allEntries|
      invariant Grouped(grouped, keys, allEntries[..i])
    {
      assert allEntries[..i + 1] == allEntries[..i] + [allEntries[i]];
      grouped, keys := AddToGroup(grouped, keys, allEntries[..i], allEntries[i]);
    }
    assert allEntries[..|allEntries|] == allEntries;
  }

  /** One turn of the inner loop: an entry not yet deleted, of a key not yet handled, is
      deleted by id. */
  method DeleteOne(db: Db, allEntries: seq<SharedEntry>, ghost done: set<Key>, ghost dropped: seq<SharedEntry>,
                   entry: SharedEntry)
    requires db.Valid() && UniqueBy(allEntries, SharedEntryId)
    requires db.sharedEntries == Filter(allEntries, Remaining(allEntries, done, dropped))
    requires entry in allEntries && entry !in dropped && KeyOf(entry) !in done
    modifies db`sharedEntries
    ensures db.Valid()
    ensures db.sharedEntries == Filter(allEntries, Remaining(allEntries, done, dropped + [entry]))
    ensures |db.sharedEntries| == |old(db.sharedEntries)| - 1
  {
    assert Remaining(allEntries, done, dropped)(entry);
    assert entry in db.sharedEntries;
    DeleteSharedEntry(db, entry.id);
    DropStep(allEntries, done, dropped, entry);
  }

  /** `for (const entry of toDelete)`: deletes the given distinct entries one by one. */
  method DeleteEach(db: Db, allEntries: seq<SharedEntry>, ghost done: set<Key>, toDelete: seq<SharedEntry>)
    returns (deleted: nat)
    requires db.Valid() && UniqueBy(allEntries, SharedEntryId)
    requires db.sharedEntries == Filter(allEntries, Remaining(allEntries, done, []))
    requires forall j :: 0 <= j < |toDelete| ==> toDelete[j] in allEntries && KeyOf(toDelete[j]) !in done
    requires forall p, q :: 0 <= p < q < |toDelete| ==> toDelete[p] != toDelete[q]
    modifies db`sharedEntries
    ensures db.Valid()
    ensures db.sharedEntries == Filter(allEntries, Remaining(allEntries, done, toDelete))
    ensures deleted == |old(db.sharedEntries)| - |db.sharedEntries|
  {
    deleted := 0;
    for j := 0 to |toDelete|
      invariant db.Valid()
      invariant db.sharedEntries == Filter(allEntries, Remaining(allEntries, done, toDelete[..j]))
      invariant deleted == |old(db.sharedEntries)| - |db.sharedEntries|
    {
      var entry := toDelete[j];
      assert entry !in toDelete[..j];
      DeleteOne(db, allEntries, done, toDelete[..j], entry);
      assert toDelete[..j + 1] == toDelete[..j] + [entry];
      deleted := deleted + 1;
    }
    assert toDelete[..|toDelete|] == toDelete;
  }

  /** An element found at two positions is held at least twice. */
  lemma {:induction false} TwoPositions(r: seq<SharedEntry>, p: nat, q: nat)
    requires p < q < |r|
    ensures r[p] == r[q] ==> multiset(r)[r[p]] >= 2
  {
    assert r == r[..q] + r[q..];
    assert r[p] in r[..q] && r[q] in r[q..];
    assert multiset(r) == multiset(r[..q]) + multiset(r[q..]);
  }

  /** A sequence holding each element at most once has no repeated positions. */
  lemma {:induction false} DistinctOfMultiset(r: seq<SharedEntry>)
    requires forall x :: multiset(r)[x] <= 1
    ensures forall p, q :: 0 <= p < q < |r| ==> r[p] != r[q]
  {
    forall p, q | 0 <= p < q < |r| ensures r[p] != r[q] {
      TwoPositions(r, p, q);
    }
  }

  /** `entries.sort((a, b) => b.createdAt - a.createdAt)`: the bucket copied into an array
      and sorted there in place, latest creation first. */
  method SortNewestFirst(entries: seq<SharedEntry>) returns (sorted: seq<SharedEntry>)
    ensures sorted == SortBy(entries, NewestFirst)
  {
    var a := new SharedEntry[|entries|](j requires 0 <= j < |entries| => entries[j]);
    assert a[..] == entries;
    SortInPlace(a, NewestFirst);
    sorted := a[..];
  }

  /** The entries after the head of a bucket are distinct rows of the table whose key is not
      yet handled. */
  lemma {:induction false} RankedTail(all: seq<SharedEntry>, done: set<Key>, key: Key, toDelete: seq<SharedEntry>)
    requires UniqueBy(all, SharedEntryId) && key !in done
    requires Ranked(all, key) != [] && toDelete == Ranked(all, key)[1..]
    ensures forall j :: 0 <= j < |toDelete| ==> toDelete[j] in all && KeyOf(toDelete[j]) !in done
    ensures forall p, q :: 0 <= p < q < |toDelete| ==> toDelete[p] != toDelete[q]
  {
    var r := Ranked(all, key);
    RankedFacts(all, key);
    DistinctOfMultiset(r);
    forall j | 0 <= j < |toDelete| ensures toDelete[j] in all && KeyOf(toDelete[j]) !in done {
      assert toDelete[j] == r[j + 1];
    }
    forall p, q | 0 <= p < q < |toDelete| ensures toDelete[p] != toDelete[q] {
      assert toDelete[p] == r[p + 1] && toDelete[q] == r[q + 1];
    }
  }

  /** The body of the deletion loop for one bucket: a bucket of more than one entry is
      sorted latest first in place, and every entry after the head is deleted by id. */
  method DeleteAllButNewest(db: Db, allEntries: seq<SharedEntry>, ghost done: set<Key>, key: Key,
                            entries: seq<SharedEntry>)
    returns (deleted: nat)
    requires db.Valid() && UniqueBy(allEntries, SharedEntryId)
    requires db.sharedEntries == Filter(allEntries, Remaining(allEntries, done, []))
    requires key !in done && entries == Filter(allEntries, HasKey(key)) && entries != []
    modifies db`sharedEntries
    ensures db.Valid()
    ensures db.sharedEntries == Filter(allEntries, Remaining(allEntries, done + {key}, []))
    ensures deleted == |old(db.sharedEntries)| - |db.sharedEntries|
  {
    deleted := 0;
    if |entries| > 1 {
      var sorted := SortNewestFirst(entries);
      var toDelete := sorted[1..];
      RankedTail(allEntries, done, key, toDelete);
      deleted := DeleteEach(db, allEntries, done, toDelete);
    } else {
      assert Ranked(allEntries, key)[1..] == [];
    }
    GroupDone(allEntries, done, key);
  }

  /** `cleanupDuplicates`: reads every shared entry, groups them by key, and for every
      bucket with more than one entry keeps the latest and deletes the others, counting the
      deletions. */
  method CleanupDuplicates(db: Db) returns (deletedCount: nat)
    requires db.Valid()
    modifies db`sharedEntries
    ensures db.sharedEntries == Filter(old(db.sharedEntries), IsSurvivor(old(db.sharedEntries)))
    ensures deletedCount == |old(db.sharedEntries)| - |db.sharedEntries|
    ensures db.Valid()
  {
    var allEntries := db.sharedEntries;
    FilterAllPass(allEntries, Remaining(allEntries, {}, []));
    var grouped, keys := GroupByKey(allEntries);
    deletedCount := 0;
    ghost var done: set<Key> := {};
    for i := 0 to |keys|
      invariant done == set p | 0 <= p < i :: keys[p]
      invariant db.Valid()
      invariant db.sharedEntries == Filter(allEntries, Remaining(allEntries, done, []))
      invariant deletedCount == |allEntries| - |db.sharedEntries|
    {
      var key := keys[i];
      assert key !in done;
      var deleted := DeleteAllButNewest(db, allEntries, done, key, grouped[key]);
      deletedCount := deletedCount + deleted;
      done := done + {key};
    }
    AllDone(allEntries, done);
  }

  /** The survivor of a key was created no earlier than any entry with that key. */
  lemma {:induction false} SurvivorIsNewest(all: seq<SharedEntry>, e: SharedEntry, x: SharedEntry)
    requires UniqueBy(all, SharedEntryId)
    requires e in Filter(all, IsSurvivor(all))
    requires x in all && KeyOf(x) == KeyOf(e)
    ensures x.createdAt <= e.createdAt
  {
    var r := Ranked(all, KeyOf(e));
    RankedFacts(all, KeyOf(e));
    SortBySorted(Filter(all, HasKey(KeyOf(e))), NewestFirst);
    var j :| 0 <= j < |r| && r[j] == x;
    if j > 0 {
      assert NewestFirst(r[0]) <= NewestFirst(r[j]);
    }
  }

  /** Two survivors with the same key are the same row: the head of their common bucket. */
  lemma {:induction false} SurvivorsOfOneKey(all: seq<SharedEntry>, x: SharedEntry, y: SharedEntry)
    requires IsSurvivor(all)(x) && IsSurvivor(all)(y) && KeyOf(x) == KeyOf(y)
    ensures x == y
  {
    assert Ranked(all, KeyOf(x))[0] == x;
  }

  /** No two survivors share a key. */
  lemma {:induction false} SurvivorKeysDistinct(all: seq<SharedEntry>, s: seq<SharedEntry>)
    requires UniqueBy(all, SharedEntryId)
    requires s == Filter(all, IsSurvivor(all))
    ensures UniqueBy(s, KeyOf)
  {
    FilterKeepsUnique(all, IsSurvivor(all), SharedEntryId);
    DistinctRows(s);
    forall p, q | 0 <= p < q < |s| ensures KeyOf(s[p]) != KeyOf(s[q]) {
      assert IsSurvivor(all)(s[p]) && IsSurvivor(all)(s[q]);
      if KeyOf(s[p]) == KeyOf(s[q]) {
        SurvivorsOfOneKey(all, s[p], s[q]);
      }
    }
  }

  /** The head of the bucket of a key of the table is a survivor with that key. */
  lemma {:induction false} HeadSurvives(all: seq<SharedEntry>, k: Key) returns (h: SharedEntry)
    requires UniqueBy(all, SharedEntryId)
    requires k in KeySet(all)
    ensures h in all && KeyOf(h) == k && IsSurvivor(all)(h)
  {
    var r := Ranked(all, k);
    RankedFacts(all, k);
    var i0 :| 0 <= i0 < |all| && KeyOf(all[i0]) == k;
    assert all[i0] in r;
    h := r[0];
  }

  /** Every key of the table has a survivor. */
  lemma {:induction false} KeyHasSurvivor(all: seq<SharedEntry>, s: seq<SharedEntry>, k: Key)
    requires UniqueBy(all, SharedEntryId)
    requires s == Filter(all, IsSurvivor(all))
    requires k in KeySet(all)
    ensures exists i :: 0 <= i < |s| && KeyOf(s[i]) == k
  {
    var h := HeadSurvives(all, k);
    var j :| 0 <= j < |all| && all[j] == h;
    assert h in s;
    var i :| 0 <= i < |s| && s[i] == h;
  }

  /** Every key of the table keeps exactly one entry. */
  lemma {:induction false} OneSurvivorPerKey(all: seq<SharedEntry>, k: Key)
    requires UniqueBy(all, SharedEntryId)
    requires k in KeySet(all)
    ensures exists i :: 0 <= i < |Filter(all, IsSurvivor(all))| && KeyOf(Filter(all, IsSurvivor(all))[i]) == k
    ensures UniqueBy(Filter(all, IsSurvivor(all)), KeyOf)
  {
    KeyHasSurvivor(all, Filter(all, IsSurvivor(all)), k);
    SurvivorKeysDistinct(all, Filter(all, IsSurvivor(all)));
  }

  /** A row whose key occurs only once is kept. */
  lemma {:induction false} SingletonKept(all: seq<SharedEntry>, i: nat)
    requires UniqueBy(all, SharedEntryId)
    requires i < |all| && forall j :: 0 <= j < |all| && KeyOf(all[j]) == KeyOf(all[i]) ==> j == i
    ensures all[i] in Filter(all, IsSurvivor(all))
  {
    var r := Ranked(all, KeyOf(all[i]));
    RankedFacts(all, KeyOf(all[i]));
    assert all[i] in r;
    var j :| 0 <= j < |all| && all[j] == r[0];
  }

  /** A table in which no two rows share a key has as many rows as keys. */
  lemma {:induction false} KeySetOfUnique(s: seq<SharedEntry>)
    requires UniqueBy(s, KeyOf)
    ensures |KeySet(s)| == |s|
  {
    if s != [] {
      KeySetOfUnique(s[1..]);
      assert KeySet(s) == {KeyOf(s[0])} + KeySet(s[1..]) by {
        forall k | k in KeySet(s) ensures k in {KeyOf(s[0])} + KeySet(s[1..]) {
          var i :| 0 <= i < |s| && KeyOf(s[i]) == k;
          if i > 0 {
            assert KeyOf(s[1..][i - 1]) == k;
          }
        }
        forall k | k in KeySet(s[1..]) ensures k in KeySet(s) {
          var i :| 0 <= i < |s[1..]| && KeyOf(s[1..][i]) == k;
          assert KeyOf(s[i + 1]) == k;
        }
      }
      forall k | k in KeySet(s[1..]) ensures k != KeyOf(s[0]) {
        var i :| 0 <= i < |s[1..]| && KeyOf(s[1..][i]) == k;
        assert KeyOf(s[0]) != KeyOf(s[i + 1]);
      }
    }
  }

  /** The deleted count is the number of entries minus the number of distinct keys. */
  lemma {:induction false} SurvivorCount(all: seq<SharedEntry>)
    requires UniqueBy(all, SharedEntryId)
    ensures |Filter(all, IsSurvivor(all))| == |KeySet(all)|
  {
    var s := Filter(all, IsSurvivor(all));
    SurvivorKeySet(all, s);
    SurvivorKeysDistinct(all, s);
    KeySetOfUnique(s);
  }

  /** The survivors carry exactly the keys of the table. */
  lemma {:induction false} SurvivorKeySet(all: seq<SharedEntry>, s: seq<SharedEntry>)
    requires UniqueBy(all, SharedEntryId)
    requires s == Filter(all, IsSurvivor(all))
    ensures KeySet(s) == KeySet(all)
  {
    KeysSurvive(all, s);
    SurvivorKeysOfTable(all, s);
  }

  /** Every key of the table is the key of a survivor. */
  lemma {:induction false} KeysSurvive(all: seq<SharedEntry>, s: seq<SharedEntry>)
    requires UniqueBy(all, SharedEntryId)
    requires s == Filter(all, IsSurvivor(all))
    ensures KeySet(all) <= KeySet(s)
  {
    forall k | k in KeySet(all) ensures k in KeySet(s) {
      KeyHasSurvivor(all, s, k);
    }
  }

  /** The key of a survivor is a key of the table. */
  lemma {:induction false} SurvivorKeysOfTable(all: seq<SharedEntry>, s: seq<SharedEntry>)
    requires forall i :: 0 <= i < |s| ==> s[i] in all
    ensures KeySet(s) <= KeySet(all)
  {
    forall k | k in KeySet(s) ensures k in KeySet(all) {
      var i :| 0 <= i < |s| && KeyOf(s[i]) == k;
      var j :| 0 <= j < |all| && all[j] == s[i];
    }
  }
}
