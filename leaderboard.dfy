/**
 * The in-memory fallback leaderboard: a list of at most CAPACITY entries
 * kept in non-increasing score order, used when the remote service is not
 * configured or a request to it fails.
 */
module LeaderboardService {

  datatype Entry = Entry(playerName: string, score: int)

  /** How many entries the fallback list keeps. */
  const CAPACITY: nat := 100

  /** The `limit` a reader passes when it gives none. */
  const DEFAULT_LIMIT: int := 10

  /** Non-increasing score order: no entry outscores the one before it. */
  predicate SortedDesc(s: seq<Entry>) {
    forall i :: 0 < i < |s| ==> s[i - 1].score >= s[i].score
  }

  /** In a sorted list, no entry outscores any entry before it. */
  lemma {:induction false} SortedDescPairwise(s: seq<Entry>)
    requires SortedDesc(s)
    ensures forall i, j :: 0 <= i <= j < |s| ==> s[i].score >= s[j].score
    decreases |s|
  {
    if |s| > 1 {
      var init := s[..|s| - 1];
      assert forall i :: 0 <= i < |init| ==> init[i] == s[i];
      SortedDescPairwise(init);
      forall i, j | 0 <= i <= j < |s|
        ensures s[i].score >= s[j].score
      {
        if i < j && j == |s| - 1 {
          assert init[i].score >= init[j - 1].score;
        }
      }
    }
  }

  /** How many leading entries score at least `v`: the slot a new entry of score `v` takes. */
  function Rank(s: seq<Entry>, v: int): (k: nat)
    ensures k <= |s|
    ensures k > 0 ==> s[k - 1].score >= v
    ensures k < |s| ==> s[k].score < v
    ensures forall i :: 0 <= i < k ==> s[i].score >= v
  {
    if s == [] || s[0].score < v then 0 else 1 + Rank(s[1..], v)
  }

  /** Stable insertion into a list sorted by descending score: after every entry of equal score. */
  function Insert(e: Entry, s: seq<Entry>): (r: seq<Entry>)
    ensures |r| == |s| + 1
  {
    if s == [] then [e]
    else if s[0].score >= e.score then [s[0]] + Insert(e, s[1..])
    else [e] + s
  }

  /** The new entry goes in at its rank, behind every leading entry that scores at least as much. */
  lemma {:induction false} InsertAtRank(e: Entry, s: seq<Entry>)
    ensures Insert(e, s) == s[..Rank(s, e.score)] + [e] + s[Rank(s, e.score)..]
  {
    if s != [] && s[0].score >= e.score {
      InsertAtRank(e, s[1..]);
      var k := Rank(s[1..], e.score);
      assert s[..k + 1] == [s[0]] + s[1..][..k];
      assert s[k + 1..] == s[1..][k..];
    }
  }

  /** Insertion adds exactly the new entry. */
  lemma InsertIsPermutation(e: Entry, s: seq<Entry>)
    ensures multiset(Insert(e, s)) == multiset(s) + multiset{e}
  {
    var k := Rank(s, e.score);
    var front, back := s[..k], s[k..];
    InsertAtRank(e, s);
    assert s == front + back;
    assert multiset(front + [e] + back) == multiset(front) + multiset{e} + multiset(back);
  }

  lemma InsertKeepsSorted(e: Entry, s: seq<Entry>)
    requires SortedDesc(s)
    ensures SortedDesc(Insert(e, s))
  {
    var k := Rank(s, e.score);
    var r := Insert(e, s);
    InsertAtRank(e, s);
    forall i | 0 < i < |r|
      ensures r[i - 1].score >= r[i].score
    {
      if i < k {
        assert r[i - 1] == s[i - 1] && r[i] == s[i];
      } else if i == k {
        assert r[i - 1] == s[k - 1] && r[i] == e;
      } else if i == k + 1 {
        assert r[i - 1] == e && r[i] == s[k];
      } else {
        assert r[i - 1] == s[i - 2] && r[i] == s[i - 1];
      }
    }
  }

  /**
   * The result of sorting with the comparator `b.score - a.score`, which
   * the language's sort applies stably: entries in descending score,
   * ties in their original order.
   */
  function SortDesc(s: seq<Entry>): (r: seq<Entry>)
    ensures SortedDesc(r)
    ensures |r| == |s|
    decreases |s|
  {
    if s == [] then []
    else
      var sorted := SortDesc(s[..|s| - 1]);
      InsertKeepsSorted(s[|s| - 1], sorted);
      Insert(s[|s| - 1], sorted)
  }

  /** The sort only reorders: the result holds the same entries, each as often. */
  lemma {:induction false} SortDescIsPermutation(s: seq<Entry>)
    ensures multiset(SortDesc(s)) == multiset(s)
    decreases |s|
  {
    if s != [] {
      var init := s[..|s| - 1];
      SortDescIsPermutation(init);
      InsertIsPermutation(s[|s| - 1], SortDesc(init));
      assert s == init + [s[|s| - 1]];
    }
  }

  /** The entries of score `k`, in order. */
  function WithScore(s: seq<Entry>, k: int): seq<Entry> {
    if s == [] then []
    else (if s[0].score == k then [s[0]] else []) + WithScore(s[1..], k)
  }

  lemma {:induction false} WithScoreAppend(a: seq<Entry>, b: seq<Entry>, k: int)
    ensures WithScore(a + b, k) == WithScore(a, k) + WithScore(b, k)
  {
    if a == [] {
      assert a + b == b;
    } else {
      var c := a + b;
      var h := if a[0].score == k then [a[0]] else [];
      assert c[0] == a[0] && c[1..] == a[1..] + b;
      WithScoreAppend(a[1..], b, k);
      calc {
        WithScore(c, k);
        h + WithScore(a[1..] + b, k);
        h + (WithScore(a[1..], k) + WithScore(b, k));
        (h + WithScore(a[1..], k)) + WithScore(b, k);
      }
    }
  }

  lemma {:induction false} WithScoreAllOtherScores(s: seq<Entry>, k: int)
    requires forall i :: 0 <= i < |s| ==> s[i].score != k
    ensures WithScore(s, k) == []
  {
    if s != [] {
      WithScoreAllOtherScores(s[1..], k);
    }
  }

  /** In a sorted list, everything from the rank of `v` on scores below `v`. */
  lemma BelowFromRank(s: seq<Entry>, v: int)
    requires SortedDesc(s)
    ensures forall i :: Rank(s, v) <= i < |s| ==> s[i].score < v
  {
    var n := Rank(s, v);
    SortedDescPairwise(s);
    if n < |s| {
      assert forall i :: n <= i < |s| ==> s[i].score <= s[n].score;
    }
  }

  lemma InsertWithScore(e: Entry, s: seq<Entry>, k: int)
    ensures var n := Rank(s, e.score);
      WithScore(Insert(e, s), k)
      == WithScore(s[..n], k) + (if e.score == k then [e] else []) + WithScore(s[n..], k)
  {
    var n := Rank(s, e.score);
    InsertAtRank(e, s);
    WithScoreAppend(s[..n] + [e], s[n..], k);
    WithScoreAppend(s[..n], [e], k);
    assert [e][1..] == [];
  }

  /** In a sorted list, nothing from the rank of `k` on has score `k`. */
  lemma NoneOfScoreFromRank(s: seq<Entry>, k: int)
    requires SortedDesc(s)
    ensures WithScore(s[Rank(s, k)..], k) == []
  {
    var back := s[Rank(s, k)..];
    BelowFromRank(s, k);
    assert forall i :: 0 <= i < |back| ==> back[i] == s[Rank(s, k) + i];
    WithScoreAllOtherScores(back, k);
  }

  lemma WithScoreSplit(s: seq<Entry>, n: nat, k: int)
    requires n <= |s|
    ensures WithScore(s, k) == WithScore(s[..n], k) + WithScore(s[n..], k)
  {
    assert s == s[..n] + s[n..];
    WithScoreAppend(s[..n], s[n..], k);
  }

  /** Inserting into a sorted list adds the new entry after all earlier entries of its score. */
  lemma InsertStable(e: Entry, s: seq<Entry>, k: int)
    requires SortedDesc(s)
    ensures WithScore(Insert(e, s), k) == WithScore(s, k) + (if e.score == k then [e] else [])
  {
    var n := Rank(s, e.score);
    var h := if e.score == k then [e] else [];
    InsertWithScore(e, s, k);
    WithScoreSplit(s, n, k);
    var wf, wb := WithScore(s[..n], k), WithScore(s[n..], k);
    if e.score == k {
      NoneOfScoreFromRank(s, k);
      assert wf + h + wb == wf + wb + h;
    } else {
      assert wf + h + wb == wf + wb + h;
    }
  }

  /** The sort is stable: for every score, the entries of that score keep their relative order. */
  lemma {:induction false} SortDescStable(s: seq<Entry>, k: int)
    ensures WithScore(SortDesc(s), k) == WithScore(s, k)
    decreases |s|
  {
    if s != [] {
      var init := s[..|s| - 1];
      SortDescStable(init, k);
      InsertStable(s[|s| - 1], SortDesc(init), k);
      assert s == init + [s[|s| - 1]];
      WithScoreAppend(init, [s[|s| - 1]], k);
      assert [s[|s| - 1]][1..] == [];
    }
  }

  /** An entry scoring no more than every entry of the list goes at its end. */
  lemma {:induction false} InsertBelowAll(e: Entry, s: seq<Entry>)
    requires forall i :: 0 <= i < |s| ==> s[i].score >= e.score
    ensures Insert(e, s) == s + [e]
  {
    if s != [] {
      assert forall i :: 0 <= i < |s| - 1 ==> s[1..][i] == s[i + 1];
      InsertBelowAll(e, s[1..]);
      assert s + [e] == [s[0]] + (s[1..] + [e]);
    }
  }

  /** A list already in order is left as it is. */
  lemma {:induction false} SortDescOfSorted(s: seq<Entry>)
    requires SortedDesc(s)
    ensures SortDesc(s) == s
    decreases |s|
  {
    if s != [] {
      var init := s[..|s| - 1];
      var e := s[|s| - 1];
      assert forall i :: 0 <= i < |init| ==> init[i] == s[i];
      SortDescOfSorted(init);
      SortedDescPairwise(s);
      InsertBelowAll(e, init);
      assert s == init + [e];
    }
  }

  /** Pushing onto a sorted list and sorting is the stable insertion of the new entry. */
  lemma PushThenSortIsInsert(s: seq<Entry>, e: Entry)
    requires SortedDesc(s)
    ensures SortDesc(s + [e]) == Insert(e, s)
  {
    var t := s + [e];
    assert t[..|t| - 1] == s;
    SortDescOfSorted(s);
  }

  /** `slice(0, n)` for a non-negative `n`. */
  function Take(s: seq<Entry>, n: nat): (r: seq<Entry>)
    ensures r <= s && |r| == if |s| <= n then |s| else n
  {
    if |s| <= n then s else s[..n]
  }

  /** The end index `slice(0, limit)` uses: counted from the back when negative, clamped to the length. */
  function SliceEnd(limit: int, len: nat): (e: nat)
    ensures e <= len
  {
    if limit < 0 then (if len + limit >= 0 then len + limit else 0)
    else if limit <= len then limit
    else len
  }

  /** What the remote insert did: nothing (not configured), a failure, or a stored row it returned. */
  datatype SubmitOutcome = Unconfigured | RequestFailed | Stored(row: Entry)

  /** What the remote read did: nothing (not configured), a failure, or the rows it returned. */
  datatype FetchOutcome = NotConfigured | FetchFailed | Fetched(rows: seq<Entry>)

  /** Everything a truncation drops ranks no higher than anything it keeps. */
  lemma TruncationDropsLowest(s: seq<Entry>, n: nat)
    requires SortedDesc(s)
    ensures s == Take(s, n) + s[|Take(s, n)|..]
    ensures forall i, j :: 0 <= i < |Take(s, n)| <= j < |s| ==> s[j].score <= Take(s, n)[i].score
  {
    SortedDescPairwise(s);
  }

  /**
   * One fallback insertion drops at most one entry, and only a lowest one:
   * the new list followed by what fell off is the whole stable insertion.
   */
  lemma {:induction false} SubmitDropsAtMostOne(s: seq<Entry>, e: Entry)
    requires SortedDesc(s) && |s| <= CAPACITY
    ensures var full := Insert(e, s);
      var kept := Take(full, CAPACITY);
      full == kept + full[|kept|..] && |full| - |kept| <= 1
      && forall i, j :: 0 <= i < |kept| <= j < |full| ==> full[j].score <= kept[i].score
  {
    InsertKeepsSorted(e, s);
    TruncationDropsLowest(Insert(e, s), CAPACITY);
  }

  /** On a full list, an entry scoring no more than the last one falls off and leaves the list as it was. */
  lemma FullListRejectsLowEntry(s: seq<Entry>, e: Entry)
    requires SortedDesc(s) && |s| == CAPACITY && e.score <= s[CAPACITY - 1].score
    ensures Take(Insert(e, s), CAPACITY) == s
  {
    SortedDescPairwise(s);
    InsertBelowAll(e, s);
    assert (s + [e])[..CAPACITY] == s;
  }

  /** Otherwise the new entry is kept, at its rank. */
  lemma EntryKeptUnlessFullAndLow(s: seq<Entry>, e: Entry)
    requires SortedDesc(s) && |s| <= CAPACITY
    requires |s| < CAPACITY || e.score > s[CAPACITY - 1].score
    ensures var kept := Take(Insert(e, s), CAPACITY);
      Rank(s, e.score) < |kept| && kept[Rank(s, e.score)] == e
  {
    var k := Rank(s, e.score);
    InsertAtRank(e, s);
  }

  /** The module-level fallback list, as an object. */
  class FallbackStorage {
    var entries: seq<Entry>

    ghost predicate Valid()
      reads this
    {
      SortedDesc(entries) && |entries| <= CAPACITY
    }

    constructor ()
      ensures Valid() && entries == []
    {
      entries := [];
    }

    /** Push, sort by descending score, keep the first CAPACITY entries. */
    method StoreLocally(playerName: string, score: int) returns (entry: Entry)
      requires Valid()
      modifies this
      ensures Valid()
      ensures entry == Entry(playerName, score)
      ensures entries == Take(SortDesc(old(entries) + [entry]), CAPACITY)
      ensures entries == Take(Insert(entry, old(entries)), CAPACITY)
    {
      entry := Entry(playerName, score);
      ghost var before := entries;
      entries := entries + [entry];
      entries := SortDesc(entries);
      entries := Take(entries, CAPACITY);
      PushThenSortIsInsert(before, entry);
    }

    /**
     * Submit a score. Without a configured service, and when the request
     * fails, the entry goes into the fallback list and is returned whether
     * or not it survived the truncation; a stored remote row is returned as is.
     */
    method SubmitScore(service: SubmitOutcome, playerName: string, score: int) returns (r: Entry)
      requires Valid()
      modifies this
      ensures Valid()
      ensures service.Stored? ==> r == service.row && entries == old(entries)
      ensures !service.Stored? ==>
                r == Entry(playerName, score) && entries == Take(SortDesc(old(entries) + [r]), CAPACITY)
    {
      match service
      case Unconfigured =>
        r := StoreLocally(playerName, score);
      case RequestFailed =>
        r := StoreLocally(playerName, score);
      case Stored(row) =>
        r := row;
    }

    /** Read at most `limit` entries: a prefix of the fallback list unless the remote read succeeded. */
    function GetLeaderboard(service: FetchOutcome, limit: int := DEFAULT_LIMIT): (r: seq<Entry>)
      reads this
      ensures service.Fetched? ==> r == service.rows
      ensures !service.Fetched? ==> r <= entries
      ensures !service.Fetched? && limit >= 0 ==> |r| == if limit <= |entries| then limit else |entries|
      ensures !service.Fetched? && limit < 0 ==> |r| == if |entries| + limit >= 0 then |entries| + limit else 0
    {
      match service
      case Fetched(rows) => rows
      case _ => entries[..SliceEnd(limit, |entries|)]
    }
  }
}
