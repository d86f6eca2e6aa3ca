/** Rename detection for the Dropbox sync: when a file is deleted and another
    created at about the same time, the two entries are scored for similarity
    and, if they look alike, the new entry inherits the old one's url and
    created date. Entries are plain objects; the database reads and writes
    around this logic are replaced by parameters and results. */
module CatchRename {
  import opened Js

  /** An entry record, as loaded from the database. */
  type Entry = Object

  /** The fields whose agreement is counted, in the order they are checked:
      three weak ones, then seven strong ones. */
  const CheckedKeys: seq<string> :=
    ["permalink", "tags", "dateStamp",
     "title", "titleTag", "updated", "summary", "teaser", "slug", "size"]

  /** Raw scores at or below this floor are reported as 0. */
  const Floor: nat := 3

  /** Width of the "recently created" window, in milliseconds. */
  const FiveMinutes: int := 1000 * 60 * 5

  /** Whether the entries share an id or a path, in which case they are the
      same entry seen twice and never similar. */
  predicate SameEntry(first: Entry, second: Entry)
    ensures SameEntry(first, second) ==>
              Get(first, "id") == Get(second, "id") || Get(first, "path") == Get(second, "path")
    ensures first == second && !Get(first, "id").List? ==> SameEntry(first, second)
  {
    StrictEquals(Get(first, "id"), Get(second, "id"))
    || StrictEquals(Get(first, "path"), Get(second, "path"))
  }

  /** Whether `key` earns a point: the three branches of the scoring loop. */
  predicate KeyAgrees(first: Entry, second: Entry, key: string)
    ensures KeyAgrees(first, second, key) <==>
              Truthy(Get(first, key)) && Get(first, key) == Get(second, key)
  {
    var a, b := Get(first, key), Get(second, key);
    if a == Undefined && b == Undefined then false
    else if !Truthy(a) && !Truthy(b) then false
    else a == b
  }

  /** The number of `keys` that earn a point, before the floor is applied. */
  function RawScore(first: Entry, second: Entry, keys: seq<string>): (score: nat)
    ensures score <= |keys|
  {
    if keys == [] then 0
    else
      RawScore(first, second, keys[..|keys| - 1])
      + (if KeyAgrees(first, second, keys[|keys| - 1]) then 1 else 0)
  }

  /** The positions of `keys` whose key earns a point. */
  ghost function AgreeingPositions(first: Entry, second: Entry, keys: seq<string>): set<nat>
  {
    set i: nat | i < |keys| && KeyAgrees(first, second, keys[i])
  }

  /** The similarity score calculateSimilarity returns. Its `false` for the
      same entry is 0 here: the only use of the score is `score > bestScore`,
      where `false` and 0 behave alike. */
  function Similarity(first: Entry, second: Entry): (score: nat)
    ensures SameEntry(first, second) ==> score == 0
    ensures score == 0 || Floor < score <= |CheckedKeys|
  {
    if SameEntry(first, second) then 0
    else
      var raw := RawScore(first, second, CheckedKeys);
      if raw <= Floor then 0 else raw
  }

  /** The raw score is exactly the number of agreeing keys. */
  lemma {:induction false} RawScoreCounts(first: Entry, second: Entry, keys: seq<string>)
    ensures RawScore(first, second, keys) == |AgreeingPositions(first, second, keys)|
  {
    if keys != [] {
      var n := |keys| - 1;
      RawScoreCounts(first, second, keys[..n]);
      var before := AgreeingPositions(first, second, keys[..n]);
      var last: set<nat> := if KeyAgrees(first, second, keys[n]) then {n} else {};
      assert AgreeingPositions(first, second, keys) == before + last by {
        forall i: nat | i < n ensures keys[..n][i] == keys[i] { }
      }
      assert n !in before;
    }
  }

  lemma {:induction false} RawScoreSymmetric(first: Entry, second: Entry, keys: seq<string>)
    ensures RawScore(first, second, keys) == RawScore(second, first, keys)
  {
    if keys != [] {
      RawScoreSymmetric(first, second, keys[..|keys| - 1]);
    }
  }

  /** Every test calculateSimilarity performs is symmetric, so is the score. */
  lemma SimilaritySymmetric(first: Entry, second: Entry)
    ensures Similarity(first, second) == Similarity(second, first)
  {
    RawScoreSymmetric(first, second, CheckedKeys);
  }

  lemma {:induction false} RawScoreOnlyReadsKeys(first: Entry, second: Entry, other: Entry, keys: seq<string>)
    requires forall k :: k in keys ==> Get(second, k) == Get(other, k)
    ensures RawScore(first, second, keys) == RawScore(first, other, keys)
  {
    if keys != [] {
      RawScoreOnlyReadsKeys(first, second, other, keys[..|keys| - 1]);
    }
  }

  /** Only the ten checked fields, the id and the path are read: two
      candidates that agree on those score alike. */
  lemma OnlyCheckedFieldsMatter(first: Entry, second: Entry, other: Entry)
    requires forall k :: k in CheckedKeys + ["id", "path"] ==> Get(second, k) == Get(other, k)
    ensures Similarity(first, second) == Similarity(first, other)
  {
    assert "id" in CheckedKeys + ["id", "path"];
    assert "path" in CheckedKeys + ["id", "path"];
    RawScoreOnlyReadsKeys(first, second, other, CheckedKeys);
  }

  lemma {:induction false} RawScoreAllAgree(first: Entry, second: Entry, keys: seq<string>)
    requires forall k :: k in keys ==> KeyAgrees(first, second, k)
    ensures RawScore(first, second, keys) == |keys|
  {
    if keys != [] {
      RawScoreAllAgree(first, second, keys[..|keys| - 1]);
    }
  }

  /** Two distinct entries with the same truthy value in every checked field
      get the top score. */
  lemma FullAgreementScoresTen(first: Entry, second: Entry)
    requires !SameEntry(first, second)
    requires forall k :: k in CheckedKeys ==> Truthy(Get(first, k)) && Get(first, k) == Get(second, k)
    ensures Similarity(first, second) == 10
  {
    RawScoreAllAgree(first, second, CheckedKeys);
  }

  /** calculateSimilarity: count the agreeing fields one by one, then apply
      the floor. */
  method CalculateSimilarity(first: Entry, second: Entry) returns (score: nat)
    ensures score == Similarity(first, second)
  {
    if StrictEquals(Get(first, "id"), Get(second, "id"))
       || StrictEquals(Get(first, "path"), Get(second, "path")) {
      return 0;
    }
    score := 0;
    for i := 0 to |CheckedKeys|
      invariant score == RawScore(first, second, CheckedKeys[..i])
    {
      var key := CheckedKeys[i];
      var a, b := Get(first, key), Get(second, key);
      if a == Undefined && b == Undefined {
      } else if !Truthy(a) && !Truthy(b) {
      } else if a == b {
        score := score + 1;
      }
      assert CheckedKeys[..i + 1][..i] == CheckedKeys[..i];
    }
    assert CheckedKeys[..|CheckedKeys|] == CheckedKeys;
    if score <= Floor {
      score := 0;
    }
  }

  /** `entries[i]` is the candidate findSimilar reports: its score is
      positive, no candidate scores higher, and every earlier one scores
      strictly lower. */
  ghost predicate IsFirstBest(entry: Entry, entries: seq<Entry>, i: int)
  {
    0 <= i < |entries|
    && Similarity(entry, entries[i]) > 0
    && (forall j :: 0 <= j < |entries| ==> Similarity(entry, entries[j]) <= Similarity(entry, entries[i]))
    && (forall j :: 0 <= j < i ==> Similarity(entry, entries[j]) < Similarity(entry, entries[i]))
  }

  /** Some candidate scores above 0. */
  ghost predicate HasSimilar(entry: Entry, entries: seq<Entry>)
  {
    exists j :: 0 <= j < |entries| && Similarity(entry, entries[j]) > 0
  }

  /** findSimilar: keep the first candidate whose score beats the best so
      far. The candidate is reported by its position in `entries`. */
  method FindSimilar(entry: Entry, entries: seq<Entry>) returns (similar: Option<nat>, bestScore: nat)
    ensures similar.None? <==> bestScore == 0
    ensures similar.None? ==> forall j :: 0 <= j < |entries| ==> Similarity(entry, entries[j]) == 0
    ensures similar.Some? ==> IsFirstBest(entry, entries, similar.value)
                              && bestScore == Similarity(entry, entries[similar.value])
  {
    similar, bestScore := None, 0;
    for i := 0 to |entries|
      invariant similar.None? <==> bestScore == 0
      invariant forall j :: 0 <= j < i ==> Similarity(entry, entries[j]) <= bestScore
      invariant similar.Some? ==> similar.value < i && Similarity(entry, entries[similar.value]) == bestScore
      invariant similar.Some? ==> forall j :: 0 <= j < similar.value ==> Similarity(entry, entries[j]) < bestScore
    {
      var score := CalculateSimilarity(entry, entries[i]);
      if score > bestScore {
        similar, bestScore := Some(i), score;
      }
    }
  }

  /** Two candidates cannot both be the first best one. */
  lemma FirstBestIsUnique(entry: Entry, entries: seq<Entry>, i: int, j: int)
    requires IsFirstBest(entry, entries, i) && IsFirstBest(entry, entries, j)
    ensures i == j
  {
  }

  /** What forCreated hands back: the deleted entry's url and created date. */
  datatype Restore = Restore(url: Value, created: Value)

  /** forCreated: a new entry that resembles a recently deleted one takes over
      that entry's url and created date. */
  method ForCreated(newEntry: Entry, recentlyDeleted: seq<Entry>) returns (restore: Option<Restore>)
    ensures restore.Some? <==> HasSimilar(newEntry, recentlyDeleted)
    ensures restore.Some? ==>
              exists i :: IsFirstBest(newEntry, recentlyDeleted, i)
                          && restore.value == Restore(Get(recentlyDeleted[i], "url"), Get(recentlyDeleted[i], "created"))
  {
    var similar, score := FindSimilar(newEntry, recentlyDeleted);
    if similar.None? {
      return None;
    }
    var s := recentlyDeleted[similar.value];
    restore := Some(Restore(Get(s, "url"), Get(s, "created")));
  }

  /** The write forDeleted asks for: set `changes` on the entry at `path`. */
  datatype Update = Update(path: Value, changes: Object)

  /** The change set gives the similar entry the deleted entry's url and
      created date, and its dateStamp too when the similar entry's dateStamp
      was just its own created date. */
  ghost predicate CarriesIdentity(deleted: Entry, similar: Entry, changes: Object)
  {
    changes.Keys <= {"url", "created", "dateStamp"}
    && "url" in changes && changes["url"] == Get(deleted, "url")
    && "created" in changes && changes["created"] == Get(deleted, "created")
    && ("dateStamp" in changes <==> StrictEquals(Get(similar, "dateStamp"), Get(similar, "created")))
    && ("dateStamp" in changes ==> changes["dateStamp"] == Get(deleted, "created"))
  }

  /** forDeleted: when the entry being deleted resembles a recently created
      one, move its url and created date over to that one. `deleted` is None
      when there is no entry at the deleted path. */
  method ForDeleted(deleted: Option<Entry>, recentlyCreated: seq<Entry>) returns (update: Option<Update>)
    ensures deleted.None? ==> update.None?
    ensures deleted.Some? ==> (update.Some? <==> HasSimilar(deleted.value, recentlyCreated))
    ensures update.Some? ==>
              deleted.Some?
              && exists i :: IsFirstBest(deleted.value, recentlyCreated, i)
                             && update.value.path == Get(recentlyCreated[i], "path")
                             && CarriesIdentity(deleted.value, recentlyCreated[i], update.value.changes)
  {
    if deleted.None? {
      return None;
    }
    var d := deleted.value;
    var found, score := FindSimilar(d, recentlyCreated);
    if found.None? {
      return None;
    }
    var similar := recentlyCreated[found.value];
    var changes: Object := map["url" := Get(d, "url"), "created" := Get(d, "created")];
    if StrictEquals(Get(similar, "dateStamp"), Get(similar, "created")) {
      changes := changes["dateStamp" := changes["created"]];
    }
    update := Some(Update(Get(similar, "path"), changes));
  }

  /** The candidate filter: not created before the deleted entry, and
      created within the five minutes before `now`. */
  predicate IsRecent(entry: Entry, deleted: Entry, now: int)
    ensures Get(entry, "created") == Undefined ==> !IsRecent(entry, deleted, now)
    ensures IsRecent(entry, deleted, now) ==>
              ToNumber(Get(entry, "created")).Some? && ToNumber(Get(entry, "created")).value > now - FiveMinutes
  {
    !Less(Get(entry, "created"), Get(deleted, "created"))
    && Less(Num(now - FiveMinutes), Get(entry, "created"))
  }

  /** The recent entries of `entries`, in their loaded order, each as often
      as it occurs. */
  function Recent(deleted: Entry, entries: seq<Entry>, now: int): (r: seq<Entry>)
    ensures |r| <= |entries|
  {
    if entries == [] then []
    else
      var last := entries[|entries| - 1];
      Recent(deleted, entries[..|entries| - 1], now) + (if IsRecent(last, deleted, now) then [last] else [])
  }

  /** The recent entries are exactly the loaded entries that pass the filter. */
  lemma {:induction false} RecentMembers(deleted: Entry, entries: seq<Entry>, now: int)
    ensures forall e :: e in Recent(deleted, entries, now) <==> e in entries && IsRecent(e, deleted, now)
  {
    if entries != [] {
      var n := |entries| - 1;
      RecentMembers(deleted, entries[..n], now);
      assert entries == entries[..n] + [entries[n]];
    }
  }

  /** When every loaded entry passes the filter, nothing is dropped and the
      order is kept. */
  lemma {:induction false} RecentKeepsAll(deleted: Entry, entries: seq<Entry>, now: int)
    requires forall e :: e in entries ==> IsRecent(e, deleted, now)
    ensures Recent(deleted, entries, now) == entries
  {
    if entries != [] {
      var n := |entries| - 1;
      var init := entries[..n];
      assert forall e :: e in init ==> IsRecent(e, deleted, now) by {
        forall e | e in init ensures IsRecent(e, deleted, now) {
          var k :| 0 <= k < n && init[k] == e;
          assert entries[k] == e;
        }
      }
      RecentKeepsAll(deleted, init, now);
      assert IsRecent(entries[n], deleted, now);
      assert entries == init + [entries[n]];
    }
  }

  /** The filter applies entry by entry, so it distributes over
      concatenation of loaded lists. */
  lemma {:induction false} RecentConcat(deleted: Entry, a: seq<Entry>, b: seq<Entry>, now: int)
    ensures Recent(deleted, a + b, now) == Recent(deleted, a, now) + Recent(deleted, b, now)
  {
    if b == [] {
      assert a + b == a;
    } else {
      var n := |b| - 1;
      var last := b[n];
      var kept := if IsRecent(last, deleted, now) then [last] else [];
      assert (a + b)[..|a + b| - 1] == a + b[..n] && (a + b)[|a + b| - 1] == last;
      calc {
        Recent(deleted, a + b, now);
        Recent(deleted, a + b[..n], now) + kept;
        { RecentConcat(deleted, a, b[..n], now); }
        (Recent(deleted, a, now) + Recent(deleted, b[..n], now)) + kept;
        Recent(deleted, a, now) + (Recent(deleted, b[..n], now) + kept);
        Recent(deleted, a, now) + Recent(deleted, b, now);
      }
    }
  }

  /** The loop of getRecentlyCreated that collects the candidates. */
  method RecentCandidates(deleted: Entry, entries: seq<Entry>, now: int) returns (candidates: seq<Entry>)
    ensures candidates == Recent(deleted, entries, now)
  {
    candidates := [];
    var fiveMinutesAgo := now - FiveMinutes;
    for i := 0 to |entries|
      invariant candidates == Recent(deleted, entries[..i], now)
    {
      var entry := entries[i];
      assert entries[..i + 1][..i] == entries[..i];
      if Less(Get(entry, "created"), Get(deleted, "created")) {
        continue;
      }
      if Less(Num(fiveMinutesAgo), Get(entry, "created")) {
        candidates := candidates + [entry];
      }
    }
    assert entries[..|entries|] == entries;
  }

  /** getRecentlyCreated as written: the candidates are collected and then
      dropped, and the caller receives every loaded entry. */
  method GetRecentlyCreated(deleted: Entry, entries: seq<Entry>, now: int) returns (result: seq<Entry>)
    ensures result == entries
  {
    var candidates := RecentCandidates(deleted, entries, now);
    result := entries;
  }

  /** An entry created before the deleted one still reaches findSimilar,
      although the candidate filter rejects it. */
  method StaleCandidateKept() returns (kept: seq<Entry>, stale: Entry, deleted: Entry, now: int)
    ensures stale in kept && !IsRecent(stale, deleted, now)
  {
    deleted := map["created" := Num(1000000)];
    stale := map["created" := Num(10)];
    now := 1000000;
    kept := GetRecentlyCreated(deleted, [stale], now);
  }
}
