/** The write-back store of spam fingerprints: a cache over a database table, both searched by
    Hamming distance. */
module FingerprintStore {
  import opened Words
  import opened HammingBall
  import opened Sequences

  const FLUSH_DB_THRED: nat := 10000

  ghost predicate Near(v: Word, stored: set<Word>, dist: nat) {
    exists w :: w in stored && Within(v, w, dist)
  }

  ghost predicate Separated(stored: set<Word>, dist: nat) {
    forall a, b :: a in stored && b in stored && a != b ==> Distance(a, b) > dist
  }

  // --- The store as a state machine --------------------------------------------------------

  datatype Store = Store(cache: set<Word>, db: set<Word>)

  // An explicit Flush is the destructor's; recording flushes by itself when the cache is full.
  datatype Event = Record(v: Word) | Flush

  ghost function Flushed(s: Store, dist: nat): Store {
    Store({}, s.db + set i | i in s.cache && !Near(i, s.db, dist))
  }

  ghost predicate Flushes(s: Store, e: Event, dist: nat) {
    e.Flush? || (!Near(e.v, s.cache, dist) && |s.cache + {e.v}| == FLUSH_DB_THRED)
  }

  ghost function Step(s: Store, e: Event, dist: nat): Store {
    match e
    case Flush => Flushed(s, dist)
    case Record(v) =>
      if Near(v, s.cache, dist) then s
      else
        var added := s.(cache := s.cache + {v});
        if |added.cache| == FLUSH_DB_THRED then Flushed(added, dist) else added
  }

  ghost function Run(s: Store, events: seq<Event>, dist: nat): Store {
    if |events| == 0 then s else Step(Run(s, Front(events), dist), Last(events), dist)
  }

  function Recorded(events: seq<Event>): set<Word> {
    set k | 0 <= k < |events| && events[k].Record? :: events[k].v
  }

  // The fingerprints recorded after the last flush.
  ghost function Recent(s: Store, events: seq<Event>, dist: nat): set<Word> {
    if |events| == 0 then {}
    else
      var before, e := Front(events), Last(events);
      if Flushes(Run(s, before, dist), e, dist) then {} else Recent(s, before, dist) + {e.v}
  }

  // What a flush of these cached words leaves in the database: what was there, and each cached word
  // no word there is near.
  ghost predicate FlushedInto(cache: set<Word>, before: set<Word>, after: set<Word>, dist: nat) {
    forall w :: w in after <==> w in before || (w in cache && forall d :: d in before ==> !Within(w, d, dist))
  }

  /** Recording changes nothing when a cached word is near; otherwise the word is cached, and only as
      the 10000th cached word does it empty the cache into the database, as an explicit flush does. */
  lemma StepIs(s: Store, v: Word, dist: nat)
    requires |s.cache| < 10000
    ensures var near, t := exists c :: c in s.cache && Within(v, c, dist), Step(s, Record(v), dist);
      && (near ==> t == s)
      && (!near && |s.cache| < 9999 ==> t == Store(s.cache + {v}, s.db))
      && (!near && |s.cache| == 9999 ==> t.cache == {} && FlushedInto(s.cache + {v}, s.db, t.db, dist))
    ensures var t := Step(s, Flush, dist); t.cache == {} && FlushedInto(s.cache, s.db, t.db, dist)
  {
    assert v in s.cache ==> Within(v, v, dist) by {
      DistanceIsAMetric(v, v, v);
    }
    hide FlushedInto, Flushed, Within;
    FlushIs(s, dist);
    FlushIs(s.(cache := s.cache + {v}), dist);
    var near := exists c :: c in s.cache && Within(v, c, dist);
    assert near <==> Near(v, s.cache, dist);
    assert !near ==> |s.cache + {v}| == |s.cache| + 1;
  }

  lemma FlushIs(s: Store, dist: nat)
    ensures Flushed(s, dist).cache == {} && FlushedInto(s.cache, s.db, Flushed(s, dist).db, dist)
  {}

  // --- One step ----------------------------------------------------------------------------

  ghost predicate Settled(s: Store, dist: nat) {
    |s.cache| < FLUSH_DB_THRED && Separated(s.cache, dist)
  }

  lemma NearIsSymmetric(a: Word, b: Word, dist: nat)
    ensures Within(a, b, dist) <==> Within(b, a, dist)
  {
    DistanceIsAMetric(a, b, b);
  }

  lemma AddSeparated(stored: set<Word>, v: Word, dist: nat)
    requires Separated(stored, dist) && !Near(v, stored, dist)
    ensures Separated(stored + {v}, dist)
  {
    forall a, b | a in stored + {v} && b in stored + {v} && a != b ensures Distance(a, b) > dist {
      NearIsSymmetric(a, b, dist);
      assert Within(a, b, dist) ==> Near(v, stored, dist) || (a in stored && b in stored);
    }
  }

  lemma FlushedSeparated(s: Store, dist: nat)
    requires Separated(s.cache, dist) && Separated(s.db, dist)
    ensures Separated(Flushed(s, dist).db, dist)
  {
    var db := Flushed(s, dist).db;
    forall a, b | a in db && b in db && a != b ensures Distance(a, b) > dist {
      NearIsSymmetric(a, b, dist);
      if a in s.db && b !in s.db {
        assert !Near(b, s.db, dist);
      } else if b in s.db && a !in s.db {
        assert !Near(a, s.db, dist);
      }
    }
  }

  // A flush keeps every cached word within dist of the database.
  lemma FlushedCovers(s: Store, c: Word, dist: nat)
    requires c in s.cache
    ensures Near(c, Flushed(s, dist).db, dist)
  {
    DistanceIsAMetric(c, c, c);
    if Near(c, s.db, dist) {
      var w :| w in s.db && Within(c, w, dist);
      assert w in Flushed(s, dist).db;
    } else {
      assert c in Flushed(s, dist).db;
    }
  }

  lemma NearTwice(v: Word, c: Word, stored: set<Word>, dist: nat)
    requires Within(v, c, dist) && Near(c, stored, dist)
    ensures Near(v, stored, 2 * dist)
  {
    var w :| w in stored && Within(c, w, dist);
    DistanceIsAMetric(v, c, w);
  }

  lemma StepSettled(s: Store, e: Event, dist: nat)
    requires Settled(s, dist)
    ensures Settled(Step(s, e, dist), dist)
    ensures s.db <= Step(s, e, dist).db
    ensures Separated(s.db, dist) ==> Separated(Step(s, e, dist).db, dist)
  {
    if e.Record? && !Near(e.v, s.cache, dist) {
      AddSeparated(s.cache, e.v, dist);
      var added := s.(cache := s.cache + {e.v});
      if Separated(s.db, dist) { FlushedSeparated(added, dist); }
    } else if e.Flush? && Separated(s.db, dist) {
      FlushedSeparated(s, dist);
    }
  }

  // What has been within dist of the cache, or within 2*dist of cache and database, stays covered.
  lemma StepCovers(s: Store, e: Event, v: Word, dist: nat)
    requires Near(v, s.cache, dist) || Near(v, s.db, 2 * dist) || e == Record(v)
    ensures var t := Step(s, e, dist); Near(v, t.cache, dist) || Near(v, t.db, 2 * dist)
    ensures (Near(v, s.cache, dist) || e == Record(v)) && !Flushes(s, e, dist) ==> Near(v, Step(s, e, dist).cache, dist)
  {
    var t := Step(s, e, dist);
    var full := if e.Record? && !Near(e.v, s.cache, dist) then s.(cache := s.cache + {e.v}) else s;
    DistanceIsAMetric(v, v, v);
    if Near(v, s.cache, dist) {
      var c :| c in s.cache && Within(v, c, dist);
      assert c in full.cache;
    } else if e == Record(v) {
      assert v in full.cache && Within(v, v, dist);
    } else {
      var w :| w in s.db && Within(v, w, 2 * dist);
      assert w in t.db;
      return;
    }
    var c :| c in full.cache && Within(v, c, dist);
    if Flushes(s, e, dist) {
      assert t == Flushed(full, dist);
      FlushedCovers(full, c, dist);
      NearTwice(v, c, t.db, dist);
    } else {
      assert t == full;
    }
  }

  // --- Whole runs --------------------------------------------------------------------------

  lemma {:induction false} RunSettled(db: set<Word>, events: seq<Event>, dist: nat)
    ensures var s := Run(Store({}, db), events, dist);
      Settled(s, dist) && db <= s.db && (Separated(db, dist) ==> Separated(s.db, dist))
  {
    if |events| == 0 {
    } else {
      RunSettled(db, Front(events), dist);
      StepSettled(Run(Store({}, db), Front(events), dist), Last(events), dist);
    }
  }

  lemma {:induction false} RunCovers(db: set<Word>, events: seq<Event>, v: Word, dist: nat)
    requires v in Recorded(events)
    ensures var s := Run(Store({}, db), events, dist); Near(v, s.cache, dist) || Near(v, s.db, 2 * dist)
  {
    var k :| 0 <= k < |events| && events[k] == Record(v);
    var before, e := Front(events), Last(events);
    if k < |before| {
      assert before[k] == Record(v);
      RunCovers(db, before, v, dist);
    }
    StepCovers(Run(Store({}, db), before, dist), e, v, dist);
  }

  lemma {:induction false} RunCoversRecent(db: set<Word>, events: seq<Event>, v: Word, dist: nat)
    requires v in Recent(Store({}, db), events, dist)
    ensures Near(v, Run(Store({}, db), events, dist).cache, dist)
  {
    var before, e := Front(events), Last(events);
    if v in Recent(Store({}, db), before, dist) {
      RunCoversRecent(db, before, v, dist);
    }
    StepCovers(Run(Store({}, db), before, dist), e, v, dist);
  }

  /** For every run from an empty cache: the cache stays below the flush threshold and pairwise
      more than dist apart; the database only grows and stays pairwise more than dist apart if it
      was; everything ever recorded has a stored word within 2*dist, and everything recorded since
      the last flush has a cached word within dist. */
  lemma RunIsSafe(db: set<Word>, events: seq<Event>, dist: nat)
    ensures var s := Run(Store({}, db), events, dist);
      && |s.cache| < FLUSH_DB_THRED && Separated(s.cache, dist)
      && db <= s.db && (Separated(db, dist) ==> Separated(s.db, dist))
      && (forall v :: v in Recorded(events) ==> Near(v, s.cache, dist) || Near(v, s.db, 2 * dist))
      && (forall v :: v in Recent(Store({}, db), events, dist) ==> Near(v, s.cache, dist))
  {
    RunSettled(db, events, dist);
    forall v | v in Recorded(events) { RunCovers(db, events, v, dist); }
    forall v | v in Recent(Store({}, db), events, dist) { RunCoversRecent(db, events, v, dist); }
  }

  // --- What a flush forgets ----------------------------------------------------------------

  ghost predicate Detected(v: Word, s: Store, dist: nat) {
    Near(v, s.cache + s.db, dist)
  }

  /** A word is still detected after a flush exactly when the database already has one near it or
      some cached word near it has no database word near itself, that is, passes the flush's own
      query. */
  lemma DetectedAfterFlush(v: Word, s: Store, dist: nat)
    ensures Detected(v, Flushed(s, dist), dist)
       <==> Near(v, s.db, dist) || exists c :: c in s.cache && Within(v, c, dist) && !Near(c, s.db, dist)
  {
    var t := Flushed(s, dist);
    assert t.cache + t.db == t.db;
    if Detected(v, t, dist) {
      var w :| w in t.db && Within(v, w, dist);
      assert w in s.db || (w in s.cache && !Near(w, s.db, dist));
    }
    if Near(v, s.db, dist) {
      var w :| w in s.db && Within(v, w, dist);
      assert w in t.db;
    }
    if c :| c in s.cache && Within(v, c, dist) && !Near(c, s.db, dist) {
      assert c in t.db;
    }
  }

  // --- What a whole run still detects ------------------------------------------------------

  // The store once the event's word is cached, before any flush.
  ghost function Full(s: Store, e: Event, dist: nat): Store {
    if e.Record? && !Near(e.v, s.cache, dist) then s.(cache := s.cache + {e.v}) else s
  }

  // The event flushes, and a word near v passes the flush's query, so it enters the database.
  ghost predicate Passes(s: Store, e: Event, v: Word, dist: nat) {
    Flushes(s, e, dist) && exists c :: c in Full(s, e, dist).cache && Within(v, c, dist) && !Near(c, s.db, dist)
  }

  lemma DatabaseStep(s: Store, e: Event, v: Word, dist: nat)
    ensures Near(v, Step(s, e, dist).db, dist) <==> Near(v, s.db, dist) || Passes(s, e, v, dist)
  {
    var full := Full(s, e, dist);
    assert Step(s, e, dist) == if Flushes(s, e, dist) then Flushed(full, dist) else full;
    if Flushes(s, e, dist) {
      DetectedAfterFlush(v, full, dist);
      assert {} + Flushed(full, dist).db == Flushed(full, dist).db;
    }
  }

  // Event t of the run lets a word near v into the database.
  ghost predicate PassesAt(db: set<Word>, events: seq<Event>, t: nat, v: Word, dist: nat) {
    t < |events| && Passes(Run(Store({}, db), events[..t], dist), events[t], v, dist)
  }

  ghost predicate Passed(db: set<Word>, events: seq<Event>, v: Word, dist: nat) {
    if |events| == 0 then false
    else
      Passed(db, Front(events), v, dist) || Passes(Run(Store({}, db), Front(events), dist), Last(events), v, dist)
  }

  lemma {:induction false} DatabaseAtEnd(db: set<Word>, events: seq<Event>, v: Word, dist: nat)
    ensures Near(v, Run(Store({}, db), events, dist).db, dist) <==> Near(v, db, dist) || Passed(db, events, v, dist)
  {
    if |events| == 0 {
    } else {
      DatabaseAtEnd(db, Front(events), v, dist);
      DatabaseStep(Run(Store({}, db), Front(events), dist), Last(events), v, dist);
    }
  }

  lemma {:induction false} PassedSomewhere(db: set<Word>, events: seq<Event>, v: Word, dist: nat) returns (t: nat)
    requires Passed(db, events, v, dist)
    ensures PassesAt(db, events, t, v, dist)
  {
    assert events[..|events| - 1] == Front(events);
    if Passed(db, Front(events), v, dist) {
      t := PassedSomewhere(db, Front(events), v, dist);
      assert Front(events)[..t] == events[..t];
    } else {
      t := |events| - 1;
    }
  }

  lemma {:induction false} PassesAtPassed(db: set<Word>, events: seq<Event>, t: nat, v: Word, dist: nat)
    requires PassesAt(db, events, t, v, dist)
    ensures Passed(db, events, v, dist)
  {
    if t == |events| - 1 {
      assert events[..t] == Front(events);
    } else {
      assert Front(events)[..t] == events[..t];
      PassesAtPassed(db, Front(events), t, v, dist);
    }
  }

  lemma {:induction false} DatabaseGrows(db: set<Word>, events: seq<Event>, t: nat, dist: nat)
    requires t <= |events|
    ensures Run(Store({}, db), events[..t], dist).db <= Run(Store({}, db), events, dist).db
  {
    if t == |events| {
      assert events[..t] == events;
    } else {
      assert Front(events)[..t] == events[..t];
      DatabaseGrows(db, Front(events), t, dist);
      RunSettled(db, Front(events), dist);
      StepSettled(Run(Store({}, db), Front(events), dist), Last(events), dist);
    }
  }

  /** Which recorded words are still detected after a whole run: those the database was near from
      the start, those near a word that some flush let into it, and those near a word still cached,
      among them all recorded since the last flush. */
  lemma {:induction false} StillDetected(db: set<Word>, events: seq<Event>, v: Word, dist: nat)
    requires v in Recorded(events)
    ensures var s := Run(Store({}, db), events, dist);
      && (Detected(v, s, dist) <==>
            || Near(v, db, dist) || (exists t: nat :: PassesAt(db, events, t, v, dist)) || Near(v, s.cache, dist))
      && (v in Recent(Store({}, db), events, dist) ==> Near(v, s.cache, dist))
  {
    var s := Run(Store({}, db), events, dist);
    DatabaseAtEnd(db, events, v, dist);
    if Passed(db, events, v, dist) {
      var t := PassedSomewhere(db, events, v, dist);
    }
    if t: nat :| PassesAt(db, events, t, v, dist) {
      PassesAtPassed(db, events, t, v, dist);
    }
    assert Detected(v, s, dist) <==> Near(v, s.cache, dist) || Near(v, s.db, dist) by {
      NearUnion(v, s.cache, s.db, dist);
    }
    if v in Recent(Store({}, db), events, dist) {
      RunCoversRecent(db, events, v, dist);
    }
  }

  lemma NearUnion(v: Word, a: set<Word>, b: set<Word>, dist: nat)
    ensures Near(v, a + b, dist) <==> Near(v, a, dist) || Near(v, b, dist)
  {
    if Near(v, a, dist) {
      var w :| w in a && Within(v, w, dist);
      assert w in a + b;
    }
    if Near(v, b, dist) {
      var w :| w in b && Within(v, w, dist);
      assert w in a + b;
    }
  }

  /** What the database detects at any time stays detected for the rest of the run. */
  lemma {:induction false} DatabaseDetectsForever(db: set<Word>, events: seq<Event>, t: nat, v: Word, dist: nat)
    requires t <= |events| && Near(v, Run(Store({}, db), events[..t], dist).db, dist)
    ensures Detected(v, Run(Store({}, db), events, dist), dist)
  {
    var early, s := Run(Store({}, db), events[..t], dist), Run(Store({}, db), events, dist);
    DatabaseGrows(db, events, t, dist);
    var w :| w in early.db && Within(v, w, dist);
    assert w in s.cache + s.db;
  }

  // A word that is cached itself, or that the database is near, stays so.
  lemma StoredStep(s: Store, e: Event, v: Word, dist: nat)
    requires v in s.cache || Near(v, s.db, dist) || (e == Record(v) && !Near(v, s.cache, dist))
    ensures var t := Step(s, e, dist); v in t.cache || Near(v, t.db, dist)
  {
    DatabaseStep(s, e, v, dist);
    var full := Full(s, e, dist);
    assert Step(s, e, dist) == if Flushes(s, e, dist) then Flushed(full, dist) else full;
    if v in full.cache {
      FlushedCovers(full, v, dist);
    }
  }

  lemma {:induction false} StoredAtEnd(db: set<Word>, events: seq<Event>, t: nat, v: Word, dist: nat)
    requires t < |events| && events[t] == Record(v)
    requires !Near(v, Run(Store({}, db), events[..t], dist).cache, dist)
    ensures var s := Run(Store({}, db), events, dist); v in s.cache || Near(v, s.db, dist)
  {
    if t == |events| - 1 {
      assert events[..t] == Front(events);
    } else {
      assert Front(events)[..t] == events[..t];
      StoredAtEnd(db, Front(events), t, v, dist);
    }
    StoredStep(Run(Store({}, db), Front(events), dist), Last(events), v, dist);
  }

  /** A word no cached word was near when it was recorded is found for the rest of the run: only a
      word absorbed by a cached neighbour can be forgotten. */
  lemma StoredDetectedForever(db: set<Word>, events: seq<Event>, t: nat, v: Word, dist: nat)
    requires t < |events| && events[t] == Record(v)
    requires !Near(v, Run(Store({}, db), events[..t], dist).cache, dist)
    ensures Detected(v, Run(Store({}, db), events, dist), dist)
  {
    StoredAtEnd(db, events, t, v, dist);
    var s := Run(Store({}, db), events, dist);
    DistanceIsAMetric(v, v, v);
    assert v in s.cache ==> Within(v, v, dist);
    NearUnion(v, s.cache, s.db, dist);
  }

  // --- A run that forgets ------------------------------------------------------------------

  lemma RunAppend(s: Store, events: seq<Event>, e: Event, dist: nat)
    ensures Run(s, events + [e], dist) == Step(Run(s, events, dist), e, dist)
  {
    assert Front(events + [e]) == events;
  }

  lemma RunThree(s: Store, e: Event, f: Event, g: Event, dist: nat)
    ensures Run(s, [e, f, g], dist) == Step(Step(Step(s, e, dist), f, dist), g, dist)
  {
    RunAppend(s, [], e, dist);
    RunAppend(s, [] + [e], f, dist);
    RunAppend(s, [] + [e] + [f], g, dist);
    assert [] + [e] + [f] + [g] == [e, f, g];
  }

  /** Detection of a recorded word does not survive every flush, not even at the distance 1 in
      use: any word v can be absorbed by a cached neighbour c that the flush then drops because
      the database holds a neighbour d of c, two away from v. */
  lemma RecordedThenForgotten(v: Word, i: nat, j: nat)
    requires i < BITS && j < BITS && i != j
    ensures var c, d := Flip(v, i), Flip(Flip(v, i), j);
      var s := Run(Store({}, {d}), [Record(c), Record(v), Flush], 1);
      v in Recorded([Record(c), Record(v), Flush]) && !Detected(v, s, 1)
  {
    var c, d := Flip(v, i), Flip(Flip(v, i), j);
    OneFlipApart(v, i);
    OneFlipApart(c, j);
    TwoFlipsApart(v, i, j);
    var events := [Record(c), Record(v), Flush];
    assert events[1] == Record(v);
    Absorbed(v, c, {d});
    RunThree(Store({}, {d}), Record(c), Record(v), Flush, 1);
  }

  lemma Absorbed(v: Word, c: Word, db: set<Word>)
    requires Distance(v, c) == 1 && Near(c, db, 1) && !Near(v, db, 1)
    ensures var s := Step(Step(Step(Store({}, db), Record(c), 1), Record(v), 1), Flush, 1);
      !Detected(v, s, 1)
  {
    assert {} + {c} == {c};
    assert |{c}| == 1;
    assert Step(Store({}, db), Record(c), 1) == Store({c}, db);
    assert c in {c} && Within(v, c, 1);
    assert Step(Store({c}, db), Record(v), 1) == Store({c}, db);
    DetectedAfterFlush(v, Store({c}, db), 1);
  }

  // --- The preprocessor --------------------------------------------------------------------

  class Preprocessor {
    var fingerprint: set<Word>
    // The spam table behind the handler.
    var db: set<Word>
    var totalBlog: nat
    var fingerprintCount: nat

    const HAMMING_DISTANCE: nat := 1

    ghost function State(): Store
      reads this
    {
      Store(fingerprint, db)
    }

    constructor (db: set<Word>)
      ensures State() == Store({}, db) && totalBlog == 0 && fingerprintCount == 0
    {
      fingerprint, this.db := {}, db;
      totalBlog, fingerprintCount := 0, 0;
    }

    method IsSimhashValuesInDB(values: seq<Word>) returns (found: bool)
      ensures found <==> exists w :: w in values && w in db
    {
      found := false;
      for k := 0 to |values|
        invariant found <==> exists w :: w in values[..k] && w in db
      {
        assert values[..k + 1] == values[..k] + [values[k]];
        if values[k] in db {
          found := true;
        }
      }
      assert values[..|values|] == values;
    }

    method FlushCachedFingerprint(dist: nat)
      modifies this
      ensures State() == Flushed(old(State()), dist)
      ensures totalBlog == old(totalBlog) && fingerprintCount == old(fingerprintCount)
    {
      var valueToInsert: set<Word> := {};
      var rest := fingerprint;
      while rest != {}
        invariant rest <= fingerprint && fingerprint == old(fingerprint) && db == old(db)
        invariant totalBlog == old(totalBlog) && fingerprintCount == old(fingerprintCount)
        invariant valueToInsert == set i | i in fingerprint && i !in rest && !Near(i, db, dist)
        decreases |rest|
      {
        var i :| i in rest;
        rest := rest - {i};
        var allValue := Values(i, dist);
        var inDB := IsSimhashValuesInDB(allValue);
        assert inDB <==> Near(i, db, dist);
        if !inDB {
          valueToInsert := valueToInsert + {i};
        }
      }
      db := db + valueToInsert;
      fingerprint := {};
    }

    method AddFingerPrint(v: Word, dist: nat)
      requires |fingerprint| < FLUSH_DB_THRED
      modifies this
      ensures State() == Step(old(State()), Record(v), dist)
      ensures totalBlog == old(totalBlog) && fingerprintCount == old(fingerprintCount)
    {
      var allValues := Values(v, dist);
      var isIn := false;
      for k := 0 to |allValues|
        invariant isIn <==> exists w :: w in allValues[..k] && w in fingerprint
      {
        assert allValues[..k + 1] == allValues[..k] + [allValues[k]];
        if allValues[k] in fingerprint {
          isIn := true;
          assert allValues[k] in allValues;
          break;
        }
      }
      assert isIn <==> Near(v, fingerprint, dist) by {
        assert allValues[..|allValues|] == allValues;
      }
      if !isIn {
        fingerprint := fingerprint + {v};
        if |fingerprint| == FLUSH_DB_THRED {
          FlushCachedFingerprint(dist);
        }
      }
    }

    method IsParsedBlogInFingerprints(v: Word, dist: nat) returns (found: bool)
      ensures found <==> Detected(v, State(), dist)
    {
      var allValue := Values(v, dist);
      for k := 0 to |allValue|
        invariant forall j :: 0 <= j < k ==> allValue[j] !in fingerprint
      {
        if allValue[k] in fingerprint {
          assert allValue[k] in fingerprint + db && Within(v, allValue[k], dist);
          return true;
        }
      }
      found := IsSimhashValuesInDB(allValue);
      if found {
        var w :| w in allValue && w in db;
        assert w in fingerprint + db && Within(v, w, dist);
      }
    }

    /** Returns true for a post that is kept, and counts. */
    method PerformTacticOnParsedBlog(v: Word) returns (ok: bool)
      modifies this
      ensures State() == old(State())
      ensures ok <==> !Detected(v, State(), HAMMING_DISTANCE)
      ensures totalBlog == old(totalBlog) + 1
      ensures fingerprintCount == old(fingerprintCount) + if ok then 0 else 1
    {
      totalBlog := totalBlog + 1;
      var recorded := IsParsedBlogInFingerprints(v, HAMMING_DISTANCE);
      if recorded {
        fingerprintCount := fingerprintCount + 1;
      }
      ok := !recorded;
    }
  }
}
