/**
 * The effective state of the append-only log: one record per date, the one
 * with the highest version number, the later one in log order on a tie.
 *
 * `Effective` is the reference definition, written as an index maintained
 * record by record in append order. The store computes the same map the way
 * the application does (a stable sort by date and version, then a fold in
 * which the last write wins), and `SortedFoldIsEffective` connects the two.
 */
module Projection {
  import opened Types

  /** The effective map, maintained incrementally: a record replaces the current one unless its version is lower. */
  function Effective(log: seq<DailyEntry>): (m: map<Date, DailyEntry>)
    ensures forall d :: d in m ==> m[d].date == d
  {
    if log == [] then map[]
    else
      var m := Effective(log[..|log| - 1]);
      var e := log[|log| - 1];
      if e.date in m && e.versionNumber < m[e.date].versionNumber then m else m[e.date := e]
  }

  /** Some record of the log is dated `d`. */
  ghost predicate Logged(log: seq<DailyEntry>, d: Date)
  {
    exists i :: 0 <= i < |log| && log[i].date == d
  }

  /** Position `w` holds the winner of date `d`: no record of that date has a higher version, and none later has the same. */
  ghost predicate IsLatest(log: seq<DailyEntry>, d: Date, w: int)
  {
    && 0 <= w < |log|
    && log[w].date == d
    && forall j :: 0 <= j < |log| && log[j].date == d ==>
         log[j].versionNumber < log[w].versionNumber
         || (log[j].versionNumber == log[w].versionNumber && j <= w)
  }

  /** The key set of the projection is the set of logged dates, and each value is that date's winner. */
  lemma {:induction false} EffectiveIsLatest(log: seq<DailyEntry>, d: Date)
    ensures d in Effective(log) <==> Logged(log, d)
    ensures d in Effective(log) ==> exists w :: IsLatest(log, d, w) && Effective(log)[d] == log[w]
  {
    if log != [] {
      var init, e := log[..|log| - 1], log[|log| - 1];
      var n := |log| - 1;
      EffectiveIsLatest(init, d);
      assert forall j :: 0 <= j < n ==> log[j] == init[j];
      var m := Effective(init);
      if e.date == d {
        assert Logged(log, d) by { assert log[n].date == d; }
        if d in m && e.versionNumber < m[d].versionNumber {
          var w :| IsLatest(init, d, w) && m[d] == init[w];
          assert IsLatest(log, d, w);
        } else if d in m {
          var w :| IsLatest(init, d, w) && m[d] == init[w];
          assert IsLatest(log, d, n);
        } else {
          assert IsLatest(log, d, n);
        }
      } else {
        assert Logged(log, d) <==> Logged(init, d) by {
          if Logged(log, d) {
            var i :| 0 <= i < |log| && log[i].date == d;
            assert init[i].date == d;
          }
        }
        if d in m {
          var w :| IsLatest(init, d, w) && m[d] == init[w];
          assert IsLatest(log, d, w);
        }
      }
    }
  }

  /** Appending a record for a date that has none adds exactly that date. */
  lemma AppendNewDate(log: seq<DailyEntry>, e: DailyEntry)
    requires e.date !in Effective(log)
    ensures Effective(log + [e]) == Effective(log)[e.date := e]
  {
    assert (log + [e])[..|log|] == log;
  }

  /** A date has at most one winning position. */
  lemma LatestIsUnique(log: seq<DailyEntry>, d: Date, w1: int, w2: int)
    requires IsLatest(log, d, w1) && IsLatest(log, d, w2)
    ensures w1 == w2
  {
  }

  // ---------------------------------------------------------------------------
  // The sort-then-fold computation

  /** A record tagged with its position in the log; the tag only serves to state stability. */
  datatype Tagged = Tagged(entry: DailyEntry, pos: int)

  function Tag(log: seq<DailyEntry>): (t: seq<Tagged>)
    ensures |t| == |log|
    ensures forall i :: 0 <= i < |log| ==> t[i] == Tagged(log[i], i)
  {
    seq(|log|, i requires 0 <= i < |log| => Tagged(log[i], i))
  }

  /** The sort comparator: dates in calendar order, then versions ascending. */
  function Compare(a: DailyEntry, b: DailyEntry): (r: int)
    ensures r < 0 <==> a.date < b.date || (a.date == b.date && a.versionNumber < b.versionNumber)
    ensures r == 0 <==> a.date == b.date && a.versionNumber == b.versionNumber
  {
    if a.date != b.date then (if a.date < b.date then -1 else 1)
    else a.versionNumber - b.versionNumber
  }

  /** `x` may precede `y` in a stable sort: smaller key, or equal key and earlier in the log. */
  predicate InOrder(x: Tagged, y: Tagged)
  {
    Compare(x.entry, y.entry) < 0 || (Compare(x.entry, y.entry) == 0 && x.pos <= y.pos)
  }

  predicate StablySorted(s: seq<Tagged>)
  {
    forall p, q :: 0 <= p < q < |s| ==> InOrder(s[p], s[q])
  }

  /** Writing each record under its date, in sequence order: the last write per date stays. */
  function LastWrite(s: seq<Tagged>): (m: map<Date, DailyEntry>)
    ensures forall d :: d in m ==> m[d].date == d
  {
    if s == [] then map[]
    else LastWrite(s[..|s| - 1])[s[|s| - 1].entry.date := s[|s| - 1].entry]
  }

  /** The fold keeps exactly the dates of the sequence, each bound to its last occurrence. */
  lemma {:induction false} LastWriteIsLastOccurrence(s: seq<Tagged>, d: Date)
    ensures d in LastWrite(s) <==> exists k :: 0 <= k < |s| && s[k].entry.date == d
    ensures d in LastWrite(s) ==>
      exists k :: 0 <= k < |s| && s[k].entry.date == d && LastWrite(s)[d] == s[k].entry
        && forall q :: k < q < |s| ==> s[q].entry.date != d
  {
    if s != [] {
      var init, n := s[..|s| - 1], |s| - 1;
      LastWriteIsLastOccurrence(init, d);
      assert forall j :: 0 <= j < n ==> s[j] == init[j];
      if s[n].entry.date != d {
        if d in LastWrite(s) {
          var k :| 0 <= k < n && init[k].entry.date == d && LastWrite(init)[d] == init[k].entry
            && forall q :: k < q < n ==> init[q].entry.date != d;
          assert s[k].entry.date == d;
        }
      }
    }
  }

  /** In a stable sort of the log, the last record of a date is that date's winner. */
  lemma SortedLastIsLatest(log: seq<DailyEntry>, s: seq<Tagged>, d: Date, k: int)
    requires StablySorted(s)
    requires multiset(s) == multiset(Tag(log))
    requires 0 <= k < |s| && s[k].entry.date == d
    requires forall q :: k < q < |s| ==> s[q].entry.date != d
    ensures exists i :: 0 <= i < |log| && s[k] == Tagged(log[i], i) && IsLatest(log, d, i)
  {
    var t := Tag(log);
    assert s[k] in multiset(t);
    var i :| 0 <= i < |t| && t[i] == s[k];
    forall j | 0 <= j < |log| && log[j].date == d
      ensures log[j].versionNumber < log[i].versionNumber
        || (log[j].versionNumber == log[i].versionNumber && j <= i)
    {
      assert t[j] in multiset(s);
      var q :| 0 <= q < |s| && s[q] == t[j];
      if q < k {
        assert InOrder(s[q], s[k]);
      }
    }
    assert IsLatest(log, d, i);
  }

  /** Every date of the log also occurs in any reordering of it. */
  lemma LoggedOccurs(log: seq<DailyEntry>, s: seq<Tagged>, d: Date)
    requires multiset(s) == multiset(Tag(log))
    requires Logged(log, d)
    ensures exists q :: 0 <= q < |s| && s[q].entry.date == d
  {
    var t := Tag(log);
    var i :| 0 <= i < |log| && log[i].date == d;
    assert t[i] in multiset(s);
    var q :| 0 <= q < |s| && s[q] == t[i];
    assert s[q].entry.date == d;
  }

  /** On each date, the sorted fold and the effective map agree. */
  lemma SortedFoldAgreesOn(log: seq<DailyEntry>, s: seq<Tagged>, d: Date)
    requires StablySorted(s)
    requires multiset(s) == multiset(Tag(log))
    ensures d in LastWrite(s) <==> d in Effective(log)
    ensures d in LastWrite(s) ==> LastWrite(s)[d] == Effective(log)[d]
  {
    LastWriteIsLastOccurrence(s, d);
    EffectiveIsLatest(log, d);
    if d in LastWrite(s) {
      var k :| 0 <= k < |s| && s[k].entry.date == d && LastWrite(s)[d] == s[k].entry
        && forall q :: k < q < |s| ==> s[q].entry.date != d;
      SortedLastIsLatest(log, s, d, k);
      var i :| 0 <= i < |log| && s[k] == Tagged(log[i], i) && IsLatest(log, d, i);
      var w :| IsLatest(log, d, w) && Effective(log)[d] == log[w];
      LatestIsUnique(log, d, w, i);
    } else if d in Effective(log) {
      LoggedOccurs(log, s, d);
    }
  }

  /** A stable sort of the log by (date, version), folded last-write-wins, yields the effective map. */
  lemma SortedFoldIsEffective(log: seq<DailyEntry>, s: seq<Tagged>)
    requires StablySorted(s)
    requires multiset(s) == multiset(Tag(log))
    ensures LastWrite(s) == Effective(log)
  {
    var a, b := LastWrite(s), Effective(log);
    forall d ensures (d in a <==> d in b) && (d in a ==> a[d] == b[d]) {
      SortedFoldAgreesOn(log, s, d);
    }
    assert a.Keys == b.Keys;
  }

  // ---------------------------------------------------------------------------
  // Version numbering

  /** How many records of the log are dated `d`. */
  function CountOn(log: seq<DailyEntry>, d: Date): nat
  {
    if log == [] then 0
    else CountOn(log[..|log| - 1], d) + (if log[|log| - 1].date == d then 1 else 0)
  }

  /** Every record carries version 1 + the number of earlier records of its date: versions are 1..N per date in append order. */
  ghost predicate VersionsGapless(log: seq<DailyEntry>)
  {
    forall i :: 0 <= i < |log| ==> log[i].versionNumber == CountOn(log[..i], log[i].date) + 1
  }

  /** In a gapless log the effective record of a date with N records carries version N. */
  lemma {:induction false} GaplessEffectiveIsNewest(log: seq<DailyEntry>, d: Date)
    requires VersionsGapless(log)
    ensures d in Effective(log) <==> CountOn(log, d) > 0
    ensures d in Effective(log) ==> Effective(log)[d].versionNumber == CountOn(log, d)
  {
    if log != [] {
      var init, n := log[..|log| - 1], |log| - 1;
      assert VersionsGapless(init) by {
        forall i | 0 <= i < |init| ensures init[i].versionNumber == CountOn(init[..i], init[i].date) + 1 {
          assert init[..i] == log[..i];
        }
      }
      GaplessEffectiveIsNewest(init, d);
      assert log[..n] == init;
    }
  }

  /** Appending a record numbered one past its date's count keeps the log gapless. */
  lemma AppendKeepsGapless(log: seq<DailyEntry>, e: DailyEntry)
    requires VersionsGapless(log)
    requires e.versionNumber == CountOn(log, e.date) + 1
    ensures VersionsGapless(log + [e])
  {
    var log' := log + [e];
    forall i | 0 <= i < |log'| ensures log'[i].versionNumber == CountOn(log'[..i], log'[i].date) + 1 {
      if i < |log| {
        assert log'[..i] == log[..i];
      } else {
        assert log'[..i] == log;
      }
    }
  }

  // ---------------------------------------------------------------------------
  // Date search over the keys of the projection

  /** A non-empty set of dates has a member. */
  lemma HasMember(keys: set<Date>)
    requires keys != {}
    ensures exists y :: y in keys
  {
    if forall y :: y !in keys {
      assert false;
    }
  }

  lemma {:induction false} LeastOf(keys: set<Date>) returns (least: Date)
    requires keys != {}
    ensures least in keys && forall k :: k in keys ==> least <= k
  {
    HasMember(keys);
    var y :| y in keys;
    var rest := keys - {y};
    if rest == {} {
      least := y;
      forall k | k in keys ensures least <= k {
        assert k !in rest;
      }
    } else {
      var x := LeastOf(rest);
      least := if y < x then y else x;
      forall k | k in keys ensures least <= k {
        if k != y { assert k in rest; }
      }
    }
  }

  lemma {:induction false} GreatestOf(keys: set<Date>) returns (greatest: Date)
    requires keys != {}
    ensures greatest in keys && forall k :: k in keys ==> k <= greatest
  {
    HasMember(keys);
    var y :| y in keys;
    var rest := keys - {y};
    if rest == {} {
      greatest := y;
      forall k | k in keys ensures k <= greatest {
        assert k !in rest;
      }
    } else {
      var x := GreatestOf(rest);
      greatest := if x < y then y else x;
      forall k | k in keys ensures k <= greatest {
        if k != y { assert k in rest; }
      }
    }
  }

  /** The first date of a non-empty key set (the head of the sorted key list). */
  function Earliest(keys: set<Date>): (d: Date)
    requires keys != {}
    ensures d in keys && forall k :: k in keys ==> d <= k
  {
    assert exists x :: x in keys && forall k :: k in keys ==> x <= k by {
      var x := LeastOf(keys);
    }
    var x :| x in keys && forall k :: k in keys ==> x <= k;
    x
  }

  /** The last date of a non-empty key set (the tail of the sorted key list). */
  function Latest(keys: set<Date>): (d: Date)
    requires keys != {}
    ensures d in keys && forall k :: k in keys ==> k <= d
  {
    assert exists x :: x in keys && forall k :: k in keys ==> k <= x by {
      var x := GreatestOf(keys);
    }
    var x :| x in keys && forall k :: k in keys ==> k <= x;
    x
  }

  /** The nearest key strictly before `d`, if any. */
  function LatestBefore(m: map<Date, DailyEntry>, d: Date): (r: Option<Date>)
    ensures r.None? <==> forall k :: k in m ==> d <= k
    ensures r.Some? ==> r.value in m && r.value < d && forall k :: k in m && k < d ==> k <= r.value
  {
    var earlier := set k | k in m && k < d;
    assert forall k :: k in m && k < d ==> k in earlier;
    if earlier == {} then None else Some(Latest(earlier))
  }

  /** The dates from the first key up to, not including, `today` that have no record. */
  function Gaps(m: map<Date, DailyEntry>, today: Date): (g: set<Date>)
    ensures forall d :: d in g <==> m != map[] && Earliest(m.Keys) <= d < today && d !in m
  {
    if m == map[] then {} else set d | Earliest(m.Keys) <= d < today && d !in m
  }
}
