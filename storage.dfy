/**
 * The event log store: a single persisted slot holding the whole log, and
 * the two derived operations that read it (the effective projection) or
 * extend it (the missing-day scan).
 */
module Storage {
  import opened Types
  import opened Projection
  import Entries

  /** Exchanges two neighbouring elements. */
  method SwapDown(a: array<Tagged>, j: int)
    requires 0 < j < a.Length
    modifies a
    ensures a[j - 1] == old(a[j]) && a[j] == old(a[j - 1])
    ensures forall k :: 0 <= k < a.Length && k != j - 1 && k != j ==> a[k] == old(a[k])
    ensures multiset(a[..]) == multiset(old(a[..]))
  {
    a[j - 1], a[j] := a[j], a[j - 1];
  }

  /**
   * One insertion step: moves `a[i]` left past every element of the sorted
   * prefix whose key is strictly greater, so that equal keys keep their order.
   */
  method InsertStep(a: array<Tagged>, i: int)
    requires 0 <= i < a.Length
    requires forall p, q :: 0 <= p < q < i ==> InOrder(a[p], a[q])
    requires forall k :: 0 <= k < i ==> a[k].pos < i
    requires a[i].pos == i
    modifies a
    ensures forall p, q :: 0 <= p < q <= i ==> InOrder(a[p], a[q])
    ensures forall k :: 0 <= k <= i ==> a[k].pos <= i
    ensures forall k :: i < k < a.Length ==> a[k] == old(a[k])
    ensures multiset(a[..]) == multiset(old(a[..]))
  {
    var j := i;
    while j > 0 && Compare(a[j - 1].entry, a[j].entry) > 0
      invariant 0 <= j <= i
      invariant a[j].pos == i
      invariant forall p, q :: 0 <= p < q <= i && p != j && q != j ==> InOrder(a[p], a[q])
      invariant forall q :: j < q <= i ==> Compare(a[j].entry, a[q].entry) < 0
      invariant forall k :: 0 <= k <= i && k != j ==> a[k].pos < i
      invariant forall k :: i < k < a.Length ==> a[k] == old(a[k])
      invariant multiset(a[..]) == multiset(old(a[..]))
    {
      SwapDown(a, j);
      j := j - 1;
    }
  }

  /**
   * Insertion sort with the application's comparator (date, then version),
   * swapping only on a strictly greater key, as a stable sort must. The
   * position tags let the postcondition say that it is stable.
   */
  method StableSort(a: array<Tagged>)
    requires forall k :: 0 <= k < a.Length ==> a[k].pos == k
    modifies a
    ensures StablySorted(a[..])
    ensures multiset(a[..]) == multiset(old(a[..]))
  {
    var i := 0;
    while i < a.Length
      invariant 0 <= i <= a.Length
      invariant forall p, q :: 0 <= p < q < i ==> InOrder(a[p], a[q])
      invariant forall k :: 0 <= k < i ==> a[k].pos < i
      invariant forall k :: i <= k < a.Length ==> a[k] == old(a[k])
      invariant multiset(a[..]) == multiset(old(a[..]))
    {
      InsertStep(a, i);
      i := i + 1;
    }
  }

  class Store {
    /** The persisted slot: `None` when nothing has been written or the store was wiped. */
    var slot: Option<seq<DailyEntry>>

    /** A store on first run: nothing persisted yet. */
    constructor ()
      ensures slot == None
    {
      slot := None;
    }

    /** Every record ever appended, in append order; an absent slot reads as the empty log. */
    function RawEntries(): (log: seq<DailyEntry>)
      reads this
      ensures slot == None ==> log == []
      ensures slot.Some? ==> log == slot.value
    {
      match slot
      case None => []
      case Some(entries) => entries
    }

    /** Appends one record; the whole log is written back. */
    method SaveEntry(entry: DailyEntry)
      modifies this
      ensures slot == Some(old(RawEntries()) + [entry])
      ensures RawEntries() == old(RawEntries()) + [entry]
    {
      var entries := RawEntries();
      entries := entries + [entry];
      slot := Some(entries);
    }

    /** Wipes the persisted log as a whole. */
    method Nuke()
      modifies this
      ensures slot == None && RawEntries() == []
    {
      slot := None;
    }

    /**
     * The effective state: a sorted copy of the log folded date by date, the
     * last write winning. It equals the reference projection of the log,
     * and the stored log itself is not reordered.
     */
    method EffectiveEntries() returns (effective: map<Date, DailyEntry>)
      ensures effective == Effective(RawEntries())
    {
      var raw := RawEntries();
      var a := new Tagged[|raw|](i requires 0 <= i < |raw| => Tagged(raw[i], i));
      assert a[..] == Tag(raw);
      StableSort(a);
      effective := map[];
      var k := 0;
      while k < a.Length
        invariant 0 <= k <= a.Length
        invariant effective == LastWrite(a[..k])
      {
        effective := effective[a[k].entry.date := a[k].entry];
        k := k + 1;
        assert a[..k][..k - 1] == a[..k - 1];
      }
      assert a[..a.Length] == a[..];
      SortedFoldIsEffective(raw, a[..]);
    }

    /**
     * The missing-day scan for the day `today`: every date from the first
     * logged date up to, not including, today that has no effective record
     * gets an imputed placeholder, carrying weight and waist forward from the
     * day before it; all placeholders are appended in one write, and nothing
     * is written when no date is missing. `newId` stands for the identifier
     * generator and `now` for the current timestamp.
     */
    method ImputeMissingDays(today: Date, now: string, newId: Date -> string)
      modifies this
      ensures Gaps(old(Effective(RawEntries())), today) == {} ==> slot == old(slot)
      ensures old(RawEntries()) <= RawEntries()
      ensures Effective(RawEntries()).Keys == old(Effective(RawEntries())).Keys + Gaps(old(Effective(RawEntries())), today)
      ensures forall d :: d in old(Effective(RawEntries())) ==> Effective(RawEntries())[d] == old(Effective(RawEntries()))[d]
      ensures Gaps(Effective(RawEntries()), today) == {}
      ensures forall k :: |old(RawEntries())| <= k < |RawEntries()| ==>
        var e := RawEntries()[k];
        && Entries.IsMissedDayRecord(e, newId(e.date), now)
        && e.date in Gaps(old(Effective(RawEntries())), today)
        && Entries.CarriedForward(e, Effective(RawEntries()))
      ensures forall p, q :: |old(RawEntries())| <= p < q < |RawEntries()| ==> RawEntries()[p].date < RawEntries()[q].date
      ensures VersionsGapless(old(RawEntries())) ==> VersionsGapless(RawEntries())
      ensures Entries.FlaggedAreFirst(old(RawEntries())) ==> Entries.FlaggedAreFirst(RawEntries())
    {
      var effective := EffectiveEntries();
      if |effective| == 0 {
        return;
      }
      var existing := RawEntries();
      var added := ScanMissingDays(existing, effective, today, now, newId);
      if |added| > 0 {
        slot := Some(existing + added);
      }
      assert RawEntries() == existing + added;
      assert |existing| == |old(RawEntries())|;
    }
  }

  /** A placeholder as the scan writes it, with the identifier minted for its date. */
  ghost predicate ScannedRecord(e: DailyEntry, gaps: set<Date>, now: string, newId: Date -> string)
  {
    Entries.IsMissedDayRecord(e, newId(e.date), now) && e.date in gaps
  }

  /** The in-memory map keeps every original record and covers every date from the first key up to the cursor. */
  ghost predicate Covers(effective: map<Date, DailyEntry>, cursor: Date, filled: map<Date, DailyEntry>)
  {
    && effective != map[]
    && (forall d :: d in effective ==> d in filled && filled[d] == effective[d])
    && (forall d :: d in filled <==> d in effective || Earliest(effective.Keys) <= d < cursor)
  }

  /** The placeholders so far: fixed content, missing dates before the cursor in ascending order, each chained from the day before it. */
  ghost predicate Chained(gaps: set<Date>, now: string, newId: Date -> string,
                          cursor: Date, added: seq<DailyEntry>, filled: map<Date, DailyEntry>)
  {
    && (forall k :: 0 <= k < |added| ==> ScannedRecord(added[k], gaps, now, newId))
    && (forall k :: 0 <= k < |added| ==> added[k].date < cursor && Entries.CarriedForward(added[k], filled))
    && (forall p, q :: 0 <= p < q < |added| ==> added[p].date < added[q].date)
  }

  /**
   * The state of the scan before looking at `cursor`: `filled` is the
   * projection of the log with the placeholders `added` so far.
   */
  ghost predicate ScanState(existing: seq<DailyEntry>, effective: map<Date, DailyEntry>, today: Date,
                            now: string, newId: Date -> string,
                            cursor: Date, added: seq<DailyEntry>, filled: map<Date, DailyEntry>)
  {
    && effective != map[]
    && Earliest(effective.Keys) <= cursor
    && (cursor <= today || cursor == Earliest(effective.Keys))
    && filled == Effective(existing + added)
    && Covers(effective, cursor, filled)
    && Chained(Gaps(effective, today), now, newId, cursor, added, filled)
    && (VersionsGapless(existing) ==> VersionsGapless(existing + added))
  }

  lemma ScanStarts(existing: seq<DailyEntry>, effective: map<Date, DailyEntry>, today: Date,
                   now: string, newId: Date -> string)
    requires effective == Effective(existing) && effective != map[]
    ensures ScanState(existing, effective, today, now, newId, Earliest(effective.Keys), [], effective)
  {
    assert existing + [] == existing;
  }

  /** Looking at a date that already has a record changes nothing but the cursor. */
  lemma ScanSkips(existing: seq<DailyEntry>, effective: map<Date, DailyEntry>, today: Date,
                  now: string, newId: Date -> string,
                  cursor: Date, added: seq<DailyEntry>, filled: map<Date, DailyEntry>)
    requires ScanState(existing, effective, today, now, newId, cursor, added, filled)
    requires cursor < today && cursor in filled
    ensures ScanState(existing, effective, today, now, newId, cursor + 1, added, filled)
  {
  }

  /** Appending the placeholder for `cursor` keeps every placeholder's content and carry-forward link. */
  lemma ChainExtends(added: seq<DailyEntry>, filled: map<Date, DailyEntry>, e: DailyEntry, cursor: Date,
                     gaps: set<Date>, now: string, newId: Date -> string)
    requires cursor !in filled && e.date == cursor
    requires Chained(gaps, now, newId, cursor, added, filled)
    requires ScannedRecord(e, gaps, now, newId) && Entries.CarriedForward(e, filled[cursor := e])
    ensures Chained(gaps, now, newId, cursor + 1, added + [e], filled[cursor := e])
  {
    var added', filled' := added + [e], filled[cursor := e];
    forall k | 0 <= k < |added'|
      ensures ScannedRecord(added'[k], gaps, now, newId)
    {
      if k < |added| {
        assert added'[k] == added[k];
      }
    }
    forall k | 0 <= k < |added'|
      ensures added'[k].date < cursor + 1 && Entries.CarriedForward(added'[k], filled')
    {
      if k < |added| {
        assert added'[k] == added[k];
        assert Entries.CarriedForward(added[k], filled);
      }
    }
  }

  /** The placeholder for a missing date inside the scanned range is a gap, and it chains from the day before. */
  lemma PlaceholderFits(effective: map<Date, DailyEntry>, today: Date, now: string, newId: Date -> string,
                        cursor: Date, filled: map<Date, DailyEntry>)
    requires Covers(effective, cursor, filled)
    requires Earliest(effective.Keys) <= cursor < today && cursor !in filled
    ensures var e := Entries.MissedDay(newId(cursor), now, cursor, filled);
      ScannedRecord(e, Gaps(effective, today), now, newId) && Entries.CarriedForward(e, filled[cursor := e])
  {
    assert cursor - 1 in filled;
  }

  /** Adding the record for the cursor's date moves the covered range one day on. */
  lemma CoversExtends(effective: map<Date, DailyEntry>, cursor: Date, filled: map<Date, DailyEntry>, e: DailyEntry)
    requires Covers(effective, cursor, filled) && Earliest(effective.Keys) <= cursor && cursor !in filled
    ensures Covers(effective, cursor + 1, filled[cursor := e])
  {
  }

  /** Filling a missing date keeps the scan state, one day further on. */
  lemma ScanFills(existing: seq<DailyEntry>, effective: map<Date, DailyEntry>, today: Date,
                  now: string, newId: Date -> string,
                  cursor: Date, added: seq<DailyEntry>, filled: map<Date, DailyEntry>)
    requires ScanState(existing, effective, today, now, newId, cursor, added, filled)
    requires cursor < today && cursor !in filled
    ensures var e := Entries.MissedDay(newId(cursor), now, cursor, filled);
      ScanState(existing, effective, today, now, newId, cursor + 1, added + [e], filled[cursor := e])
  {
    var e := Entries.MissedDay(newId(cursor), now, cursor, filled);
    var added', filled' := added + [e], filled[cursor := e];
    var gaps := Gaps(effective, today);
    PlaceholderFits(effective, today, now, newId, cursor, filled);
    ChainExtends(added, filled, e, cursor, gaps, now, newId);
    CoversExtends(effective, cursor, filled, e);
    AppendNewDate(existing + added, e);
    assert existing + added' == (existing + added) + [e];
    if VersionsGapless(existing + added) {
      Entries.MissedDayKeepsGapless(existing + added, e);
    }
  }

  /**
   * The scan loop of the missing-day pass, over the log `existing` whose
   * effective map is `effective`: walks the dates from the first key up to,
   * not including, `today`, and returns the placeholders for the missing
   * ones in date order. Each placeholder is entered into the map before the
   * next date is looked at, so a run of missing days chains forward from the
   * day before each of them.
   */
  method ScanMissingDays(existing: seq<DailyEntry>, effective: map<Date, DailyEntry>,
                         today: Date, now: string, newId: Date -> string)
    returns (added: seq<DailyEntry>)
    requires effective == Effective(existing) && effective != map[]
    ensures added == [] <==> Gaps(effective, today) == {}
    ensures Effective(existing + added).Keys == effective.Keys + Gaps(effective, today)
    ensures forall d :: d in effective ==> Effective(existing + added)[d] == effective[d]
    ensures Gaps(Effective(existing + added), today) == {}
    ensures forall k :: 0 <= k < |added| ==>
      && Entries.IsMissedDayRecord(added[k], newId(added[k].date), now)
      && added[k].date in Gaps(effective, today)
      && Entries.CarriedForward(added[k], Effective(existing + added))
    ensures forall p, q :: 0 <= p < q < |added| ==> added[p].date < added[q].date
    ensures VersionsGapless(existing) ==> VersionsGapless(existing + added)
  {
    var filled := effective;
    var first := Earliest(effective.Keys);
    var cursor := first;
    added := [];
    ScanStarts(existing, effective, today, now, newId);
    while cursor < today
      invariant ScanState(existing, effective, today, now, newId, cursor, added, filled)
    {
      if cursor !in filled {
        ScanFills(existing, effective, today, now, newId, cursor, added, filled);
        var e := Entries.MissedDay(newId(cursor), now, cursor, filled);
        added := added + [e];
        filled := filled[cursor := e];
      } else {
        ScanSkips(existing, effective, today, now, newId, cursor, added, filled);
      }
      cursor := cursor + 1;
    }
    ScanEnds(existing, effective, today, now, newId, cursor, added, filled);
  }

  /** When the cursor reaches today, the scan's postconditions hold. */
  lemma ScanEnds(existing: seq<DailyEntry>, effective: map<Date, DailyEntry>, today: Date,
                 now: string, newId: Date -> string,
                 cursor: Date, added: seq<DailyEntry>, filled: map<Date, DailyEntry>)
    requires effective == Effective(existing)
    requires ScanState(existing, effective, today, now, newId, cursor, added, filled)
    requires today <= cursor
    ensures added == [] <==> Gaps(effective, today) == {}
    ensures filled.Keys == effective.Keys + Gaps(effective, today)
    ensures Gaps(filled, today) == {}
  {
    var first := Earliest(effective.Keys);
    var gaps := Gaps(effective, today);
    forall d | d in gaps ensures d in filled {
    }
    forall d | d in filled ensures d in effective || d in gaps {
    }
    assert Earliest(filled.Keys) == first;
    if added != [] {
      assert added[0].date in gaps;
    }
    assert effective.Keys !! gaps;
    if added == [] {
      assert existing + added == existing;
      assert filled == effective;
    }
  }

  /**
   * Running the scan twice for the same day: the second run writes nothing,
   * whatever identifiers and timestamp it is given. Returns the slot as the
   * first run left it.
   */
  method ImputeTwice(s: Store, today: Date, now1: string, newId1: Date -> string,
                     now2: string, newId2: Date -> string) returns (afterFirst: Option<seq<DailyEntry>>)
    modifies s
    ensures s.slot == afterFirst
    ensures Gaps(Effective(s.RawEntries()), today) == {}
  {
    s.ImputeMissingDays(today, now1, newId1);
    afterFirst := s.slot;
    s.ImputeMissingDays(today, now2, newId2);
  }
}
