/**
 The continuous location-hash observer of scripts/testbed/fast-route-stress-sale.ts and the
 section of the sale validator that checks its record.
 */
module HashObserver {
  import opened Wrappers

  /** What URL parsing finds behind a "#/" hash. */
  datatype Route = Catalog | Elsewhere | InvalidUrl

  /** The URL parser: which route the hash names. */
  type Router = string -> Route

  const CATALOG_HASH := "#/catalog"
  const SUCCESS_HASH := "#/result/success"

  datatype Test = Yes | No | Throws

  predicate IsRouteHash(hash: string) {
    |hash| >= 2 && hash[0] == '#' && hash[1] == '/'
  }

  /** `isCatalogLocationHash` */
  function IsCatalog(route: Router, hash: string): Test {
    if !IsRouteHash(hash) then No
    else match route(hash)
      case Catalog => Yes
      case Elsewhere => No
      case InvalidUrl => Throws
  }

  /** `isCatalogOrRootLocationHash` */
  function IsCatalogOrRoot(route: Router, hash: string): Test {
    if hash == "" || hash == "#" || hash == "#/" then Yes
    else if !IsRouteHash(hash) then Throws
    else match route(hash)
      case Catalog => Yes
      case Elsewhere => No
      case InvalidUrl => Throws
  }

  datatype Method = NavigatedWithinDocument | FrameNavigated | Evaluate | OtherMethod

  datatype Entry = Entry(sequence: int, method_: Method, locationHash: string, observedAt: int)

  /** The observer's snapshot. Timestamps are milliseconds. */
  datatype Record = Record(startedAt: int, initialHash: string, armedAt: Option<int>, terminalAt: Option<int>,
                           terminalHash: Option<string>, entries: seq<Entry>)

  // ----- the validator

  /** Numbered upwards from one or more, in time order, by known methods, and away from the catalog and the root. */
  predicate AcceptsEntries(route: Router, entries: seq<Entry>) {
    && (forall i | 0 <= i < |entries| ::
          && 0 < entries[i].sequence
          && entries[i].method_ != OtherMethod
          && IsCatalogOrRoot(route, entries[i].locationHash) == No)
    && (forall i, j | 0 <= i < j < |entries| ::
          entries[i].sequence < entries[j].sequence && entries[i].observedAt <= entries[j].observedAt)
  }

  /** What the sale validator demands of the record. */
  predicate Accepts(route: Router, r: Record) {
    && r.initialHash == CATALOG_HASH
    && r.armedAt.Some? && r.terminalAt.Some?
    && |r.entries| >= 2
    && AcceptsEntries(route, r.entries)
    && r.entries[0].method_ != Evaluate
    && r.entries[0].observedAt == r.armedAt.value
    && r.terminalHash == Some(SUCCESS_HASH)
    && r.entries[|r.entries| - 1].locationHash == SUCCESS_HASH
    && r.startedAt <= r.armedAt.value
    && r.entries[|r.entries| - 1].observedAt <= r.terminalAt.value
  }

  /** A record as it is handed over: timestamps are texts, and a sequence may not be an integer. */
  datatype EntryText = EntryText(sequence: Option<int>, method_: Method, locationHash: string, observedAt: string)

  datatype RecordText = RecordText(source: string, startedAt: string, initialHash: string, armedAt: string, terminalAt: string,
                                   terminalHash: Option<string>, entries: seq<EntryText>)

  const SOURCE := "cdp_page_navigation_events_and_location_hash"

  /** `Date.parse`: None when the text is not a date. */
  type DateParser = string -> Option<int>

  predicate IsReadable(e: EntryText, date: DateParser) {
    e.sequence.Some? && date(e.observedAt).Some?
  }

  function ReadEntry(e: EntryText, date: DateParser): Entry
    requires IsReadable(e, date)
  {
    Entry(e.sequence.value, e.method_, e.locationHash, date(e.observedAt).value)
  }

  predicate AllReadable(r: RecordText, date: DateParser) {
    && date(r.startedAt).Some? && date(r.armedAt).Some? && date(r.terminalAt).Some?
    && forall i | 0 <= i < |r.entries| :: IsReadable(r.entries[i], date)
  }

  function ReadRecord(r: RecordText, date: DateParser): Record
    requires AllReadable(r, date)
  {
    Record(date(r.startedAt).value, r.initialHash, date(r.armedAt), date(r.terminalAt), r.terminalHash,
           seq(|r.entries|, i requires 0 <= i < |r.entries| => ReadEntry(r.entries[i], date)))
  }

  /** The record comes from the observer, can be read, is armed at its first entry, and holds what is demanded. */
  predicate AcceptsText(route: Router, date: DateParser, r: RecordText) {
    && r.source == SOURCE && AllReadable(r, date)
    && r.entries != [] && r.entries[0].observedAt == r.armedAt
    && Accepts(route, ReadRecord(r, date))
  }

  /** The location-hash section of `validateFastRouteStressSaleEvidence`; false where it throws. */
  method ValidateContinuousHash(route: Router, date: DateParser, r: RecordText) returns (ok: bool)
    ensures ok == AcceptsText(route, date, r)
  {
    hide IsCatalogOrRoot;
    if || r.source != SOURCE || r.initialHash != CATALOG_HASH
       || date(r.startedAt).None? || date(r.armedAt).None? || date(r.terminalAt).None? || |r.entries| < 2
    {
      return false;
    }
    var previousSequence := 0;
    var previousObservedAt: Option<int> := None;
    ghost var read: seq<Entry> := [];
    for i := 0 to |r.entries|
      invariant |read| == i && forall k | 0 <= k < i :: IsReadable(r.entries[k], date) && read[k] == ReadEntry(r.entries[k], date)
      invariant previousSequence == if i == 0 then 0 else read[i - 1].sequence
      invariant previousObservedAt == if i == 0 then None else Some(read[i - 1].observedAt)
      invariant AcceptsEntries(route, read)
    {
      var entry := r.entries[i];
      var observedAt := date(entry.observedAt);
      if observedAt.None? {
        return false;
      }
      if || entry.sequence.None? || entry.sequence.value <= previousSequence
         || (previousObservedAt.Some? && observedAt.value < previousObservedAt.value)
         || entry.method_ == OtherMethod
      {
        RefusedEntry(route, date, r, read);
        return false;
      }
      if IsCatalogOrRoot(route, entry.locationHash) != No {
        RefusedEntry(route, date, r, read);
        return false;
      }
      NextEntry(route, read, ReadEntry(entry, date));
      read := read + [ReadEntry(entry, date)];
      previousSequence := entry.sequence.value;
      previousObservedAt := observedAt;
    }
    var first, last := r.entries[0], r.entries[|r.entries| - 1];
    ok := !(|| first.method_ == Evaluate
            || first.observedAt != r.armedAt
            || r.terminalHash != Some(SUCCESS_HASH)
            || Some(last.locationHash) != r.terminalHash
            || date(r.armedAt).value < date(r.startedAt).value
            || (previousObservedAt.Some? && date(r.terminalAt).value < previousObservedAt.value));
    assert AllReadable(r, date) && ReadRecord(r, date).entries == read;
  }

  lemma NextEntry(route: Router, entries: seq<Entry>, e: Entry)
    requires AcceptsEntries(route, entries)
    requires e.sequence > (if entries == [] then 0 else entries[|entries| - 1].sequence)
    requires entries != [] ==> entries[|entries| - 1].observedAt <= e.observedAt
    requires e.method_ != OtherMethod && IsCatalogOrRoot(route, e.locationHash) == No
    ensures AcceptsEntries(route, entries + [e])
  {
    hide IsCatalogOrRoot;
    var n, more := |entries|, entries + [e];
    assert forall k | 0 <= k < n :: more[k] == entries[k];
    assert forall k | 0 <= k < n :: entries[k].sequence <= entries[n - 1].sequence;
  }

  /** An entry that the loop throws at makes the record unacceptable. */
  lemma RefusedEntry(route: Router, date: DateParser, r: RecordText, read: seq<Entry>)
    requires |read| < |r.entries|
    requires forall k | 0 <= k < |read| :: IsReadable(r.entries[k], date) && read[k] == ReadEntry(r.entries[k], date)
    requires var i, e := |read|, r.entries[|read|];
             var before := if i == 0 then 0 else read[i - 1].sequence;
             || e.sequence.None? || e.sequence.value <= before || e.method_ == OtherMethod
             || (i > 0 && date(e.observedAt).Some? && date(e.observedAt).value < read[i - 1].observedAt)
             || IsCatalogOrRoot(route, e.locationHash) != No
    ensures !AcceptsText(route, date, r)
  {
    hide IsCatalogOrRoot;
    if AcceptsText(route, date, r) {
      AcceptedEntry(route, date, r, |read|);
    }
  }

  lemma AcceptedEntry(route: Router, date: DateParser, r: RecordText, i: nat)
    requires AcceptsText(route, date, r) && i < |r.entries|
    ensures IsReadable(r.entries[i], date) && (i > 0 ==> IsReadable(r.entries[i - 1], date))
    ensures var e := ReadEntry(r.entries[i], date);
            && e.sequence > 0 && e.method_ != OtherMethod && IsCatalogOrRoot(route, e.locationHash) == No
            && (i > 0 ==> var before := ReadEntry(r.entries[i - 1], date);
                          e.sequence > before.sequence && e.observedAt >= before.observedAt)
  {
    hide IsCatalogOrRoot;
    var entries := ReadRecord(r, date).entries;
    assert entries[i] == ReadEntry(r.entries[i], date);
    if i > 0 {
      assert entries[i - 1] == ReadEntry(r.entries[i - 1], date);
    }
  }

  /** The record as the observer writes it, with `toISOString` as a parameter. */
  function WriteRecord(r: Record, iso: int -> string): RecordText
    requires r.armedAt.Some? && r.terminalAt.Some?
  {
    RecordText(SOURCE, iso(r.startedAt), r.initialHash, iso(r.armedAt.value), iso(r.terminalAt.value), r.terminalHash,
               seq(|r.entries|, i requires 0 <= i < |r.entries| =>
                 EntryText(Some(r.entries[i].sequence), r.entries[i].method_, r.entries[i].locationHash, iso(r.entries[i].observedAt))))
  }

  predicate IsReadBack(date: DateParser, iso: int -> string, t: int) {
    date(iso(t)) == Some(t)
  }

  /** Timestamps that are read back as written add no question of their own. */
  lemma WrittenIsAcceptedIff(route: Router, date: DateParser, iso: int -> string, r: Record)
    requires r.armedAt.Some? && r.terminalAt.Some? && forall t :: IsReadBack(date, iso, t)
    ensures AcceptsText(route, date, WriteRecord(r, iso)) <==> Accepts(route, r)
  {
    hide IsCatalogOrRoot;
    var text := WriteRecord(r, iso);
    assert IsReadBack(date, iso, r.startedAt) && IsReadBack(date, iso, r.armedAt.value) && IsReadBack(date, iso, r.terminalAt.value);
    forall i | 0 <= i < |r.entries|
      ensures IsReadable(text.entries[i], date) && ReadEntry(text.entries[i], date) == r.entries[i]
    {
      assert IsReadBack(date, iso, r.entries[i].observedAt);
    }
    if r.entries != [] {
      assert text.entries[0].observedAt == text.armedAt <==> r.entries[0].observedAt == r.armedAt.value by {
        assert IsReadBack(date, iso, r.entries[0].observedAt);
      }
    }
    assert ReadRecord(text, date).entries == r.entries;
    assert ReadRecord(text, date) == r;
  }

  // ----- what a history of navigations should come to

  /** Where the observer is armed, or the length of the history. */
  function ArmedFrom(route: Router, history: seq<string>): (k: nat)
    ensures k <= |history|
    ensures forall i | 0 <= i < k :: IsCatalog(route, history[i]) == Yes
    ensures k < |history| ==> IsCatalog(route, history[k]) != Yes
  {
    if history == [] || IsCatalog(route, history[0]) != Yes then 0 else 1 + ArmedFrom(route, history[1..])
  }

  /** From the arming navigation on, some navigation reached the catalog or the root, or was no route at all. */
  predicate ReachedCatalog(route: Router, history: seq<string>) {
    exists i :: ArmedFrom(route, history) <= i < |history| && IsCatalogOrRoot(route, history[i]) != No
  }

  /** Some navigation left the catalog. */
  predicate HasLeft(route: Router, history: seq<string>) {
    ArmedFrom(route, history) < |history|
  }

  /** A navigation that cannot be recorded behind a history: it has no page URL, or the clock throws where it is needed. */
  predicate IsRefused(route: Router, history: seq<string>, hash: Option<string>, reading: Option<int>) {
    || hash.None?
    || (reading.None? && !ReachedCatalog(route, history) && (HasLeft(route, history) || IsCatalog(route, hash.value) == No))
  }

  /** Whether `finish` can record the hash it observes itself, and that hash is fine. */
  predicate EndsWell(route: Router, history: seq<string>, observed: string, reading: Option<int>) {
    && !ReachedCatalog(route, history + [observed])
    && (HasLeft(route, history + [observed]) ==> reading.Some?)
  }

  lemma {:induction false} ArmedFromAppend(route: Router, history: seq<string>, hash: string)
    ensures ArmedFrom(route, history + [hash]) ==
            if ArmedFrom(route, history) < |history| then ArmedFrom(route, history)
            else if IsCatalog(route, hash) == Yes then |history| + 1 else |history|
  {
    if history != [] {
      assert (history + [hash])[1..] == history[1..] + [hash];
      if IsCatalog(route, history[0]) == Yes {
        ArmedFromAppend(route, history[1..], hash);
      }
    } else {
      assert history + [hash] == [hash] && [hash][1..] == [];
    }
  }

  lemma ReachedAppend(route: Router, history: seq<string>, hash: string)
    ensures ReachedCatalog(route, history + [hash]) <==>
            || ReachedCatalog(route, history)
            || (ArmedFrom(route, history + [hash]) <= |history| && IsCatalogOrRoot(route, hash) != No)
  {
    hide IsCatalog, IsCatalogOrRoot;
    ArmedFromAppend(route, history, hash);
    var more := history + [hash];
    if ReachedCatalog(route, history) {
      var i :| ArmedFrom(route, history) <= i < |history| && IsCatalogOrRoot(route, history[i]) != No;
      assert more[i] == history[i];
    }
    if ArmedFrom(route, more) <= |history| && IsCatalogOrRoot(route, hash) != No {
      assert more[|history|] == hash;
    }
    if ReachedCatalog(route, more) {
      var i :| ArmedFrom(route, more) <= i < |more| && IsCatalogOrRoot(route, more[i]) != No;
      assert i < |history| ==> more[i] == history[i];
    }
  }

  // ----- the observer

  /** The entries an observer records: numbered from one, in time order, the first at the arming time. */
  predicate Ordered(entries: seq<Entry>, startedAt: int, armedAt: Option<int>, lastReading: int) {
    && startedAt <= lastReading
    && (forall i | 0 <= i < |entries| ::
          && entries[i].sequence == i + 1
          && startedAt <= entries[i].observedAt <= lastReading
          && entries[i].method_ != OtherMethod)
    && (forall i, j | 0 <= i < j < |entries| :: entries[i].observedAt <= entries[j].observedAt)
    && armedAt == (if entries == [] then None else Some(entries[0].observedAt))
  }

  /** One location hash that was handed to the observer: how, and what the clock said, if it did. */
  datatype Arrival = Arrival(method_: Method, hash: string, reading: Option<int>)

  function HashesOf(arrivals: seq<Arrival>): (hashes: seq<string>)
    ensures |hashes| == |arrivals| && forall i :: 0 <= i < |arrivals| ==> hashes[i] == arrivals[i].hash
  {
    seq(|arrivals|, i requires 0 <= i < |arrivals| => arrivals[i].hash)
  }

  predicate IsEntryOf(e: Entry, sequence: int, a: Arrival) {
    a.reading.Some? && e == Entry(sequence, a.method_, a.hash, a.reading.value)
  }

  /** The entries are the arrivals from number `from` on, each of them, in order and numbered from one. */
  predicate Records(entries: seq<Entry>, arrivals: seq<Arrival>, from: nat) {
    && from + |entries| == |arrivals|
    && forall k | 0 <= k < |entries| :: IsEntryOf(entries[k], k + 1, arrivals[from + k])
  }

  lemma RecordsOneMore(entries: seq<Entry>, arrivals: seq<Arrival>, from: nat, a: Arrival)
    requires Records(entries, arrivals, from)
    ensures a.reading.Some? ==> Records(entries + [Entry(|entries| + 1, a.method_, a.hash, a.reading.value)], arrivals + [a], from)
    ensures entries == [] ==> Records(entries, arrivals + [a], |arrivals| + 1)
  {
    var more := arrivals + [a];
    assert forall k | 0 <= k < |arrivals| :: more[k] == arrivals[k];
    if a.reading.Some? {
      var all := entries + [Entry(|entries| + 1, a.method_, a.hash, a.reading.value)];
      forall k | 0 <= k < |all|
        ensures IsEntryOf(all[k], k + 1, more[from + k])
      {
        assert k < |entries| ==> all[k] == entries[k] && more[from + k] == arrivals[from + k];
      }
    }
  }

  predicate Safe(route: Router, entries: seq<Entry>) {
    forall i | 0 <= i < |entries| :: IsCatalogOrRoot(route, entries[i].locationHash) == No
  }

  predicate Navigations(entries: seq<Entry>) {
    forall i | 0 <= i < |entries| :: entries[i].method_ != Evaluate
  }

  lemma AppendEntry(route: Router, entries: seq<Entry>, startedAt: int, armedAt: Option<int>, lastReading: int, e: Entry)
    requires Ordered(entries, startedAt, armedAt, lastReading)
    requires e.sequence == |entries| + 1 && e.method_ != OtherMethod && lastReading <= e.observedAt
    ensures Ordered(entries + [e], startedAt, if armedAt.None? then Some(e.observedAt) else armedAt, e.observedAt)
    ensures Safe(route, entries + [e]) <==> Safe(route, entries) && IsCatalogOrRoot(route, e.locationHash) == No
    ensures Navigations(entries + [e]) <==> Navigations(entries) && e.method_ != Evaluate
  {
    hide IsCatalogOrRoot;
    var more := entries + [e];
    assert more[|entries|] == e;
    assert forall i | 0 <= i < |entries| :: more[i] == entries[i];
  }

  /** For an observer's record the validator has only a few questions left. */
  lemma AcceptsObserved(route: Router, r: Record, lastReading: int)
    requires Ordered(r.entries, r.startedAt, r.armedAt, lastReading) && Safe(route, r.entries)
    requires r.initialHash == CATALOG_HASH && r.terminalHash == Some(SUCCESS_HASH)
    requires r.terminalAt.Some? && lastReading <= r.terminalAt.value
    ensures Accepts(route, r) <==>
            && |r.entries| >= 2 && r.entries[0].method_ != Evaluate
            && r.entries[|r.entries| - 1].locationHash == SUCCESS_HASH
  {
    hide IsCatalogOrRoot;
  }

  datatype Finish = Returned(record: Record) | Threw

  class LocationHashObserver {
    const route: Router
    const startedAt: int
    var entries: seq<Entry>
    var armedAt: Option<int>
    var terminalAt: Option<int>
    var terminalHash: Option<string>
    var stopped: bool
    var failed: bool

    /** The hashes of the top-level navigations delivered so far, and the last clock reading taken. */
    ghost var history: seq<string>
    ghost var arrivals: seq<Arrival>
    ghost var lastReading: int
    /** A page URL or a clock reading was refused. */
    ghost var refused: bool

    ghost predicate OrderedEntries()
      reads this
    {
      Ordered(entries, startedAt, armedAt, lastReading)
    }

    ghost predicate Valid()
      reads this
    {
      && OrderedEntries()
      && (!failed ==> Safe(route, entries) && Navigations(entries))
      && history == HashesOf(arrivals)
      && (!failed ==> Records(entries, arrivals, ArmedFrom(route, history)))
      && (failed <==> refused || ReachedCatalog(route, history))
    }

    constructor (route: Router, startedAt: int)
      ensures Valid() && this.route == route && this.startedAt == startedAt
      ensures !stopped && !failed && !refused && history == [] && arrivals == [] && entries == [] && lastReading == startedAt
    {
      this.route, this.startedAt := route, startedAt;
      entries, armedAt, terminalAt, terminalHash := [], None, None, None;
      stopped, failed := false, false;
      history, arrivals, lastReading, refused := [], [], startedAt, false;
    }

    /** `recordHash`; `reading` is what the clock would say, None when it would throw. */
    method RecordHash(method_: Method, hash: string, reading: Option<int>)
      requires OrderedEntries()
      requires method_ != OtherMethod && (reading.Some? ==> lastReading <= reading.value)
      modifies `entries, `armedAt, `failed, `lastReading
      ensures OrderedEntries()
      ensures stopped || old(failed) || (old(armedAt).None? && IsCatalog(route, hash) == Yes) ==>
                entries == old(entries) && failed == old(failed) && lastReading == old(lastReading)
      ensures !(stopped || old(failed) || (old(armedAt).None? && IsCatalog(route, hash) == Yes)) ==>
                if (old(armedAt).None? && IsCatalog(route, hash) == Throws) || reading.None? then
                  failed && entries == old(entries) && lastReading == old(lastReading)
                else
                  && entries == old(entries) + [Entry(|old(entries)| + 1, method_, hash, reading.value)]
                  && failed == (IsCatalogOrRoot(route, hash) != No)
                  && lastReading == reading.value
    {
      hide Ordered, IsCatalog, IsCatalogOrRoot;
      if stopped || failed {
        return;
      }
      if armedAt.None? {
        var catalog := IsCatalog(route, hash);
        if catalog == Throws {
          failed := true;
          return;
        }
        if catalog == Yes {
          return;
        }
      }
      if reading.None? {
        failed := true;
        return;
      }
      var observedAt := reading.value;
      AppendEntry(route, entries, startedAt, armedAt, lastReading, Entry(|entries| + 1, method_, hash, observedAt));
      if armedAt.None? {
        armedAt := Some(observedAt);
      }
      entries := entries + [Entry(|entries| + 1, method_, hash, observedAt)];
      lastReading := observedAt;
      var reached := IsCatalogOrRoot(route, hash);
      if reached != No {
        failed := true;
      }
    }

    /**
     A navigation event. Frames with a parent are ignored; a page URL that is not the
     installed page's (None) fails the observation. Stopping removes the listeners.
     */
    method OnNavigation(method_: Method, hasParent: bool, hash: Option<string>, reading: Option<int>)
      requires Valid() && (method_ == NavigatedWithinDocument || method_ == FrameNavigated)
      requires reading.Some? ==> lastReading <= reading.value
      modifies this
      ensures Valid() && stopped == old(stopped)
      ensures lastReading == old(lastReading) || reading == Some(lastReading)
      ensures var delivered := !old(stopped) && !(method_ == FrameNavigated && hasParent);
              && history == (if delivered && hash.Some? then old(history) + [hash.value] else old(history))
              && arrivals == (if delivered && hash.Some? then old(arrivals) + [Arrival(method_, hash.value, reading)] else old(arrivals))
              && (refused <==> old(refused) || (delivered && IsRefused(route, old(history), hash, reading)))
      ensures !refused && !ReachedCatalog(route, history) ==> Records(entries, arrivals, ArmedFrom(route, history))
    {
      hide Ordered, IsCatalog, IsCatalogOrRoot, ReachedCatalog, ArmedFrom, Safe, Navigations, Records;
      if !failed {
        ArmedMeansLeft(this);
      }
      if stopped || (method_ == FrameNavigated && hasParent) {
        return;
      }
      if hash.None? {
        failed := true;
        refused := true;
        return;
      }
      Navigated(route, history, hash.value);
      ReachedAppend(route, history, hash.value);
      EmptyIsUnarmed(entries, startedAt, armedAt, lastReading);
      if reading.Some? {
        AppendEntry(route, entries, startedAt, armedAt, lastReading, Entry(|entries| + 1, method_, hash.value, reading.value));
      }
      refused := refused || IsRefused(route, history, hash, reading);
      if !failed {
        RecordsOneMore(entries, arrivals, ArmedFrom(route, history), Arrival(method_, hash.value, reading));
      }
      HashesAppend(arrivals, Arrival(method_, hash.value, reading));
      RecordHash(method_, hash.value, reading);
      history := history + [hash.value];
      arrivals := arrivals + [Arrival(method_, hash.value, reading)];
    }

    /** `assertArmed`, as whether it returns: the catalog was left, nothing was refused, and it was not reached again. */
    method AssertArmed() returns (ok: bool)
      requires Valid()
      ensures ok <==> !refused && HasLeft(route, history) && !ReachedCatalog(route, history)
    {
      hide ReachedCatalog, ArmedFrom, Safe, Navigations;
      EmptyIsUnarmed(entries, startedAt, armedAt, lastReading);
      ok := !failed && armedAt.Some?;
    }

    function Snapshot(): Record
      reads this
    {
      Record(startedAt, CATALOG_HASH, armedAt, terminalAt, terminalHash, entries)
    }

    method Stop()
      modifies `stopped
      ensures stopped
    {
      stopped := true;
    }

    /**
     `finish` returns exactly when the page is the expected one, the clock can be read, nothing
     was refused, and neither a navigation from the arming one on nor the page itself is the
     catalog or the root. When the terminal hash is the success route, the record passes the validator
     exactly when the observer was armed before the call; if it had been stopped, exactly when
     it had already seen two navigations and the last of them was to the success route.
     */
    method FinishObservation(expected: string, observed: string, recordReading: Option<int>, terminalReading: Option<int>)
      returns (result: Finish)
      requires Valid()
      requires recordReading.Some? ==> lastReading <= recordReading.value
      requires terminalReading.Some? ==> lastReading <= terminalReading.value
      requires recordReading.Some? && terminalReading.Some? ==> recordReading.value <= terminalReading.value
      modifies this
      ensures result.Returned? <==>
                && observed == expected && terminalReading.Some? && !old(refused)
                && (if old(stopped) then !ReachedCatalog(route, old(history)) else EndsWell(route, old(history), observed, recordReading))
      ensures result.Returned? ==> stopped && result.record == Snapshot()
      ensures result.Returned? ==>
                && result.record.startedAt == startedAt && result.record.initialHash == CATALOG_HASH
                && result.record.terminalAt == terminalReading && result.record.terminalHash == Some(observed)
                && result.record.armedAt == ArmingTime(result.record.entries)
      ensures result.Returned? ==>
                if old(stopped) then
                  result.record.entries == old(entries) && Records(old(entries), old(arrivals), ArmedFrom(route, old(history)))
                else
                  Records(result.record.entries, old(arrivals) + [Arrival(Evaluate, observed, recordReading)],
                          ArmedFrom(route, old(history) + [observed]))
      ensures result.Returned? && expected == SUCCESS_HASH ==>
                (Accepts(route, result.record) <==>
                 if old(stopped) then |old(entries)| >= 2 && old(entries)[|old(entries)| - 1].locationHash == SUCCESS_HASH
                 else HasLeft(route, old(history)))
    {
      hide Ordered, IsCatalog, IsCatalogOrRoot, ReachedCatalog, ArmedFrom, Safe, Navigations, Accepts, Records;
      EmptyIsUnarmed(entries, startedAt, armedAt, lastReading);
      if recordReading.Some? {
        AppendEntry(route, entries, startedAt, armedAt, lastReading, Entry(|entries| + 1, Evaluate, observed, recordReading.value));
      }
      FirstIsNavigation(entries);
      if !failed {
        ArmedMeansLeft(this);
        RecordsOneMore(entries, arrivals, ArmedFrom(route, history), Arrival(Evaluate, observed, recordReading));
      }
      if ReachedCatalog(route, history) {
        ReachedBeforeTheEnd(route, history, observed);
      }
      Navigated(route, history, observed);
      ReachedAppend(route, history, observed);
      RecordHash(Evaluate, observed, recordReading);
      if terminalReading.None? {
        return Threw;
      }
      terminalAt := terminalReading;
      terminalHash := Some(observed);
      Stop();
      if failed {
        return Threw;
      }
      if observed != expected {
        return Threw;
      }
      result := Returned(Snapshot());
      ArmedAtFirst(entries, startedAt, armedAt, lastReading);
      if expected == SUCCESS_HASH {
        AcceptsObserved(route, Snapshot(), lastReading);
      }
    }
  }

  lemma HashesAppend(arrivals: seq<Arrival>, a: Arrival)
    ensures HashesOf(arrivals + [a]) == HashesOf(arrivals) + [a.hash]
  {
  }

  lemma EmptyIsUnarmed(entries: seq<Entry>, startedAt: int, armedAt: Option<int>, lastReading: int)
    requires Ordered(entries, startedAt, armedAt, lastReading)
    ensures armedAt.None? <==> entries == []
    ensures startedAt <= lastReading
  {
  }

  /** The instant of the first entry, if there is one. */
  function ArmingTime(entries: seq<Entry>): Option<int> {
    if entries == [] then None else Some(entries[0].observedAt)
  }

  lemma ArmedAtFirst(entries: seq<Entry>, startedAt: int, armedAt: Option<int>, lastReading: int)
    requires Ordered(entries, startedAt, armedAt, lastReading)
    ensures armedAt == ArmingTime(entries)
  {
  }

  lemma FirstIsNavigation(entries: seq<Entry>)
    ensures Navigations(entries) && entries != [] ==> entries[0].method_ != Evaluate
  {
  }

  lemma Navigated(route: Router, history: seq<string>, hash: string)
    ensures ArmedFrom(route, history + [hash]) ==
            if ArmedFrom(route, history) < |history| then ArmedFrom(route, history)
            else if IsCatalog(route, hash) == Yes then |history| + 1 else |history|
    ensures IsCatalog(route, hash) == Throws ==> IsCatalogOrRoot(route, hash) != No
  {
    ArmedFromAppend(route, history, hash);
  }

  // ----- a whole observation

  datatype Navigation = Navigation(method_: Method, hasParent: bool, hash: Option<string>, reading: Option<int>)

  /** The hashes of the top-level page navigations among the events. */
  function Delivered(events: seq<Navigation>): seq<string> {
    if events == [] then []
    else
      var before, e := Delivered(events[..|events| - 1]), events[|events| - 1];
      if !IsTopLevel(e) || e.hash.None? then before else before + [e.hash.value]
  }

  /** Those navigations as they reach the observer. */
  function Arrivals(events: seq<Navigation>): seq<Arrival> {
    if events == [] then []
    else
      var before, e := Arrivals(events[..|events| - 1]), events[|events| - 1];
      if !IsTopLevel(e) || e.hash.None? then before else before + [Arrival(e.method_, e.hash.value, e.reading)]
  }

  predicate IsTopLevel(e: Navigation) {
    !(e.method_ == FrameNavigated && e.hasParent)
  }

  predicate IsPageNavigation(e: Navigation) {
    e.hash.Some? && (e.method_ == FrameNavigated ==> !e.hasParent)
  }

  predicate IsArrivalOf(a: Arrival, e: Navigation) {
    IsPageNavigation(e) && a == Arrival(e.method_, e.hash.value, e.reading)
  }

  /** The events at these places, in order, are all the top-level navigations that have a page address. */
  ghost predicate AreArrivals(events: seq<Navigation>, places: seq<nat>, arrivals: seq<Arrival>) {
    && |places| == |arrivals|
    && (forall i, j | 0 <= i < j < |places| :: places[i] < places[j])
    && (forall j | 0 <= j < |places| :: places[j] < |events| && IsArrivalOf(arrivals[j], events[places[j]]))
    && (forall k: nat | k < |events| && IsPageNavigation(events[k]) :: k in places)
  }

  lemma NextPlace(events: seq<Navigation>, places: seq<nat>, arrivals: seq<Arrival>, a: Arrival)
    requires events != [] && AreArrivals(events[..|events| - 1], places, arrivals)
    ensures var n := |events| - 1;
            if IsPageNavigation(events[n]) then IsArrivalOf(a, events[n]) ==> AreArrivals(events, places + [n], arrivals + [a])
            else AreArrivals(events, places, arrivals)
  {
    hide IsArrivalOf, IsPageNavigation;
    var n := |events| - 1;
    assert forall k | 0 <= k < n :: events[..n][k] == events[k];
    assert n in places + [n] && forall k | k in places :: k in places + [n];
  }

  lemma {:induction false} ArrivalsAreNavigations(events: seq<Navigation>) returns (places: seq<nat>)
    ensures AreArrivals(events, places, Arrivals(events))
    ensures Delivered(events) == HashesOf(Arrivals(events))
    decreases |events|
  {
    hide AreArrivals;
    places := [];
    if events == [] {
      assert AreArrivals([], [], []) by {
        NoArrivals();
      }
    } else {
      var n := |events| - 1;
      var e := events[n];
      var before := ArrivalsAreNavigations(events[..n]);
      if IsPageNavigation(e) {
        var a := Arrival(e.method_, e.hash.value, e.reading);
        NextPlace(events, before, Arrivals(events[..n]), a);
        HashesAppend(Arrivals(events[..n]), a);
        places := before + [n];
      } else {
        NextPlace(events, before, Arrivals(events[..n]), Arrival(e.method_, "", None));
        places := before;
      }
    }
  }

  lemma NoArrivals()
    ensures AreArrivals([], [], [])
  {
  }

  /** Every clock reading there is is not before the ones taken earlier. */
  predicate ClockRuns(events: seq<Navigation>, from: int, recordReading: Option<int>, terminalReading: Option<int>) {
    && (forall i | 0 <= i < |events| ::
          && (events[i].method_ == NavigatedWithinDocument || events[i].method_ == FrameNavigated)
          && (events[i].reading.Some? ==> from <= events[i].reading.value))
    && (forall i, j | 0 <= i < j < |events| && events[i].reading.Some? && events[j].reading.Some? ::
          events[i].reading.value <= events[j].reading.value)
    && (forall i | 0 <= i < |events| && events[i].reading.Some? ::
          && (recordReading.Some? ==> events[i].reading.value <= recordReading.value)
          && (terminalReading.Some? ==> events[i].reading.value <= terminalReading.value))
    && (recordReading.Some? ==> from <= recordReading.value)
    && (terminalReading.Some? ==> from <= terminalReading.value)
    && (recordReading.Some? && terminalReading.Some? ==> recordReading.value <= terminalReading.value)
  }

  /** The last clock reading that was recorded, among the first `i` events. */
  predicate IsLastReading(events: seq<Navigation>, i: nat, from: int, last: int)
    requires i <= |events|
  {
    last == from || exists k :: 0 <= k < i && events[k].reading == Some(last)
  }

  lemma ReadingsGrow(events: seq<Navigation>, i: nat, from: int, recordReading: Option<int>, terminalReading: Option<int>, last: int)
    requires i <= |events| && ClockRuns(events, from, recordReading, terminalReading) && IsLastReading(events, i, from, last)
    ensures i < |events| ==> events[i].method_ == NavigatedWithinDocument || events[i].method_ == FrameNavigated
    ensures i < |events| && events[i].reading.Some? ==> last <= events[i].reading.value
    ensures recordReading.Some? ==> last <= recordReading.value
    ensures terminalReading.Some? ==> last <= terminalReading.value
    ensures recordReading.Some? && terminalReading.Some? ==> recordReading.value <= terminalReading.value
  {
  }

  /** Whether a navigation among the events was refused. */
  predicate Refused(route: Router, events: seq<Navigation>) {
    events != [] &&
    var before, e := events[..|events| - 1], events[|events| - 1];
    Refused(route, before) || (IsTopLevel(e) && IsRefused(route, Delivered(before), e.hash, e.reading))
  }

  /** What `assertArmed` tells behind these events. */
  predicate Armed(route: Router, events: seq<Navigation>) {
    !Refused(route, events) && HasLeft(route, Delivered(events)) && !ReachedCatalog(route, Delivered(events))
  }

  /** When `finish` on the success page returns behind these events. */
  predicate Finishes(route: Router, events: seq<Navigation>, observed: string, recordReading: Option<int>, terminalReading: Option<int>) {
    && observed == SUCCESS_HASH && terminalReading.Some? && !Refused(route, events)
    && EndsWell(route, Delivered(events), observed, recordReading)
  }

  lemma {:induction false} LeftStaysLeft(route: Router, before: seq<Navigation>, after: seq<Navigation>)
    requires HasLeft(route, Delivered(before))
    ensures HasLeft(route, Delivered(before + after))
    decreases |after|
  {
    hide IsCatalog, ArmedFrom;
    if after == [] {
      assert before + after == before;
    } else {
      var n := |after| - 1;
      var events := before + after;
      LeftStaysLeft(route, before, after[..n]);
      assert events[..|events| - 1] == before + after[..n] && events[|events| - 1] == after[n];
      if after[n].hash.Some? {
        ArmedFromAppend(route, Delivered(before + after[..n]), after[n].hash.value);
      }
    }
  }

  lemma ReachedBeforeTheEnd(route: Router, history: seq<string>, observed: string)
    requires ReachedCatalog(route, history)
    ensures ReachedCatalog(route, history + [observed])
  {
    hide ReachedCatalog;
    ReachedAppend(route, history, observed);
  }

  lemma OneMoreEvent(route: Router, events: seq<Navigation>, i: nat)
    requires i < |events|
    ensures var before, more, e := events[..i], events[..i + 1], events[i];
            && Delivered(more) == (if IsTopLevel(e) && e.hash.Some? then Delivered(before) + [e.hash.value] else Delivered(before))
            && Arrivals(more) == (if IsTopLevel(e) && e.hash.Some? then Arrivals(before) + [Arrival(e.method_, e.hash.value, e.reading)] else Arrivals(before))
            && (Refused(route, more) <==> Refused(route, before) || (IsTopLevel(e) && IsRefused(route, Delivered(before), e.hash, e.reading)))
  {
    hide IsRefused;
    assert events[..i + 1][..i] == events[..i];
  }

  /** One navigation, handed to an observer that has seen those before. */
  method DeliverOne(observer: LocationHashObserver, events: seq<Navigation>, i: nat, recordReading: Option<int>, terminalReading: Option<int>)
    requires i < |events| && ClockRuns(events, observer.startedAt, recordReading, terminalReading)
    requires observer.Valid() && !observer.stopped && HasSeen(observer, events, i)
    modifies observer
    ensures observer.Valid() && !observer.stopped && HasSeen(observer, events, i + 1)
  {
    hide IsCatalog, IsCatalogOrRoot, ReachedCatalog, ArmedFrom, HasLeft, Ordered, Safe, Navigations, Accepts, ClockRuns, IsRefused, Records, Delivered,
      Arrivals, Refused, HashesOf;
    OneMoreEvent(observer.route, events, i);
    var e := events[i];
    ReadingsGrow(events, i, observer.startedAt, recordReading, terminalReading, observer.lastReading);
    observer.OnNavigation(e.method_, e.hasParent, e.hash, e.reading);
    assert IsLastReading(events, i + 1, observer.startedAt, observer.lastReading);
  }

  /** The navigations of `events` from index `from` on, handed to an observer that has seen those before. */
  method Deliver(observer: LocationHashObserver, events: seq<Navigation>, from: nat, to: nat,
                 recordReading: Option<int>, terminalReading: Option<int>)
    requires from <= to <= |events| && ClockRuns(events, observer.startedAt, recordReading, terminalReading)
    requires observer.Valid() && !observer.stopped && HasSeen(observer, events, from)
    modifies observer
    ensures observer.Valid() && !observer.stopped && HasSeen(observer, events, to)
  {
    hide LocationHashObserver.Valid, HasSeen, ClockRuns;
    for i := from to to
      invariant observer.Valid() && !observer.stopped && HasSeen(observer, events, i)
    {
      DeliverOne(observer, events, i, recordReading, terminalReading);
    }
  }

  /** The observer has been handed the first `i` events. */
  ghost predicate HasSeen(observer: LocationHashObserver, events: seq<Navigation>, i: nat)
    requires i <= |events|
    reads observer
  {
    && observer.history == Delivered(events[..i]) && observer.arrivals == Arrivals(events[..i])
    && (observer.refused <==> Refused(observer.route, events[..i]))
    && IsLastReading(events, i, observer.startedAt, observer.lastReading)
  }

  /**
   A whole observation under a clock that never runs back. `assertArmed` is called between
   `before` and `after`, and `finish` behind both. `finish` returns exactly when it should; an
   observation that was armed and returns gives a record that passes the validator, and the
   record of any that returns passes exactly when the catalog was left before `finish`. Its
   entries are all top-level navigations from the arming one on, then the page's own hash. A
   navigation to the catalog or the root from the arming one on makes `finish` throw.
   */
  method Observe(route: Router, startedAt: int, before: seq<Navigation>, after: seq<Navigation>, observed: string,
                 recordReading: Option<int>, terminalReading: Option<int>)
    returns (armed: bool, result: Finish)
    requires ClockRuns(before + after, startedAt, recordReading, terminalReading)
    ensures armed <==> Armed(route, before)
    ensures result.Returned? <==> Finishes(route, before + after, observed, recordReading, terminalReading)
    ensures result.Returned? ==> (Accepts(route, result.record) <==> Armed(route, before + after))
    ensures armed && result.Returned? ==> Accepts(route, result.record)
    ensures result.Returned? ==>
              && Records(result.record.entries, Arrivals(before + after) + [Arrival(Evaluate, observed, recordReading)],
                         ArmedFrom(route, Delivered(before + after) + [observed]))
              && result.record.startedAt == startedAt && result.record.initialHash == CATALOG_HASH
              && result.record.armedAt == ArmingTime(result.record.entries)
              && result.record.terminalAt == terminalReading && result.record.terminalHash == Some(SUCCESS_HASH)
    ensures ReachedCatalog(route, Delivered(before + after)) ==> result.Threw?
  {
    hide IsCatalog, IsCatalogOrRoot, ReachedCatalog, ArmedFrom, Ordered, Safe, Navigations, Accepts, ClockRuns, HasLeft;
    var events := before + after;
    assert events[..0] == [] && events[..|before|] == before && events[..|events|] == events;
    var observer := new LocationHashObserver(route, startedAt);
    Deliver(observer, events, 0, |before|, recordReading, terminalReading);
    armed := observer.AssertArmed();
    if armed {
      LeftStaysLeft(route, before, after);
    }
    Deliver(observer, events, |before|, |events|, recordReading, terminalReading);
    ReadingsGrow(events, |events|, startedAt, recordReading, terminalReading, observer.lastReading);
    if ReachedCatalog(route, observer.history) {
      ReachedBeforeTheEnd(route, observer.history, observed);
    }
    result := observer.FinishObservation(SUCCESS_HASH, observed, recordReading, terminalReading);
  }

  lemma ArmedMeansLeft(observer: LocationHashObserver)
    requires observer.Valid() && !observer.failed
    ensures observer.armedAt.Some? <==> HasLeft(observer.route, observer.history)
  {
    hide ReachedCatalog, ArmedFrom, Safe, Navigations;
    EmptyIsUnarmed(observer.entries, observer.startedAt, observer.armedAt, observer.lastReading);
  }

  /** Without any navigation an observer finishes on the success page, and was never armed. */
  lemma UnarmedCanFinish(route: Router, now: int)
    requires route(SUCCESS_HASH) == Elsewhere
    ensures ClockRuns([], now, Some(now), Some(now))
    ensures Finishes(route, [], SUCCESS_HASH, Some(now), Some(now)) && !Armed(route, [])
  {
    assert SUCCESS_HASH[0] == '#' && SUCCESS_HASH[1] == '/' && |SUCCESS_HASH| > 2;
    assert [] + [SUCCESS_HASH] == [SUCCESS_HASH];
  }
}
