/**
 * The state of the converter component: `timezones` (zone key to canonical zone name),
 * `selectedTimes` (zone key to its `HH:mm` wall-clock time, in insertion order), the
 * selected date and the reverse-order flag, with the handlers that change them.
 * The time-zone library is a parameter (`Converter`); clock readings ("now in zone z")
 * are passed in as already formatted `HH:mm` strings.
 */
module TimezoneConverter {
  import opened Wrappers
  import opened Clock
  import opened OrderedObject
  import opened Ordering
  import opened ZoneKeys

  /** A local date and time with no zone: a day number and the minutes into that day. */
  datatype LocalStamp = LocalStamp(day: int, minute: int)

  /**
   * The time-zone library: the `HH:mm` in zone `to` of the instant that the local
   * date-time `t` denotes in zone `from` (`moment.tz(t, from).tz(to).format('HH:mm')`).
   */
  type Converter = (LocalStamp, string, string) -> string

  /** `moment(date).startOf('day').add(value, 'minutes')`, on local days of 1440 minutes. */
  function StartOfDayPlus(day: int, value: int): (t: LocalStamp)
    ensures 0 <= t.minute < MinutesPerDay
    ensures t.day * MinutesPerDay + t.minute == day * MinutesPerDay + value
  {
    LocalStamp(day + value / MinutesPerDay, value % MinutesPerDay)
  }

  /** `generateInitialTimes()`, given the current `HH:mm` in Asia/Kolkata and in UTC. */
  function InitialTimes(kolkataNow: string, utcNow: string): (r: Entries)
    ensures Keys(r) == ["Asia/Kolkata", "UTC"]
    ensures Lookup(r, "Asia/Kolkata") == Some(kolkataNow) && Lookup(r, "UTC") == Some(utcNow)
  {
    [("Asia/Kolkata", kolkataNow), ("UTC", utcNow)]
  }

  /** `generateInitialTimezones()`. */
  function InitialTimezones(): (r: map<string, string>)
    ensures r.Keys == {"Asia/Kolkata", "UTC"}
    ensures forall k :: k in r ==> r[k] == k
  {
    map["Asia/Kolkata" := "Asia/Kolkata", "UTC" := "UTC"]
  }

  /** Both maps hold the same keys, and `selectedTimes` holds each key once. */
  ghost predicate KeysAgree(timezones: map<string, string>, times: Entries)
  {
    UniqueKeys(times) && forall k :: k in timezones <==> k in Keys(times)
  }

  /** The two seeded maps start with the same keys. */
  lemma InitialKeysAgree(kolkataNow: string, utcNow: string)
    ensures KeysAgree(InitialTimezones(), InitialTimes(kolkataNow, utcNow))
  {
    assert Keys(InitialTimes(kolkataNow, utcNow)) == ["Asia/Kolkata", "UTC"];
  }

  /** Adding a zone to both maps keeps their key sets equal. */
  lemma AddKeepsKeysAgree(timezones: map<string, string>, times: Entries, zoneLabel: string, now: string)
    requires KeysAgree(timezones, times)
    ensures KeysAgree(timezones[Sanitise(zoneLabel) := zoneLabel], Put(times, Sanitise(zoneLabel), now))
  {
    PutSpec(times, Sanitise(zoneLabel), now);
  }

  /** Removing a zone from both maps keeps their key sets equal. */
  lemma RemoveKeepsKeysAgree(timezones: map<string, string>, times: Entries, zone: string)
    requires KeysAgree(timezones, times)
    ensures KeysAgree(timezones - {zone}, Delete(times, zone))
  {
    DeleteSpec(times, zone);
  }

  /** The dropdown's Asia/Kolkata is stored under the key `Asia-Kolkata`. */
  lemma KolkataSanitised()
    ensures Sanitise("Asia/Kolkata") == "Asia-Kolkata"
  {
    var key := Sanitise("Asia/Kolkata");
    assert forall i :: 0 <= i < 12 ==> key[i] == "Asia-Kolkata"[i];
  }

  /** The cards of both keys, `Asia-Kolkata` and `Asia/Kolkata`, show the name "Asia/Kolkata". */
  lemma KolkataCardsAlike()
    ensures DisplayName("Asia-Kolkata") == DisplayName("Asia/Kolkata") == "Asia/Kolkata"
  {
    var shown := DisplayName("Asia-Kolkata");
    assert forall i :: 0 <= i < 12 ==> shown[i] == "Asia/Kolkata"[i];
    SlashKeyShownAsIs();
  }

  lemma SlashKeyShownAsIs()
    ensures DisplayName("Asia/Kolkata") == "Asia/Kolkata"
  {
    var same := DisplayName("Asia/Kolkata");
    assert forall i :: 0 <= i < 12 ==> same[i] == "Asia/Kolkata"[i];
  }

  /**
   * The seeded key `Asia/Kolkata` is not sanitised, so choosing Asia/Kolkata from the
   * dropdown on the initial state adds a third entry `Asia-Kolkata` for the same zone.
   */
  lemma SeededKolkataAddedTwice(kolkataNow: string, utcNow: string, now: string)
    ensures var key := Sanitise("Asia/Kolkata");
      var tz := InitialTimezones()[key := "Asia/Kolkata"];
      && Keys(Put(InitialTimes(kolkataNow, utcNow), key, now)) == ["Asia/Kolkata", "UTC", "Asia-Kolkata"]
      && tz.Keys == {"Asia/Kolkata", "UTC", "Asia-Kolkata"}
      && tz["Asia/Kolkata"] == tz["Asia-Kolkata"] == "Asia/Kolkata"
  {
    KolkataSanitised();
    var key := "Asia-Kolkata";
    var times := InitialTimes(kolkataNow, utcNow);
    assert Keys(times) == ["Asia/Kolkata", "UTC"];
    assert key != "Asia/Kolkata" by { assert key[4] != "Asia/Kolkata"[4]; }
    assert key != "UTC" by { assert |key| != |"UTC"|; }
    assert IndexOf(times, key) == -1;
    PutShape(times, key, now);
    assert Keys(times + [(key, now)]) == ["Asia/Kolkata", "UTC", "Asia-Kolkata"];
  }

  /** Every zone of `done` other than `zone` holds the date-time converted from `zone` into it. */
  ghost predicate Converted(timezones: map<string, string>, times: Entries, zone: string,
                            updatedDateTime: LocalStamp, convert: Converter, done: set<string>)
    requires zone in timezones && done <= timezones.Keys
  {
    forall tz :: tz in done && tz != zone ==>
      Lookup(times, tz) == Some(convert(updatedDateTime, timezones[zone], timezones[tz]))
  }

  /** Writing one more zone's converted time extends `Converted` and leaves the other lookups alone. */
  lemma ConvertOne(timezones: map<string, string>, times: Entries, zone: string,
                   updatedDateTime: LocalStamp, convert: Converter, done: set<string>, tz: string)
    requires zone in timezones && done <= timezones.Keys && tz in timezones && tz != zone
    requires UniqueKeys(times) && tz in Keys(times) && Converted(timezones, times, zone, updatedDateTime, convert, done)
    ensures var next := Put(times, tz, convert(updatedDateTime, timezones[zone], timezones[tz]));
      && UniqueKeys(next)
      && Keys(next) == Keys(times)
      && Lookup(next, zone) == Lookup(times, zone)
      && Converted(timezones, next, zone, updatedDateTime, convert, done + {tz})
  {
    var converted := convert(updatedDateTime, timezones[zone], timezones[tz]);
    PutSpec(times, tz, converted);
  }

  /**
   * The loop of `handleTimeChange`: `zone` gets the `HH:mm` of `updatedDateTime` and each
   * other zone the same local date-time converted from `zone` into it.
   */
  method Retime(timezones: map<string, string>, selectedTimes: Entries, zone: string,
                updatedDateTime: LocalStamp, convert: Converter)
      returns (updatedTimes: Entries)
    requires KeysAgree(timezones, selectedTimes) && zone in timezones
    ensures KeysAgree(timezones, updatedTimes)
    ensures Keys(updatedTimes) == Keys(selectedTimes)
    ensures Lookup(updatedTimes, zone) == Some(FormatHHmm(updatedDateTime.minute))
    ensures forall tz :: tz in timezones && tz != zone ==>
      Lookup(updatedTimes, tz) == Some(convert(updatedDateTime, timezones[zone], timezones[tz]))
  {
    var own := FormatHHmm(updatedDateTime.minute);
    PutSpec(selectedTimes, zone, own);
    updatedTimes := Put(selectedTimes, zone, own);
    var pending := timezones.Keys;
    ghost var done: set<string> := {};
    while pending != {}
      invariant pending <= timezones.Keys && done <= timezones.Keys
      invariant forall k :: k in timezones ==> k in done || k in pending
      invariant UniqueKeys(updatedTimes) && Keys(updatedTimes) == Keys(selectedTimes)
      invariant Lookup(updatedTimes, zone) == Some(own)
      invariant Converted(timezones, updatedTimes, zone, updatedDateTime, convert, done)
      decreases pending
    {
      var tz :| tz in pending;
      if tz != zone {
        assert tz in Keys(updatedTimes);
        ConvertOne(timezones, updatedTimes, zone, updatedDateTime, convert, done, tz);
        updatedTimes := Put(updatedTimes, tz, convert(updatedDateTime, timezones[zone], timezones[tz]));
      }
      pending := pending - {tz};
      done := done + {tz};
    }
  }

  class ZoneRegistry {
    var timezones: map<string, string>
    var selectedTimes: Entries
    var selectedDay: int
    var reverseOrder: bool

    ghost predicate Valid()
      reads this
    {
      KeysAgree(timezones, selectedTimes)
    }

    /** The component's initial state: the two seeded zones, today's date, natural order. */
    constructor (kolkataNow: string, utcNow: string, today: int)
      ensures Valid()
      ensures selectedTimes == InitialTimes(kolkataNow, utcNow) && timezones == InitialTimezones()
      ensures selectedDay == today && !reverseOrder
    {
      selectedTimes := InitialTimes(kolkataNow, utcNow);
      selectedDay := today;
      reverseOrder := false;
      timezones := InitialTimezones();
      InitialKeysAgree(kolkataNow, utcNow);
    }

    /** `timezoneEntries`: the entries in the order the cards are drawn. */
    function TimezoneEntries(): (cards: Entries)
      reads this
      ensures |cards| == |selectedTimes|
      ensures !reverseOrder ==> cards == selectedTimes
      ensures reverseOrder ==> forall k :: 0 <= k < |cards| ==> cards[k] == selectedTimes[|selectedTimes| - 1 - k]
    {
      Displayed(selectedTimes, reverseOrder)
    }

    /** `handleDateChange`. */
    method HandleDateChange(day: int)
      requires Valid()
      modifies this
      ensures Valid()
      ensures selectedDay == day
      ensures timezones == old(timezones) && selectedTimes == old(selectedTimes) && reverseOrder == old(reverseOrder)
    {
      selectedDay := day;
    }

    /**
     * `handleTimeChange(zone, value)`: the changed zone gets `value` minutes past the
     * selected day's midnight as `HH:mm`, every other zone gets that local date-time
     * converted from the changed zone into its own; no key is added or removed and the
     * order is kept.
     */
    method HandleTimeChange(zone: string, value: int, convert: Converter)
      requires Valid() && zone in timezones
      modifies this
      ensures Valid()
      ensures timezones == old(timezones) && selectedDay == old(selectedDay) && reverseOrder == old(reverseOrder)
      ensures Keys(selectedTimes) == Keys(old(selectedTimes))
      ensures Lookup(selectedTimes, zone) == Some(FormatHHmm(value))
      ensures forall tz :: tz in timezones && tz != zone ==>
        Lookup(selectedTimes, tz) == Some(convert(StartOfDayPlus(selectedDay, value), timezones[zone], timezones[tz]))
    {
      var updatedDateTime := StartOfDayPlus(selectedDay, value);
      assert updatedDateTime.minute == value % MinutesPerDay;
      FormatHHmmOfDay(value);
      var updatedTimes := Retime(timezones, selectedTimes, zone, updatedDateTime, convert);
      selectedTimes := updatedTimes;
    }

    /**
     * `addNewTimezone(option)`: store the label under its sanitised key in both maps; the
     * time is the zone's current `HH:mm`. A key already present keeps its place and gets
     * the new time; a new key goes last.
     */
    method AddNewTimezone(zoneLabel: string, now: string)
      requires Valid()
      modifies this
      ensures Valid()
      ensures timezones == old(timezones)[Sanitise(zoneLabel) := zoneLabel]
      ensures selectedTimes == Put(old(selectedTimes), Sanitise(zoneLabel), now)
      ensures Lookup(selectedTimes, Sanitise(zoneLabel)) == Some(now)
      ensures forall k :: k != Sanitise(zoneLabel) ==> Lookup(selectedTimes, k) == Lookup(old(selectedTimes), k)
      ensures Keys(selectedTimes)
        == if Sanitise(zoneLabel) in old(timezones) then Keys(old(selectedTimes))
           else Keys(old(selectedTimes)) + [Sanitise(zoneLabel)]
      ensures selectedDay == old(selectedDay) && reverseOrder == old(reverseOrder)
    {
      var zone := Sanitise(zoneLabel);
      PutSpec(selectedTimes, zone, now);
      AddKeepsKeysAgree(timezones, selectedTimes, zoneLabel, now);
      timezones := timezones[zone := zoneLabel];
      selectedTimes := Put(selectedTimes, zone, now);
    }

    /** `removeTimezone(zone)`: drop the key from both maps; nothing happens when it is absent. */
    method RemoveTimezone(zone: string)
      requires Valid()
      modifies this
      ensures Valid()
      ensures timezones == old(timezones) - {zone}
      ensures selectedTimes == Delete(old(selectedTimes), zone)
      ensures zone !in timezones && zone !in Keys(selectedTimes)
      ensures forall k :: k != zone ==> Lookup(selectedTimes, k) == Lookup(old(selectedTimes), k)
      ensures zone !in old(timezones) ==> timezones == old(timezones) && selectedTimes == old(selectedTimes)
      ensures selectedDay == old(selectedDay) && reverseOrder == old(reverseOrder)
    {
      var newTimezones := timezones;
      newTimezones := newTimezones - {zone};
      var newSelectedTimes := selectedTimes;
      DeleteSpec(newSelectedTimes, zone);
      RemoveKeepsKeysAgree(timezones, selectedTimes, zone);
      newSelectedTimes := Delete(newSelectedTimes, zone);
      selectedTimes := newSelectedTimes;
      timezones := newTimezones;
    }

    /** `reverseTimezones()`: flip the flag, which reverses the drawn order. */
    method ReverseTimezones()
      requires Valid()
      modifies this
      ensures Valid()
      ensures reverseOrder == !old(reverseOrder)
      ensures TimezoneEntries() == Reversed(old(TimezoneEntries()))
      ensures timezones == old(timezones) && selectedTimes == old(selectedTimes) && selectedDay == old(selectedDay)
    {
      ToggleReverses(selectedTimes, reverseOrder);
      reverseOrder := !reverseOrder;
    }

    /**
     * `onDragEnd({active, over})`: store the drawn entries with `active` moved to the index
     * of `over`; no change when they are the same zone or `over` is null. The flag is left
     * as it is, so with the flag set the stored order is the reversed one.
     */
    method OnDragEnd(active: string, over: Option<string>)
      requires Valid() && active in Keys(selectedTimes) && (over.Some? ==> over.value in Keys(selectedTimes))
      modifies this
      ensures Valid()
      ensures selectedTimes == Drop(old(selectedTimes), reverseOrder, active, over)
      ensures forall k :: Lookup(selectedTimes, k) == Lookup(old(selectedTimes), k)
      ensures timezones == old(timezones) && selectedDay == old(selectedDay) && reverseOrder == old(reverseOrder)
    {
      var times := selectedTimes;
      DropKeepsObject(times, reverseOrder, active, over);
      selectedTimes := Drop(times, reverseOrder, active, over);
    }
  }
}
