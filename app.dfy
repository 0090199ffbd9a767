/** What the two views show for one day and part of day when that slot
    holds several readings.  App hands the history list and the chart the
    same listing, the newest-first result of `getAllRecords`; the history's
    grouping keeps the last reading of a slot and the chart takes the first. */
module App {
  import opened Wrappers
  import opened Db
  import opened RecordsList
  import opened Chart

  /** On a newest-first listing the chart shows a newest reading of the slot. */
  lemma ChartShowsNewest(rs: seq<Record>, date: string, t: Slot)
    requires NewestFirst(rs) && FirstMatch(rs, date, t).Some?
    ensures forall i :: 0 <= i < |rs| && Matches(rs[i], date, t) ==>
      rs[i].timestamp <= FirstMatch(rs, date, t).value.timestamp
  {
    var k :| 0 <= k < |rs| && rs[k] == FirstMatch(rs, date, t).value && Matches(rs[k], date, t)
      && (forall j :: 0 <= j < k ==> !Matches(rs[j], date, t));
    forall i | 0 <= i < |rs| && Matches(rs[i], date, t)
      ensures rs[i].timestamp <= rs[k].timestamp
    {
      assert k <= i;
    }
  }

  /** On a newest-first listing the history shows an oldest reading of the slot. */
  lemma HistoryShowsOldest(rs: seq<Record>, date: string, t: Slot)
    requires NewestFirst(rs) && LastMatch(rs, date, t).Some?
    ensures forall i :: 0 <= i < |rs| && Matches(rs[i], date, t) ==>
      LastMatch(rs, date, t).value.timestamp <= rs[i].timestamp
  {
    var k :| 0 <= k < |rs| && rs[k] == LastMatch(rs, date, t).value && Matches(rs[k], date, t)
      && (forall j :: k < j < |rs| ==> !Matches(rs[j], date, t));
    forall i | 0 <= i < |rs| && Matches(rs[i], date, t)
      ensures rs[k].timestamp <= rs[i].timestamp
    {
      assert i <= k;
    }
  }

  /** When a slot holds readings with different timestamps, the chart and
      the history show different readings for it. */
  lemma ViewsDisagreeOnDuplicates(rs: seq<Record>, date: string, t: Slot, i: nat, j: nat)
    requires NewestFirst(rs) && i < |rs| && j < |rs|
    requires Matches(rs[i], date, t) && Matches(rs[j], date, t) && rs[i].timestamp < rs[j].timestamp
    ensures FirstMatch(rs, date, t).Some? && LastMatch(rs, date, t).Some?
    ensures FirstMatch(rs, date, t).value.timestamp >= rs[j].timestamp
    ensures LastMatch(rs, date, t).value.timestamp <= rs[i].timestamp
    ensures FirstMatch(rs, date, t) != LastMatch(rs, date, t)
  {
    ChartShowsNewest(rs, date, t);
    HistoryShowsOldest(rs, date, t);
  }
}
