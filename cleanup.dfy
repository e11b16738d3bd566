/** The scheduled sweep (index.js:140-172): list the TXT records under the
    domain suffix, pick those created more than ten minutes ago, and ask the
    provider to delete each of them. Dates are integer milliseconds since the
    epoch; a `created_on` that does not parse is None, since `new Date` gives NaN
    and every comparison with NaN is false. */
module Cleanup {
  import opened Wrappers

  /** A record as the provider lists it: its id, its name and `created_on`. */
  datatype DnsRecord = DnsRecord(id: string, name: string, createdOn: Option<int>)

  /** Ten minutes in milliseconds: `10 * 60 * 1000` on index.js:146. */
  const StaleAfterMs: int := 600000

  /** `new Date(record.created_on) < tenMinutesAgo` with `tenMinutesAgo` equal
      to `now - 600000` (index.js:146-147). */
  predicate IsStale(rec: DnsRecord, now: int) {
    rec.createdOn.Some? && rec.createdOn.value < now - StaleAfterMs
  }

  /** `existingRecords.filter(...)` on index.js:147: every record kept is stale,
      and every stale record is kept as often as it is listed. */
  function SelectStale(records: seq<DnsRecord>, now: int): (r: seq<DnsRecord>)
    ensures |r| <= |records|
    ensures forall i :: 0 <= i < |r| ==> IsStale(r[i], now)
    ensures forall x :: multiset(r)[x] == if IsStale(x, now) then multiset(records)[x] else 0
  {
    if |records| == 0 then []
    else
      assert records == [records[0]] + records[1..];
      (if IsStale(records[0], now) then [records[0]] else []) + SelectStale(records[1..], now)
  }

  /** a can be obtained from b by deleting elements: a keeps b's order. */
  predicate IsSubsequence(a: seq<DnsRecord>, b: seq<DnsRecord>)
    decreases |b|
  {
    if |b| == 0 then |a| == 0
    else (|a| > 0 && a[0] == b[0] && IsSubsequence(a[1..], b[1..])) || IsSubsequence(a, b[1..])
  }

  /** The filter keeps the listing's order: the selection is a subsequence of it. */
  lemma {:induction false} SelectStaleKeepsOrder(records: seq<DnsRecord>, now: int)
    ensures IsSubsequence(SelectStale(records, now), records)
  {
    if |records| > 0 {
      var rest := SelectStale(records[1..], now);
      SelectStaleKeepsOrder(records[1..], now);
      if IsStale(records[0], now) {
        assert SelectStale(records, now) == [records[0]] + rest;
        assert ([records[0]] + rest)[1..] == rest;
      } else {
        assert SelectStale(records, now) == rest;
      }
    }
  }

  /** A record that is stale now is stale at every later time: a later sweep
      selects a superset, in the same order. */
  lemma {:induction false} SelectStaleMonotone(records: seq<DnsRecord>, now: int, later: int)
    requires now <= later
    ensures IsSubsequence(SelectStale(records, now), SelectStale(records, later))
  {
    if |records| > 0 {
      var head := records[0];
      var early := SelectStale(records[1..], now);
      var late := SelectStale(records[1..], later);
      SelectStaleMonotone(records[1..], now, later);
      if IsStale(head, now) {
        assert IsStale(head, later);
        assert SelectStale(records, now) == [head] + early;
        assert SelectStale(records, later) == [head] + late;
        assert ([head] + early)[1..] == early;
        assert ([head] + late)[1..] == late;
      } else if IsStale(head, later) {
        assert SelectStale(records, now) == early;
        assert SelectStale(records, later) == [head] + late;
        assert ([head] + late)[1..] == late;
      } else {
        assert SelectStale(records, now) == early;
        assert SelectStale(records, later) == late;
      }
    } else {
      assert SelectStale(records, now) == [];
    }
  }

  /** How a sweep ends: one of the three early returns of index.js:141-150, or
      deletion requests for the selected records. */
  datatype Sweep = ListingFailed | NoRecords | NoneStale | Delete(stale: seq<DnsRecord>)

  /** `cleanupStaleRecords` (index.js:140-172) with the listing (None when
      `listRecords` threw or returned no result) and `Date.now()` as inputs. */
  function CleanupStaleRecords(listing: Option<seq<DnsRecord>>, now: int): (r: Sweep)
    ensures r.ListingFailed? <==> listing.None?
    ensures r.NoRecords? <==> listing == Some([])
    ensures r.Delete? <==> listing.Some? && exists rec :: rec in listing.value && IsStale(rec, now)
    ensures r.Delete? ==> |r.stale| > 0 && r.stale == SelectStale(listing.value, now)
  {
    if listing.None? then ListingFailed
    else if |listing.value| == 0 then NoRecords
    else
      var stale := SelectStale(listing.value, now);
      if |stale| == 0 then
        assert forall rec :: rec in listing.value ==> !IsStale(rec, now) by {
          forall rec | rec in listing.value ensures !IsStale(rec, now) {
            assert multiset(stale)[rec] == 0;
          }
        }
        NoneStale
      else
        assert stale[0] in multiset(stale);
        Delete(stale)
  }

  /** The ids of the DELETE calls a sweep issues, one per selected record
      (index.js:154-171); an early return issues none. */
  function Deletions(sweep: Sweep): seq<string> {
    if sweep.Delete? then seq(|sweep.stale|, i requires 0 <= i < |sweep.stale| => sweep.stale[i].id) else []
  }

  /** The records the sweep deletes are exactly the listed records that are more
      than ten minutes old, by id; a failed or empty listing deletes nothing. */
  lemma DeletesExactlyStale(listing: Option<seq<DnsRecord>>, now: int)
    ensures listing.None? || listing == Some([]) ==> Deletions(CleanupStaleRecords(listing, now)) == []
    ensures listing.Some? ==>
              (set id | id in Deletions(CleanupStaleRecords(listing, now))) ==
              (set rec | rec in listing.value && IsStale(rec, now) :: rec.id)
  {
    if listing.Some? {
      var sweep := CleanupStaleRecords(listing, now);
      var stale := SelectStale(listing.value, now);
      var ids := Deletions(sweep);
      forall id | id in ids ensures exists rec :: rec in listing.value && IsStale(rec, now) && rec.id == id {
        var i :| 0 <= i < |ids| && ids[i] == id;
        assert stale[i] in multiset(stale);
      }
      forall rec | rec in listing.value && IsStale(rec, now) ensures rec.id in ids {
        assert multiset(stale)[rec] > 0;
        var i :| 0 <= i < |stale| && stale[i] == rec;
        assert ids[i] == rec.id;
      }
    }
  }

  /** The boundary of the policy: with ages 5, 9, 10, 11 and 60 minutes, only the
      11- and 60-minute records are selected; one exactly ten minutes old stays. */
  lemma BoundaryExample(now: int)
    ensures
      var r5 := DnsRecord("a", "x", Some(now - 300000));
      var r9 := DnsRecord("b", "x", Some(now - 540000));
      var r10 := DnsRecord("c", "x", Some(now - 600000));
      var r11 := DnsRecord("d", "x", Some(now - 660000));
      var r60 := DnsRecord("e", "x", Some(now - 3600000));
      SelectStale([r5, r9, r10, r11, r60], now) == [r11, r60]
  {
    var r5 := DnsRecord("a", "x", Some(now - 300000));
    var r9 := DnsRecord("b", "x", Some(now - 540000));
    var r10 := DnsRecord("c", "x", Some(now - 600000));
    var r11 := DnsRecord("d", "x", Some(now - 660000));
    var r60 := DnsRecord("e", "x", Some(now - 3600000));
    var s := [r5, r9, r10, r11, r60];
    assert SelectStale(s[4..], now) == [r60] by {
      assert s[4..] == [r60] && s[4..][1..] == [];
    }
    assert SelectStale(s[3..], now) == [r11, r60] by {
      assert s[3..][0] == r11 && s[3..][1..] == s[4..];
    }
    assert SelectStale(s[2..], now) == [r11, r60] by {
      assert s[2..][0] == r10 && s[2..][1..] == s[3..];
    }
    assert SelectStale(s[1..], now) == [r11, r60] by {
      assert s[1..][0] == r9 && s[1..][1..] == s[2..];
    }
  }
}
