/** StreamBuffer of backend/eventsourcing/event_replay.js: a sliding window over one event stream. */
module StreamBuffers {

  datatype Record = Record(sequenceNumber: int, payload: string, previousHash: string, hash: string)

  datatype PushResult = Invalid | DuplicateIgnored | Accepted(hash: string, bufferSize: nat)

  datatype Gap = Gap(fromSeq: int, toSeq: int, missingCount: int)

  datatype Replay =
    | EmptyBuffer
    | Overrun(lowest: int, highest: int, evictedCount: int, events: seq<Record>)
    | Ok(events: seq<Record>, gaps: seq<Gap>)

  /** computeEventHash, left open. */
  type Hash = (string, int, string, string) -> string

  // ---- windows ------------------------------------------------------------

  ghost predicate Sorted(events: seq<Record>) {
    forall i, j :: 0 <= i < j < |events| ==> events[i].sequenceNumber < events[j].sequenceNumber
  }

  ghost function Numbers(events: seq<Record>): set<int> {
    set i | 0 <= i < |events| :: events[i].sequenceNumber
  }

  /** The map has exactly the listed records, under their numbers. */
  ghost predicate Agrees(m: map<int, Record>, events: seq<Record>) {
    && (forall k :: k in m ==> m[k] in events && m[k].sequenceNumber == k)
    && (forall i :: 0 <= i < |events| ==> events[i].sequenceNumber in m && m[events[i].sequenceNumber] == events[i])
  }

  /** kept is the n largest members of all, or everything if there are fewer. */
  ghost predicate Largest(all: set<int>, kept: set<int>, n: nat) {
    && kept <= all && |kept| == (if |all| < n then |all| else n)
    && forall k, r :: k in all && k !in kept && r in kept ==> k < r
  }

  ghost predicate IsMax(all: set<int>, highest: int) {
    if all == {} then highest == 0 else highest in all && forall k :: k in all ==> k <= highest
  }

  function LowestOf(events: seq<Record>): int { if events == [] then 0 else events[0].sequenceNumber }

  lemma SmallerOrSame<T>(a: set<T>, b: set<T>)
    requires a <= b
    ensures |a| <= |b| && (|a| == |b| ==> a == b)
  {
    assert b == a + (b - a);
  }

  lemma NumbersAppend(events: seq<Record>, e: Record)
    ensures Numbers(events + [e]) == Numbers(events) + {e.sequenceNumber}
  {
    var all := events + [e];
    forall k | k in Numbers(events) ensures k in Numbers(all) {
      var i :| 0 <= i < |events| && events[i].sequenceNumber == k;
      assert all[i].sequenceNumber == k;
    }
    assert all[|events|] == e;
  }

  lemma {:induction false} NumbersCount(events: seq<Record>)
    requires Sorted(events)
    ensures |Numbers(events)| == |events|
  {
    if events != [] {
      var front, last := events[..|events| - 1], events[|events| - 1];
      NumbersCount(front);
      NumbersAppend(front, last);
      assert front + [last] == events;
    }
  }

  /** A number that has been seen but is no longer kept lies below a full window. */
  lemma LeftBehind(all: set<int>, kept: set<int>, n: nat, k: int)
    requires Largest(all, kept, n) && k in all && k !in kept
    ensures |kept| == n && forall r :: r in kept ==> k < r
  {
    SmallerOrSame(kept, all);
  }

  /** Adding a number and dropping the smallest of a full window keeps the largest ones. */
  lemma LargestAfterPush(all: set<int>, kept: set<int>, n: nat, k: int, kept': set<int>)
    requires Largest(all, kept, n) && k !in kept
    requires
      if |kept| < n then kept' == kept + {k}
      else exists low :: low in kept + {k} && (forall r :: r in kept + {k} ==> low <= r) && kept' == kept + {k} - {low}
    ensures Largest(all + {k}, kept', n)
  {
    SmallerOrSame(kept, all);
    if k in all {
      LeftBehind(all, kept, n, k);
      assert all + {k} == all;
      assert kept' == kept;
    } else {
      assert |all + {k}| == |all| + 1 && |kept + {k}| == |kept| + 1;
      if |kept| == n {
        var low :| low in kept + {k} && (forall r :: r in kept + {k} ==> low <= r) && kept' == kept + {k} - {low};
        assert |kept'| == n;
        forall j, r | j in all + {k} && j !in kept' && r in kept' ensures j < r {
          if j != low && j != k {
            assert j in all && j !in kept;
            if r == k && low in kept {
              assert j < low;
            }
          }
        }
      }
    }
  }

  function Inserted(events: seq<Record>, low: nat, e: Record): (grown: seq<Record>)
    requires low <= |events|
    ensures |grown| == |events| + 1
    ensures forall i :: 0 <= i < |grown| ==> grown[i] == if i < low then events[i] else if i == low then e else events[i - 1]
  {
    events[..low] + [e] + events[low..]
  }

  lemma InsertAt(events: seq<Record>, low: nat, e: Record)
    requires Sorted(events) && low <= |events|
    requires forall i :: 0 <= i < low ==> events[i].sequenceNumber < e.sequenceNumber
    requires forall i :: low <= i < |events| ==> e.sequenceNumber < events[i].sequenceNumber
    ensures Sorted(Inserted(events, low, e))
    ensures Numbers(Inserted(events, low, e)) == Numbers(events) + {e.sequenceNumber}
  {
    var grown := Inserted(events, low, e);
    forall k | k in Numbers(events) + {e.sequenceNumber} ensures k in Numbers(grown) {
      if k == e.sequenceNumber {
        assert grown[low] == e;
      } else {
        var i :| 0 <= i < |events| && events[i].sequenceNumber == k;
        assert grown[if i < low then i else i + 1] == events[i];
      }
    }
  }

  lemma AgreesInsert(m: map<int, Record>, events: seq<Record>, low: nat, e: Record)
    requires Agrees(m, events) && e.sequenceNumber !in m && low <= |events|
    ensures Agrees(m[e.sequenceNumber := e], Inserted(events, low, e))
  {
    var grown := Inserted(events, low, e);
    var m' := m[e.sequenceNumber := e];
    forall k | k in m' ensures m'[k] in grown {
      if k == e.sequenceNumber {
        assert grown[low] == e;
      } else {
        assert m[k] in events;
        var i :| 0 <= i < |events| && events[i] == m[k];
        assert grown[if i < low then i else i + 1] == events[i];
      }
    }
  }

  /** Dropping the first record drops the smallest number. */
  lemma DropFirst(m: map<int, Record>, events: seq<Record>)
    requires Agrees(m, events) && Sorted(events) && events != []
    ensures Agrees(m - {events[0].sequenceNumber}, events[1..]) && Sorted(events[1..])
    ensures Numbers(events[1..]) == Numbers(events) - {events[0].sequenceNumber}
    ensures forall k :: k in Numbers(events) ==> events[0].sequenceNumber <= k
  {
    var rest, first := events[1..], events[0].sequenceNumber;
    forall k | k in m - {first} ensures m[k] in rest {
      var i :| 0 <= i < |events| && events[i] == m[k];
      assert rest[i - 1] == events[i];
    }
    forall k | k in Numbers(events) && k != first ensures k in Numbers(rest) {
      var i :| 0 <= i < |events| && events[i].sequenceNumber == k;
      assert rest[i - 1] == events[i];
    }
  }

  // ---- gaps ---------------------------------------------------------------

  /** One entry for every jump between neighbours. */
  function Gaps(events: seq<Record>): seq<Gap> {
    if |events| <= 1 then []
    else
      var n := |events| - 1;
      var a, b := events[n - 1].sequenceNumber, events[n].sequenceNumber;
      if b > a + 1 then Gaps(events[..n]) + [Gap(a + 1, b - 1, b - a - 1)] else Gaps(events[..n])
  }

  ghost predicate Covers(gaps: seq<Gap>, x: int) {
    exists g :: g in gaps && g.fromSeq <= x <= g.toSeq
  }

  function TotalMissing(gaps: seq<Gap>): int {
    if gaps == [] then 0 else TotalMissing(gaps[..|gaps| - 1]) + gaps[|gaps| - 1].missingCount
  }

  lemma UpToLast(events: seq<Record>, x: int)
    requires Sorted(events) && events != []
    ensures events[|events| - 1].sequenceNumber in Numbers(events)
    ensures x in Numbers(events) ==> x <= events[|events| - 1].sequenceNumber
  {
  }

  lemma {:induction false} GapsAreMissing(events: seq<Record>, x: int)
    requires Sorted(events) && events != []
    ensures Covers(Gaps(events), x) <==>
      events[0].sequenceNumber < x < events[|events| - 1].sequenceNumber && x !in Numbers(events)
  {
    hide Covers, Numbers;
    var n := |events| - 1;
    UpToLast(events, x);
    if n > 0 {
      var front := events[..n];
      var a, b := front[n - 1].sequenceNumber, events[n].sequenceNumber;
      GapsAreMissing(front, x);
      UpToLast(front, x);
      NumbersAppend(front, events[n]);
      assert events == front + [events[n]];
      CoversAppend(Gaps(front), Gap(a + 1, b - 1, b - a - 1), x);
    } else {
      NoGaps(x);
    }
  }

  lemma GapsExact(events: seq<Record>)
    requires Sorted(events) && events != []
    ensures forall x :: Covers(Gaps(events), x) <==>
      (events[0].sequenceNumber < x < events[|events| - 1].sequenceNumber && x !in Numbers(events))
    ensures TotalMissing(Gaps(events)) == events[|events| - 1].sequenceNumber - events[0].sequenceNumber + 1 - |events|
  {
    hide *;
    forall x ensures Covers(Gaps(events), x) <==>
      (events[0].sequenceNumber < x < events[|events| - 1].sequenceNumber && x !in Numbers(events))
    {
      GapsAreMissing(events, x);
    }
    GapsTotal(events);
  }

  lemma NoGapsInOne(events: seq<Record>)
    ensures |events| <= 1 ==> Gaps(events) == []
  {
  }

  lemma NoGaps(x: int)
    ensures !Covers([], x)
  {
  }

  lemma CoversAppend(gaps: seq<Gap>, g: Gap, x: int)
    ensures Covers(gaps + [g], x) <==> Covers(gaps, x) || g.fromSeq <= x <= g.toSeq
  {
    if Covers(gaps, x) {
      var h :| h in gaps && h.fromSeq <= x <= h.toSeq;
      assert h in gaps + [g];
    }
    if g.fromSeq <= x <= g.toSeq {
      assert g in gaps + [g];
    }
  }

  /** The missing counts add up: numbers in the window less records kept. */
  lemma {:induction false} GapsTotal(events: seq<Record>)
    requires Sorted(events) && events != []
    ensures TotalMissing(Gaps(events)) == events[|events| - 1].sequenceNumber - events[0].sequenceNumber + 1 - |events|
  {
    var n := |events| - 1;
    if n > 0 {
      GapsTotal(events[..n]);
      var a, b := events[n - 1].sequenceNumber, events[n].sequenceNumber;
      var front := Gaps(events[..n]);
      assert (front + [Gap(a + 1, b - 1, b - a - 1)])[..|front|] == front;
    }
  }

  /** The scan of detectGaps, used for the whole window and for a replayed part of it. */
  method FindGaps(events: seq<Record>) returns (gaps: seq<Gap>)
    ensures gaps == Gaps(events)
  {
    gaps := [];
    if |events| <= 1 {
      return;
    }
    for i := 0 to |events| - 1
      invariant gaps == Gaps(events[..i + 1])
    {
      var currentSeq, nextSeq := events[i].sequenceNumber, events[i + 1].sequenceNumber;
      assert events[..i + 2][..i + 1] == events[..i + 1];
      if nextSeq > currentSeq + 1 {
        gaps := gaps + [Gap(currentSeq + 1, nextSeq - 1, nextSeq - currentSeq - 1)];
      }
    }
    assert events[..|events|] == events;
  }

  // ---- the buffer ---------------------------------------------------------

  /** slice(0, n). */
  function Slice(events: seq<Record>, n: int): seq<Record> {
    if n >= |events| then events
    else if n >= 0 then events[..n]
    else if -n <= |events| then events[..|events| + n]
    else []
  }

  /** A prefix of n events, or of all but the last -n. */
  lemma SliceIs(events: seq<Record>, n: int)
    ensures Slice(events, n) <= events
    ensures n >= 0 ==> |Slice(events, n)| == if n < |events| then n else |events|
    ensures n < 0 ==> |Slice(events, n)| == if |events| + n > 0 then |events| + n else 0
  {
  }

  /** The first position whose number is at least startSeq. */
  function FirstFrom(events: seq<Record>, startSeq: int): (k: nat)
    ensures k <= |events|
  {
    if events == [] then 0
    else if events[|events| - 1].sequenceNumber < startSeq then |events|
    else FirstFrom(events[..|events| - 1], startSeq)
  }

  lemma {:induction false} FirstFromSplits(events: seq<Record>, startSeq: int)
    requires Sorted(events)
    ensures forall i :: 0 <= i < FirstFrom(events, startSeq) ==> events[i].sequenceNumber < startSeq
    ensures forall i :: FirstFrom(events, startSeq) <= i < |events| ==> events[i].sequenceNumber >= startSeq
  {
    if events != [] && events[|events| - 1].sequenceNumber >= startSeq {
      FirstFromSplits(events[..|events| - 1], startSeq);
    }
  }

  /** The loop of getMissedEvents counts after it has taken an event, so it takes one at least. */
  function Window(events: seq<Record>, startSeq: int, maxCount: int): seq<Record> {
    var k, n := FirstFrom(events, startSeq), if maxCount < 1 then 1 else maxCount;
    if k + n <= |events| then events[k..k + n] else events[k..]
  }

  /** From a number inside the window on, the window has everything that was ever seen. */
  lemma NothingMissed(all: set<int>, events: seq<Record>, n: nat, startSeq: int, x: int)
    requires Sorted(events) && Largest(all, Numbers(events), n) && events != [] && startSeq >= events[0].sequenceNumber
    requires x in all && x >= startSeq
    ensures x in Numbers(events[FirstFrom(events, startSeq)..])
  {
    var k := FirstFrom(events, startSeq);
    FirstFromSplits(events, startSeq);
    assert events[0].sequenceNumber in Numbers(events);
    var i :| 0 <= i < |events| && events[i].sequenceNumber == x;
    assert events[k..][i - k] == events[i];
  }

  class StreamBuffer {
    const streamId: string
    const maxBufferSize: nat
    const hashOf: Hash
    var events: seq<Record>
    var sequenceMap: map<int, Record>
    var highestSequenceSeen: int
    var lowestSequenceRetained: int
    var totalEventsIngested: int
    var totalEvictedEvents: int
    var detectedGapCount: int

    /** Every number ever accepted, with the payload it first came with. */
    ghost var seen: map<int, string>

    ghost predicate Valid()
      reads this
    {
      && Sorted(events) && Agrees(sequenceMap, events)
      && Largest(seen.Keys, Numbers(events), maxBufferSize)
      && (forall i :: 0 <= i < |events| ==> Sealed(hashOf, streamId, seen, events[i]))
      && (forall k :: k in seen ==> k > 0)
      && IsMax(seen.Keys, highestSequenceSeen) && lowestSequenceRetained == LowestOf(events)
      && totalEventsIngested == |events| + totalEvictedEvents
    }

    constructor (streamId: string, maxBufferSize: nat, hashOf: Hash)
      ensures Valid() && seen == map[] && events == [] && totalEventsIngested == totalEvictedEvents == detectedGapCount == 0
      ensures this.streamId == streamId && this.maxBufferSize == maxBufferSize && this.hashOf == hashOf
    {
      this.streamId, this.maxBufferSize, this.hashOf := streamId, maxBufferSize, hashOf;
      events, sequenceMap, seen := [], map[], map[];
      highestSequenceSeen, lowestSequenceRetained := 0, 0;
      totalEventsIngested, totalEvictedEvents, detectedGapCount := 0, 0, 0;
    }

    /** The binary search of pushEvent. */
    method FindPlace(k: int) returns (low: nat)
      requires Sorted(events)
      ensures low <= |events|
      ensures forall i :: 0 <= i < low ==> events[i].sequenceNumber < k
      ensures forall i :: low <= i < |events| ==> events[i].sequenceNumber >= k
    {
      low := 0;
      var high := |events|;
      while low < high
        invariant 0 <= low <= high <= |events|
        invariant forall i :: 0 <= i < low ==> events[i].sequenceNumber < k
        invariant forall i :: high <= i < |events| ==> events[i].sequenceNumber >= k
      {
        var mid := (low + high) / 2;
        if events[mid].sequenceNumber < k {
          low := mid + 1;
        } else {
          high := mid;
        }
      }
    }

    /** pushEvent. Whatever the arrival order, the window holds the largest numbers seen, each with its
        first payload; every accepted record is either kept or counted as evicted. */
    method PushEvent(k: int, payload: string) returns (r: PushResult)
      requires Valid()
      modifies this
      ensures Valid()
      ensures r.Invalid? <==> k <= 0
      ensures r.DuplicateIgnored? <==> k > 0 && k in old(sequenceMap)
      ensures !r.Accepted? ==> unchanged(this)
      ensures r.Accepted? ==> totalEventsIngested == old(totalEventsIngested) + 1 && r.bufferSize == |events|
      ensures r.Accepted? ==> seen == if k in old(seen) then old(seen) else old(seen)[k := payload]
      ensures r.Accepted? && k in old(seen) ==> events == old(events)
      ensures r.Accepted? ==>
        var last := if k - 1 in old(sequenceMap) then old(sequenceMap)[k - 1].hash
                    else if old(events) == [] then "GENESIS" else old(events)[|old(events)| - 1].hash;
        && r.hash == hashOf(streamId, k, payload, if last == "" then "GENESIS" else last)
        && (k in sequenceMap ==> sequenceMap[k] == Record(k, payload, last, r.hash))
      ensures r.Accepted? ==> detectedGapCount == old(detectedGapCount) + Jump(old(highestSequenceSeen), k)
    {
      hide Sorted, Agrees, Largest, Numbers, Sealed;
      if k <= 0 {
        return Invalid;
      }
      if k in sequenceMap {
        return DuplicateIgnored;
      }
      var previousHash := if k - 1 in sequenceMap then sequenceMap[k - 1].hash
                          else if |events| > 0 then events[|events| - 1].hash else "GENESIS";
      var hash := hashOf(streamId, k, payload, if previousHash == "" then "GENESIS" else previousHash);
      var e := Record(k, payload, previousHash, hash);
      Accept(e);
      if k > highestSequenceSeen {
        if highestSequenceSeen > 0 && k > highestSequenceSeen + 1 {
          detectedGapCount := detectedGapCount + (k - highestSequenceSeen - 1);
        }
        highestSequenceSeen := k;
      }
      lowestSequenceRetained := LowestOf(events);
      r := Accepted(hash, |events|);
    }

    /** The part of pushEvent that changes the window: splice, map entry and eviction. */
    method Accept(e: Record)
      requires Valid() && e.sequenceNumber > 0 && e.sequenceNumber !in sequenceMap
      requires e.hash == hashOf(streamId, e.sequenceNumber, e.payload, if e.previousHash == "" then "GENESIS" else e.previousHash)
      modifies `events, `sequenceMap, `totalEventsIngested, `totalEvictedEvents, `seen
      ensures Sorted(events) && Agrees(sequenceMap, events) && Largest(seen.Keys, Numbers(events), maxBufferSize)
      ensures forall i :: 0 <= i < |events| ==> Sealed(hashOf, streamId, seen, events[i])
      ensures seen == if e.sequenceNumber in old(seen) then old(seen) else old(seen)[e.sequenceNumber := e.payload]
      ensures totalEventsIngested == old(totalEventsIngested) + 1 && totalEventsIngested == |events| + totalEvictedEvents
      ensures e.sequenceNumber in old(seen) ==> events == old(events)
      ensures e.sequenceNumber in sequenceMap ==> sequenceMap[e.sequenceNumber] == e
    {
      hide Sorted, Agrees, Largest, Numbers, Sealed, IsMax, Evicted, Valid;
      ghost var before, all := events, seen;
      var k := e.sequenceNumber;
      WindowFacts();
      var low := FindPlace(k);
      SortedFacts(events, low, e, sequenceMap);
      InsertAt(events, low, e);
      AgreesInsert(sequenceMap, events, low, e);
      events := Inserted(events, low, e);
      sequenceMap := sequenceMap[k := e];
      totalEventsIngested := totalEventsIngested + 1;
      ghost var grown := events;
      Evict();
      ghost var next := if k in all then all else all[k := e.payload];
      Settled(hashOf, streamId, all, next, before, events, low, e, maxBufferSize);
      KeptEntry(sequenceMap, events, grown, low, e, maxBufferSize);
      seen := next;
    }

    /** The eviction loop. */
    method Evict()
      requires Sorted(events) && Agrees(sequenceMap, events) && |events| <= maxBufferSize + 1
      modifies `events, `sequenceMap, `totalEvictedEvents
      ensures Sorted(events) && Agrees(sequenceMap, events) && |events| <= maxBufferSize
      ensures Evicted(old(events), events, maxBufferSize)
      ensures |events| + totalEvictedEvents == |old(events)| + old(totalEvictedEvents)
    {
      hide Sorted, Agrees;
      ghost var grown := events;
      while |events| > maxBufferSize
        invariant Sorted(events) && Agrees(sequenceMap, events)
        invariant if totalEvictedEvents == old(totalEvictedEvents) then events == grown
          else |grown| > maxBufferSize && events == grown[1..] && totalEvictedEvents == old(totalEvictedEvents) + 1
               && Numbers(events) == Numbers(grown) - {grown[0].sequenceNumber}
               && forall n :: n in Numbers(grown) ==> grown[0].sequenceNumber <= n
      {
        DropFirst(sequenceMap, events);
        var evicted := events[0];
        events := events[1..];
        sequenceMap := sequenceMap - {evicted.sequenceNumber};
        totalEvictedEvents := totalEvictedEvents + 1;
      }
    }

    lemma WindowFacts()
      requires Valid()
      ensures |events| <= maxBufferSize && Sorted(events) && Agrees(sequenceMap, events)
      ensures totalEventsIngested == |events| + totalEvictedEvents
      ensures Largest(seen.Keys, Numbers(events), maxBufferSize)
      ensures forall i :: 0 <= i < |events| ==> Sealed(hashOf, streamId, seen, events[i])
    {
      NumbersCount(events);
    }

    /** detectGaps lists exactly the numbers missing between the lowest and the highest kept. */
    method DetectGaps() returns (gaps: seq<Gap>)
      requires Valid()
      ensures |events| <= 1 ==> gaps == []
      ensures |events| > 0 ==> forall x :: Covers(gaps, x) <==>
        (events[0].sequenceNumber < x < events[|events| - 1].sequenceNumber && x !in Numbers(events))
      ensures |events| > 0 ==>
        TotalMissing(gaps) == events[|events| - 1].sequenceNumber - events[0].sequenceNumber + 1 - |events|
    {
      hide *;
      WindowFacts();
      gaps := FindGaps(events);
      NoGapsInOne(events);
      if |events| > 0 {
        GapsExact(events);
      }
    }

    /** getMissedEvents. An answer that was not cut short holds every number ever pushed from startSeq on;
        a caller who asks for less than the lowest number kept is told to take a snapshot. */
    method GetMissedEvents(startSeq: int, maxCount: int) returns (r: Replay)
      requires Valid()
      ensures r.EmptyBuffer? <==> events == []
      ensures r.Overrun? <==> events != [] && startSeq < events[0].sequenceNumber
      ensures r.Overrun? ==>
        r.lowest == events[0].sequenceNumber && r.evictedCount == r.lowest - startSeq
        && r.highest == highestSequenceSeen && r.events == Slice(events, maxCount)
      ensures r.Ok? ==> r.events == Window(events, startSeq, maxCount) && r.gaps == Gaps(r.events)
      ensures r.Ok? && |r.events| < maxCount ==> forall x :: x in seen && x >= startSeq ==> x in Numbers(r.events)
    {
      hide Agrees, Largest, Numbers, Sealed;
      WindowFacts();
      if |events| == 0 {
        return EmptyBuffer;
      }
      if startSeq < lowestSequenceRetained {
        return Overrun(lowestSequenceRetained, highestSequenceSeen, lowestSequenceRetained - startSeq, Slice(events, maxCount));
      }
      var matched := CollectFrom(startSeq, maxCount);
      var gaps := FindGaps(matched);
      if |matched| < maxCount {
        assert matched == events[FirstFrom(events, startSeq)..];
        forall x | x in seen && x >= startSeq ensures x in Numbers(matched) {
          NothingMissed(seen.Keys, events, maxBufferSize, startSeq, x);
        }
      }
      r := Ok(matched, gaps);
    }

    method CollectFrom(startSeq: int, maxCount: int) returns (matched: seq<Record>)
      requires Sorted(events)
      ensures matched == Window(events, startSeq, maxCount)
    {
      FirstFromSplits(events, startSeq);
      ghost var k := FirstFrom(events, startSeq);
      matched := [];
      for i := 0 to |events|
        invariant i <= k ==> matched == []
        invariant i > k ==> matched == events[k..i] && |matched| < maxCount
      {
        if events[i].sequenceNumber >= startSeq {
          assert events[k..i + 1] == events[k..i] + [events[i]];
          matched := matched + [events[i]];
          if |matched| >= maxCount {
            return;
          }
        }
      }
    }
  }

  /** A kept record carries the first payload of its number and the hash of its own fields. */
  ghost predicate Sealed(hashOf: Hash, streamId: string, seen: map<int, string>, e: Record) {
    && e.sequenceNumber in seen && e.payload == seen[e.sequenceNumber]
    && e.hash == hashOf(streamId, e.sequenceNumber, e.payload, if e.previousHash == "" then "GENESIS" else e.previousHash)
  }

  lemma KeptEntry(m: map<int, Record>, after: seq<Record>, grown: seq<Record>, low: nat, e: Record, n: nat)
    requires Agrees(m, after) && Sorted(grown) && low < |grown| && grown[low] == e && Evicted(grown, after, n)
    ensures e.sequenceNumber in m ==> m[e.sequenceNumber] == e
  {
    if e.sequenceNumber in m {
      var i :| 0 <= i < |after| && after[i] == m[e.sequenceNumber];
      assert after[i] == grown[if after == grown then i else i + 1];
    }
  }

  /** Numbers skipped when k arrives above the highest number so far. */
  function Jump(highest: int, k: int): int { if 0 < highest < k then k - highest - 1 else 0 }

  lemma SortedFacts(events: seq<Record>, low: nat, e: Record, m: map<int, Record>)
    requires Sorted(events) && low <= |events| && Agrees(m, events) && e.sequenceNumber !in m
    requires forall i :: low <= i < |events| ==> events[i].sequenceNumber >= e.sequenceNumber
    ensures forall i :: low <= i < |events| ==> e.sequenceNumber < events[i].sequenceNumber
    ensures e.sequenceNumber !in Numbers(events)
  {
  }

  lemma PushedLargest(all: set<int>, before: seq<Record>, grown: seq<Record>, after: seq<Record>, n: nat, k: int)
    requires Sorted(before) && Largest(all, Numbers(before), n) && k !in Numbers(before)
    requires |grown| == |before| + 1 && Numbers(grown) == Numbers(before) + {k} && Evicted(grown, after, n)
    ensures Largest(all + {k}, Numbers(after), n)
  {
    NumbersCount(before);
    LargestAfterPush(all, Numbers(before), n, k, Numbers(after));
  }

  /** What the eviction loop leaves of a window that is at most one too long. */
  ghost predicate Evicted(grown: seq<Record>, after: seq<Record>, n: nat) {
    if |grown| <= n then after == grown
    else
      && after == grown[1..] && Numbers(after) == Numbers(grown) - {grown[0].sequenceNumber}
      && grown[0].sequenceNumber in Numbers(grown)
      && forall r :: r in Numbers(grown) ==> grown[0].sequenceNumber <= r
  }

  /** All records of the window are sealed again once the new number is seen. */
  lemma NewlySeen(hashOf: Hash, streamId: string, all: map<int, string>, before: seq<Record>, after: seq<Record>, low: nat,
                  e: Record)
    requires e.sequenceNumber !in all && low <= |before|
    requires after == Inserted(before, low, e) || after == Inserted(before, low, e)[1..]
    requires forall i :: 0 <= i < |before| ==> Sealed(hashOf, streamId, all, before[i])
    requires e.hash == hashOf(streamId, e.sequenceNumber, e.payload, if e.previousHash == "" then "GENESIS" else e.previousHash)
    ensures forall i :: 0 <= i < |after| ==> Sealed(hashOf, streamId, all[e.sequenceNumber := e.payload], after[i])
  {
    var grown := Inserted(before, low, e);
    forall i | 0 <= i < |grown| ensures Sealed(hashOf, streamId, all[e.sequenceNumber := e.payload], grown[i]) {
      if i != low {
        assert Sealed(hashOf, streamId, all, before[if i < low then i else i - 1]);
      }
    }
  }

  /** What is true of the window after a push. */
  lemma Settled(hashOf: Hash, streamId: string, all: map<int, string>, next: map<int, string>, before: seq<Record>,
                after: seq<Record>, low: nat, e: Record, n: nat)
    requires Sorted(before) && Largest(all.Keys, Numbers(before), n) && e.sequenceNumber !in Numbers(before)
    requires low <= |before| && forall i :: 0 <= i < low ==> before[i].sequenceNumber < e.sequenceNumber
    requires Numbers(Inserted(before, low, e)) == Numbers(before) + {e.sequenceNumber}
    requires Evicted(Inserted(before, low, e), after, n)
    requires next == if e.sequenceNumber in all then all else all[e.sequenceNumber := e.payload]
    requires forall i :: 0 <= i < |before| ==> Sealed(hashOf, streamId, all, before[i])
    requires e.hash == hashOf(streamId, e.sequenceNumber, e.payload, if e.previousHash == "" then "GENESIS" else e.previousHash)
    ensures Largest(next.Keys, Numbers(after), n)
    ensures forall i :: 0 <= i < |after| ==> Sealed(hashOf, streamId, next, after[i])
    ensures e.sequenceNumber in all ==> after == before
  {
    hide Sorted, Largest, Numbers, Sealed;
    var k := e.sequenceNumber;
    PushedLargest(all.Keys, before, Inserted(before, low, e), after, n, k);
    assert next.Keys == all.Keys + {k};
    if k in all {
      SeenIsDropped(all.Keys, before, n, low, e);
    } else {
      NewlySeen(hashOf, streamId, all, before, after, low, e);
    }
  }

  /** A number that was seen but is not kept is smaller than all that are kept, and is dropped again. */
  lemma SeenIsDropped(all: set<int>, before: seq<Record>, n: nat, low: nat, e: Record)
    requires Sorted(before) && Largest(all, Numbers(before), n) && e.sequenceNumber in all && e.sequenceNumber !in Numbers(before)
    requires low <= |before| && forall i :: 0 <= i < low ==> before[i].sequenceNumber < e.sequenceNumber
    ensures low == 0 && |before| == n && Inserted(before, low, e)[1..] == before
  {
    LeftBehind(all, Numbers(before), n, e.sequenceNumber);
    NumbersCount(before);
    assert |before| > 0 ==> before[0].sequenceNumber in Numbers(before);
  }
}
