/** `BusinessHours.get_slots`: the bookable start times of a day, spaced
    by a fixed stride, skipping the break and never passing midnight. */
module Slots {
  import opened Base
  import opened Clock
  import opened Hours
  import opened Settings

  /** Where the generator stands once it has arrived at position `p`: a
      position inside the break is moved forward to the break's end. */
  function Enter(h: BusinessHours, p: int): (q: int)
    ensures p <= q && !InBreak(h, q)
    ensures !InBreak(h, p) ==> q == p
  {
    if InBreak(h, p) then h.breakEnd.value else p
  }

  /** Every element of `s` is at least `lo`, before closing, and outside the break. */
  predicate WithinHours(h: BusinessHours, lo: int, s: seq<int>) {
    forall i :: 0 <= i < |s| ==> lo <= s[i] < h.closeTime && !InBreak(h, s[i])
  }

  /** The slots emitted by the generator loop once its position is `cur`. */
  function SlotsFrom(h: BusinessHours, duration: int, cur: Minute): (r: seq<Minute>)
    requires duration > 0
    ensures WithinHours(h, cur, r)
    ensures |r| == 0 <==> h.closeTime <= Enter(h, cur)
    decreases h.closeTime - cur
  {
    if cur >= h.closeTime then []
    else if InBreak(h, cur) then SlotsFrom(h, duration, h.breakEnd.value)
    else
      var total := cur + duration;
      if total >= MinutesPerDay then [cur]
      else [cur] + SlotsFrom(h, duration, total)
  }

  /** A position inside the break emits nothing and moves to the break end. */
  lemma SlotsFromJump(h: BusinessHours, duration: int, cur: Minute)
    requires duration > 0 && cur < h.closeTime && InBreak(h, cur)
    ensures SlotsFrom(h, duration, cur) == SlotsFrom(h, duration, h.breakEnd.value)
  {
  }

  /** The generator emits an open position and moves one stride on. */
  lemma SlotsFromAdvance(h: BusinessHours, duration: int, cur: Minute)
    requires duration > 0 && cur < h.closeTime && !InBreak(h, cur) && cur + duration < MinutesPerDay
    ensures SlotsFrom(h, duration, cur) == [cur] + SlotsFrom(h, duration, cur + duration)
  {
  }

  /** The generator emits an open position and stops before midnight. */
  lemma SlotsFromLast(h: BusinessHours, duration: int, cur: Minute)
    requires duration > 0 && cur < h.closeTime && !InBreak(h, cur) && MinutesPerDay <= cur + duration
    ensures SlotsFrom(h, duration, cur) == [cur]
  {
  }

  /** The first slot is where the generator enters from `cur`, and one more
      stride past the last slot would reach or pass closing. */
  lemma {:induction false} SlotsFromEnds(h: BusinessHours, duration: int, cur: Minute)
    requires duration > 0
    ensures var r := SlotsFrom(h, duration, cur);
            |r| > 0 ==> r[0] == Enter(h, cur) && h.closeTime <= Enter(h, r[|r| - 1] + duration)
    decreases h.closeTime - cur
  {
    if cur < h.closeTime {
      if InBreak(h, cur) {
        SlotsFromJump(h, duration, cur);
        SlotsFromEnds(h, duration, h.breakEnd.value);
      } else if cur + duration < MinutesPerDay {
        SlotsFromAdvance(h, duration, cur);
        SlotsFromEnds(h, duration, cur + duration);
      } else {
        SlotsFromLast(h, duration, cur);
      }
    }
  }

  /** Each element after the first is one stride past its predecessor,
      moved past the break when it lands inside it. */
  predicate Steps(h: BusinessHours, duration: int, s: seq<int>) {
    forall i :: 0 <= i < |s| - 1 ==> s[i + 1] == Enter(h, s[i] + duration)
  }

  /** Strictly increasing, hence free of repeats. */
  predicate Increasing(s: seq<int>) {
    forall i, j :: 0 <= i < j < |s| ==> s[i] < s[j]
  }

  /** Putting in front of a stepping sequence the element one step before
      its head keeps it stepping. */
  lemma StepsCons(h: BusinessHours, duration: int, x: int, rest: seq<int>)
    requires Steps(h, duration, rest)
    requires |rest| > 0 ==> rest[0] == Enter(h, x + duration)
    ensures Steps(h, duration, [x] + rest)
  {
    var r := [x] + rest;
    forall i | 0 <= i < |r| - 1
      ensures r[i + 1] == Enter(h, r[i] + duration)
    {
      if i > 0 {
        assert r[i] == rest[i - 1] && r[i + 1] == rest[i];
      }
    }
  }

  /** The generated slots follow the stride, jumping over the break. */
  lemma {:induction false} SlotsFromSteps(h: BusinessHours, duration: int, cur: Minute)
    requires duration > 0
    ensures Steps(h, duration, SlotsFrom(h, duration, cur))
    decreases h.closeTime - cur
  {
    if cur < h.closeTime {
      if InBreak(h, cur) {
        SlotsFromJump(h, duration, cur);
        SlotsFromSteps(h, duration, h.breakEnd.value);
      } else if cur + duration < MinutesPerDay {
        SlotsFromSteps(h, duration, cur + duration);
        SlotsFromEnds(h, duration, cur + duration);
        SlotsFromAdvance(h, duration, cur);
        StepsCons(h, duration, cur, SlotsFrom(h, duration, cur + duration));
      } else {
        SlotsFromLast(h, duration, cur);
      }
    }
  }

  /** A positive stride that only ever moves forward gives a strictly
      increasing sequence. */
  lemma {:induction false} StepsIncrease(h: BusinessHours, duration: int, s: seq<int>)
    requires duration > 0 && Steps(h, duration, s)
    ensures Increasing(s)
    decreases |s|
  {
    if |s| > 1 {
      var tail := s[1..];
      assert Steps(h, duration, tail) by {
        forall i | 0 <= i < |tail| - 1
          ensures tail[i + 1] == Enter(h, tail[i] + duration)
        {
          assert tail[i] == s[i + 1] && tail[i + 1] == s[i + 2];
        }
      }
      StepsIncrease(h, duration, tail);
      forall i, j | 0 <= i < j < |s|
        ensures s[i] < s[j]
      {
        if i == 0 {
          assert s[0] < s[1];
          if j > 1 {
            assert s[1] == tail[0] && s[j] == tail[j - 1];
          }
        } else {
          assert s[i] == tail[i - 1] && s[j] == tail[j - 1];
        }
      }
    }
  }

  /** `get_slots` for a given stride. */
  function GetSlots(h: BusinessHours, duration: int): (r: seq<Minute>)
    requires duration > 0
    ensures h.isClosed ==> r == []
    ensures forall i :: 0 <= i < |r| ==> IsOpenAt(h, r[i])
    ensures forall i :: 0 <= i < |r| ==> h.openTime <= r[i] < h.closeTime && !InBreak(h, r[i])
  {
    if h.isClosed then [] else SlotsFrom(h, duration, h.openTime)
  }

  /** Every emitted slot is a distinct, later start time than the one before. */
  lemma SlotsStrictlyIncrease(h: BusinessHours, duration: int)
    requires duration > 0
    ensures Increasing(GetSlots(h, duration))
  {
    if !h.isClosed {
      SlotsFromSteps(h, duration, h.openTime);
      StepsIncrease(h, duration, GetSlots(h, duration));
    }
  }

  /** One step of the generator's clock: the position is taken apart into
      hour and minute, the stride is added, and the time is rebuilt from
      the new hour and minute; None when the new hour reaches 24. */
  function AdvanceClock(current: Minute, duration: int): (r: Option<Minute>)
    requires duration > 0
    ensures r.None? <==> current + duration >= MinutesPerDay
    ensures r.Some? ==> r.value == current + duration
  {
    var hour := current / MinutesPerHour;
    var minute := current % MinutesPerHour;
    var totalMinutes := hour * MinutesPerHour + minute + duration;
    var newHour := totalMinutes / MinutesPerHour;
    var newMinute := totalMinutes % MinutesPerHour;
    if newHour >= HoursPerDay then None else Some(At(newHour, newMinute))
  }

  /** Moving one element across a concatenation. */
  lemma AppendShift<T>(a: seq<T>, x: T, b: seq<T>)
    ensures (a + [x]) + b == a + ([x] + b)
  {
  }

  /** The generator loop as written. It computes exactly `GetSlots`. */
  method GenerateSlots(h: BusinessHours, duration: int) returns (slots: seq<Minute>)
    requires duration > 0
    ensures slots == GetSlots(h, duration)
  {
    if h.isClosed {
      return [];
    }
    slots := [];
    var current: Minute := h.openTime;
    ghost var all := SlotsFrom(h, duration, h.openTime);
    assert slots + all == all;
    while current < h.closeTime
      invariant slots + SlotsFrom(h, duration, current) == all
      decreases h.closeTime - current
    {
      if HasBreak(h) {
        if h.breakStart.value <= current < h.breakEnd.value {
          SlotsFromJump(h, duration, current);
          current := h.breakEnd.value;
          continue;
        }
      }
      ghost var emitted := slots;
      ghost var here := SlotsFrom(h, duration, current);
      slots := slots + [current];
      var next := AdvanceClock(current, duration);
      if next.None? {
        SlotsFromLast(h, duration, current);
        break;
      }
      ghost var later := SlotsFrom(h, duration, next.value);
      SlotsFromAdvance(h, duration, current);
      assert here == [current] + later;
      AppendShift(emitted, current, later);
      assert slots + later == emitted + here;
      current := next.value;
    }
    assert GetSlots(h, duration) == all;
  }

  /** A declarative description of the slots reachable from `start`: the
      first is where the generator enters, each next one is one stride
      later (moved past the break), all start before closing, and one
      more stride would reach or pass the close time. */
  predicate IsRunFrom(h: BusinessHours, duration: int, start: int, s: seq<Minute>) {
    && (forall i :: 0 <= i < |s| ==> s[i] < h.closeTime)
    && (|s| == 0 ==> h.closeTime <= Enter(h, start))
    && (|s| > 0 ==> s[0] == Enter(h, start) && h.closeTime <= Enter(h, s[|s| - 1] + duration))
    && Steps(h, duration, s)
  }

  /** Two runs from the same start are the same sequence. */
  lemma {:induction false} RunIsUnique(h: BusinessHours, duration: int, start: int, s: seq<Minute>, t: seq<Minute>)
    requires IsRunFrom(h, duration, start, s) && IsRunFrom(h, duration, start, t)
    ensures s == t
    decreases |s|
  {
    if |s| > 0 && |t| > 0 {
      var next := s[0] + duration;
      var s', t' := s[1..], t[1..];
      assert Steps(h, duration, s') by {
        forall i | 0 <= i < |s'| - 1 ensures s'[i + 1] == Enter(h, s'[i] + duration) {
          assert s'[i] == s[i + 1] && s'[i + 1] == s[i + 2];
        }
      }
      assert Steps(h, duration, t') by {
        forall i | 0 <= i < |t'| - 1 ensures t'[i + 1] == Enter(h, t'[i] + duration) {
          assert t'[i] == t[i + 1] && t'[i + 1] == t[i + 2];
        }
      }
      if |s'| > 0 {
        assert s'[0] == s[1] == Enter(h, s[0] + duration);
      }
      if |t'| > 0 {
        assert t'[0] == t[1] == Enter(h, t[0] + duration);
      }
      assert IsRunFrom(h, duration, next, s');
      assert IsRunFrom(h, duration, next, t');
      RunIsUnique(h, duration, next, s', t');
      assert s == [s[0]] + s';
      assert t == [t[0]] + t';
    }
  }

  /** On a day that is not closed, the generated slots are the one and
      only run from the open time. */
  lemma GetSlotsIsTheRun(h: BusinessHours, duration: int, s: seq<Minute>)
    requires duration > 0 && !h.isClosed
    ensures IsRunFrom(h, duration, h.openTime, GetSlots(h, duration))
    ensures IsRunFrom(h, duration, h.openTime, s) <==> s == GetSlots(h, duration)
  {
    SlotsFromSteps(h, duration, h.openTime);
    SlotsFromEnds(h, duration, h.openTime);
    if IsRunFrom(h, duration, h.openTime, s) {
      RunIsUnique(h, duration, h.openTime, s, GetSlots(h, duration));
    }
  }

  /** Consecutive slots are one stride apart unless a break jump happened
      between them, in which case the later one is the break end. */
  lemma ConsecutiveSlots(h: BusinessHours, duration: int, i: int)
    requires duration > 0 && 0 <= i < |GetSlots(h, duration)| - 1
    ensures var s := GetSlots(h, duration);
            || s[i + 1] == s[i] + duration
            || (InBreak(h, s[i] + duration) && s[i + 1] == h.breakEnd.value)
  {
    SlotsFromSteps(h, duration, h.openTime);
  }

  /** The `k`-th stride position after `o`. */
  function StridePoint(o: int, duration: int, k: nat): int {
    o + k * duration
  }

  /** Stride positions grow with their index. */
  lemma StridePointGrows(o: int, duration: int, k: nat, j: nat)
    requires duration > 0 && k < j
    ensures StridePoint(o, duration, k) + duration <= StridePoint(o, duration, j)
  {
    assert (j - k - 1) * duration >= 0;
    assert j * duration == k * duration + duration + (j - k - 1) * duration;
  }

  /** `t` is the `j`-th stride position after `o` for some `j >= k`. */
  ghost predicate OnStride(o: int, duration: int, k: nat, t: int) {
    exists j: nat :: k <= j && t == StridePoint(o, duration, j)
  }

  /** Without a break, the slots from the `k`-th stride position are exactly
      the later stride positions before closing. */
  lemma {:induction false} SlotsFromWithoutBreak(h: BusinessHours, duration: int, k: nat, t: int)
    requires duration > 0 && !HasBreak(h)
    requires 0 <= StridePoint(h.openTime, duration, k) < MinutesPerDay
    ensures t in SlotsFrom(h, duration, StridePoint(h.openTime, duration, k))
            <==> t < h.closeTime && OnStride(h.openTime, duration, k, t)
    decreases h.closeTime - StridePoint(h.openTime, duration, k)
  {
    var o := h.openTime;
    var cur: Minute := StridePoint(o, duration, k);
    if cur < h.closeTime {
      var total := cur + duration;
      assert total == StridePoint(o, duration, k + 1);
      assert OnStride(o, duration, k, cur);
      if total < MinutesPerDay {
        SlotsFromAdvance(h, duration, cur);
        SlotsFromWithoutBreak(h, duration, k + 1, t);
        if OnStride(o, duration, k + 1, t) {
          var j: nat :| k + 1 <= j && t == StridePoint(o, duration, j);
          assert OnStride(o, duration, k, t);
        }
        if OnStride(o, duration, k, t) && t != cur {
          var j: nat :| k <= j && t == StridePoint(o, duration, j);
          assert OnStride(o, duration, k + 1, t);
        }
      } else {
        SlotsFromLast(h, duration, cur);
        if OnStride(o, duration, k, t) && t != cur {
          var j: nat :| k <= j && t == StridePoint(o, duration, j);
          StridePointGrows(o, duration, k, j);
        }
      }
    }
  }

  /** Without a break, an instant is a slot iff it is before closing and a
      whole number of strides after the open time. */
  lemma SlotsWithoutBreak(h: BusinessHours, duration: int, t: int)
    requires duration > 0 && !h.isClosed && !HasBreak(h)
    ensures t in GetSlots(h, duration)
            <==> t < h.closeTime && exists k: nat :: t == StridePoint(h.openTime, duration, k)
  {
    assert StridePoint(h.openTime, duration, 0) == h.openTime;
    SlotsFromWithoutBreak(h, duration, 0, t);
  }

  /** 09:00-12:00 at the default stride gives six slots, 09:00 .. 11:30. */
  lemma MorningSlotsExample()
    ensures GetSlots(BusinessHours(0, At(9, 0), At(12, 0), false, None, None), DefaultSlotDuration)
            == [At(9, 0), At(9, 30), At(10, 0), At(10, 30), At(11, 0), At(11, 30)]
  {
  }

  /** 09:00-18:00 with a 13:00-14:00 break: 13:00 and 13:30 are skipped and
      generation resumes at 14:00. */
  lemma BreakSlotsExample()
    ensures var s := GetSlots(BusinessHours(0, At(9, 0), At(18, 0), false, Some(At(13, 0)), Some(At(14, 0))),
                              DefaultSlotDuration);
            && s == [At(9, 0), At(9, 30), At(10, 0), At(10, 30), At(11, 0), At(11, 30),
                     At(12, 0), At(12, 30),
                     At(14, 0), At(14, 30), At(15, 0), At(15, 30), At(16, 0), At(16, 30),
                     At(17, 0), At(17, 30)]
            && At(13, 0) !in s && At(13, 30) !in s && At(14, 0) in s
  {
    var h := BusinessHours(0, At(9, 0), At(18, 0), false, Some(At(13, 0)), Some(At(14, 0)));
    assert SlotsFrom(h, 30, 1080) == [];
    assert SlotsFrom(h, 30, 1050) == [1050] + SlotsFrom(h, 30, 1080);
    assert SlotsFrom(h, 30, 1020) == [1020] + SlotsFrom(h, 30, 1050);
    assert SlotsFrom(h, 30, 990) == [990] + SlotsFrom(h, 30, 1020);
    assert SlotsFrom(h, 30, 960) == [960] + SlotsFrom(h, 30, 990);
    assert SlotsFrom(h, 30, 930) == [930] + SlotsFrom(h, 30, 960);
    assert SlotsFrom(h, 30, 900) == [900] + SlotsFrom(h, 30, 930);
    assert SlotsFrom(h, 30, 870) == [870] + SlotsFrom(h, 30, 900);
    assert SlotsFrom(h, 30, 840) == [840] + SlotsFrom(h, 30, 870);
    assert SlotsFrom(h, 30, 810) == SlotsFrom(h, 30, 840);
    assert SlotsFrom(h, 30, 780) == SlotsFrom(h, 30, 840);
    assert SlotsFrom(h, 30, 750) == [750] + SlotsFrom(h, 30, 780);
    assert SlotsFrom(h, 30, 720) == [720] + SlotsFrom(h, 30, 750);
    assert SlotsFrom(h, 30, 690) == [690] + SlotsFrom(h, 30, 720);
    assert SlotsFrom(h, 30, 660) == [660] + SlotsFrom(h, 30, 690);
    assert SlotsFrom(h, 30, 630) == [630] + SlotsFrom(h, 30, 660);
    assert SlotsFrom(h, 30, 600) == [600] + SlotsFrom(h, 30, 630);
    assert SlotsFrom(h, 30, 570) == [570] + SlotsFrom(h, 30, 600);
    assert SlotsFrom(h, 30, 540) == [540] + SlotsFrom(h, 30, 570);
  }

  /** A closed day has no slots, whatever its stored times. */
  lemma ClosedDayHasNoSlots(h: BusinessHours, duration: int)
    requires duration > 0 && h.isClosed
    ensures GetSlots(h, duration) == []
  {
  }
}
