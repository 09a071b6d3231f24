/**
 * The two-cursor merge of a message's fields (sorted by number) with its
 * extension ranges (sorted by start). The serialize, description, isEqual
 * and hash generators each run this loop, emitting one piece of code per
 * field or range it visits.
 */
module Interleave {
  import opened Wrappers
  import opened Schema

  /** One step of the merge: the i-th sorted field or the j-th sorted range. */
  datatype Slot = FieldSlot(i: nat) | RangeSlot(j: nat)

  predicate FieldsSorted(fs: seq<Field>)
  {
    forall a, b :: 0 <= a < b < |fs| ==> fs[a].number <= fs[b].number
  }

  predicate RangesSorted(rs: seq<ExtensionRange>)
  {
    forall a, b :: 0 <= a < b < |rs| ==> rs[a].start <= rs[b].start
  }

  /**
   * The visits of the merge loop from cursors (i, j): a field goes first
   * exactly when its number is below the range's start, so a tie goes to
   * the range; once one list is used up the other is drained.
   */
  function Schedule(fs: seq<Field>, rs: seq<ExtensionRange>, i: nat, j: nat): (s: seq<Slot>)
    requires i <= |fs| && j <= |rs|
    ensures |s| == (|fs| - i) + (|rs| - j)
    decreases (|fs| - i) + (|rs| - j)
  {
    if i == |fs| && j == |rs| then []
    else if i == |fs| then [RangeSlot(j)] + Schedule(fs, rs, i, j + 1)
    else if j == |rs| then [FieldSlot(i)] + Schedule(fs, rs, i + 1, j)
    else if fs[i].number < rs[j].start then [FieldSlot(i)] + Schedule(fs, rs, i + 1, j)
    else [RangeSlot(j)] + Schedule(fs, rs, i, j + 1)
  }

  /** The field indices of a schedule, in visiting order. */
  function FieldsOf(s: seq<Slot>): seq<nat>
  {
    if |s| == 0 then []
    else if s[0].FieldSlot? then [s[0].i] + FieldsOf(s[1..])
    else FieldsOf(s[1..])
  }

  /** The range indices of a schedule, in visiting order. */
  function RangesOf(s: seq<Slot>): seq<nat>
  {
    if |s| == 0 then []
    else if s[0].RangeSlot? then [s[0].j] + RangesOf(s[1..])
    else RangesOf(s[1..])
  }

  /** lo, lo + 1, ..., hi - 1. */
  function Indices(lo: nat, hi: nat): seq<nat>
    decreases hi - lo
  {
    if lo >= hi then [] else [lo] + Indices(lo + 1, hi)
  }

  /** The loop visits every remaining field and every remaining range, each list in its own order. */
  lemma {:induction false} ScheduleProjections(fs: seq<Field>, rs: seq<ExtensionRange>, i: nat, j: nat)
    requires i <= |fs| && j <= |rs|
    ensures FieldsOf(Schedule(fs, rs, i, j)) == Indices(i, |fs|)
    ensures RangesOf(Schedule(fs, rs, i, j)) == Indices(j, |rs|)
    decreases (|fs| - i) + (|rs| - j)
  {
    var s := Schedule(fs, rs, i, j);
    if i == |fs| && j == |rs| {
    } else if i == |fs| || (j < |rs| && fs[i].number >= rs[j].start) {
      ScheduleProjections(fs, rs, i, j + 1);
      assert s[1..] == Schedule(fs, rs, i, j + 1);
    } else {
      ScheduleProjections(fs, rs, i + 1, j);
      assert s[1..] == Schedule(fs, rs, i + 1, j);
    }
  }

  /** A slot is in the schedule from (i, j) exactly when it names a field from i on or a range from j on. */
  lemma ScheduleMember(fs: seq<Field>, rs: seq<ExtensionRange>, i: nat, j: nat, x: Slot)
    requires i <= |fs| && j <= |rs|
    ensures x in Schedule(fs, rs, i, j) <==>
      (x.FieldSlot? && i <= x.i < |fs|) || (x.RangeSlot? && j <= x.j < |rs|)
  {
    if x in Schedule(fs, rs, i, j) {
      ScheduleOnlyRemaining(fs, rs, i, j, x);
    }
    if (x.FieldSlot? && i <= x.i < |fs|) || (x.RangeSlot? && j <= x.j < |rs|) {
      ScheduleAllRemaining(fs, rs, i, j, x);
    }
  }

  lemma {:induction false} ScheduleOnlyRemaining(fs: seq<Field>, rs: seq<ExtensionRange>, i: nat, j: nat, x: Slot)
    requires i <= |fs| && j <= |rs| && x in Schedule(fs, rs, i, j)
    ensures (x.FieldSlot? && i <= x.i < |fs|) || (x.RangeSlot? && j <= x.j < |rs|)
    decreases (|fs| - i) + (|rs| - j)
  {
    if i == |fs| || (j < |rs| && fs[i].number >= rs[j].start) {
      if j < |rs| {
        var tail := Schedule(fs, rs, i, j + 1);
        assert Schedule(fs, rs, i, j) == [RangeSlot(j)] + tail;
        if x != RangeSlot(j) {
          assert x in tail;
          ScheduleOnlyRemaining(fs, rs, i, j + 1, x);
        }
      }
    } else {
      var tail := Schedule(fs, rs, i + 1, j);
      assert Schedule(fs, rs, i, j) == [FieldSlot(i)] + tail;
      if x != FieldSlot(i) {
        assert x in tail;
        ScheduleOnlyRemaining(fs, rs, i + 1, j, x);
      }
    }
  }

  lemma {:induction false} ScheduleAllRemaining(fs: seq<Field>, rs: seq<ExtensionRange>, i: nat, j: nat, x: Slot)
    requires i <= |fs| && j <= |rs|
    requires (x.FieldSlot? && i <= x.i < |fs|) || (x.RangeSlot? && j <= x.j < |rs|)
    ensures x in Schedule(fs, rs, i, j)
    decreases (|fs| - i) + (|rs| - j)
  {
    var s := Schedule(fs, rs, i, j);
    if x != s[0] {
      if i == |fs| || (j < |rs| && fs[i].number >= rs[j].start) {
        assert s[1..] == Schedule(fs, rs, i, j + 1);
        ScheduleAllRemaining(fs, rs, i, j + 1, x);
        assert x in s[1..];
      } else {
        assert s[1..] == Schedule(fs, rs, i + 1, j);
        ScheduleAllRemaining(fs, rs, i + 1, j, x);
        assert x in s[1..];
      }
    }
  }

  lemma FieldInSchedule(fs: seq<Field>, rs: seq<ExtensionRange>, i0: nat, j0: nat, i: nat)
    requires i0 <= i < |fs| && j0 <= |rs|
    ensures FieldSlot(i) in Schedule(fs, rs, i0, j0)
  {
    ScheduleMember(fs, rs, i0, j0, FieldSlot(i));
  }

  lemma RangeInSchedule(fs: seq<Field>, rs: seq<ExtensionRange>, i0: nat, j0: nat, j: nat)
    requires i0 <= |fs| && j0 <= j < |rs|
    ensures RangeSlot(j) in Schedule(fs, rs, i0, j0)
  {
    ScheduleMember(fs, rs, i0, j0, RangeSlot(j));
  }

  predicate NoDuplicates(s: seq<Slot>)
  {
    forall p, q :: 0 <= p < q < |s| ==> s[p] != s[q]
  }

  /** Each field and each range is visited exactly once. */
  lemma {:induction false} ScheduleNoDuplicates(fs: seq<Field>, rs: seq<ExtensionRange>, i: nat, j: nat)
    requires i <= |fs| && j <= |rs|
    ensures NoDuplicates(Schedule(fs, rs, i, j))
    decreases (|fs| - i) + (|rs| - j)
  {
    var s := Schedule(fs, rs, i, j);
    if i < |fs| || j < |rs| {
      var rangeNext := i == |fs| || (j < |rs| && fs[i].number >= rs[j].start);
      var i', j' := if rangeNext then i else i + 1, if rangeNext then j + 1 else j;
      var tail := Schedule(fs, rs, i', j');
      assert s == [s[0]] + tail;
      ScheduleNoDuplicates(fs, rs, i', j');
      ScheduleMember(fs, rs, i', j', s[0]);
      assert s[0] !in tail;
      forall p, q | 0 <= p < q < |s|
        ensures s[p] != s[q]
      {
        assert s[q] == tail[q - 1];
        if p > 0 {
          assert s[p] == tail[p - 1];
        }
      }
    }
  }

  /** a occurs in s somewhere before b. */
  predicate Precedes(s: seq<Slot>, a: Slot, b: Slot)
  {
    exists p, q :: 0 <= p < q < |s| && s[p] == a && s[q] == b
  }

  lemma PrecedesCons(x: Slot, s: seq<Slot>, a: Slot, b: Slot)
    requires Precedes(s, a, b)
    ensures Precedes([x] + s, a, b)
  {
    var p, q :| 0 <= p < q < |s| && s[p] == a && s[q] == b;
    assert ([x] + s)[p + 1] == a && ([x] + s)[q + 1] == b;
  }

  lemma PrecedesHead(s: seq<Slot>, b: Slot)
    requires |s| > 0 && b in s[1..]
    ensures Precedes(s, s[0], b)
  {
    var q :| 0 <= q < |s[1..]| && s[1..][q] == b;
    assert s[q + 1] == b;
  }

  /** For sorted inputs: field i comes before range j when its number is below the range's start... */
  lemma {:induction false} FieldFirst(fs: seq<Field>, rs: seq<ExtensionRange>, i0: nat, j0: nat, i: nat, j: nat)
    requires FieldsSorted(fs) && i0 <= i < |fs| && j0 <= j < |rs|
    requires fs[i].number < rs[j].start
    ensures Precedes(Schedule(fs, rs, i0, j0), FieldSlot(i), RangeSlot(j))
    decreases (|fs| - i0) + (|rs| - j0)
  {
    var s := Schedule(fs, rs, i0, j0);
    if fs[i0].number < rs[j0].start {
      assert s == [FieldSlot(i0)] + Schedule(fs, rs, i0 + 1, j0);
      if i0 == i {
        RangeInSchedule(fs, rs, i0 + 1, j0, j);
        assert s[1..] == Schedule(fs, rs, i0 + 1, j0);
        PrecedesHead(s, RangeSlot(j));
      } else {
        FieldFirst(fs, rs, i0 + 1, j0, i, j);
        PrecedesCons(FieldSlot(i0), Schedule(fs, rs, i0 + 1, j0), FieldSlot(i), RangeSlot(j));
      }
    } else {
      assert s == [RangeSlot(j0)] + Schedule(fs, rs, i0, j0 + 1);
      assert j0 != j by {
        if i0 < i {
          assert fs[i0].number <= fs[i].number;
        }
      }
      FieldFirst(fs, rs, i0, j0 + 1, i, j);
      PrecedesCons(RangeSlot(j0), Schedule(fs, rs, i0, j0 + 1), FieldSlot(i), RangeSlot(j));
    }
  }

  /** ...and range j comes before field i otherwise (ties go to the range). */
  lemma {:induction false} RangeFirst(fs: seq<Field>, rs: seq<ExtensionRange>, i0: nat, j0: nat, i: nat, j: nat)
    requires RangesSorted(rs) && i0 <= i < |fs| && j0 <= j < |rs|
    requires fs[i].number >= rs[j].start
    ensures Precedes(Schedule(fs, rs, i0, j0), RangeSlot(j), FieldSlot(i))
    decreases (|fs| - i0) + (|rs| - j0)
  {
    var s := Schedule(fs, rs, i0, j0);
    if fs[i0].number < rs[j0].start {
      assert s == [FieldSlot(i0)] + Schedule(fs, rs, i0 + 1, j0);
      assert i0 != i by {
        if j0 < j {
          assert rs[j0].start <= rs[j].start;
        }
      }
      RangeFirst(fs, rs, i0 + 1, j0, i, j);
      PrecedesCons(FieldSlot(i0), Schedule(fs, rs, i0 + 1, j0), RangeSlot(j), FieldSlot(i));
    } else {
      assert s == [RangeSlot(j0)] + Schedule(fs, rs, i0, j0 + 1);
      if j0 == j {
        FieldInSchedule(fs, rs, i0, j0 + 1, i);
        assert s[1..] == Schedule(fs, rs, i0, j0 + 1);
        PrecedesHead(s, FieldSlot(i));
      } else {
        RangeFirst(fs, rs, i0, j0 + 1, i, j);
        PrecedesCons(RangeSlot(j0), Schedule(fs, rs, i0, j0 + 1), RangeSlot(j), FieldSlot(i));
      }
    }
  }

  /** With both inputs sorted, field i is emitted before range j exactly when number < start. */
  lemma FieldBeforeRangeIff(fs: seq<Field>, rs: seq<ExtensionRange>, i: nat, j: nat)
    requires FieldsSorted(fs) && RangesSorted(rs) && i < |fs| && j < |rs|
    ensures Precedes(Schedule(fs, rs, 0, 0), FieldSlot(i), RangeSlot(j)) <==> fs[i].number < rs[j].start
  {
    var s := Schedule(fs, rs, 0, 0);
    if fs[i].number < rs[j].start {
      FieldFirst(fs, rs, 0, 0, i, j);
    } else {
      RangeFirst(fs, rs, 0, 0, i, j);
      ScheduleNoDuplicates(fs, rs, 0, 0);
      NotBothWays(s, RangeSlot(j), FieldSlot(i));
    }
  }

  /** In a schedule without duplicates, a before b excludes b before a. */
  lemma NotBothWays(s: seq<Slot>, a: Slot, b: Slot)
    requires NoDuplicates(s) && Precedes(s, a, b)
    ensures !Precedes(s, b, a)
  {
    var p, q :| 0 <= p < q < |s| && s[p] == a && s[q] == b;
    forall p', q' | 0 <= p' < |s| && 0 <= q' < |s| && s[p'] == b && s[q'] == a
      ensures q' < p'
    {
      assert p' == q && q' == p;
    }
  }

  // ---------------------------------------------------------------------------
  // The four passes that share the loop

  datatype Pass = SerializePass | DescriptionPass | IsEqualPass | HashPass

  /** The code a pass emits for one field or one extension range. */
  datatype Visit = FieldCode(pass: Pass, field: Field) | RangeCode(pass: Pass, range: ExtensionRange)

  predicate SlotInBounds(x: Slot, nf: nat, nr: nat)
  {
    (x.FieldSlot? ==> x.i < nf) && (x.RangeSlot? ==> x.j < nr)
  }

  predicate SlotsInBounds(s: seq<Slot>, nf: nat, nr: nat)
  {
    forall k :: 0 <= k < |s| ==> SlotInBounds(s[k], nf, nr)
  }

  function Render(pass: Pass, fs: seq<Field>, rs: seq<ExtensionRange>, s: seq<Slot>): (out: seq<Visit>)
    requires SlotsInBounds(s, |fs|, |rs|)
    ensures |out| == |s|
  {
    if |s| == 0 then []
    else [SlotCode(pass, fs, rs, s[0])] + Render(pass, fs, rs, s[1..])
  }

  /** The code one pass emits for one slot. */
  function SlotCode(pass: Pass, fs: seq<Field>, rs: seq<ExtensionRange>, x: Slot): Visit
    requires SlotInBounds(x, |fs|, |rs|)
  {
    match x
    case FieldSlot(i) => FieldCode(pass, fs[i])
    case RangeSlot(j) => RangeCode(pass, rs[j])
  }

  lemma ScheduleInBounds(fs: seq<Field>, rs: seq<ExtensionRange>)
    ensures SlotsInBounds(Schedule(fs, rs, 0, 0), |fs|, |rs|)
  {
    var s := Schedule(fs, rs, 0, 0);
    forall k | 0 <= k < |s|
      ensures SlotInBounds(s[k], |fs|, |rs|)
    {
      ScheduleMember(fs, rs, 0, 0, s[k]);
    }
  }

  /** The fields a pass visits, in order. */
  function VisitedFields(v: seq<Visit>): seq<Field>
  {
    if |v| == 0 then [] else (if v[0].FieldCode? then [v[0].field] else []) + VisitedFields(v[1..])
  }

  /** The ranges a pass visits, in order. */
  function VisitedRanges(v: seq<Visit>): seq<ExtensionRange>
  {
    if |v| == 0 then [] else (if v[0].RangeCode? then [v[0].range] else []) + VisitedRanges(v[1..])
  }

  /** What a visit refers to, whatever the pass: a field by its number, a range by its start. */
  datatype Target = FieldTarget(number: nat) | RangeTarget(start: nat)

  function TargetOf(v: Visit): Target
  {
    match v
    case FieldCode(_, f) => FieldTarget(f.number)
    case RangeCode(_, r) => RangeTarget(r.start)
  }

  function Targets(v: seq<Visit>): seq<Target>
  {
    if |v| == 0 then [] else [TargetOf(v[0])] + Targets(v[1..])
  }

  function Pick(fs: seq<Field>, ks: seq<nat>): seq<Field>
    requires forall k :: 0 <= k < |ks| ==> ks[k] < |fs|
  {
    if |ks| == 0 then [] else [fs[ks[0]]] + Pick(fs, ks[1..])
  }

  function PickRanges(rs: seq<ExtensionRange>, ks: seq<nat>): seq<ExtensionRange>
    requires forall k :: 0 <= k < |ks| ==> ks[k] < |rs|
  {
    if |ks| == 0 then [] else [rs[ks[0]]] + PickRanges(rs, ks[1..])
  }

  lemma {:induction false} IndicesBounds(lo: nat, hi: nat)
    ensures forall k :: 0 <= k < |Indices(lo, hi)| ==> lo <= Indices(lo, hi)[k] < hi
    decreases hi - lo
  {
    if lo < hi {
      IndicesBounds(lo + 1, hi);
    }
  }

  lemma {:induction false} PickAll(fs: seq<Field>, lo: nat)
    requires lo <= |fs|
    ensures (IndicesBounds(lo, |fs|); Pick(fs, Indices(lo, |fs|)) == fs[lo..])
    decreases |fs| - lo
  {
    IndicesBounds(lo, |fs|);
    if lo < |fs| {
      PickAll(fs, lo + 1);
      assert fs[lo..] == [fs[lo]] + fs[lo + 1..];
    }
  }

  lemma {:induction false} PickAllRanges(rs: seq<ExtensionRange>, lo: nat)
    requires lo <= |rs|
    ensures (IndicesBounds(lo, |rs|); PickRanges(rs, Indices(lo, |rs|)) == rs[lo..])
    decreases |rs| - lo
  {
    IndicesBounds(lo, |rs|);
    if lo < |rs| {
      PickAllRanges(rs, lo + 1);
      assert rs[lo..] == [rs[lo]] + rs[lo + 1..];
    }
  }

  lemma {:induction false} RenderProjections(pass: Pass, fs: seq<Field>, rs: seq<ExtensionRange>, s: seq<Slot>)
    requires SlotsInBounds(s, |fs|, |rs|)
    ensures forall k :: 0 <= k < |FieldsOf(s)| ==> FieldsOf(s)[k] < |fs|
    ensures forall k :: 0 <= k < |RangesOf(s)| ==> RangesOf(s)[k] < |rs|
    ensures VisitedFields(Render(pass, fs, rs, s)) == Pick(fs, FieldsOf(s))
    ensures VisitedRanges(Render(pass, fs, rs, s)) == PickRanges(rs, RangesOf(s))
  {
    if |s| > 0 {
      RenderProjections(pass, fs, rs, s[1..]);
    }
  }

  /**
   * Whichever of the four passes runs the loop over sorted fields fs and
   * sorted ranges rs, it visits exactly fs and exactly rs, each in order.
   */
  lemma PassVisitsEverythingOnce(pass: Pass, fs: seq<Field>, rs: seq<ExtensionRange>)
    ensures SlotsInBounds(Schedule(fs, rs, 0, 0), |fs|, |rs|)
    ensures VisitedFields(Render(pass, fs, rs, Schedule(fs, rs, 0, 0))) == fs
    ensures VisitedRanges(Render(pass, fs, rs, Schedule(fs, rs, 0, 0))) == rs
  {
    var s := Schedule(fs, rs, 0, 0);
    ScheduleInBounds(fs, rs);
    ScheduleProjections(fs, rs, 0, 0);
    RenderProjections(pass, fs, rs, s);
    PickAll(fs, 0);
    PickAllRanges(rs, 0);
  }

  /**
   * Corollary of Render visiting by slot whatever the pass: two passes over
   * the same sorted inputs and schedule refer to the same fields and ranges in
   * the same order. The statement about independently sorted inputs is
   * MessageGen.PassesVisitSameOrder.
   */
  lemma {:induction false} PassesAgree(p1: Pass, p2: Pass, fs: seq<Field>, rs: seq<ExtensionRange>, s: seq<Slot>)
    requires SlotsInBounds(s, |fs|, |rs|)
    ensures Targets(Render(p1, fs, rs, s)) == Targets(Render(p2, fs, rs, s))
  {
    if |s| > 0 {
      PassesAgree(p1, p2, fs, rs, s[1..]);
    }
  }

  lemma {:induction false} RenderAt(pass: Pass, fs: seq<Field>, rs: seq<ExtensionRange>, s: seq<Slot>, k: nat)
    requires SlotsInBounds(s, |fs|, |rs|) && k < |s|
    ensures SlotInBounds(s[k], |fs|, |rs|)
    ensures Render(pass, fs, rs, s)[k] == SlotCode(pass, fs, rs, s[k])
  {
    if k > 0 {
      assert s[1..][k - 1] == s[k];
      RenderAt(pass, fs, rs, s[1..], k - 1);
    }
  }

  lemma RenderCons(pass: Pass, fs: seq<Field>, rs: seq<ExtensionRange>, x: Slot, s: seq<Slot>)
    requires SlotsInBounds([x] + s, |fs|, |rs|)
    ensures SlotsInBounds(s, |fs|, |rs|)
    ensures SlotInBounds(x, |fs|, |rs|)
    ensures Render(pass, fs, rs, [x] + s) == [SlotCode(pass, fs, rs, x)] + Render(pass, fs, rs, s)
  {
    assert ([x] + s)[0] == x;
    assert ([x] + s)[1..] == s;
    assert forall k :: 0 <= k < |s| ==> s[k] == ([x] + s)[k + 1];
  }

  /**
   * The merge loop as each of the four generators runs it: cursors i and j
   * advance one at a time, and the code for the field or range under the
   * advancing cursor is appended.
   */
  method EmitPass(pass: Pass, fs: seq<Field>, rs: seq<ExtensionRange>) returns (out: seq<Visit>)
    ensures SlotsInBounds(Schedule(fs, rs, 0, 0), |fs|, |rs|)
    ensures out == Render(pass, fs, rs, Schedule(fs, rs, 0, 0))
  {
    var i, j := 0, 0;
    out := [];
    ScheduleInBounds(fs, rs);
    ghost var whole := Render(pass, fs, rs, Schedule(fs, rs, 0, 0));
    while i < |fs| || j < |rs|
      invariant i <= |fs| && j <= |rs|
      invariant SlotsInBounds(Schedule(fs, rs, i, j), |fs|, |rs|)
      invariant out + Render(pass, fs, rs, Schedule(fs, rs, i, j)) == whole
      decreases (|fs| - i) + (|rs| - j)
    {
      ghost var x: Slot, rest: seq<Slot>;
      if i == |fs| || (j < |rs| && fs[i].number >= rs[j].start) {
        x, rest := RangeSlot(j), Schedule(fs, rs, i, j + 1);
        assert Schedule(fs, rs, i, j) == [x] + rest;
        RenderCons(pass, fs, rs, x, rest);
        AppendTwice(out, [RangeCode(pass, rs[j])], Render(pass, fs, rs, rest));
        out := out + [RangeCode(pass, rs[j])];
        j := j + 1;
      } else {
        x, rest := FieldSlot(i), Schedule(fs, rs, i + 1, j);
        assert Schedule(fs, rs, i, j) == [x] + rest;
        RenderCons(pass, fs, rs, x, rest);
        AppendTwice(out, [FieldCode(pass, fs[i])], Render(pass, fs, rs, rest));
        out := out + [FieldCode(pass, fs[i])];
        i := i + 1;
      }
      assert out + Render(pass, fs, rs, rest) == whole;
    }
  }
}
