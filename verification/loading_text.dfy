/**
 The loading-screen text aggregator of both scene builder variants.

 Each load task owns one slot of a string array. An update writes the task's
 latest text into its slot and sets the loading indicator to four line breaks
 followed by all slots joined with a double line break.

 The write is a JavaScript array element assignment. Writing at or past the
 end grows the array to the written index, and any slot skipped over is a hole.
 `Array.prototype.join` renders a hole as an empty segment. The two variants
 differ only in the array they start from: the lower-case builder starts empty,
 the upper-case builder starts from four empty strings.
 */
module LoadingText {
  import ProgressText

  /** One element of the array: never written (a hole), or a string. */
  datatype Slot = Hole | Written(text: string)

  /** One call of the update callback: a slot index and the text to show there. */
  datatype Write = Write(slot: nat, text: string)

  /** Line breaks in front of the joined slots. */
  const Lead: string := "<br/><br/><br/><br/>"

  /** The separator `join` puts between slots. */
  const Separator: string := "<br/><br/>"

  /** Starting array of the lower-case builder: `[]`. */
  const SparseStart: seq<Slot> := []

  /** Starting array of the upper-case builder: `new Array(4).fill("")`. */
  const FixedStart: seq<Slot> := [Written(""), Written(""), Written(""), Written("")]

  /** The larger of two numbers; an element assignment past the end grows the array to `Max(|slots|, i + 1)`. */
  function Max(a: int, b: int): int {
    if a < b then b else a
  }

  /** How `join` renders one element. */
  function SlotText(s: Slot): string {
    match s
    case Hole => ""
    case Written(t) => t
  }

  /** The elements as `join` renders them, one string per element. */
  function Render(slots: seq<Slot>): (parts: seq<string>)
    ensures |parts| == |slots|
    ensures forall k :: 0 <= k < |slots| ==> parts[k] == SlotText(slots[k])
  {
    seq(|slots|, k requires 0 <= k < |slots| => SlotText(slots[k]))
  }

  /** `parts.join(sep)`: the parts in order with `sep` between neighbours. */
  function Join(parts: seq<string>, sep: string): string
    decreases |parts|
  {
    if |parts| == 0 then ""
    else if |parts| == 1 then parts[0]
    else parts[0] + sep + Join(parts[1..], sep)
  }

  /** The string pushed to the loading indicator. */
  function Display(slots: seq<Slot>): string {
    Lead + Join(Render(slots), Separator)
  }

  /** `loadingTexts[i] = text`: slot `i` now holds `text`, the array is at least
      `i + 1` long, the slots skipped over are holes and every other slot keeps its value. */
  function Update(slots: seq<Slot>, i: nat, text: string): (r: seq<Slot>)
    ensures |r| == Max(|slots|, i + 1)
    ensures r[i] == Written(text)
    ensures forall k :: 0 <= k < |slots| && k != i ==> r[k] == slots[k]
    ensures forall k :: |slots| <= k < |r| && k != i ==> r[k] == Hole
  {
    if i < |slots| then slots[i := Written(text)]
    else slots + seq(i - |slots|, _ => Hole) + [Written(text)]
  }

  /** The array after a sequence of updates, applied in order. */
  function ApplyAll(slots: seq<Slot>, writes: seq<Write>): seq<Slot>
    decreases |writes|
  {
    if |writes| == 0 then slots
    else ApplyAll(Update(slots, writes[0].slot, writes[0].text), writes[1..])
  }

  /** No write in the sequence targets slot `i`. */
  predicate Untouched(writes: seq<Write>, i: nat) {
    forall k :: 0 <= k < |writes| ==> writes[k].slot != i
  }

  /** Every write in the sequence targets a slot below `n`. */
  predicate AllBelow(writes: seq<Write>, n: nat) {
    forall k :: 0 <= k < |writes| ==> writes[k].slot < n
  }

  /** Updates to different slots commute. */
  lemma UpdatesCommute(slots: seq<Slot>, i: nat, a: string, j: nat, b: string)
    requires i != j
    ensures Update(Update(slots, i, a), j, b) == Update(Update(slots, j, b), i, a)
  {
    var l := Update(Update(slots, i, a), j, b);
    var r := Update(Update(slots, j, b), i, a);
    assert |l| == |r|;
    forall k | 0 <= k < |l|
      ensures l[k] == r[k]
    {
    }
  }

  /** A later update to a slot hides an earlier one to the same slot; in
      particular repeating an update changes nothing. */
  lemma UpdateOverwrites(slots: seq<Slot>, i: nat, a: string, b: string)
    ensures Update(Update(slots, i, a), i, b) == Update(slots, i, b)
    ensures Update(Update(slots, i, b), i, b) == Update(slots, i, b)
  {
    var l := Update(Update(slots, i, a), i, b);
    var r := Update(slots, i, b);
    assert |l| == |r|;
    forall k | 0 <= k < |l|
      ensures l[k] == r[k]
    {
    }
  }

  /** A slot no update targets keeps its value. */
  lemma {:induction false} UntouchedSlotKept(slots: seq<Slot>, writes: seq<Write>, i: nat)
    requires i < |slots| && Untouched(writes, i)
    ensures i < |ApplyAll(slots, writes)|
    ensures ApplyAll(slots, writes)[i] == slots[i]
    decreases |writes|
  {
    if |writes| > 0 {
      UntouchedSlotKept(Update(slots, writes[0].slot, writes[0].text), writes[1..], i);
    }
  }

  /** Updates never shrink the array. */
  lemma {:induction false} ApplyAllGrows(slots: seq<Slot>, writes: seq<Write>)
    ensures |slots| <= |ApplyAll(slots, writes)|
    decreases |writes|
  {
    if |writes| > 0 {
      ApplyAllGrows(Update(slots, writes[0].slot, writes[0].text), writes[1..]);
    }
  }

  /** After a sequence of updates, a slot holds the text of the last update to
      it, whatever the updates to other slots and however they interleave. */
  lemma {:induction false} LastWriteWins(slots: seq<Slot>, writes: seq<Write>, k: nat)
    requires k < |writes| && Untouched(writes[k + 1..], writes[k].slot)
    ensures writes[k].slot < |ApplyAll(slots, writes)|
    ensures ApplyAll(slots, writes)[writes[k].slot] == Written(writes[k].text)
    decreases |writes|
  {
    var next := Update(slots, writes[0].slot, writes[0].text);
    if k == 0 {
      UntouchedSlotKept(next, writes[1..], writes[0].slot);
    } else {
      assert writes[1..][k - 1 + 1..] == writes[k + 1..];
      LastWriteWins(next, writes[1..], k - 1);
    }
  }

  /** One more than the highest slot a sequence of updates targets (0 for none). */
  function Reach(writes: seq<Write>): nat
    decreases |writes|
  {
    if |writes| == 0 then 0
    else
      var rest := Reach(writes[1..]);
      if writes[0].slot + 1 > rest then writes[0].slot + 1 else rest
  }

  /** What the last update to slot `i` wrote, or `Hole` if no update targets it. */
  function LastWrite(writes: seq<Write>, i: nat): Slot
    decreases |writes|
  {
    if |writes| == 0 then Hole
    else
      var later := LastWrite(writes[1..], i);
      if later.Written? then later
      else if writes[0].slot == i then Written(writes[0].text)
      else Hole
  }

  /** Slot `k` after the updates, stated without replaying them: the last text
      written to it, else its starting value, else a hole. */
  function Settled(slots: seq<Slot>, writes: seq<Write>, k: nat): Slot {
    if LastWrite(writes, k).Written? then LastWrite(writes, k)
    else if k < |slots| then slots[k]
    else Hole
  }

  /** Replaying updates in order gives an array of length max(starting length,
      `Reach`) whose every slot is the settled one. */
  lemma {:induction false} ApplyAllSettles(slots: seq<Slot>, writes: seq<Write>)
    ensures |ApplyAll(slots, writes)| == Max(|slots|, Reach(writes))
    ensures forall k: nat :: k < |ApplyAll(slots, writes)| ==>
              ApplyAll(slots, writes)[k] == Settled(slots, writes, k)
    decreases |writes|
  {
    if |writes| > 0 {
      var next := Update(slots, writes[0].slot, writes[0].text);
      ApplyAllSettles(next, writes[1..]);
      forall k: nat | k < |ApplyAll(slots, writes)|
        ensures ApplyAll(slots, writes)[k] == Settled(slots, writes, k)
      {
        assert ApplyAll(slots, writes)[k] == Settled(next, writes[1..], k);
      }
    }
  }

  /** No update targets a slot at or past `Reach`, and the slot just below it
      has been written. */
  lemma {:induction false} ReachIsTight(writes: seq<Write>)
    ensures forall k: nat :: k >= Reach(writes) ==> LastWrite(writes, k) == Hole
    ensures Reach(writes) > 0 ==> LastWrite(writes, Reach(writes) - 1).Written?
    decreases |writes|
  {
    if |writes| > 0 {
      ReachIsTight(writes[1..]);
    }
  }

  /** A slot no update targets has no last write. */
  lemma {:induction false} UntouchedIsUnwritten(writes: seq<Write>, j: nat)
    requires Untouched(writes, j)
    ensures LastWrite(writes, j) == Hole
    decreases |writes|
  {
    if |writes| > 0 {
      UntouchedIsUnwritten(writes[1..], j);
    }
  }

  /** A slot past the starting array that no update targets is a hole, which
      `join` renders as an empty segment. */
  lemma UntouchedPastStartIsHole(slots: seq<Slot>, writes: seq<Write>, j: nat)
    requires |slots| <= j < |ApplyAll(slots, writes)| && Untouched(writes, j)
    ensures ApplyAll(slots, writes)[j] == Hole
  {
    ApplyAllSettles(slots, writes);
    UntouchedIsUnwritten(writes, j);
  }

  /** Two update sequences that leave the same last text in every slot give the
      same array, so the display depends only on the last text written to each slot. */
  lemma LastWritesDecide(slots: seq<Slot>, w1: seq<Write>, w2: seq<Write>)
    requires forall k: nat :: LastWrite(w1, k) == LastWrite(w2, k)
    ensures ApplyAll(slots, w1) == ApplyAll(slots, w2)
    ensures Display(ApplyAll(slots, w1)) == Display(ApplyAll(slots, w2))
  {
    ReachIsTight(w1);
    ReachIsTight(w2);
    assert Reach(w1) == Reach(w2);
    ApplyAllSettles(slots, w1);
    ApplyAllSettles(slots, w2);
    var a1, a2 := ApplyAll(slots, w1), ApplyAll(slots, w2);
    forall k: nat | k < |a1|
      ensures a1[k] == a2[k]
    {
      assert Settled(slots, w1, k) == Settled(slots, w2, k);
    }
  }

  /** Updates to slots below `n` reach at most `n`. */
  lemma {:induction false} ReachBelow(writes: seq<Write>, n: nat)
    requires AllBelow(writes, n)
    ensures Reach(writes) <= n
    decreases |writes|
  {
    if |writes| > 0 {
      ReachBelow(writes[1..], n);
    }
  }

  /** Starting from an array of `n` slots, updates to slots below `n` keep the length at `n`. */
  lemma {:induction false} LengthKept(slots: seq<Slot>, writes: seq<Write>)
    requires AllBelow(writes, |slots|)
    ensures |ApplyAll(slots, writes)| == |slots|
    decreases |writes|
  {
    if |writes| > 0 {
      LengthKept(Update(slots, writes[0].slot, writes[0].text), writes[1..]);
    }
  }

  /** Joining splits at any inner boundary, with one separator there. */
  lemma {:induction false} JoinSplit(parts: seq<string>, sep: string, k: nat)
    requires 0 < k < |parts|
    ensures Join(parts, sep) == Join(parts[..k], sep) + sep + Join(parts[k..], sep)
    decreases k
  {
    if k == 1 {
      assert parts[..1] == [parts[0]];
      assert parts[k..] == parts[1..];
    } else {
      var tail := parts[1..];
      JoinSplit(tail, sep, k - 1);
      assert tail[..k - 1] == parts[1..k];
      assert tail[k - 1..] == parts[k..];
      assert parts[..k][1..] == parts[1..k];
    }
  }

  /** The total length of the parts. */
  function TotalLength(parts: seq<string>): nat
    decreases |parts|
  {
    if |parts| == 0 then 0 else |parts[0]| + TotalLength(parts[1..])
  }

  /** Joining n > 0 parts adds exactly n - 1 separators to their text. */
  lemma {:induction false} JoinLength(parts: seq<string>, sep: string)
    requires 0 < |parts|
    ensures |Join(parts, sep)| == TotalLength(parts) + (|parts| - 1) * |sep|
    decreases |parts|
  {
    if |parts| > 1 {
      JoinLength(parts[1..], sep);
      assert TotalLength(parts[1..][1..]) == TotalLength(parts[2..]);
    } else {
      assert parts[1..] == [];
    }
  }

  /** Slot `i`'s text appears in the display right after the lead and the first
      `i` slots with their separators, followed by a separator and the later
      slots when there are any. */
  lemma SlotPosition(slots: seq<Slot>, i: nat)
    requires i < |slots|
    ensures var parts := Render(slots);
            Display(slots) == Lead
              + (if i == 0 then "" else Join(parts[..i], Separator) + Separator)
              + SlotText(slots[i])
              + (if i + 1 == |slots| then "" else Separator + Join(parts[i + 1..], Separator))
  {
    var parts := Render(slots);
    var rest := parts[i..];
    if i > 0 {
      JoinSplit(parts, Separator, i);
    } else {
      assert rest == parts;
    }
    if i + 1 < |slots| {
      JoinSplit(rest, Separator, 1);
      assert rest[..1] == [parts[i]];
      assert rest[1..] == parts[i + 1..];
    } else {
      assert rest == [parts[i]];
    }
  }

  /** With four slots the display always holds exactly three inner separators,
      written or not. */
  lemma FourSlotDisplay(slots: seq<Slot>)
    requires |slots| == 4
    ensures Display(slots) == Lead + SlotText(slots[0]) + Separator + SlotText(slots[1])
                             + Separator + SlotText(slots[2]) + Separator + SlotText(slots[3])
  {
    var p := Render(slots);
    assert p[3..] == [p[3]];
    assert p[2..][1..] == p[3..];
    assert p[1..][1..] == p[2..];
    assert Join(p[2..], Separator) == p[2] + Separator + p[3];
    assert Join(p[1..], Separator) == p[1] + Separator + p[2] + Separator + p[3];
  }

  /** The upper-case builder's array stays four slots long under every update
      to slots 0 to 3, so its display keeps its three inner separators. */
  lemma FixedKeepsFourSlots(writes: seq<Write>)
    requires AllBelow(writes, 4)
    ensures |ApplyAll(FixedStart, writes)| == 4
    ensures var s := ApplyAll(FixedStart, writes);
            Display(s) == Lead + SlotText(s[0]) + Separator + SlotText(s[1])
                          + Separator + SlotText(s[2]) + Separator + SlotText(s[3])
  {
    LengthKept(FixedStart, writes);
    FourSlotDisplay(ApplyAll(FixedStart, writes));
  }

  /** The first update either builder makes is the physics task's, to slot 2.
      The lower-case builder's array then has two holes, which show as blank
      segments in front of the text. */
  lemma SparseFirstUpdate(t: string)
    ensures Update(SparseStart, 2, t) == [Hole, Hole, Written(t)]
    ensures Display(Update(SparseStart, 2, t)) == Lead + Separator + Separator + t
  {
    var sparse := Update(SparseStart, 2, t);
    assert sparse == [Hole, Hole, Written(t)];
    var p := Render(sparse);
    assert p == ["", "", t];
    assert p[1..][1..] == [t];
    assert Join(p[1..], Separator) == "" + Separator + t;
  }

  /** The same first update on the upper-case builder's array leaves a fourth,
      blank slot after the text. */
  lemma FixedFirstUpdate(t: string)
    ensures Update(FixedStart, 2, t) == [Written(""), Written(""), Written(t), Written("")]
    ensures Display(Update(FixedStart, 2, t)) == Lead + Separator + Separator + t + Separator
  {
    var fixed := Update(FixedStart, 2, t);
    assert fixed == [Written(""), Written(""), Written(t), Written("")];
    FourSlotDisplay(fixed);
  }

  /** Once the physics task has written its start text and, later, its done text,
      slot 2 holds the done text, however the motion and model progress updates
      interleave with them. */
  lemma PhysicsSlotSettles(slots: seq<Slot>, before: seq<Write>, during: seq<Write>, after: seq<Write>)
    requires Untouched(during, 2) && Untouched(after, 2)
    ensures var writes := before + [Write(2, ProgressText.PhysicsLoading)] + during
                          + [Write(2, ProgressText.PhysicsDone)] + after;
            2 < |ApplyAll(slots, writes)| && ApplyAll(slots, writes)[2] == Written(ProgressText.PhysicsDone)
  {
    var writes := before + [Write(2, ProgressText.PhysicsLoading)] + during
                  + [Write(2, ProgressText.PhysicsDone)] + after;
    var k := |before| + 1 + |during|;
    assert writes[k] == Write(2, ProgressText.PhysicsDone);
    assert writes[k + 1..] == after;
    LastWriteWins(slots, writes, k);
  }

  /** The display of three slots: the lead and the texts, two separators between them. */
  lemma ThreeSlotDisplay(slots: seq<Slot>)
    requires |slots| == 3
    ensures Display(slots) == Lead + SlotText(slots[0]) + Separator + SlotText(slots[1])
                             + Separator + SlotText(slots[2])
  {
    var p := Render(slots);
    assert p[1..][1..] == [p[2]];
    assert Join(p[1..], Separator) == p[1] + Separator + p[2];
  }

  /** When the last texts written to slots 0, 1 and 2 are `motion`, `model` and
      `physics`, the display shows them in slot order, whatever came before and
      in whatever order the last writes arrived. The lower-case builder's array
      then has exactly three slots; the upper-case builder's keeps its blank
      fourth slot and so a trailing separator. */
  lemma CompletedLoadingDisplay(writes: seq<Write>, motion: string, model: string, physics: string)
    requires AllBelow(writes, 3)
    requires LastWrite(writes, 0) == Written(motion)
    requires LastWrite(writes, 1) == Written(model)
    requires LastWrite(writes, 2) == Written(physics)
    ensures Display(ApplyAll(SparseStart, writes))
            == Lead + motion + Separator + model + Separator + physics
    ensures Display(ApplyAll(FixedStart, writes))
            == Lead + motion + Separator + model + Separator + physics + Separator
  {
    ReachBelow(writes, 3);
    ReachIsTight(writes);
    assert Reach(writes) == 3;
    ApplyAllSettles(SparseStart, writes);
    ApplyAllSettles(FixedStart, writes);
    var sparse := ApplyAll(SparseStart, writes);
    var fixed := ApplyAll(FixedStart, writes);
    assert Settled(SparseStart, writes, 0) == sparse[0];
    assert Settled(SparseStart, writes, 1) == sparse[1];
    assert Settled(SparseStart, writes, 2) == sparse[2];
    ThreeSlotDisplay(sparse);
    assert Settled(FixedStart, writes, 0) == fixed[0];
    assert Settled(FixedStart, writes, 1) == fixed[1];
    assert Settled(FixedStart, writes, 2) == fixed[2];
    assert LastWrite(writes, 3) == Hole;
    assert Settled(FixedStart, writes, 3) == fixed[3];
    FourSlotDisplay(fixed);
  }

  /** The end of loading: whatever order the three tasks finish in, once the
      last write to slot 0 is the motion loader's progress line, the last to
      slot 1 the model loader's and the last to slot 2 the physics engine's
      done text, the display shows the three in slot order. */
  lemma LoadersFinish(writes: seq<Write>, motionLoaded: nat, motionTotal: nat,
                      modelLoaded: nat, modelTotal: nat)
    requires AllBelow(writes, 3)
    requires LastWrite(writes, 0) == Written(ProgressText.MotionLine(motionLoaded, motionTotal))
    requires LastWrite(writes, 1) == Written(ProgressText.ModelLine(modelLoaded, modelTotal))
    requires LastWrite(writes, 2) == Written(ProgressText.PhysicsDone)
    ensures Display(ApplyAll(SparseStart, writes))
            == Lead + ProgressText.MotionLine(motionLoaded, motionTotal)
               + Separator + ProgressText.ModelLine(modelLoaded, modelTotal)
               + Separator + ProgressText.PhysicsDone
    ensures Display(ApplyAll(FixedStart, writes))
            == Lead + ProgressText.MotionLine(motionLoaded, motionTotal)
               + Separator + ProgressText.ModelLine(modelLoaded, modelTotal)
               + Separator + ProgressText.PhysicsDone + Separator
  {
    CompletedLoadingDisplay(writes, ProgressText.MotionLine(motionLoaded, motionTotal),
                            ProgressText.ModelLine(modelLoaded, modelTotal), ProgressText.PhysicsDone);
  }

  /** The write at position `k` is the last one to its slot when no later write targets it. */
  lemma {:induction false} LastWriteAt(writes: seq<Write>, k: nat)
    requires k < |writes| && Untouched(writes[k + 1..], writes[k].slot)
    ensures LastWrite(writes, writes[k].slot) == Written(writes[k].text)
    decreases |writes|
  {
    if k == 0 {
      UntouchedIsUnwritten(writes[1..], writes[0].slot);
    } else {
      assert writes[1..][k - 1 + 1..] == writes[k + 1..];
      LastWriteAt(writes[1..], k - 1);
    }
  }
}
