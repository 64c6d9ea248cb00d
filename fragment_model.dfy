/** The block-level pass as values: what each of its moves does to the
    extent list, the invariant its two cursors keep, and the pass exactly
    as the source writes it, where the cursors can cross. */
module FragmentModel {
  import opened Decimal
  import opened DiskModel

  /** Equal sizes: the free extent at `i` and the file at `j` trade places. */
  function Swapped(v: seq<DiskItem>, i: nat, j: nat): seq<DiskItem>
    requires i < |v| && j < |v|
  {
    v[i := v[j]][j := v[i]]
  }

  /** A free extent at `i` smaller than the file at `j` is filled with as
      many units of that file, and the file shrinks by as many. */
  function Filled(v: seq<DiskItem>, i: nat, j: nat): seq<DiskItem>
    requires i < |v| && j < |v| && v[j].FilePart? && v[i].size < v[j].size
  {
    v[i := FilePart(v[i].size, v[j].id)][j := FilePart(v[j].size - v[i].size, v[j].id)]
  }

  /** A free extent at `i` larger than the file at `j`: a copy of the file
      goes in just before the free extent, which then shrinks by the file's
      size, and the file's own extent is dropped; its units do not come
      back as free space. */
  function Split(v: seq<DiskItem>, i: nat, j: nat): seq<DiskItem>
    requires i < |v| && j < |v| && i != j && v[j].FilePart? && v[i].size > v[j].size
  {
    var w := v[..i] + [FilePart(v[j].size, v[j].id)] + v[i..];
    var s := w[i + 1 := EmptySpace(v[i].size - v[j].size)];
    // where the file's extent sits once the copy is in
    var tj := if j < i then j else j + 1;
    s[..tj] + s[tj + 1..]
  }

  /** What the block-level pass keeps, with its head cursor at `hi` and its
      tail cursor at `ti`: only files before the head cursor, only free
      space after the tail cursor, every file's units as in the list `e0`
      it started from, no more units in all than there, and a leading file
      kept. */
  ghost predicate Packing(v: seq<DiskItem>, e0: seq<DiskItem>, hi: nat, ti: nat) {
    && hi <= ti < |v|
    && (forall k :: 0 <= k < hi ==> v[k].FilePart?)
    && (forall k :: ti < k < |v| ==> v[k].EmptySpace?)
    && (forall id :: FileUnits(v, id) == FileUnits(e0, id))
    && TotalSize(v) <= TotalSize(e0)
    && (e0 != [] && e0[0].FilePart? ==> v[0].FilePart?)
  }

  /** The swap keeps every file's units and the total size. */
  lemma {:induction false} SwappedKeeps(v: seq<DiskItem>, i: nat, j: nat, id: nat)
    requires i < j < |v|
    ensures FileUnits(Swapped(v, i, j), id) == FileUnits(v, id)
    ensures TotalSize(Swapped(v, i, j)) == TotalSize(v)
  {
    var u := v[i := v[j]];
    FileUnitsUpdate(v, i, v[j], id);
    FileUnitsUpdate(u, j, v[i], id);
    TotalSizeUpdate(v, i, v[j]);
    TotalSizeUpdate(u, j, v[i]);
  }

  /** Filling moves units of the file from its extent to the free one:
      every file keeps its units, and the list loses the free extent's size
      in all, as the file's extent shrinks without leaving free space. */
  lemma {:induction false} FilledKeeps(v: seq<DiskItem>, i: nat, j: nat, id: nat)
    requires i < j < |v| && v[i].EmptySpace? && v[j].FilePart? && v[i].size < v[j].size
    ensures FileUnits(Filled(v, i, j), id) == FileUnits(v, id)
    ensures TotalSize(Filled(v, i, j)) + v[i].size == TotalSize(v)
  {
    var x, y := FilePart(v[i].size, v[j].id), FilePart(v[j].size - v[i].size, v[j].id);
    var u := v[i := x];
    assert u[j] == v[j];
    FileUnitsUpdate(v, i, x, id);
    FileUnitsUpdate(u, j, y, id);
    TotalSizeUpdate(v, i, x);
    TotalSizeUpdate(u, j, y);
  }

  /** Splitting keeps every file's units, and the list loses the file's
      size in all. */
  lemma {:induction false} SplitKeeps(v: seq<DiskItem>, i: nat, j: nat, id: nat)
    requires i < j < |v| && v[i].EmptySpace? && v[j].FilePart? && v[i].size > v[j].size
    ensures FileUnits(Split(v, i, j), id) == FileUnits(v, id)
    ensures TotalSize(Split(v, i, j)) + v[j].size == TotalSize(v)
  {
    var g, x := EmptySpace(v[i].size - v[j].size), FilePart(v[j].size, v[j].id);
    var w := v[..i] + [x] + v[i..];
    assert w[i + 1] == v[i];
    var s := w[i + 1 := g];
    assert s[j + 1] == v[j];
    FileUnitsInsert(v, i, x, id);
    FileUnitsUpdate(w, i + 1, g, id);
    FileUnitsRemove(s, j + 1, id);
    TotalSizeInsert(v, i, x);
    TotalSizeUpdate(w, i + 1, g);
    TotalSizeRemove(s, j + 1);
  }

  /** The pass starts with the head cursor on the first extent and the tail
      cursor on the last. */
  lemma {:induction false} PackingStart(v: seq<DiskItem>)
    requires v != []
    ensures Packing(v, v, 0, |v| - 1)
  {
  }

  /** The head cursor passes a file. */
  lemma {:induction false} HeadStep(v: seq<DiskItem>, e0: seq<DiskItem>, hi: nat, ti: nat)
    requires Packing(v, e0, hi, ti) && hi < ti && v[hi].FilePart?
    ensures Packing(v, e0, hi + 1, ti)
  {
    forall k | 0 <= k < hi + 1 ensures v[k].FilePart? {
      if k < hi { assert v[k].FilePart?; }
    }
  }

  /** The tail cursor passes free space. */
  lemma {:induction false} TailStep(v: seq<DiskItem>, e0: seq<DiskItem>, hi: nat, ti: nat, ti': nat)
    requires Packing(v, e0, hi, ti) && hi < ti && v[ti].EmptySpace? && ti' + 1 == ti
    ensures Packing(v, e0, hi, ti')
  {
    forall k | ti' < k < |v| ensures v[k].EmptySpace? {
      if k > ti { assert v[k].EmptySpace?; }
    }
  }

  /** Equal sizes: after the swap the head cursor moves on and, unless it
      has reached the tail cursor, so does the tail cursor. */
  lemma {:induction false} SwapStep(v: seq<DiskItem>, e0: seq<DiskItem>, hi: nat, ti: nat, hi': nat, ti': nat)
    requires Packing(v, e0, hi, ti) && hi < ti && v[hi].EmptySpace? && v[ti].FilePart? && v[hi].size == v[ti].size
    requires hi' == hi + 1 && ti' == (if hi + 1 == ti then ti else ti - 1)
    ensures Packing(Swapped(v, hi, ti), e0, hi', ti')
  {
    var r := Swapped(v, hi, ti);
    forall id ensures FileUnits(r, id) == FileUnits(e0, id) {
      SwappedKeeps(v, hi, ti, id);
    }
    SwappedKeeps(v, hi, ti, 0);
    forall k | 0 <= k < hi' ensures r[k].FilePart? {
      if k < hi { assert r[k] == v[k]; }
    }
    forall k | ti' < k < |r| ensures r[k].EmptySpace? {
      if k > ti { assert r[k] == v[k]; }
    }
  }

  /** A smaller free extent is filled: the head cursor moves on. */
  lemma {:induction false} FillStep(v: seq<DiskItem>, e0: seq<DiskItem>, hi: nat, ti: nat)
    requires Packing(v, e0, hi, ti) && hi < ti && v[hi].EmptySpace? && v[ti].FilePart? && v[hi].size < v[ti].size
    ensures Packing(Filled(v, hi, ti), e0, hi + 1, ti)
  {
    var r := Filled(v, hi, ti);
    forall id ensures FileUnits(r, id) == FileUnits(e0, id) {
      FilledKeeps(v, hi, ti, id);
    }
    FilledKeeps(v, hi, ti, 0);
    forall k | 0 <= k < hi + 1 ensures r[k].FilePart? {
      if k < hi { assert r[k] == v[k]; }
    }
    forall k | ti < k < |r| ensures r[k].EmptySpace? {
      assert r[k] == v[k];
    }
  }

  /** A larger free extent, not the first, takes a copy of the file, whose
      own extent is dropped: the head cursor stays on the shrunk free
      extent, now one place further, and the tail cursor steps back to the
      dropped extent's predecessor, at the same place. */
  lemma {:induction false} SplitStep(v: seq<DiskItem>, e0: seq<DiskItem>, hi: nat, ti: nat)
    requires Packing(v, e0, hi, ti) && 0 < hi < ti && v[hi].EmptySpace? && v[ti].FilePart? && v[hi].size > v[ti].size
    ensures Packing(Split(v, hi, ti), e0, hi + 1, ti)
  {
    var r := Split(v, hi, ti);
    forall id ensures FileUnits(r, id) == FileUnits(e0, id) {
      SplitKeeps(v, hi, ti, id);
    }
    SplitKeeps(v, hi, ti, 0);
    var g, x := EmptySpace(v[hi].size - v[ti].size), FilePart(v[ti].size, v[ti].id);
    var w := v[..hi] + [x] + v[hi..];
    var s := w[hi + 1 := g];
    assert r == s[..ti + 1] + s[ti + 2..];
    forall k | 0 <= k < hi + 1 ensures r[k].FilePart? {
      if k < hi { assert r[k] == v[k]; } else { assert r[k] == x; }
    }
    forall k | ti < k < |r| ensures r[k].EmptySpace? {
      assert r[k] == s[k + 1] == v[k];
    }
  }

  /** Once the cursors meet, no free extent precedes a file. */
  lemma {:induction false} PackingDone(v: seq<DiskItem>, e0: seq<DiskItem>, m: nat)
    requires Packing(v, e0, m, m)
    ensures RightPacked(v)
  {
    forall i, j | 0 <= i < j < |v| && v[i].EmptySpace? ensures v[j].EmptySpace? {
      assert !(i < m);
    }
  }

  // ---------------------------------------------------------------------
  // The pass as written

  /** Where the pass as written stands: the list with the head cursor at
      position `h` and the tail cursor at position `t`, `h == |v|` and
      `t == -1` standing for a cursor that has run off the list (None);
      or the pass has finished; or it has dereferenced None. */
  datatype Pass = Running(v: seq<DiskItem>, h: int, t: int) | Finished(v: seq<DiskItem>) | Crashed

  ghost predicate InRange(v: seq<DiskItem>, h: int, t: int) {
    0 <= h <= |v| && -1 <= t < |v|
  }

  /** One turn of the loop as written, the cursors being on different
      nodes: a head cursor on a file moves on; a tail cursor on free space
      steps back; otherwise equal sizes swap and move both cursors, a
      smaller free extent is filled and the head cursor moves on, and a
      larger one takes a copy of the file, whose extent is dropped and whose
      predecessor becomes the tail cursor. */
  function StepAsWritten(v: seq<DiskItem>, h: int, t: int): (r: Pass)
    requires InRange(v, h, t) && h != t && !(h == |v| && t == -1)
    ensures r.Running? ==> InRange(r.v, r.h, r.t)
    ensures r.Finished? ==> false
  {
    if h == |v| then Crashed
    else if v[h].FilePart? then Running(v, h + 1, t)
    else if t == -1 then Crashed
    else if v[t].EmptySpace? then Running(v, h, t - 1)
    else if v[h].size == v[t].size then Running(Swapped(v, h, t), h + 1, t - 1)
    else if v[h].size < v[t].size then Running(Filled(v, h, t), h + 1, t)
    else if h == 0 then Crashed
    else
      var tj := if t < h then t else t + 1;
      if tj == 0 then Crashed
      else Running(Split(v, h, t), if tj < h then h else h + 1, tj - 1)
  }

  /** The loop as written, for at most `fuel` turns: it stops when the two
      cursors are the same node, or both None. */
  function RunAsWritten(v: seq<DiskItem>, h: int, t: int, fuel: nat): Pass
    requires InRange(v, h, t)
    decreases fuel
  {
    if h == t || (h == |v| && t == -1) then Finished(v)
    else if fuel == 0 then Running(v, h, t)
    else
      match StepAsWritten(v, h, t)
      case Running(v', h', t') => RunAsWritten(v', h', t', fuel - 1)
      case r => r
  }

  // ---------------------------------------------------------------------
  // The pass with the crossing corrected

  /** One turn of the pass, the head cursor at `hi` before the tail cursor
      at `ti`: as the loop as written, except that a swap of neighbours
      leaves the tail cursor where it is, so that the cursors meet instead
      of crossing. `Crashed` when the free extent to split is the first. */
  function StepFixed(v: seq<DiskItem>, hi: nat, ti: nat): (r: Pass)
    requires hi < ti < |v|
    ensures r.Running? ==> 0 <= r.h <= r.t < |r.v| && r.t - r.h < ti - hi
  {
    if v[hi].FilePart? then Running(v, hi + 1, ti)
    else if v[ti].EmptySpace? then Running(v, hi, ti - 1)
    else if v[hi].size == v[ti].size then Running(Swapped(v, hi, ti), hi + 1, if hi + 1 == ti then ti else ti - 1)
    else if v[hi].size < v[ti].size then Running(Filled(v, hi, ti), hi + 1, ti)
    else if hi == 0 then Crashed
    else Running(Split(v, hi, ti), hi + 1, ti)
  }

  /** The corrected pass: turns until the cursors meet. */
  function RunFixed(v: seq<DiskItem>, hi: nat, ti: nat): Pass
    requires hi <= ti < |v|
    decreases ti - hi
  {
    if hi == ti then Finished(v)
    else
      match StepFixed(v, hi, ti)
      case Running(v', h', t') => RunFixed(v', h', t')
      case r => r
  }

  /** The corrected turn is the turn as written except on a swap of
      neighbours, where the one as written puts the cursors past each other. */
  lemma {:induction false} FixedAgreesAsWritten(v: seq<DiskItem>, hi: nat, ti: nat)
    requires hi < ti < |v|
    ensures var swapNeighbours := v[hi].EmptySpace? && v[ti].FilePart? && v[hi].size == v[ti].size && hi + 1 == ti;
      && (!swapNeighbours ==> StepFixed(v, hi, ti) == StepAsWritten(v, hi, ti))
      && (swapNeighbours ==>
            StepFixed(v, hi, ti) == Running(Swapped(v, hi, ti), ti, ti) &&
            StepAsWritten(v, hi, ti) == Running(Swapped(v, hi, ti), ti, hi))
  {
  }

  /** A corrected turn keeps `Packing`, and fails only on a list that did
      not start with a file. */
  lemma {:induction false} StepFixedPacks(v: seq<DiskItem>, e0: seq<DiskItem>, hi: nat, ti: nat)
    requires Packing(v, e0, hi, ti) && hi < ti
    ensures StepFixed(v, hi, ti).Running? ==> Packing(StepFixed(v, hi, ti).v, e0, StepFixed(v, hi, ti).h, StepFixed(v, hi, ti).t)
    ensures !StepFixed(v, hi, ti).Finished?
    ensures StepFixed(v, hi, ti).Crashed? ==> !(e0 != [] && e0[0].FilePart?)
  {
    if v[hi].FilePart? {
      HeadStep(v, e0, hi, ti);
    } else if v[ti].EmptySpace? {
      TailStep(v, e0, hi, ti, ti - 1);
    } else if v[hi].size == v[ti].size {
      SwapStep(v, e0, hi, ti, hi + 1, if hi + 1 == ti then ti else ti - 1);
    } else if v[hi].size < v[ti].size {
      FillStep(v, e0, hi, ti);
    } else if hi > 0 {
      SplitStep(v, e0, hi, ti);
    }
  }

  /** The corrected pass from a packing position always ends. When it
      finishes, no free extent precedes a file, every file keeps its units
      and the total size has not grown; it fails only on a list that did
      not start with a file. */
  lemma {:induction false} RunFixedPacks(v: seq<DiskItem>, e0: seq<DiskItem>, hi: nat, ti: nat)
    requires Packing(v, e0, hi, ti)
    ensures RunFixed(v, hi, ti).Finished? || RunFixed(v, hi, ti).Crashed?
    ensures RunFixed(v, hi, ti).Finished? ==>
      && RightPacked(RunFixed(v, hi, ti).v)
      && (forall id :: FileUnits(RunFixed(v, hi, ti).v, id) == FileUnits(e0, id))
      && TotalSize(RunFixed(v, hi, ti).v) <= TotalSize(e0)
    ensures RunFixed(v, hi, ti).Crashed? ==> !(e0 != [] && e0[0].FilePart?)
    decreases ti - hi
  {
    if hi == ti {
      PackingDone(v, e0, hi);
    } else {
      StepFixedPacks(v, e0, hi, ti);
      match StepFixed(v, hi, ti)
      case Running(v', h', t') =>
        RunFixedPacks(v', e0, h', t');
      case Crashed =>
    }
  }

  /** The corrected pass over a whole list. */
  lemma {:induction false} FragmentFixed(v: seq<DiskItem>)
    requires v != []
    ensures var r := RunFixed(v, 0, |v| - 1);
      && (r.Finished? || r.Crashed?)
      && (r.Finished? ==> RightPacked(r.v) && (forall id :: FileUnits(r.v, id) == FileUnits(v, id)) && TotalSize(r.v) <= TotalSize(v))
      && (r.Crashed? ==> v[0].EmptySpace?)
  {
    PackingStart(v);
    RunFixedPacks(v, v, 0, |v| - 1);
  }

  /** On "111" the corrected pass swaps file 1 into the free unit and stops
      with the cursors met. */
  lemma {:induction false} FixedOn111()
    ensures RunFixed([FilePart(1, 0), EmptySpace(1), FilePart(1, 1)], 0, 2) ==
            Finished([FilePart(1, 0), FilePart(1, 1), EmptySpace(1)])
  {
    var v := [FilePart(1, 0), EmptySpace(1), FilePart(1, 1)];
    var v1 := [FilePart(1, 0), FilePart(1, 1), EmptySpace(1)];
    assert StepFixed(v, 0, 2) == Running(v, 1, 2);
    assert Swapped(v, 1, 2) == v1;
    assert StepFixed(v, 1, 2) == Running(v1, 2, 2);
  }

  /** On "111" (file 0, one free unit, file 1) the head cursor passes file
      0; the swap then puts the head cursor on the last node and the tail
      cursor on the middle one, past each other; the second swap moves file
      1 back and runs the head cursor off the list, and the next turn
      dereferences None. */
  lemma {:induction false} CursorsCrossOn111()
    ensures AllDigits("111")
    ensures Decode("111") == [FilePart(1, 0), EmptySpace(1), FilePart(1, 1)]
    ensures RunAsWritten(Decode("111"), 0, 2, 4) == Crashed
  {
    var v := [FilePart(1, 0), EmptySpace(1), FilePart(1, 1)];
    assert AllDigits("111") by {
      assert forall k :: 0 <= k < 3 ==> "111"[k] == '1';
    }
    assert DecodeFrom("1", false, 1) == [FilePart(1, 1)];
    assert DecodeFrom("11", true, 1) == [EmptySpace(1)] + [FilePart(1, 1)];
    assert Decode("111") == [FilePart(1, 0)] + ([EmptySpace(1)] + [FilePart(1, 1)]);
    assert StepAsWritten(v, 0, 2) == Running(v, 1, 2);
    var v1 := [FilePart(1, 0), FilePart(1, 1), EmptySpace(1)];
    assert Swapped(v, 1, 2) == v1;
    assert StepAsWritten(v, 1, 2) == Running(v1, 2, 1);
    assert Swapped(v1, 2, 1) == v;
    assert StepAsWritten(v1, 2, 1) == Running(v, 3, 0);
    assert RunAsWritten(v, 3, 0, 1) == Crashed;
  }
}
