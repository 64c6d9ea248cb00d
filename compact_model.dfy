/** The whole-file pass as values: the extent list together with the keys
    of its nodes, the first-fit scan for a file, what one move does to the
    keys, and the pass from the tail of the list back to its head. */
module CompactModel {
  import opened Basics
  import opened DiskModel

  /** Keys never decrease along the list. */
  ghost predicate Ascending(keys: seq<int>) {
    forall k :: 0 < k < |keys| ==> keys[k - 1] <= keys[k]
  }

  /** In ascending keys, a strictly smaller key sits strictly earlier. */
  lemma {:induction false} AscendingBelow(keys: seq<int>, i: nat, j: nat)
    requires Ascending(keys) && i < |keys| && j < |keys| && keys[i] < keys[j]
    ensures i < j
  {
    if j <= i {
      AscendingPair(keys, j, i);
    }
  }

  lemma {:induction false} AscendingPair(keys: seq<int>, i: nat, j: nat)
    requires Ascending(keys) && i <= j < |keys|
    ensures keys[i] <= keys[j]
    decreases j - i
  {
    if i < j {
      AscendingPair(keys, i, j - 1);
    }
  }

  // ---------------------------------------------------------------------
  // The scan

  /** The scan for the file at `ti` stops at position `k`: at the end of
      the list, at the file itself, or at a key not below the file's. */
  predicate Stops(v: seq<DiskItem>, keys: seq<int>, k: nat, ti: nat)
    requires |keys| == |v| && ti < |v|
  {
    k >= |v| || k == ti || keys[k] >= keys[ti]
  }

  /** The free extent at `k` can hold the file at `ti`. */
  predicate Fits(v: seq<DiskItem>, k: nat, ti: nat)
    requires k < |v| && ti < |v|
  {
    v[k].EmptySpace? && v[k].size >= v[ti].size
  }

  /** The first free extent large enough for the file at `ti` that the
      scan from `k` meets before it stops. */
  function Fit(v: seq<DiskItem>, keys: seq<int>, k: nat, ti: nat): (r: Option<nat>)
    requires |keys| == |v| && ti < |v|
    ensures r.Some? ==> k <= r.value < |v| && !Stops(v, keys, r.value, ti) && Fits(v, r.value, ti)
    ensures r.Some? ==> forall j :: k <= j < r.value ==> !Stops(v, keys, j, ti) && !Fits(v, j, ti)
    decreases |v| - k
  {
    if Stops(v, keys, k, ti) then None
    else if Fits(v, k, ti) then Some(k)
    else Fit(v, keys, k + 1, ti)
  }

  /** The first free extent the scan from `k` meets before it stops. */
  function FirstFree(v: seq<DiskItem>, keys: seq<int>, k: nat, ti: nat): (r: Option<nat>)
    requires |keys| == |v| && ti < |v|
    ensures r.Some? ==> k <= r.value < |v| && !Stops(v, keys, r.value, ti) && v[r.value].EmptySpace?
    ensures r.Some? ==> forall j :: k <= j < r.value ==> v[j].FilePart?
    decreases |v| - k
  {
    if Stops(v, keys, k, ti) then None
    else if v[k].EmptySpace? then Some(k)
    else FirstFree(v, keys, k + 1, ti)
  }

  /** Where the scan from the last-empty cursor `li` leaves that cursor:
      on the first free extent it met, else where it was. */
  function LastEmpty(v: seq<DiskItem>, keys: seq<int>, li: nat, ti: nat): nat
    requires |keys| == |v| && ti < |v|
  {
    match FirstFree(v, keys, li, ti)
    case Some(j) => j
    case None => li
  }

  /** The scan meets a free extent no later than the one it picks, so the
      last-empty cursor does not pass the chosen space, and it moves over
      files only. */
  lemma {:induction false} LastEmptyBeforeFit(v: seq<DiskItem>, keys: seq<int>, k: nat, ti: nat)
    requires |keys| == |v| && ti < |v|
    ensures k <= LastEmpty(v, keys, k, ti)
    ensures forall j :: k <= j < LastEmpty(v, keys, k, ti) ==> v[j].FilePart?
    ensures Fit(v, keys, k, ti).Some? ==> LastEmpty(v, keys, k, ti) <= Fit(v, keys, k, ti).value
    decreases |v| - k
  {
    if !Stops(v, keys, k, ti) && !Fits(v, k, ti) && v[k].FilePart? {
      LastEmptyBeforeFit(v, keys, k + 1, ti);
    }
  }

  /** The scan from `li` for the file at `ti` has passed the positions
      before `p`, none of them a stop or a fit; `nli` is where it has left
      the last-empty cursor, still `li` until it passes a free extent
      (`skipped`). */
  ghost predicate Scanning(v: seq<DiskItem>, keys: seq<int>, li: nat, ti: nat, p: nat, nli: nat, skipped: bool)
    requires |keys| == |v| && ti < |v|
  {
    && li <= nli <= p <= |v|
    && (forall k :: li <= k < p ==> !Stops(v, keys, k, ti) && !Fits(v, k, ti))
    && Fit(v, keys, li, ti) == Fit(v, keys, p, ti)
    && (!skipped ==> nli == li && FirstFree(v, keys, li, ti) == FirstFree(v, keys, p, ti))
    && (skipped ==> nli < p && FirstFree(v, keys, li, ti) == Some(nli))
  }

  /** The scan passes a file. */
  lemma {:induction false} ScanPassFile(v: seq<DiskItem>, keys: seq<int>, li: nat, ti: nat, p: nat, nli: nat, skipped: bool)
    requires |keys| == |v| && ti < |v| && Scanning(v, keys, li, ti, p, nli, skipped)
    requires p < |v| && !Stops(v, keys, p, ti) && v[p].FilePart?
    ensures Scanning(v, keys, li, ti, p + 1, nli, skipped)
  {
    assert Fit(v, keys, p, ti) == Fit(v, keys, p + 1, ti);
    assert FirstFree(v, keys, p, ti) == FirstFree(v, keys, p + 1, ti);
  }

  /** The scan passes a free extent too small for the file; the first one
      it passes takes the last-empty cursor. */
  lemma {:induction false} ScanPassSpace(v: seq<DiskItem>, keys: seq<int>, li: nat, ti: nat, p: nat, nli: nat, skipped: bool)
    requires |keys| == |v| && ti < |v| && Scanning(v, keys, li, ti, p, nli, skipped)
    requires p < |v| && !Stops(v, keys, p, ti) && v[p].EmptySpace? && !Fits(v, p, ti)
    ensures Scanning(v, keys, li, ti, p + 1, if skipped then nli else p, true)
  {
    assert Fit(v, keys, p, ti) == Fit(v, keys, p + 1, ti);
    assert FirstFree(v, keys, p, ti) == Some(p);
  }

  /** The scan stops without a space for the file. */
  lemma {:induction false} ScanStopped(v: seq<DiskItem>, keys: seq<int>, li: nat, ti: nat, p: nat, nli: nat, skipped: bool)
    requires |keys| == |v| && ti < |v| && Scanning(v, keys, li, ti, p, nli, skipped)
    requires Stops(v, keys, p, ti)
    ensures Fit(v, keys, li, ti) == None && nli == LastEmpty(v, keys, li, ti)
  {
    assert Fit(v, keys, p, ti) == None;
    assert FirstFree(v, keys, p, ti) == None;
  }

  /** The scan finds a space for the file at `p`; a free extent passed
      before it, else this one, takes the last-empty cursor. */
  lemma {:induction false} ScanFound(v: seq<DiskItem>, keys: seq<int>, li: nat, ti: nat, p: nat, nli: nat, skipped: bool)
    requires |keys| == |v| && ti < |v| && Scanning(v, keys, li, ti, p, nli, skipped)
    requires p < |v| && !Stops(v, keys, p, ti) && Fits(v, p, ti)
    ensures Fit(v, keys, li, ti) == Some(p) && (if skipped then nli else p) == LastEmpty(v, keys, li, ti)
  {
    assert Fit(v, keys, p, ti) == Some(p);
    assert FirstFree(v, keys, p, ti) == Some(p);
  }

  // ---------------------------------------------------------------------
  // Keys of a move

  /** The keys once the file at `q` moves into the larger free extent at
      `p`, which has a predecessor: the copy, keyed halfway (rounded down)
      between the space and its predecessor, goes in before the space; the
      file's own key goes when a free neighbour takes its units, and stays
      with the new free node otherwise. */
  function RelocateKeys(keys: seq<int>, v: seq<DiskItem>, p: nat, q: nat): (r: seq<int>)
    requires 0 < p < q < |v| == |keys|
  {
    var placed := keys[..p] + [(keys[p] + keys[p - 1]) / 2] + keys[p..];
    if (q + 1 < |v| && v[q + 1].EmptySpace?) || v[q - 1].EmptySpace? then placed[..q + 1] + placed[q + 2..]
    else placed
  }

  /** The keys of a move still ascend and still match the extents one for one. */
  lemma {:induction false} RelocateKeysAscend(keys: seq<int>, v: seq<DiskItem>, p: nat, q: nat)
    requires 0 < p < q < |v| == |keys| && v[p].EmptySpace? && v[q].FilePart? && v[p].size > v[q].size
    requires Ascending(keys)
    ensures Ascending(RelocateKeys(keys, v, p, q))
    ensures |RelocateKeys(keys, v, p, q)| == |Relocate(v, p, q)|
  {
    var c := (keys[p] + keys[p - 1]) / 2;
    var placed := keys[..p] + [c] + keys[p..];
    InsertKeepsAscending(keys, p, c);
    var r := RelocateKeys(keys, v, p, q);
    if (q + 1 < |v| && v[q + 1].EmptySpace?) || v[q - 1].EmptySpace? {
      DropKeepsAscending(placed, q + 1);
      assert r == placed[..q + 1] + placed[q + 2..];
    } else {
      assert r == placed;
    }
    assert Ascending(r);
    RelocateLength(v, p, q);
  }

  /** A key between its two neighbours keeps the keys ascending. */
  lemma {:induction false} InsertKeepsAscending(keys: seq<int>, p: nat, c: int)
    requires Ascending(keys) && 0 < p < |keys| && keys[p - 1] <= c <= keys[p]
    ensures Ascending(keys[..p] + [c] + keys[p..])
  {
    var placed := keys[..p] + [c] + keys[p..];
    forall k | 0 < k < |placed| ensures placed[k - 1] <= placed[k] {
      if k < p {
        assert placed[k - 1] == keys[k - 1] && placed[k] == keys[k];
      } else if k == p {
        assert placed[k - 1] == keys[p - 1] && placed[k] == c;
      } else if k == p + 1 {
        assert placed[k - 1] == c && placed[k] == keys[p];
      } else {
        assert placed[k - 1] == keys[k - 2] && placed[k] == keys[k - 1];
      }
    }
  }

  /** Dropping one key keeps the rest ascending. */
  lemma {:induction false} DropKeepsAscending(keys: seq<int>, i: nat)
    requires Ascending(keys) && i < |keys|
    ensures Ascending(keys[..i] + keys[i + 1..])
  {
    var r := keys[..i] + keys[i + 1..];
    forall k | 0 < k < |r| ensures r[k - 1] <= r[k] {
      if k == i {
        AscendingPair(keys, i - 1, i + 1);
      } else if k < i {
        assert r[k - 1] == keys[k - 1] && r[k] == keys[k];
      } else {
        assert r[k - 1] == keys[k] && r[k] == keys[k + 1];
      }
    }
  }

  /** A move into a larger space adds one extent, unless a free neighbour
      takes the file's units. */
  lemma {:induction false} RelocateLength(v: seq<DiskItem>, p: nat, q: nat)
    requires p < q < |v| && v[p].EmptySpace? && v[q].FilePart? && v[p].size > v[q].size
    ensures |Relocate(v, p, q)| == if (q + 1 < |v| && v[q + 1].EmptySpace?) || v[q - 1].EmptySpace? then |v| else |v| + 1
  {
    var left := v[..p] + [v[q], EmptySpace(v[p].size - v[q].size)] + v[p + 1..q];
    assert |left| == q + 1;
    assert left[q] == if q == p + 1 then EmptySpace(v[p].size - v[q].size) else v[q - 1];
  }

  // ---------------------------------------------------------------------
  // The pass

  /** Where the pass stands: the list `v` and its keys, the tail cursor at
      `ti` (-1 once it has passed the head) and the last-empty cursor at
      `li`. */
  datatype Compaction = Compaction(v: seq<DiskItem>, keys: seq<int>, ti: int, li: nat)

  /** What the pass keeps: a key per extent, ascending keys, the tail
      cursor on the list or just before it, and only files before the
      last-empty cursor. */
  ghost predicate Sound(s: Compaction) {
    && |s.keys| == |s.v| && -1 <= s.ti < |s.v| && Ascending(s.keys)
    && forall k :: 0 <= k < s.li && k < |s.v| ==> s.v[k].FilePart?
  }

  /** The pass starts with the tail cursor on the last extent and the
      last-empty cursor on the first. */
  function Start(v: seq<DiskItem>, keys: seq<int>): Compaction {
    Compaction(v, keys, |v| - 1, 0)
  }

  /** The measure of the pass: the file positions up to the tail cursor. */
  function Progress(s: Compaction): nat
    requires -1 <= s.ti < |s.v|
  {
    FilePositions(s.v[..s.ti + 1], 0)
  }

  /** One position of the tail cursor: free space is passed; a file is
      moved by `Relocate` into the first free extent the scan from the
      last-empty cursor finds large enough, and the tail cursor goes to the
      file's old predecessor; a file with no such extent is passed. A larger
      space that is the first extent has no predecessor to link the copy to,
      and the pass fails (`None`). */
  function Step(s: Compaction): Option<Compaction>
    requires Sound(s) && s.ti >= 0
  {
    var Compaction(v, keys, ti, li) := s;
    if v[ti].EmptySpace? then Some(Compaction(v, keys, ti - 1, li))
    else
      var nli := LastEmpty(v, keys, li, ti);
      match Fit(v, keys, li, ti)
      case None => Some(Compaction(v, keys, ti - 1, nli))
      case Some(p) =>
        AscendingBelow(keys, p, ti);
        Move(v, keys, p, ti, nli)
  }

  /** The file at `ti` moves by `Relocate` into the free extent at `p`
      before it, the scan having left the last-empty cursor at `nli`. A
      space of the file's size trades places with it and the tail cursor
      goes back; a larger space gets a copy of the file before it, and the
      tail cursor stays at `ti`, now the file's old predecessor, while a
      last-empty cursor on the space follows it; `None` when that larger
      space is the first extent. */
  function Move(v: seq<DiskItem>, keys: seq<int>, p: nat, ti: nat, nli: nat): (r: Option<Compaction>)
    requires p < ti < |v| == |keys| && v[p].EmptySpace? && v[ti].FilePart? && v[p].size >= v[ti].size
    ensures r.None? <==> v[p].size > v[ti].size && p == 0
  {
    if v[p].size == v[ti].size then Some(Compaction(Relocate(v, p, ti), keys, ti - 1, nli))
    else if p == 0 then None
    else Some(Compaction(Relocate(v, p, ti), RelocateKeys(keys, v, p, ti), ti, if nli == p then p + 1 else nli))
  }

  /** A move that succeeds, given what it does to the list and its keys. */
  lemma {:induction false} MoveOutcome(v: seq<DiskItem>, keys: seq<int>, p: nat, q: nat, nli: nat, r: seq<DiskItem>, rk: seq<int>)
    requires p < q < |v| == |keys| && v[p].EmptySpace? && v[q].FilePart? && v[p].size >= v[q].size
    requires v[p].size > v[q].size ==> p > 0
    requires r == Relocate(v, p, q)
    requires rk == if v[p].size == v[q].size then keys else RelocateKeys(keys, v, p, q)
    ensures Move(v, keys, p, q, nli) == Some(Compaction(r, rk, if v[p].size == v[q].size then q - 1 else q,
                                                    if v[p].size > v[q].size && nli == p then p + 1 else nli))
  {
  }

  /** The step on a file for which the scan finds no space passes it. */
  lemma {:induction false} StepPasses(s: Compaction)
    requires Sound(s) && s.ti >= 0 && s.v[s.ti].FilePart? && Fit(s.v, s.keys, s.li, s.ti).None?
    ensures Step(s) == Some(Compaction(s.v, s.keys, s.ti - 1, LastEmpty(s.v, s.keys, s.li, s.ti)))
  {
  }

  /** The step on a file for which the scan finds the space at `p` moves it there. */
  lemma {:induction false} StepMoves(s: Compaction, p: nat)
    requires Sound(s) && s.ti >= 0 && s.v[s.ti].FilePart? && Fit(s.v, s.keys, s.li, s.ti) == Some(p)
    ensures p < s.ti && Step(s) == Move(s.v, s.keys, p, s.ti, LastEmpty(s.v, s.keys, s.li, s.ti))
  {
    AscendingBelow(s.keys, p, s.ti);
  }

  /** What a step keeps from `s` to `t`: the pass is still sound, its
      measure drops (or stays while the tail cursor moves back), the file
      extents and the total size stay, and so does a leading file. */
  ghost predicate Advances(s: Compaction, t: Compaction)
    requires -1 <= s.ti < |s.v|
  {
    && Sound(t)
    && (Progress(t) < Progress(s) || (Progress(t) == Progress(s) && t.ti < s.ti))
    && multiset(Files(t.v)) == multiset(Files(s.v)) && TotalSize(t.v) == TotalSize(s.v)
    && (s.v != [] && s.v[0].FilePart? ==> t.v[0].FilePart?)
  }

  /** A step advances the pass, and never fails on a list that starts with a file. */
  lemma {:induction false} StepKeeps(s: Compaction)
    requires Sound(s) && s.ti >= 0
    ensures s.v[0].FilePart? ==> Step(s).Some?
    ensures Step(s).Some? ==> Advances(s, Step(s).value)
  {
    var Compaction(v, keys, ti, li) := s;
    if v[ti].EmptySpace? {
      assert Step(s) == Some(Compaction(v, keys, ti - 1, li));
      PassKeeps(s, li);
    } else {
      var nli := LastEmpty(v, keys, li, ti);
      LastEmptyBeforeFit(v, keys, li, ti);
      match Fit(v, keys, li, ti)
      case None =>
        assert Step(s) == Some(Compaction(v, keys, ti - 1, nli));
        PassKeeps(s, nli);
      case Some(p) =>
        AscendingBelow(keys, p, ti);
        assert Step(s) == Move(v, keys, p, ti, nli);
        if v[p].size == v[ti].size || p > 0 {
          MoveKeeps(s, nli, p);
        }
    }
  }

  /** The tail cursor passes its extent, the last-empty cursor going to `nli`. */
  lemma {:induction false} PassKeeps(s: Compaction, nli: nat)
    requires Sound(s) && s.ti >= 0
    requires forall k :: 0 <= k < nli && k < |s.v| ==> s.v[k].FilePart?
    ensures Advances(s, Compaction(s.v, s.keys, s.ti - 1, nli))
  {
    FilePositionsPrefix(s.v, s.ti, s.ti + 1);
  }

  /** The file at the tail cursor moves into the free extent at `p`, the
      last-empty cursor being at `nli`. */
  lemma {:induction false} MoveKeeps(s: Compaction, nli: nat, p: nat)
    requires Sound(s) && 0 <= p < s.ti && nli <= p
    requires forall k :: 0 <= k < nli ==> s.v[k].FilePart?
    requires s.v[p].EmptySpace? && s.v[s.ti].FilePart? && s.v[p].size >= s.v[s.ti].size
    requires s.v[p].size > s.v[s.ti].size ==> p > 0
    ensures Advances(s, Move(s.v, s.keys, p, s.ti, nli).value)
  {
    var v, keys, ti := s.v, s.keys, s.ti;
    var r := Relocate(v, p, ti);
    var ti' := if v[p].size == v[ti].size then ti - 1 else ti;
    var li' := if v[p].size > v[ti].size && nli == p then p + 1 else nli;
    WholeFileStep(v, p, ti, nli, r, ti', li');
    var rk := if v[p].size == v[ti].size then keys else RelocateKeys(keys, v, p, ti);
    if v[p].size == v[ti].size {
      RelocateSwaps(v, p, ti);
    } else {
      RelocateKeysAscend(keys, v, p, ti);
    }
    MoveOutcome(v, keys, p, ti, nli, r, rk);
    AdvancesBy(s, Compaction(r, rk, ti', li'));
  }

  /** `Advances` from its parts, the measure dropping. */
  lemma {:induction false} AdvancesBy(s: Compaction, t: Compaction)
    requires -1 <= s.ti < |s.v| && Sound(t)
    requires FilePositions(t.v[..t.ti + 1], 0) < FilePositions(s.v[..s.ti + 1], 0)
    requires multiset(Files(t.v)) == multiset(Files(s.v)) && TotalSize(t.v) == TotalSize(s.v)
    requires s.v != [] && s.v[0].FilePart? ==> t.v[0].FilePart?
    ensures Advances(s, t)
  {
  }

  /** The whole pass from `s`: steps until the tail cursor has passed the
      head; `None` when a step fails. */
  function CompactFrom(s: Compaction): (r: Option<Compaction>)
    requires Sound(s)
    ensures r.Some? ==> Sound(r.value) && r.value.ti == -1
    ensures r.Some? ==> multiset(Files(r.value.v)) == multiset(Files(s.v)) && TotalSize(r.value.v) == TotalSize(s.v)
    ensures s.v != [] && s.v[0].FilePart? ==> r.Some? && r.value.v[0].FilePart?
    decreases Progress(s), s.ti + 1
  {
    if s.ti < 0 then Some(s)
    else
      StepKeeps(s);
      match Step(s)
      case None => None
      case Some(t) => CompactFrom(t)
  }

  /** The pass from a position where the tail cursor is on the list is the
      pass from where its step leads, and fails where that step fails. */
  lemma {:induction false} CompactFromStep(s: Compaction)
    requires Sound(s) && s.ti >= 0
    ensures Step(s).None? ==> CompactFrom(s).None?
    ensures Step(s).Some? ==> Sound(Step(s).value) && CompactFrom(s) == CompactFrom(Step(s).value)
  {
    StepKeeps(s);
  }

  /** The pass on a list that starts with free space of one unit, then a
      file of one unit: the file moves into the space, and the pass ends
      with the file first. */
  lemma {:induction false} CompactSmall()
    ensures var s := Start([EmptySpace(1), FilePart(1, 0)], [0, 1]);
      Sound(s) && CompactFrom(s) == Some(Compaction([FilePart(1, 0), EmptySpace(1)], [0, 1], -1, 0))
  {
    var v := [EmptySpace(1), FilePart(1, 0)];
    var s := Start(v, [0, 1]);
    assert Fit(v, [0, 1], 0, 1) == Some(0);
    assert FirstFree(v, [0, 1], 0, 1) == Some(0);
    var v1 := [FilePart(1, 0), EmptySpace(1)];
    assert Relocate(v, 0, 1) == v1;
    assert Step(s) == Some(Compaction(v1, [0, 1], 0, 0));
    assert Step(Compaction(v1, [0, 1], 0, 0)) == Some(Compaction(v1, [0, 1], -1, 0));
  }
}
