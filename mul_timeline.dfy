/** Corrupted memory instructions: `mul(a,b)` multiplies, `do()` enables
    and `don't()` disables the muls that follow. The matches come as
    `(start, kind, value)` triples; the timeline sorts them and a fold with
    an on/off status adds up the enabled muls. */
module MulTimeline {

  /** The kinds in the order their names compare: "do" < "don't" < "mul". */
  datatype Kind = Do | Dont | Mul

  function Rank(k: Kind): nat {
    match k
    case Do => 0
    case Dont => 1
    case Mul => 2
  }

  datatype Entry = Entry(start: nat, kind: Kind, value: nat)

  /** Tuple order on (start, kind, value). */
  predicate LessEq(e: Entry, f: Entry) {
    e.start < f.start
    || (e.start == f.start && (Rank(e.kind) < Rank(f.kind)
                               || (e.kind == f.kind && e.value <= f.value)))
  }

  ghost predicate Sorted(t: seq<Entry>) {
    forall i, j :: 0 <= i < j < |t| ==> LessEq(t[i], t[j])
  }

  /** The mul matches, given as (start, first operand, second operand):
      the value is the product of the two operands. */
  function MulEntries(muls: seq<(nat, nat, nat)>): (r: seq<Entry>)
    ensures |r| == |muls|
    ensures forall i :: 0 <= i < |muls| ==> r[i] == Entry(muls[i].0, Mul, muls[i].1 * muls[i].2)
  {
    if muls == [] then []
    else MulEntries(muls[..|muls| - 1]) + [Entry(muls[|muls| - 1].0, Mul, muls[|muls| - 1].1 * muls[|muls| - 1].2)]
  }

  /** The `do()` or `don't()` matches, given by their starts, with value 1. */
  function Marks(starts: seq<nat>, kind: Kind): (r: seq<Entry>)
    ensures |r| == |starts|
    ensures forall i :: 0 <= i < |starts| ==> r[i] == Entry(starts[i], kind, 1)
  {
    if starts == [] then []
    else Marks(starts[..|starts| - 1], kind) + [Entry(starts[|starts| - 1], kind, 1)]
  }

  /** Sum of the values of the muls, whatever the status. */
  function MulSum(t: seq<Entry>): nat {
    if t == [] then 0
    else MulSum(t[..|t| - 1]) + (if t[|t| - 1].kind == Mul then t[|t| - 1].value else 0)
  }

  /** The status after a prefix: on unless the latest `do()`/`don't()` in it
      is a `don't()`. */
  function LastControlOn(p: seq<Entry>): bool {
    if p == [] then true
    else if p[|p| - 1].kind == Do then true
    else if p[|p| - 1].kind == Dont then false
    else LastControlOn(p[..|p| - 1])
  }

  /** Sum of the values of the muls whose latest preceding control is not a
      `don't()`. */
  function EnabledSum(t: seq<Entry>): nat {
    if t == [] then 0
    else
      var p := t[..|t| - 1];
      EnabledSum(p) + (if t[|t| - 1].kind == Mul && LastControlOn(p) then t[|t| - 1].value else 0)
  }

  ghost predicate NoDont(t: seq<Entry>) {
    forall k :: 0 <= k < |t| ==> t[k].kind != Dont
  }

  /** Inserts `e` into a sorted timeline before its first larger-or-equal entry. */
  function Insert(e: Entry, t: seq<Entry>): (r: seq<Entry>)
    requires Sorted(t)
    ensures Sorted(r)
    ensures multiset(r) == multiset(t) + multiset{e}
    ensures r[0] == e || (t != [] && r[0] == t[0])
  {
    if t == [] || LessEq(e, t[0]) then
      SortedCons(e, t);
      [e] + t
    else
      assert t == [t[0]] + t[1..];
      SortedTail(t);
      var u := Insert(e, t[1..]);
      assert |t| > 1 ==> LessEq(t[0], t[1]);
      SortedCons(t[0], u);
      [t[0]] + u
  }

  lemma {:induction false} SortedCons(a: Entry, t: seq<Entry>)
    requires Sorted(t) && (t == [] || LessEq(a, t[0]))
    ensures Sorted([a] + t)
  {
    forall i, j | 0 <= i < j < |[a] + t|
      ensures LessEq(([a] + t)[i], ([a] + t)[j])
    {
      if i == 0 {
        assert LessEq(t[0], t[j - 1]);
      } else {
        assert ([a] + t)[i] == t[i - 1] && ([a] + t)[j] == t[j - 1];
      }
    }
  }

  lemma {:induction false} SortedTail(t: seq<Entry>)
    requires Sorted(t) && t != []
    ensures Sorted(t[1..])
  {
    forall i, j | 0 <= i < j < |t| - 1
      ensures LessEq(t[1..][i], t[1..][j])
    {
      assert t[1..][i] == t[i + 1] && t[1..][j] == t[j + 1];
    }
  }

  /** The timeline: the entries in tuple order, hence by ascending start. */
  function Sort(t: seq<Entry>): (r: seq<Entry>)
    ensures Sorted(r)
    ensures multiset(r) == multiset(t)
    ensures forall i, j :: 0 <= i < j < |r| ==> r[i].start <= r[j].start
  {
    if t == [] then []
    else
      assert t == [t[0]] + t[1..];
      Insert(t[0], Sort(t[1..]))
  }

  /** Sums every mul for the first result, then sorts all matches into one
      timeline and folds it for the second. */
  method Solve(muls: seq<(nat, nat, nat)>, does: seq<nat>, donts: seq<nat>)
    returns (result1: nat, result2: nat)
    ensures result1 == MulSum(MulEntries(muls))
    ensures result2 == EnabledSum(Sort(MulEntries(muls) + Marks(does, Do) + Marks(donts, Dont)))
    ensures result2 <= result1
    ensures donts == [] ==> result2 == result1
  {
    var entries := MulEntries(muls) + Marks(does, Do) + Marks(donts, Dont);
    result1 := MulSum(MulEntries(muls));
    result2 := Fold(Sort(entries));
    TimelineSums(muls, does, donts);
  }

  /** The fold over the timeline: the status starts on; while off only
      `do()` matters; while on `don't()` turns it off and a mul adds its
      value. */
  method Fold(timeline: seq<Entry>) returns (result2: nat)
    ensures result2 == EnabledSum(timeline)
  {
    var on := true;
    result2 := 0;
    for i := 0 to |timeline|
      invariant result2 == EnabledSum(timeline[..i])
      invariant on == LastControlOn(timeline[..i])
    {
      var e := timeline[i];
      assert timeline[..i + 1] == timeline[..i] + [e];
      assert (timeline[..i] + [e])[..i] == timeline[..i];
      if !on {
        if e.kind == Do {
          on := true;
        }
        continue;
      }
      if e.kind == Dont {
        on := false;
        continue;
      }
      if e.kind == Mul {
        result2 := result2 + e.value;
      }
    }
    assert timeline[..|timeline|] == timeline;
  }

  /** The muls of the timeline are exactly the given muls: the first result
      bounds the second, and without `don't()` they agree. */
  lemma {:induction false} TimelineSums(muls: seq<(nat, nat, nat)>, does: seq<nat>, donts: seq<nat>)
    ensures EnabledSum(Sort(MulEntries(muls) + Marks(does, Do) + Marks(donts, Dont))) <= MulSum(MulEntries(muls))
    ensures donts == [] ==> EnabledSum(Sort(MulEntries(muls) + Marks(does, Do) + Marks(donts, Dont))) == MulSum(MulEntries(muls))
  {
    var m, d, n := MulEntries(muls), Marks(does, Do), Marks(donts, Dont);
    var entries := m + d + n;
    MulSumAppend(m + d, n);
    MulSumAppend(m, d);
    MarksHaveNoMul(does, Do);
    MarksHaveNoMul(donts, Dont);
    MulSumSort(entries);
    EnabledAtMost(Sort(entries));
    if donts == [] {
      MulEntriesHaveNoDont(muls);
      MarksHaveNoDont(does, Do);
      assert n == [];
      assert entries == m + d;
      assert NoDont(entries);
      NoDontAfterSort(entries);
      EnabledWithoutDont(Sort(entries));
    }
  }

  /** A mul counts at most its value, so the enabled sum is at most the sum
      of all muls. */
  lemma {:induction false} EnabledAtMost(t: seq<Entry>)
    ensures EnabledSum(t) <= MulSum(t)
  {
    if t != [] {
      EnabledAtMost(t[..|t| - 1]);
    }
  }

  /** Without `don't()` the status never turns off. */
  lemma {:induction false} AlwaysOnWithoutDont(p: seq<Entry>)
    requires NoDont(p)
    ensures LastControlOn(p)
  {
    if p != [] {
      assert p[|p| - 1].kind != Dont;
      AlwaysOnWithoutDont(p[..|p| - 1]);
    }
  }

  /** Without `don't()` every mul counts. */
  lemma {:induction false} EnabledWithoutDont(t: seq<Entry>)
    requires NoDont(t)
    ensures EnabledSum(t) == MulSum(t)
  {
    if t != [] {
      var p := t[..|t| - 1];
      assert NoDont(p);
      AlwaysOnWithoutDont(p);
      EnabledWithoutDont(p);
    }
  }

  lemma {:induction false} MulSumAppend(a: seq<Entry>, b: seq<Entry>)
    ensures MulSum(a + b) == MulSum(a) + MulSum(b)
  {
    if b != [] {
      var q := b[..|b| - 1];
      assert (a + b)[..|a + b| - 1] == a + q;
      MulSumAppend(a, q);
    } else {
      assert a + b == a;
    }
  }

  lemma {:induction false} MarksHaveNoMul(starts: seq<nat>, kind: Kind)
    requires kind != Mul
    ensures MulSum(Marks(starts, kind)) == 0
  {
    if starts != [] {
      var q := starts[..|starts| - 1];
      MarksHaveNoMul(q, kind);
      MulSumAppend(Marks(q, kind), [Entry(starts[|starts| - 1], kind, 1)]);
    }
  }

  lemma {:induction false} MarksHaveNoDont(starts: seq<nat>, kind: Kind)
    requires kind != Dont
    ensures NoDont(Marks(starts, kind))
  {
    if starts != [] {
      MarksHaveNoDont(starts[..|starts| - 1], kind);
    }
  }

  lemma {:induction false} MulEntriesHaveNoDont(muls: seq<(nat, nat, nat)>)
    ensures NoDont(MulEntries(muls))
  {
    if muls != [] {
      MulEntriesHaveNoDont(muls[..|muls| - 1]);
    }
  }

  /** Sorting keeps the entries, so it keeps the absence of `don't()`. */
  lemma {:induction false} NoDontAfterSort(t: seq<Entry>)
    requires NoDont(t)
    ensures NoDont(Sort(t))
  {
    var r := Sort(t);
    forall k | 0 <= k < |r|
      ensures r[k].kind != Dont
    {
      assert r[k] in multiset(t);
      assert r[k] in t;
    }
  }

  /** Inserting an entry adds its value to the sum of muls when it is one. */
  lemma {:induction false} MulSumInsert(e: Entry, t: seq<Entry>)
    requires Sorted(t)
    ensures MulSum(Insert(e, t)) == MulSum(t) + (if e.kind == Mul then e.value else 0)
  {
    if t == [] || LessEq(e, t[0]) {
      MulSumAppend([e], t);
      MulSumAppend([], [e]);
    } else {
      SortedTail(t);
      MulSumInsert(e, t[1..]);
      MulSumAppend([t[0]], Insert(e, t[1..]));
      MulSumAppend([t[0]], t[1..]);
      MulSumAppend([], [t[0]]);
      assert t == [t[0]] + t[1..];
    }
  }

  /** Sorting keeps the sum of muls. */
  lemma {:induction false} MulSumSort(t: seq<Entry>)
    ensures MulSum(Sort(t)) == MulSum(t)
  {
    if t != [] {
      MulSumSort(t[1..]);
      MulSumInsert(t[0], Sort(t[1..]));
      MulSumAppend([t[0]], t[1..]);
      MulSumAppend([], [t[0]]);
      assert t == [t[0]] + t[1..];
    }
  }
}
