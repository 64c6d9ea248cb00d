/** Stones in a line, each engraved with a number. On a blink a stone
    changes by the first rule that applies: 0 becomes 1; a number with an
    even count of digits splits into its left and right halves; any other
    number is multiplied by 2024. The stones form a linked list in which a
    split inserts the right half directly after the stone. */
module Stones {
  import opened Decimal

  /** What one stone becomes on a blink: one or two numbers. The first is
      never 0; a split keeps the value's digits, the left half shifted by
      the width of the right half. */
  function BlinkChange(value: nat): (r: seq<nat>)
    ensures 1 <= |r| <= 2
    ensures r[0] >= 1
    ensures |r| == 2 <==> value != 0 && NumDigits(value) % 2 == 0
    ensures |r| == 2 ==> r[0] * Pow10(NumDigits(value) / 2) + r[1] == value
    ensures |r| == 2 ==> r[1] < Pow10(NumDigits(value) / 2)
    ensures |r| == 1 ==> r[0] != value
  {
    if value == 0 then [1]
    else
      var width := NumDigits(value);
      if width % 2 == 0 then
        var separator := Pow10(width / 2);
        Halves(value, separator);
        LeftHalfRange(value);
        [value / separator, value % separator]
      else [value * 2024]
  }

  /** Quotient and remainder put back together give the value. */
  lemma {:induction false} Halves(value: nat, separator: nat)
    requires separator >= 1
    ensures value / separator * separator + value % separator == value
    ensures value % separator < separator
  {
  }

  /** The left half of a value with `2h` digits has exactly `h` digits. */
  lemma {:induction false} LeftHalfRange(value: nat)
    requires value != 0 && NumDigits(value) % 2 == 0
    ensures Pow10(NumDigits(value) / 2 - 1) <= value / Pow10(NumDigits(value) / 2) < Pow10(NumDigits(value) / 2)
  {
    var h := NumDigits(value) / 2;
    var p := Pow10(h);
    NumDigitsBounds(value);
    Pow10Add(h, h);
    Pow10Add(h - 1, h);
    assert h + h - 1 == NumDigits(value) - 1;
    QuotientBelow(value, p, p);
    QuotientAtLeast(value, p, Pow10(h - 1));
  }

  /** The split cuts the decimal text of the value in the middle: the two
      numbers are what the two halves of the text read as, and the left
      one has exactly half the digits. */
  lemma {:induction false} SplitHalvesText(value: nat)
    requires value != 0 && NumDigits(value) % 2 == 0
    ensures |NatToString(value)| == NumDigits(value)
    ensures AllDigits(NatToString(value)[..NumDigits(value) / 2])
    ensures AllDigits(NatToString(value)[NumDigits(value) / 2..])
    ensures BlinkChange(value)[0] == ValueOf(NatToString(value)[..NumDigits(value) / 2])
    ensures BlinkChange(value)[1] == ValueOf(NatToString(value)[NumDigits(value) / 2..])
    ensures NumDigits(BlinkChange(value)[0]) == NumDigits(value) / 2
  {
    var s, h := NatToString(value), NumDigits(value) / 2;
    NatToStringLength(value);
    TextParts(s, h);
    ValueOfNatToString(value);
    DivModUnique(value, Pow10(h), ValueOf(s[..h]), ValueOf(s[h..]));
    LeftHalfRange(value);
    NumDigitsOfRange(value / Pow10(h), h);
  }

  /** Reading a decimal text in two parts: the left part's value shifted
      by the width of the right part, plus the right part's value. */
  lemma {:induction false} TextParts(s: string, h: nat)
    requires AllDigits(s) && h <= |s|
    ensures AllDigits(s[..h]) && AllDigits(s[h..])
    ensures ValueOf(s) == ValueOf(s[..h]) * Pow10(|s| - h) + ValueOf(s[h..])
    ensures ValueOf(s[h..]) < Pow10(|s| - h)
  {
    var a, b := s[..h], s[h..];
    forall k | 0 <= k < |a| ensures IsDigit(a[k]) {
      assert a[k] == s[k];
    }
    forall k | 0 <= k < |b| ensures IsDigit(b[k]) {
      assert b[k] == s[h + k];
    }
    assert s == a + b;
    ValueOfAppend(a, b);
    ValueOfBound(b);
  }

  /** One stone of the line, linked to its neighbours. */
  class Stone {
    var value: nat
    var next: Stone?
    var prev: Stone?

    constructor (value: nat, next: Stone?, prev: Stone?)
      ensures this.value == value && this.next == next && this.prev == prev
    {
      this.value := value;
      this.next := next;
      this.prev := prev;
    }

    /** Blinks this stone: it takes the first new number; on a split a new
        stone with the second number goes directly after it, pointing back
        to it and on to the old successor, whose own back link is left as
        it was. Returns the successor when there is no split and nothing
        when there is one. */
    method Blinked() returns (r: Stone?)
      modifies this
      ensures value == BlinkChange(old(value))[0]
      ensures prev == old(prev)
      ensures |BlinkChange(old(value))| == 1 ==> next == old(next) && r == old(next)
      ensures |BlinkChange(old(value))| == 2 ==>
        r == null && next != null && fresh(next)
        && next.value == BlinkChange(old(value))[1]
        && next.next == old(next) && next.prev == this
    {
      var newValues := BlinkChange(value);
      value := newValues[0];
      if |newValues| == 1 {
        return next;
      }
      var aux := next;
      next := new Stone(newValues[1], aux, this);
      r := null;
    }
  }

  /** `cs` are distinct stones, each linked forward to the next one and the
      last one to nothing. */
  ghost predicate Linked(cs: seq<Stone>)
    reads cs
  {
    Distinct(cs)
    && (forall k :: 0 <= k < |cs| - 1 ==> cs[k].next == cs[k + 1])
    && (cs != [] ==> cs[|cs| - 1].next == null)
  }

  ghost predicate Distinct(cs: seq<Stone>) {
    forall i, j :: 0 <= i < j < |cs| ==> cs[i] != cs[j]
  }

  /** The list starting at `head` is the stones `cs`. */
  ghost predicate Chain(head: Stone?, cs: seq<Stone>)
    reads cs
  {
    Linked(cs) && head == (if cs == [] then null else cs[0])
  }

  /** Each stone links back to the one before it. */
  ghost predicate BackLinked(cs: seq<Stone>)
    reads cs
  {
    (cs != [] ==> cs[0].prev == null)
    && forall k :: 0 <= k < |cs| - 1 ==> cs[k + 1].prev == cs[k]
  }

  /** The numbers on the stones, in list order. */
  ghost function Values(cs: seq<Stone>): (r: seq<nat>)
    reads cs
    ensures |r| == |cs| && forall k :: 0 <= k < |cs| ==> r[k] == cs[k].value
  {
    seq(|cs|, k reads cs requires 0 <= k < |cs| => cs[k].value)
  }

  /** Blinks the stone at position `i` of a list: the list afterwards holds
      the numbers of before with the stone's number replaced by what it
      becomes; a split adds the new stone right after it and leaves the
      next stone's back link pointing at the old stone. */
  method BlinkStone(ghost cs: seq<Stone>, i: nat, stone: Stone) returns (r: Stone?, ghost cs': seq<Stone>)
    requires Linked(cs) && i < |cs| && stone == cs[i]
    modifies stone
    ensures Linked(cs')
    ensures Values(cs') == old(Values(cs)[..i] + BlinkChange(Values(cs)[i]) + Values(cs)[i + 1..])
    ensures |cs'| == |cs| ==> cs' == cs && r == (if i + 1 < |cs| then cs[i + 1] else null)
    ensures |cs'| == |cs| + 1 ==> cs' == cs[..i + 1] + [cs'[i + 1]] + cs[i + 1..] && r == null
    ensures old(BackLinked(cs)) && |cs'| == |cs| ==> BackLinked(cs')
    ensures old(BackLinked(cs)) && |cs'| == |cs| + 1 && i + 1 < |cs| ==> !BackLinked(cs')
    ensures old(BackLinked(cs)) && |cs'| == |cs| + 1 && i + 1 == |cs| ==> BackLinked(cs')
  {
    if |BlinkChange(stone.value)| == 1 {
      r := BlinkKeep(cs, i, stone);
      cs' := cs;
    } else {
      r, cs' := BlinkSplit(cs, i, stone);
    }
  }

  /** `BlinkStone` when the stone's number does not split. */
  method BlinkKeep(ghost cs: seq<Stone>, i: nat, stone: Stone) returns (r: Stone?)
    requires Linked(cs) && i < |cs| && stone == cs[i]
    requires |BlinkChange(stone.value)| == 1
    modifies stone
    ensures Linked(cs)
    ensures Values(cs) == old(Values(cs)[..i] + BlinkChange(Values(cs)[i]) + Values(cs)[i + 1..])
    ensures r == (if i + 1 < |cs| then cs[i + 1] else null)
    ensures old(BackLinked(cs)) ==> BackLinked(cs)
  {
    ghost var v := Values(cs);
    assert forall k :: 0 <= k < |cs| && k != i ==> cs[k] != stone;
    r := stone.Blinked();
    assert Values(cs) == v[..i] + BlinkChange(v[i]) + v[i + 1..];
  }

  /** `BlinkStone` when the stone's number splits. */
  method BlinkSplit(ghost cs: seq<Stone>, i: nat, stone: Stone) returns (r: Stone?, ghost cs': seq<Stone>)
    requires Linked(cs) && i < |cs| && stone == cs[i]
    requires |BlinkChange(stone.value)| == 2
    modifies stone
    ensures Linked(cs')
    ensures Values(cs') == old(Values(cs)[..i] + BlinkChange(Values(cs)[i]) + Values(cs)[i + 1..])
    ensures |cs'| == |cs| + 1 && cs' == cs[..i + 1] + [cs'[i + 1]] + cs[i + 1..] && r == null
    ensures old(BackLinked(cs)) && i + 1 < |cs| ==> !BackLinked(cs')
    ensures old(BackLinked(cs)) && i + 1 == |cs| ==> BackLinked(cs')
  {
    ghost var v := Values(cs);
    assert forall k :: 0 <= k < |cs| && k != i ==> cs[k] != stone;
    r := stone.Blinked();
    var n := stone.next;
    cs' := cs[..i + 1] + [n] + cs[i + 1..];
    assert forall k :: 0 <= k < |cs| - 1 && k != i ==> cs[k].next == cs[k + 1];
    assert forall k :: 0 <= k < |cs| && k != i ==> cs[k].value == v[k];
    InsertLinked(cs, i, n);
    InsertValues(cs, i, n, v);
    assert old(BackLinked(cs)) && i + 1 < |cs| ==> cs'[i + 2].prev == stone != cs'[i + 1];
  }

  /** A list stays linked when a stone not in it goes in after position `i`. */
  lemma {:induction false} InsertLinked(cs: seq<Stone>, i: nat, n: Stone)
    requires Distinct(cs) && i < |cs| && n !in cs
    requires forall k :: 0 <= k < |cs| - 1 && k != i ==> cs[k].next == cs[k + 1]
    requires i < |cs| - 1 ==> cs[|cs| - 1].next == null
    requires cs[i].next == n && n.next == (if i + 1 < |cs| then cs[i + 1] else null)
    ensures Linked(cs[..i + 1] + [n] + cs[i + 1..])
  {
    var cs' := cs[..i + 1] + [n] + cs[i + 1..];
    assert forall k :: 0 <= k <= i ==> cs'[k] == cs[k];
    assert forall k :: i + 1 < k < |cs'| ==> cs'[k] == cs[k - 1];
    forall k | 0 <= k < |cs'| - 1
      ensures cs'[k].next == cs'[k + 1]
    {
      if k < i {
        assert cs[k].next == cs[k + 1];
      } else if i + 1 < k {
        assert cs[k - 1].next == cs[k];
      }
    }
  }

  /** The numbers of a list with a stone inserted after position `i`. */
  lemma {:induction false} InsertValues(cs: seq<Stone>, i: nat, n: Stone, v: seq<nat>)
    requires i < |cs| == |v|
    requires forall k :: 0 <= k < |cs| && k != i ==> cs[k].value == v[k]
    ensures Values(cs[..i + 1] + [n] + cs[i + 1..]) == v[..i] + [cs[i].value, n.value] + v[i + 1..]
  {
    var cs' := cs[..i + 1] + [n] + cs[i + 1..];
    assert forall k :: 0 <= k <= i ==> cs'[k] == cs[k];
    assert forall k :: i + 1 < k < |cs'| ==> cs'[k] == cs[k - 1];
  }

  /** Builds the list of the given numbers in order, each stone linked to
      the one before it and the one after it. */
  method LoadStones(values: seq<nat>) returns (head: Stone, ghost cs: seq<Stone>)
    requires |values| > 0
    ensures Chain(head, cs) && BackLinked(cs)
    ensures Values(cs) == values
    ensures forall k :: 0 <= k < |cs| ==> fresh(cs[k])
  {
    head := new Stone(values[0], null, null);
    var current := head;
    cs := [head];
    for i := 1 to |values|
      invariant |cs| == i && cs[0] == head && current == cs[i - 1]
      invariant Linked(cs) && BackLinked(cs)
      invariant Values(cs) == values[..i]
      invariant forall k :: 0 <= k < |cs| ==> fresh(cs[k])
    {
      PrefixSnoc(values, i);
      current, cs := Append(cs, current, values[i]);
    }
    assert values[..|values|] == values;
  }

  /** A prefix one longer is the prefix and the next value. */
  lemma {:induction false} PrefixSnoc(values: seq<nat>, i: nat)
    requires i < |values|
    ensures values[..i + 1] == values[..i] + [values[i]]
  {
    assert forall k :: 0 <= k <= i ==> values[..i + 1][k] == (values[..i] + [values[i]])[k];
  }

  /** Links a new stone with the given number after the last stone of a
      list. */
  method Append(ghost cs: seq<Stone>, last: Stone, value: nat) returns (stone: Stone, ghost cs': seq<Stone>)
    requires Linked(cs) && BackLinked(cs) && cs != [] && last == cs[|cs| - 1]
    modifies last
    ensures fresh(stone) && cs' == cs + [stone]
    ensures Linked(cs') && BackLinked(cs')
    ensures Values(cs') == old(Values(cs)) + [value]
  {
    stone := new Stone(value, null, last);
    last.next := stone;
    cs' := cs + [stone];
    assert forall k :: 0 <= k < |cs| ==> cs'[k] == cs[k];
  }

  /** Walks the list from `head` and counts its stones. */
  method CountStones(head: Stone?, ghost cs: seq<Stone>) returns (count: nat)
    requires Chain(head, cs)
    ensures count == |cs|
  {
    count := 0;
    var stones := head;
    while stones != null
      invariant count <= |cs|
      invariant stones == (if count < |cs| then cs[count] else null)
      decreases |cs| - count
    {
      count := count + 1;
      stones := stones.next;
    }
  }
}
