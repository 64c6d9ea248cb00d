/** The disk map of the compactor as values: the list of extents, the disk
    unit by unit, the positional checksum, the decoding of the dense digit
    format, and what one whole-file relocation does to the extent list. */
module DiskModel {
  import opened Decimal

  /** One extent: a run of units of one file, or free space. */
  datatype DiskItem = FilePart(size: nat, id: nat) | EmptySpace(size: nat)

  /** One unit of the disk. */
  datatype Block = Free | Used(id: nat)

  function UnitOf(e: DiskItem): Block {
    if e.FilePart? then Used(e.id) else Free
  }

  /** The units an extent stands for. */
  function Units(e: DiskItem): (u: seq<Block>)
    ensures |u| == e.size
  {
    seq(e.size, _ => UnitOf(e))
  }

  /** The disk unit by unit, from the head of the list to its tail. */
  function Tape(exts: seq<DiskItem>): seq<Block> {
    if exts == [] then [] else Units(exts[0]) + Tape(exts[1..])
  }

  function TotalSize(exts: seq<DiskItem>): nat {
    if exts == [] then 0 else exts[0].size + TotalSize(exts[1..])
  }

  /** Units of file `id` held by one extent. */
  function Share(e: DiskItem, id: nat): nat {
    if e.FilePart? && e.id == id then e.size else 0
  }

  /** Units of file `id` over the whole list. */
  function FileUnits(exts: seq<DiskItem>, id: nat): nat {
    if exts == [] then 0 else Share(exts[0], id) + FileUnits(exts[1..], id)
  }

  /** The file extents of a list, in order. */
  function Files(exts: seq<DiskItem>): seq<DiskItem> {
    if exts == [] then []
    else if exts[0].FilePart? then [exts[0]] + Files(exts[1..])
    else Files(exts[1..])
  }

  /** No free extent lies before a file extent. */
  ghost predicate RightPacked(exts: seq<DiskItem>) {
    forall i, j :: 0 <= i < j < |exts| && exts[i].EmptySpace? ==> exts[j].EmptySpace?
  }

  ghost predicate AllPositive(exts: seq<DiskItem>) {
    forall k :: 0 <= k < |exts| ==> exts[k].size >= 1
  }

  function Weight(b: Block, pos: nat): nat {
    if b.Used? then b.id * pos else 0
  }

  /** The checksum: every used unit adds its file id times its position. */
  function TapeChecksum(t: seq<Block>): nat {
    if t == [] then 0 else TapeChecksum(t[..|t| - 1]) + Weight(t[|t| - 1], |t| - 1)
  }

  // ---------------------------------------------------------------------
  // Sums over concatenations

  lemma {:induction false} TapeAppend(a: seq<DiskItem>, b: seq<DiskItem>)
    ensures Tape(a + b) == Tape(a) + Tape(b)
  {
    if a != [] {
      assert (a + b)[1..] == a[1..] + b;
      TapeAppend(a[1..], b);
    } else {
      assert a + b == b;
    }
  }

  lemma {:induction false} TotalSizeAppend(a: seq<DiskItem>, b: seq<DiskItem>)
    ensures TotalSize(a + b) == TotalSize(a) + TotalSize(b)
  {
    if a != [] {
      assert (a + b)[1..] == a[1..] + b;
      TotalSizeAppend(a[1..], b);
    } else {
      assert a + b == b;
    }
  }

  lemma {:induction false} FileUnitsAppend(a: seq<DiskItem>, b: seq<DiskItem>, id: nat)
    ensures FileUnits(a + b, id) == FileUnits(a, id) + FileUnits(b, id)
  {
    if a != [] {
      assert (a + b)[1..] == a[1..] + b;
      FileUnitsAppend(a[1..], b, id);
    } else {
      assert a + b == b;
    }
  }

  lemma {:induction false} FilesAppend(a: seq<DiskItem>, b: seq<DiskItem>)
    ensures Files(a + b) == Files(a) + Files(b)
  {
    if a != [] {
      assert (a + b)[1..] == a[1..] + b;
      FilesAppend(a[1..], b);
    } else {
      assert a + b == b;
    }
  }

  lemma {:induction false} TapeLength(exts: seq<DiskItem>)
    ensures |Tape(exts)| == TotalSize(exts)
  {
    if exts != [] {
      TapeLength(exts[1..]);
    }
  }

  /** Replacing the extent at `k` changes each file's units by the difference of the two shares. */
  lemma {:induction false} FileUnitsUpdate(exts: seq<DiskItem>, k: nat, x: DiskItem, id: nat)
    requires k < |exts|
    ensures FileUnits(exts[k := x], id) + Share(exts[k], id) == FileUnits(exts, id) + Share(x, id)
  {
    assert exts == exts[..k] + [exts[k]] + exts[k + 1..];
    assert exts[k := x] == exts[..k] + [x] + exts[k + 1..];
    FileUnitsAppend(exts[..k] + [exts[k]], exts[k + 1..], id);
    FileUnitsAppend(exts[..k], [exts[k]], id);
    FileUnitsAppend(exts[..k] + [x], exts[k + 1..], id);
    FileUnitsAppend(exts[..k], [x], id);
  }

  lemma {:induction false} TotalSizeUpdate(exts: seq<DiskItem>, k: nat, x: DiskItem)
    requires k < |exts|
    ensures TotalSize(exts[k := x]) + exts[k].size == TotalSize(exts) + x.size
  {
    assert exts == exts[..k] + [exts[k]] + exts[k + 1..];
    assert exts[k := x] == exts[..k] + [x] + exts[k + 1..];
    TotalSizeAppend(exts[..k] + [exts[k]], exts[k + 1..]);
    TotalSizeAppend(exts[..k], [exts[k]]);
    TotalSizeAppend(exts[..k] + [x], exts[k + 1..]);
    TotalSizeAppend(exts[..k], [x]);
  }

  lemma {:induction false} FileUnitsInsert(exts: seq<DiskItem>, k: nat, x: DiskItem, id: nat)
    requires k <= |exts|
    ensures FileUnits(exts[..k] + [x] + exts[k..], id) == FileUnits(exts, id) + Share(x, id)
  {
    assert exts == exts[..k] + exts[k..];
    FileUnitsAppend(exts[..k], exts[k..], id);
    FileUnitsAppend(exts[..k] + [x], exts[k..], id);
    FileUnitsAppend(exts[..k], [x], id);
  }

  lemma {:induction false} TotalSizeInsert(exts: seq<DiskItem>, k: nat, x: DiskItem)
    requires k <= |exts|
    ensures TotalSize(exts[..k] + [x] + exts[k..]) == TotalSize(exts) + x.size
  {
    assert exts == exts[..k] + exts[k..];
    TotalSizeAppend(exts[..k], exts[k..]);
    TotalSizeAppend(exts[..k] + [x], exts[k..]);
    TotalSizeAppend(exts[..k], [x]);
  }

  lemma {:induction false} FileUnitsRemove(exts: seq<DiskItem>, k: nat, id: nat)
    requires k < |exts|
    ensures FileUnits(exts[..k] + exts[k + 1..], id) + Share(exts[k], id) == FileUnits(exts, id)
  {
    assert exts == exts[..k] + [exts[k]] + exts[k + 1..];
    FileUnitsAppend(exts[..k] + [exts[k]], exts[k + 1..], id);
    FileUnitsAppend(exts[..k], [exts[k]], id);
    FileUnitsAppend(exts[..k], exts[k + 1..], id);
  }

  lemma {:induction false} TotalSizeRemove(exts: seq<DiskItem>, k: nat)
    requires k < |exts|
    ensures TotalSize(exts[..k] + exts[k + 1..]) + exts[k].size == TotalSize(exts)
  {
    assert exts == exts[..k] + [exts[k]] + exts[k + 1..];
    TotalSizeAppend(exts[..k] + [exts[k]], exts[k + 1..]);
    TotalSizeAppend(exts[..k], [exts[k]]);
    TotalSizeAppend(exts[..k], exts[k + 1..]);
  }

  // ---------------------------------------------------------------------
  // The checksum

  /** Appending units to the tape adds their weights at the following positions. */
  lemma {:induction false} TapeChecksumSnoc(t: seq<Block>, b: Block)
    ensures TapeChecksum(t + [b]) == TapeChecksum(t) + Weight(b, |t|)
  {
    assert (t + [b])[..|t|] == t;
  }

  /** One more unit of extent `e` adds its weight at the next position. */
  lemma {:induction false} TapeChecksumNextUnit(before: seq<Block>, e: DiskItem, j: nat)
    requires j < e.size
    ensures TapeChecksum(before + Units(e)[..j + 1])
         == TapeChecksum(before + Units(e)[..j]) + Weight(UnitOf(e), |before| + j)
  {
    assert before + Units(e)[..j + 1] == (before + Units(e)[..j]) + [UnitOf(e)];
    TapeChecksumSnoc(before + Units(e)[..j], UnitOf(e));
  }

  /** The tape of one more extent is the tape so far followed by its units. */
  lemma {:induction false} TapeNextExtent(exts: seq<DiskItem>, k: nat)
    requires k < |exts|
    ensures Tape(exts[..k + 1]) == Tape(exts[..k]) + Units(exts[k])
    ensures |Tape(exts[..k + 1])| == |Tape(exts[..k])| + exts[k].size
  {
    assert exts[..k + 1] == exts[..k] + [exts[k]];
    TapeAppend(exts[..k], [exts[k]]);
    assert Tape([exts[k]]) == Units(exts[k]) + Tape([]);
  }

  /** Free units never add to the checksum: a tape with no used unit sums to zero. */
  lemma {:induction false} TapeChecksumAllFree(t: seq<Block>)
    requires forall k :: 0 <= k < |t| ==> t[k] == Free
    ensures TapeChecksum(t) == 0
  {
    if t != [] {
      TapeChecksumAllFree(t[..|t| - 1]);
    }
  }

  /** Splitting a free extent in two leaves the tape, hence the checksum, as it was. */
  lemma {:induction false} SplitFreeSameTape(a: seq<DiskItem>, x: nat, y: nat, b: seq<DiskItem>)
    ensures Tape(a + [EmptySpace(x), EmptySpace(y)] + b) == Tape(a + [EmptySpace(x + y)] + b)
  {
    TapeAppend(a + [EmptySpace(x), EmptySpace(y)], b);
    TapeAppend(a, [EmptySpace(x), EmptySpace(y)]);
    TapeAppend(a + [EmptySpace(x + y)], b);
    TapeAppend(a, [EmptySpace(x + y)]);
    assert [EmptySpace(x), EmptySpace(y)][1..] == [EmptySpace(y)];
    assert [EmptySpace(y)][1..] == [] && [EmptySpace(x + y)][1..] == [];
    assert Tape([EmptySpace(x), EmptySpace(y)]) == Units(EmptySpace(x)) + Units(EmptySpace(y)) + [];
    assert Tape([EmptySpace(x + y)]) == Units(EmptySpace(x + y)) + [];
    assert Units(EmptySpace(x)) + Units(EmptySpace(y)) == Units(EmptySpace(x + y));
  }

  /** The units of file `id` on the tape are exactly what `FileUnits` counts. */
  lemma {:induction false} FileUnitsCountsTape(exts: seq<DiskItem>, id: nat)
    ensures multiset(Tape(exts))[Used(id)] == FileUnits(exts, id)
  {
    if exts != [] {
      FileUnitsCountsTape(exts[1..], id);
      UnitsCount(exts[0], exts[0].size, id);
      assert Units(exts[0])[..exts[0].size] == Units(exts[0]);
    }
  }

  lemma {:induction false} UnitsCount(e: DiskItem, n: nat, id: nat)
    requires n <= e.size
    ensures multiset(Units(e)[..n])[Used(id)] == if e.FilePart? && e.id == id then n else 0
  {
    if n > 0 {
      UnitsCount(e, n - 1, id);
      assert Units(e)[..n] == Units(e)[..n - 1] + [UnitOf(e)];
    }
  }

  /** A right-packed extent list gives a tape on which no free unit precedes a used one. */
  lemma {:induction false} RightPackedTape(exts: seq<DiskItem>)
    requires RightPacked(exts)
    ensures forall i, j :: 0 <= i < j < |Tape(exts)| && Tape(exts)[i] == Free ==> Tape(exts)[j] == Free
  {
    if exts != [] {
      var rest := exts[1..];
      assert RightPacked(rest) by {
        forall i, j | 0 <= i < j < |rest| && rest[i].EmptySpace?
          ensures rest[j].EmptySpace?
        {
          assert exts[i + 1] == rest[i] && exts[j + 1] == rest[j];
        }
      }
      RightPackedTape(rest);
      var u, t := Units(exts[0]), Tape(rest);
      assert Tape(exts) == u + t;
      forall i, j | 0 <= i < j < |u + t| && (u + t)[i] == Free
        ensures (u + t)[j] == Free
      {
        if i < |u| {
          assert exts[0].EmptySpace?;
          if j >= |u| {
            assert forall k :: 0 <= k < |rest| ==> exts[k + 1] == rest[k];
            AllFreeTape(rest);
          }
        }
      }
    }
  }

  lemma {:induction false} AllFreeTape(exts: seq<DiskItem>)
    requires forall k :: 0 <= k < |exts| ==> exts[k].EmptySpace?
    ensures forall k :: 0 <= k < |Tape(exts)| ==> Tape(exts)[k] == Free
  {
    if exts != [] {
      AllFreeTape(exts[1..]);
    }
  }

  // ---------------------------------------------------------------------
  // Decoding the dense digit format

  /** Decoding from some point on: `isSpace` says whether the next digit is
      a free run, `nextId` is the id the next file will get. */
  function DecodeFrom(s: string, isSpace: bool, nextId: nat): seq<DiskItem>
    requires AllDigits(s)
  {
    if s == [] then []
    else DigitExtent(s[0], isSpace, nextId) + DecodeFrom(s[1..], !isSpace, IdNext(s[0], isSpace, nextId))
  }

  /** The extent one digit stands for; a zero digit stands for none. */
  function DigitExtent(c: char, isSpace: bool, nextId: nat): seq<DiskItem>
    requires IsDigit(c)
  {
    var size := DigitValue(c);
    if size == 0 then [] else if isSpace then [EmptySpace(size)] else [FilePart(size, nextId)]
  }

  /** Only a non-zero digit in a file position uses up an id. */
  function IdNext(c: char, isSpace: bool, nextId: nat): nat {
    if !isSpace && c != '0' then nextId + 1 else nextId
  }

  function Decode(s: string): seq<DiskItem>
    requires AllDigits(s)
  {
    DecodeFrom(s, false, 0)
  }

  /** Sum of the digits at the positions a run of the given kind takes:
      `first` says whether position 0 counts. */
  function AlternateSum(s: string, first: bool): nat
    requires AllDigits(s)
  {
    if s == [] then 0
    else (if first then DigitValue(s[0]) else 0) + AlternateSum(s[1..], !first)
  }

  function FileCount(exts: seq<DiskItem>): nat {
    |Files(exts)|
  }

  function UsedUnits(exts: seq<DiskItem>): nat {
    if exts == [] then 0
    else (if exts[0].FilePart? then exts[0].size else 0) + UsedUnits(exts[1..])
  }

  function FreeUnits(exts: seq<DiskItem>): nat {
    if exts == [] then 0
    else (if exts[0].EmptySpace? then exts[0].size else 0) + FreeUnits(exts[1..])
  }

  function NonZeroDigits(s: string): nat
    requires AllDigits(s)
  {
    if s == [] then 0 else (if s[0] == '0' then 0 else 1) + NonZeroDigits(s[1..])
  }

  /** A zero digit makes no extent: every decoded extent has at least one unit,
      and there is one extent per non-zero digit. */
  lemma {:induction false} DecodeSizes(s: string, isSpace: bool, nextId: nat)
    requires AllDigits(s)
    ensures AllPositive(DecodeFrom(s, isSpace, nextId))
    ensures |DecodeFrom(s, isSpace, nextId)| == NonZeroDigits(s)
  {
    if s != [] {
      assert AllDigits(s[1..]);
      var d, rest := DigitExtent(s[0], isSpace, nextId), DecodeFrom(s[1..], !isSpace, IdNext(s[0], isSpace, nextId));
      DecodeSizes(s[1..], !isSpace, IdNext(s[0], isSpace, nextId));
      if d == [] {
        assert d + rest == rest;
      } else {
        assert (d + rest)[1..] == rest;
      }
    }
  }

  /** Zero digits still flip between file and free runs: digits at even
      positions are file units, digits at odd positions free units. */
  lemma {:induction false} DecodeAlternates(s: string, isSpace: bool, nextId: nat)
    requires AllDigits(s)
    ensures UsedUnits(DecodeFrom(s, isSpace, nextId)) == AlternateSum(s, !isSpace)
    ensures FreeUnits(DecodeFrom(s, isSpace, nextId)) == AlternateSum(s, isSpace)
  {
    if s != [] {
      assert AllDigits(s[1..]);
      var d, rest := DigitExtent(s[0], isSpace, nextId), DecodeFrom(s[1..], !isSpace, IdNext(s[0], isSpace, nextId));
      DecodeAlternates(s[1..], !isSpace, IdNext(s[0], isSpace, nextId));
      if d == [] {
        assert d + rest == rest;
      } else {
        assert (d + rest)[0] == d[0] && (d + rest)[1..] == rest;
      }
    }
  }

  /** Each file extent's id is `first` plus the number of file extents before it. */
  ghost predicate NumberedFrom(exts: seq<DiskItem>, first: nat) {
    forall k :: 0 <= k < |exts| && exts[k].FilePart? ==> exts[k].id == first + FileCount(exts[..k])
  }

  /** Files are numbered 0, 1, 2, ... in the order they appear. */
  lemma {:induction false} DecodeIds(s: string, isSpace: bool, nextId: nat)
    requires AllDigits(s)
    ensures NumberedFrom(DecodeFrom(s, isSpace, nextId), nextId)
  {
    if s != [] {
      assert AllDigits(s[1..]);
      var size := DigitValue(s[0]);
      var exts := DecodeFrom(s, isSpace, nextId);
      if size == 0 {
        assert exts == DecodeFrom(s[1..], !isSpace, nextId);
        DecodeIds(s[1..], !isSpace, nextId);
      } else {
        var id' := if isSpace then nextId else nextId + 1;
        var rest := DecodeFrom(s[1..], !isSpace, id');
        DecodeIds(s[1..], !isSpace, id');
        assert exts == [exts[0]] + rest;
        assert exts[0] == if isSpace then EmptySpace(size) else FilePart(size, nextId);
        forall k | 0 < k < |exts| && exts[k].FilePart?
          ensures exts[k].id == nextId + FileCount(exts[..k])
        {
          assert exts[..k] == [exts[0]] + rest[..k - 1];
          FilesAppend([exts[0]], rest[..k - 1]);
          Single(exts[0]);
          assert exts[k] == rest[k - 1];
          assert NumberedFrom(rest, id');
        }
      }
    }
  }

  /** Whether the digit after `s` describes free space: every digit flips
      the alternation, a zero digit included. */
  function SpaceAfter(s: string, isSpace: bool): bool {
    if |s| % 2 == 0 then isSpace else !isSpace
  }

  /** The id the next file gets once `s` is decoded: only a non-zero digit
      in a file position uses one up. */
  function IdAfter(s: string, isSpace: bool, nextId: nat): nat
    requires AllDigits(s)
  {
    if s == [] then nextId else IdAfter(s[1..], !isSpace, IdNext(s[0], isSpace, nextId))
  }

  /** Decoding one more digit appends the extent that digit stands for,
      with the parity and the next id reached after the first part. */
  lemma {:induction false} DecodeFromSnoc(a: string, c: char, isSpace: bool, nextId: nat)
    requires AllDigits(a) && IsDigit(c) && AllDigits(a + [c])
    ensures DecodeFrom(a + [c], isSpace, nextId)
         == DecodeFrom(a, isSpace, nextId) + DigitExtent(c, SpaceAfter(a, isSpace), IdAfter(a, isSpace, nextId))
  {
    var s := a + [c];
    if a == [] {
      assert s == [c] && s[1..] == [];
    } else {
      var a', id' := a[1..], IdNext(a[0], isSpace, nextId);
      assert s[0] == a[0] && s[1..] == a' + [c];
      DecodeFromHead(a, isSpace, nextId);
      DecodeFromHead(s, isSpace, nextId);
      AfterHead(a, isSpace, nextId);
      DecodeFromSnoc(a', c, !isSpace, id');
      var e, x := DigitExtent(a[0], isSpace, nextId), DecodeFrom(a', !isSpace, id');
      var last := DigitExtent(c, SpaceAfter(a, isSpace), IdAfter(a, isSpace, nextId));
      assert e + (x + last) == (e + x) + last;
    }
  }

  /** The id after one more digit is the id that digit leaves. */
  lemma {:induction false} IdAfterSnoc(a: string, c: char, isSpace: bool, nextId: nat)
    requires AllDigits(a) && IsDigit(c) && AllDigits(a + [c])
    ensures IdAfter(a + [c], isSpace, nextId) == IdNext(c, SpaceAfter(a, isSpace), IdAfter(a, isSpace, nextId))
  {
    var s := a + [c];
    if a == [] {
      assert s == [c] && s[1..] == [];
    } else {
      assert s[0] == a[0] && s[1..] == a[1..] + [c];
      TailDigits(a);
      TailDigits(s);
      AfterHead(a, isSpace, nextId);
      IdAfterSnoc(a[1..], c, !isSpace, IdNext(a[0], isSpace, nextId));
    }
  }

  /** Appending a digit to a text of digits gives a text of digits. */
  lemma {:induction false} SnocDigits(a: string, c: char)
    requires AllDigits(a) && IsDigit(c)
    ensures AllDigits(a + [c])
  {
    var s := a + [c];
    forall k | 0 <= k < |s| ensures IsDigit(s[k]) {
      if k < |a| { assert s[k] == a[k]; }
    }
  }

  /** The first digit decodes to its extent, ahead of the rest. */
  lemma {:induction false} DecodeFromHead(s: string, isSpace: bool, nextId: nat)
    requires AllDigits(s) && s != []
    ensures AllDigits(s[1..])
    ensures DecodeFrom(s, isSpace, nextId)
         == DigitExtent(s[0], isSpace, nextId) + DecodeFrom(s[1..], !isSpace, IdNext(s[0], isSpace, nextId))
  {
    TailDigits(s);
  }

  /** The parity and the id after a text, read from its second character on. */
  lemma {:induction false} AfterHead(s: string, isSpace: bool, nextId: nat)
    requires AllDigits(s) && s != []
    ensures AllDigits(s[1..])
    ensures SpaceAfter(s[1..], !isSpace) == SpaceAfter(s, isSpace)
    ensures IdAfter(s, isSpace, nextId) == IdAfter(s[1..], !isSpace, IdNext(s[0], isSpace, nextId))
  {
    TailDigits(s);
  }

  /** Dropping the first character keeps a text all digits. */
  lemma {:induction false} TailDigits(a: string)
    requires AllDigits(a) && a != []
    ensures AllDigits(a[1..])
  {
    forall k | 0 <= k < |a| - 1 ensures IsDigit(a[1..][k]) {
      assert a[1..][k] == a[k + 1];
    }
  }

  /** Decoding one more digit appends the extent that digit stands for. */
  lemma {:induction false} DecodeSnoc(s: string, i: nat)
    requires i < |s| && AllDigits(s[..i]) && IsDigit(s[i])
    ensures AllDigits(s[..i + 1])
    ensures DecodeFrom(s[..i + 1], false, 0)
         == DecodeFrom(s[..i], false, 0) + DigitExtent(s[i], SpaceAfter(s[..i], false), IdAfter(s[..i], false, 0))
    ensures SpaceAfter(s[..i + 1], false) == !SpaceAfter(s[..i], false)
    ensures IdAfter(s[..i + 1], false, 0) == IdNext(s[i], SpaceAfter(s[..i], false), IdAfter(s[..i], false, 0))
  {
    assert s[..i + 1] == s[..i] + [s[i]];
    SnocDigits(s[..i], s[i]);
    DecodeFromSnoc(s[..i], s[i], false, 0);
    IdAfterSnoc(s[..i], s[i], false, 0);
  }

  /** A description that starts with a non-zero digit decodes to a list whose
      first extent is file 0. */
  lemma {:induction false} DecodeStartsWithFile(s: string)
    requires AllDigits(s) && s != [] && s[0] != '0'
    ensures Decode(s) != [] && Decode(s)[0] == FilePart(DigitValue(s[0]), 0)
  {
  }

  // ---------------------------------------------------------------------
  // Whole-file relocation

  /** What moving the file at `q` into the free extent at `p` does to the
      list: equal sizes swap the two extents; otherwise the file is placed
      at the left edge of the free extent, which shrinks, and the file's old
      place is given to the free successor, else to the free predecessor,
      else to a new free extent. */
  function Relocate(v: seq<DiskItem>, p: nat, q: nat): seq<DiskItem>
    requires p < q < |v| && v[p].EmptySpace? && v[q].FilePart? && v[p].size >= v[q].size
  {
    var f := v[q];
    if v[p].size == f.size then v[p := f][q := EmptySpace(f.size)]
    else
      // the list up to the file's old predecessor, which is now at index q
      var left := v[..p] + [f, EmptySpace(v[p].size - f.size)] + v[p + 1..q];
      if q + 1 < |v| && v[q + 1].EmptySpace? then
        left + [EmptySpace(v[q + 1].size + f.size)] + v[q + 2..]
      else if left[q].EmptySpace? then
        left[..q] + [EmptySpace(left[q].size + f.size)] + v[q + 1..]
      else
        left + [EmptySpace(f.size)] + v[q + 1..]
  }

  /** Equal sizes: the file and the free extent trade places. */
  lemma {:induction false} RelocateSwaps(v: seq<DiskItem>, p: nat, q: nat)
    requires p < q < |v| && v[p].EmptySpace? && v[q].FilePart? && v[p].size == v[q].size
    ensures Relocate(v, p, q) == v[p := v[q]][q := v[p]]
  {
    assert v[p] == EmptySpace(v[q].size);
  }

  /** Files and sizes of a list cut in three pieces. */
  lemma {:induction false} Split3(a: seq<DiskItem>, m: seq<DiskItem>, c: seq<DiskItem>)
    ensures Files(a + m + c) == Files(a) + Files(m) + Files(c)
    ensures TotalSize(a + m + c) == TotalSize(a) + TotalSize(m) + TotalSize(c)
  {
    FilesAppend(a + m, c);
    FilesAppend(a, m);
    TotalSizeAppend(a + m, c);
    TotalSizeAppend(a, m);
  }

  lemma {:induction false} Single(x: DiskItem)
    ensures Files([x]) == if x.FilePart? then [x] else []
    ensures TotalSize([x]) == x.size
  {
    assert [x][1..] == [];
  }

  /** Replacing a middle piece by one with the same file extents and the same
      size keeps both for the whole list. */
  lemma {:induction false} ReplaceMiddle(a: seq<DiskItem>, m: seq<DiskItem>, m': seq<DiskItem>, c: seq<DiskItem>)
    requires multiset(Files(m')) == multiset(Files(m)) && TotalSize(m') == TotalSize(m)
    ensures multiset(Files(a + m' + c)) == multiset(Files(a + m + c))
    ensures TotalSize(a + m' + c) == TotalSize(a + m + c)
  {
    Split3(a, m, c);
    Split3(a, m', c);
  }

  /** Swapping a free extent with a file of the same size. */
  lemma {:induction false} MiddleEqual(e: DiskItem, b: seq<DiskItem>, f: DiskItem)
    requires e.EmptySpace? && f.FilePart? && e.size == f.size
    ensures multiset(Files([f] + b + [EmptySpace(f.size)])) == multiset(Files([e] + b + [f]))
    ensures TotalSize([f] + b + [EmptySpace(f.size)]) == TotalSize([e] + b + [f])
  {
    Split3([e], b, [f]);
    Split3([f], b, [EmptySpace(f.size)]);
    Single(e); Single(f); Single(EmptySpace(f.size));
    assert Files([e] + b + [f]) == Files(b) + [f];
    assert Files([f] + b + [EmptySpace(f.size)]) == [f] + Files(b);
  }

  /** Moving one piece to the front of a concatenation, while the last
      piece is replaced by one with the same elements, keeps the multiset. */
  lemma {:induction false} MultisetRotate(x: seq<DiskItem>, y: seq<DiskItem>, z: seq<DiskItem>, z': seq<DiskItem>)
    requires multiset(z') == multiset(z)
    ensures multiset(y + x + z') == multiset(x + y + z)
  {
    calc {
      multiset(y + x + z');
      multiset(y) + multiset(x) + multiset(z');
      multiset(x) + multiset(y) + multiset(z);
      multiset(x + y + z);
    }
  }

  /** Placing a file at the left edge of a larger free extent, when what
      follows the file, `tail`, becomes `tail'` with the same file extents
      and the file's units added. */
  lemma {:induction false} MiddleShrink(e: DiskItem, b: seq<DiskItem>, f: DiskItem, tail: seq<DiskItem>, tail': seq<DiskItem>)
    requires e.EmptySpace? && f.FilePart? && e.size > f.size
    requires multiset(Files(tail')) == multiset(Files(tail)) && TotalSize(tail') == TotalSize(tail) + f.size
    ensures multiset(Files([f, EmptySpace(e.size - f.size)] + b + tail')) == multiset(Files([e] + b + ([f] + tail)))
    ensures TotalSize([f, EmptySpace(e.size - f.size)] + b + tail') == TotalSize([e] + b + ([f] + tail))
  {
    var g := EmptySpace(e.size - f.size);
    MiddleShrinkFiles(e, b, f, tail, tail');
    assert TotalSize([e] + b + ([f] + tail)) == e.size + TotalSize(b) + f.size + TotalSize(tail) by {
      Split3([e], b, [f] + tail);
      TotalSizeAppend([f], tail);
      Single(e); Single(f);
    }
    assert TotalSize([f, g] + b + tail') == f.size + g.size + TotalSize(b) + TotalSize(tail') by {
      Split3([f, g], b, tail');
      Pair(f, g);
    }
  }

  lemma {:induction false} MiddleShrinkFiles(e: DiskItem, b: seq<DiskItem>, f: DiskItem, tail: seq<DiskItem>, tail': seq<DiskItem>)
    requires e.EmptySpace? && f.FilePart? && e.size > f.size
    requires multiset(Files(tail')) == multiset(Files(tail))
    ensures multiset(Files([f, EmptySpace(e.size - f.size)] + b + tail')) == multiset(Files([e] + b + ([f] + tail)))
  {
    var g := EmptySpace(e.size - f.size);
    var fb, ft, ft' := Files(b), Files(tail), Files(tail');
    assert Files([e] + b + ([f] + tail)) == fb + [f] + ft by {
      Split3([e], b, [f] + tail);
      FilesAppend([f], tail);
      Single(e); Single(f);
    }
    assert Files([f, g] + b + tail') == [f] + fb + ft' by {
      Split3([f, g], b, tail');
      Pair(f, g);
      Single(f); Single(g);
    }
    MultisetRotate(fb, [f], ft, ft');
  }

  /** Relocation keeps every file extent whole: the file extents are the same
      multiset before and after, and the total size is unchanged. */
  lemma {:induction false} RelocateConserves(v: seq<DiskItem>, p: nat, q: nat)
    requires p < q < |v| && v[p].EmptySpace? && v[q].FilePart? && v[p].size >= v[q].size
    ensures multiset(Files(Relocate(v, p, q))) == multiset(Files(v))
    ensures TotalSize(Relocate(v, p, q)) == TotalSize(v)
  {
    var f, e := v[q], v[p];
    var a, b, c := v[..p], v[p + 1..q], v[q + 1..];
    if e.size == f.size {
      EqualShape(v, p, q);
      MiddleEqual(e, b, f);
      ReplaceMiddle(a, [e] + b + [f], [f] + b + [EmptySpace(f.size)], c);
    } else if q + 1 < |v| && v[q + 1].EmptySpace? {
      RelocateIntoSuccessor(v, p, q);
    } else if p + 1 == q {
      RelocateIntoShrunk(v, p, q);
    } else if v[q - 1].EmptySpace? {
      RelocateIntoPredecessor(v, p, q);
    } else {
      RelocateIntoNew(v, p, q);
    }
  }

  lemma {:induction false} EqualShape(v: seq<DiskItem>, p: nat, q: nat)
    requires p < q < |v| && v[p].EmptySpace? && v[q].FilePart? && v[p].size == v[q].size
    ensures var a, b, c := v[..p], v[p + 1..q], v[q + 1..];
      v == a + ([v[p]] + b + [v[q]]) + c && Relocate(v, p, q) == a + ([v[q]] + b + [EmptySpace(v[q].size)]) + c
  {
    var r := v[p := v[q]][q := EmptySpace(v[q].size)];
    Cut2(v, p, q);
    Cut2(r, p, q);
    assert r[..p] == v[..p] && r[p + 1..q] == v[p + 1..q] && r[q + 1..] == v[q + 1..];
  }

  /** A list cut around two of its positions. */
  lemma {:induction false} Cut2(v: seq<DiskItem>, p: nat, q: nat)
    requires p < q < |v|
    ensures v == v[..p] + ([v[p]] + v[p + 1..q] + [v[q]]) + v[q + 1..]
  {
    assert v[p..q + 1] == [v[p]] + v[p + 1..q] + [v[q]];
    assert v[..q + 1] == v[..p] + v[p..q + 1];
    assert v == v[..q + 1] + v[q + 1..];
  }

  lemma {:induction false} RelocateIntoSuccessor(v: seq<DiskItem>, p: nat, q: nat)
    requires p < q < |v| && v[p].EmptySpace? && v[q].FilePart? && v[p].size > v[q].size
    requires q + 1 < |v| && v[q + 1].EmptySpace?
    ensures multiset(Files(Relocate(v, p, q))) == multiset(Files(v))
    ensures TotalSize(Relocate(v, p, q)) == TotalSize(v)
  {
    SuccessorCut(v, p, q);
    SuccessorConserves(v[..p], v[p], v[p + 1..q], v[q], v[q + 1], v[q + 2..]);
  }

  lemma {:induction false} SuccessorCut(v: seq<DiskItem>, p: nat, q: nat)
    requires p < q && q + 1 < |v|
    ensures v == v[..p] + ([v[p]] + v[p + 1..q] + ([v[q]] + [v[q + 1]])) + v[q + 2..]
  {
    Cut2(v, p, q);
    assert v[q + 1..] == [v[q + 1]] + v[q + 2..];
  }

  /** The freed units join the free extent after the file's old place. */
  lemma {:induction false} SuccessorConserves(a: seq<DiskItem>, e: DiskItem, b: seq<DiskItem>, f: DiskItem, n: DiskItem, d: seq<DiskItem>)
    requires e.EmptySpace? && f.FilePart? && e.size > f.size && n.EmptySpace?
    ensures var r := a + [f, EmptySpace(e.size - f.size)] + b + [EmptySpace(n.size + f.size)] + d;
      var v := a + ([e] + b + ([f] + [n])) + d;
      multiset(Files(r)) == multiset(Files(v)) && TotalSize(r) == TotalSize(v)
  {
    var g := EmptySpace(e.size - f.size);
    var tail' := [EmptySpace(n.size + f.size)];
    var m, m' := [e] + b + ([f] + [n]), [f, g] + b + tail';
    assert multiset(Files(m')) == multiset(Files(m)) && TotalSize(m') == TotalSize(m) by {
      Single(n); Single(tail'[0]);
      MiddleShrink(e, b, f, [n], tail');
    }
    assert a + [f, g] + b + tail' + d == a + m' + d;
    ReplaceMiddle(a, m, m', d);
  }

  lemma {:induction false} RelocateIntoShrunk(v: seq<DiskItem>, p: nat, q: nat)
    requires p < q < |v| && v[p].EmptySpace? && v[q].FilePart? && v[p].size > v[q].size
    requires !(q + 1 < |v| && v[q + 1].EmptySpace?) && p + 1 == q
    ensures multiset(Files(Relocate(v, p, q))) == multiset(Files(v))
    ensures TotalSize(Relocate(v, p, q)) == TotalSize(v)
  {
    var f, e := v[q], v[p];
    var a, c := v[..p], v[q + 1..];
    var g' := EmptySpace(e.size);
    ShrunkShape(v, p, q);
    Pair(e, f); Pair(f, g');
    Single(e); Single(f); Single(g');
    ReplaceMiddle(a, [e, f], [f, g'], c);
  }

  lemma {:induction false} ShrunkShape(v: seq<DiskItem>, p: nat, q: nat)
    requires p < q < |v| && v[p].EmptySpace? && v[q].FilePart? && v[p].size > v[q].size
    requires !(q + 1 < |v| && v[q + 1].EmptySpace?) && p + 1 == q
    ensures v == v[..p] + [v[p], v[q]] + v[q + 1..]
    ensures Relocate(v, p, q) == v[..p] + [v[q], EmptySpace(v[p].size)] + v[q + 1..]
  {
    var a, c := v[..p], v[q + 1..];
    var e, f := v[p], v[q];
    var g := EmptySpace(e.size - f.size);
    assert v[p + 1..q] == [];
    Cut2(v, p, q);
    assert [e] + v[p + 1..q] + [f] == [e, f];
    var left := a + [f, g] + v[p + 1..q];
    assert left == a + [f, g];
    assert |left| == q + 1 && left[q] == g;
    assert left[..q] == a + [f];
    assert Relocate(v, p, q) == left[..q] + [EmptySpace(g.size + f.size)] + c;
  }

  lemma {:induction false} RelocateIntoPredecessor(v: seq<DiskItem>, p: nat, q: nat)
    requires p < q < |v| && v[p].EmptySpace? && v[q].FilePart? && v[p].size > v[q].size
    requires !(q + 1 < |v| && v[q + 1].EmptySpace?) && p + 1 < q && v[q - 1].EmptySpace?
    ensures multiset(Files(Relocate(v, p, q))) == multiset(Files(v))
    ensures TotalSize(Relocate(v, p, q)) == TotalSize(v)
  {
    PredecessorCut(v, p, q);
    PredecessorJoin(v, p, q);
    PredecessorConserves(v[..p], v[p], v[p + 1..q - 1], v[q - 1], v[q], v[q + 1..]);
  }

  lemma {:induction false} PredecessorConserves(a: seq<DiskItem>, e: DiskItem, b0: seq<DiskItem>, w: DiskItem, f: DiskItem, c: seq<DiskItem>)
    requires e.EmptySpace? && w.EmptySpace? && f.FilePart? && e.size > f.size
    ensures var r := a + [f, EmptySpace(e.size - f.size)] + b0 + [EmptySpace(w.size + f.size)] + c;
      var v := a + ([e] + b0 + [w, f]) + c;
      multiset(Files(r)) == multiset(Files(v)) && TotalSize(r) == TotalSize(v)
  {
    var g := EmptySpace(e.size - f.size);
    var w' := EmptySpace(w.size + f.size);
    var m, m' := [e] + b0 + [w, f], [f, g] + b0 + [w'];
    assert multiset(Files(m')) == multiset(Files(m)) && TotalSize(m') == TotalSize(m) by {
      MiddlePredecessor(e, b0, w, f);
    }
    assert a + [f, g] + b0 + [w'] + c == a + m' + c;
    ReplaceMiddle(a, m, m', c);
  }

  /** The freed units join the extent before the file's old place. */
  lemma {:induction false} PredecessorJoin(v: seq<DiskItem>, p: nat, q: nat)
    requires p < q < |v| && v[p].EmptySpace? && v[q].FilePart? && v[p].size > v[q].size
    requires !(q + 1 < |v| && v[q + 1].EmptySpace?) && p + 1 < q && v[q - 1].EmptySpace?
    ensures Relocate(v, p, q)
      == v[..p] + [v[q], EmptySpace(v[p].size - v[q].size)] + v[p + 1..q - 1] + [EmptySpace(v[q - 1].size + v[q].size)] + v[q + 1..]
  {
    var left := v[..p] + [v[q], EmptySpace(v[p].size - v[q].size)] + v[p + 1..q];
    PredecessorLeft(v, p, q);
    assert Relocate(v, p, q) == left[..q] + [EmptySpace(left[q].size + v[q].size)] + v[q + 1..];
  }

  lemma {:induction false} PredecessorCut(v: seq<DiskItem>, p: nat, q: nat)
    requires p + 1 < q < |v|
    ensures v == v[..p] + ([v[p]] + v[p + 1..q - 1] + [v[q - 1], v[q]]) + v[q + 1..]
  {
    var b0, w := v[p + 1..q - 1], v[q - 1];
    Cut2(v, p, q);
    assert v[p + 1..q] == b0 + [w];
    assert [v[p]] + (b0 + [w]) + [v[q]] == [v[p]] + b0 + [w, v[q]];
  }

  /** With the file placed and the free extent shrunk, the extent before the
      file's old place sits at index q. */
  lemma {:induction false} PredecessorLeft(v: seq<DiskItem>, p: nat, q: nat)
    requires p + 1 < q < |v| && v[p].size >= v[q].size
    ensures var l0 := v[..p] + [v[q], EmptySpace(v[p].size - v[q].size)] + v[p + 1..q - 1];
      var left := v[..p] + [v[q], EmptySpace(v[p].size - v[q].size)] + v[p + 1..q];
      |left| == q + 1 && left[..q] == l0 && left[q] == v[q - 1]
  {
    var l0 := v[..p] + [v[q], EmptySpace(v[p].size - v[q].size)] + v[p + 1..q - 1];
    assert v[p + 1..q] == v[p + 1..q - 1] + [v[q - 1]];
    LastOf(l0, v[q - 1], q);
  }

  lemma {:induction false} LastOf(l: seq<DiskItem>, x: DiskItem, q: nat)
    requires q == |l|
    ensures (l + [x])[..q] == l && (l + [x])[q] == x
  {
    assert (l + [x])[..q] == l;
  }

  /** Files and size of the changed middle when the file's old place joins
      its free predecessor. */
  lemma {:induction false} MiddlePredecessor(e: DiskItem, b0: seq<DiskItem>, w: DiskItem, f: DiskItem)
    requires e.EmptySpace? && w.EmptySpace? && f.FilePart? && e.size > f.size
    ensures var g, w' := EmptySpace(e.size - f.size), EmptySpace(w.size + f.size);
      && multiset(Files([f, g] + b0 + [w'])) == multiset(Files([e] + b0 + [w, f]))
      && TotalSize([f, g] + b0 + [w']) == TotalSize([e] + b0 + [w, f])
  {
    var g, w' := EmptySpace(e.size - f.size), EmptySpace(w.size + f.size);
    Split3([e], b0, [w, f]);
    Split3([f, g], b0, [w']);
    Pair(w, f); Pair(f, g);
    Single(e); Single(f); Single(g); Single(w); Single(w');
    assert Files([e] + b0 + [w, f]) == Files(b0) + [f] + [];
    assert Files([f, g] + b0 + [w']) == [f] + Files(b0) + [];
    MultisetRotate(Files(b0), [f], [], []);
  }

  lemma {:induction false} Pair(x: DiskItem, y: DiskItem)
    ensures Files([x, y]) == Files([x]) + Files([y])
    ensures TotalSize([x, y]) == x.size + y.size
  {
    assert [x, y] == [x] + [y];
    FilesAppend([x], [y]);
    TotalSizeAppend([x], [y]);
    Single(x); Single(y);
  }

  lemma {:induction false} RelocateIntoNew(v: seq<DiskItem>, p: nat, q: nat)
    requires p < q < |v| && v[p].EmptySpace? && v[q].FilePart? && v[p].size > v[q].size
    requires !(q + 1 < |v| && v[q + 1].EmptySpace?) && p + 1 < q && !v[q - 1].EmptySpace?
    ensures multiset(Files(Relocate(v, p, q))) == multiset(Files(v))
    ensures TotalSize(Relocate(v, p, q)) == TotalSize(v)
  {
    Cut2(v, p, q);
    NewJoin(v, p, q);
    NewConserves(v[..p], v[p], v[p + 1..q], v[q], v[q + 1..]);
  }

  /** Neither neighbour of the file's old place is free: a new free extent
      takes it. */
  lemma {:induction false} NewJoin(v: seq<DiskItem>, p: nat, q: nat)
    requires p < q < |v| && v[p].EmptySpace? && v[q].FilePart? && v[p].size > v[q].size
    requires !(q + 1 < |v| && v[q + 1].EmptySpace?) && p + 1 < q && !v[q - 1].EmptySpace?
    ensures Relocate(v, p, q) == v[..p] + [v[q], EmptySpace(v[p].size - v[q].size)] + v[p + 1..q] + [EmptySpace(v[q].size)] + v[q + 1..]
  {
    PredecessorLeft(v, p, q);
  }

  lemma {:induction false} NewConserves(a: seq<DiskItem>, e: DiskItem, b: seq<DiskItem>, f: DiskItem, c: seq<DiskItem>)
    requires e.EmptySpace? && f.FilePart? && e.size > f.size
    ensures var r := a + [f, EmptySpace(e.size - f.size)] + b + [EmptySpace(f.size)] + c;
      var v := a + ([e] + b + [f]) + c;
      multiset(Files(r)) == multiset(Files(v)) && TotalSize(r) == TotalSize(v)
  {
    var g := EmptySpace(e.size - f.size);
    var tail' := [EmptySpace(f.size)];
    var m, m' := [e] + b + ([f] + []), [f, g] + b + tail';
    assert multiset(Files(m')) == multiset(Files(m)) && TotalSize(m') == TotalSize(m) by {
      Single(tail'[0]);
      assert Files([]) == [] && TotalSize([]) == 0;
      MiddleShrink(e, b, f, [], tail');
    }
    assert [e] + b + [f] == m;
    assert a + [f, g] + b + tail' + c == a + m' + c;
    ReplaceMiddle(a, m, m', c);
  }

  /** The list before the free extent is untouched, and the file now sits
      where the free extent began. */
  lemma {:induction false} RelocateKeepsPrefix(v: seq<DiskItem>, p: nat, q: nat)
    requires p < q < |v| && v[p].EmptySpace? && v[q].FilePart? && v[p].size >= v[q].size
    ensures p < |Relocate(v, p, q)| && Relocate(v, p, q)[..p] == v[..p] && Relocate(v, p, q)[p] == v[q]
  {
    if v[p].size > v[q].size {
      var left := v[..p] + [v[q], EmptySpace(v[p].size - v[q].size)] + v[p + 1..q];
      assert left[..p] == v[..p] && left[p] == v[q];
    }
  }

  /** No extent becomes empty. */
  lemma {:induction false} RelocateKeepsPositive(v: seq<DiskItem>, p: nat, q: nat)
    requires p < q < |v| && v[p].EmptySpace? && v[q].FilePart? && v[p].size >= v[q].size
    requires AllPositive(v)
    ensures AllPositive(Relocate(v, p, q))
  {
    var r := Relocate(v, p, q);
    if v[p].size > v[q].size {
      var left := v[..p] + [v[q], EmptySpace(v[p].size - v[q].size)] + v[p + 1..q];
      assert forall k :: 0 <= k < |left| ==> left[k].size > 0 by {
        forall k | 0 <= k < |left| ensures left[k].size > 0 {
          if k > p + 1 { assert left[k] == v[k - 1]; }
        }
      }
    }
  }

  /** One move of the whole-file pass, with the cursors it leaves: the tail
      cursor goes to the file's old predecessor (at `q - 1` after a swap, at
      `q` after a placement that added a node), the last-empty cursor stays
      on its node, which a placement shifts when it was the chosen space.
      The files stay whole, the extents before the last-empty cursor stay
      files, and the measure of the list up to the tail cursor drops. */
  lemma {:induction false} WholeFileStep(v: seq<DiskItem>, p: nat, q: nat, li: nat, r: seq<DiskItem>, ti: int, li': nat)
    requires p < q < |v| && v[p].EmptySpace? && v[q].FilePart? && v[p].size >= v[q].size
    requires li <= p && forall k :: 0 <= k < li ==> v[k].FilePart?
    requires r == Relocate(v, p, q)
    requires ti == if v[p].size == v[q].size then q - 1 else q
    requires li' == if v[p].size > v[q].size && li == p then p + 1 else li
    ensures 0 <= ti < |r| && li' <= ti
    ensures forall k :: 0 <= k < li' ==> r[k].FilePart?
    ensures FilePositions(r[..ti + 1], 0) < FilePositions(v[..q + 1], 0)
    ensures multiset(Files(r)) == multiset(Files(v)) && TotalSize(r) == TotalSize(v)
    ensures v[0].FilePart? ==> r[0].FilePart?
  {
    RelocateConserves(v, p, q);
    RelocateLowersFiles(v, p, q);
    RelocateKeepsPrefix(v, p, q);
    FilePrefixKept(v, r, p, q, li, li');
  }

  /** A list that keeps the prefix before `p` and has a file extent at `p`
      keeps a leading run of file extents, one longer when it reached `p`. */
  lemma {:induction false} FilePrefixKept(v: seq<DiskItem>, r: seq<DiskItem>, p: nat, q: nat, li: nat, li': nat)
    requires p < q < |v| && p < |r| && r[..p] == v[..p] && r[p] == v[q] && v[q].FilePart?
    requires li <= p && forall k :: 0 <= k < li ==> v[k].FilePart?
    requires li' == li || (li == p && li' == p + 1)
    ensures forall k :: 0 <= k < li' ==> r[k].FilePart?
    ensures v[0].FilePart? ==> r[0].FilePart?
  {
    forall k | 0 <= k < li'
      ensures r[k].FilePart?
    {
      if k < p {
        assert r[k] == r[..p][k];
      }
    }
    if p > 0 {
      assert r[0] == r[..p][0];
    }
  }

  /** The sum of the positions, counted from `base`, of the file extents:
      every move of the whole-file compactor lowers it for the list up to
      the file's old place. */
  function FilePositions(exts: seq<DiskItem>, base: nat): nat {
    if exts == [] then 0
    else (if exts[0].FilePart? then base else 0) + FilePositions(exts[1..], base + 1)
  }

  lemma {:induction false} FilePositionsAppend(a: seq<DiskItem>, b: seq<DiskItem>, base: nat)
    ensures FilePositions(a + b, base) == FilePositions(a, base) + FilePositions(b, base + |a|)
    decreases |a|
  {
    if a == [] {
      assert a + b == b;
    } else {
      assert (a + b)[1..] == a[1..] + b;
      FilePositionsAppend(a[1..], b, base + 1);
    }
  }

  /** Counting positions from one further adds one per file extent. */
  lemma {:induction false} FilePositionsShift(b: seq<DiskItem>, base: nat)
    ensures FilePositions(b, base + 1) == FilePositions(b, base) + |Files(b)|
    ensures |Files(b)| <= |b|
    decreases |b|
  {
    if b != [] {
      FilePositionsShift(b[1..], base + 1);
    }
  }

  /** Dropping the last extent of a list does not raise the measure. */
  lemma {:induction false} FilePositionsPrefix(v: seq<DiskItem>, i: nat, j: nat)
    requires j == i + 1 && i < |v|
    ensures FilePositions(v[..i], 0) <= FilePositions(v[..j], 0)
  {
    assert v[..i + 1] == v[..i] + [v[i]];
    FilePositionsAppend(v[..i], [v[i]], 0);
  }

  lemma {:induction false} FilePositionsOne(x: DiskItem, base: nat)
    ensures FilePositions([x], base) == if x.FilePart? then base else 0
  {
    assert [x][1..] == [];
  }

  /** A move lowers the measure of the list up to the file's old place: with
      equal sizes the file's old place is now free and the list to consider
      ends before it; otherwise the list to consider ends at the file's old
      predecessor, which now sits at `q`. */
  lemma {:induction false} RelocateLowersFiles(v: seq<DiskItem>, p: nat, q: nat)
    requires p < q < |v| && v[p].EmptySpace? && v[q].FilePart? && v[p].size >= v[q].size
    ensures q < |Relocate(v, p, q)|
    ensures v[p].size == v[q].size ==> FilePositions(Relocate(v, p, q)[..q], 0) < FilePositions(v[..q + 1], 0)
    ensures v[p].size > v[q].size ==> FilePositions(Relocate(v, p, q)[..q + 1], 0) < FilePositions(v[..q + 1], 0)
  {
    var f, e := v[q], v[p];
    var a, b := v[..p], v[p + 1..q];
    BeforeMove(v, p, q);
    if e.size == f.size {
      assert Relocate(v, p, q)[..q] == a + ([f] + b);
      AfterEqualMove(a, f, b);
    } else {
      var g := EmptySpace(e.size - f.size);
      LargerPrefix(v, p, q);
      AfterLargerMove(a, f, g, b);
    }
  }

  /** The measure of the list up to a file, a free extent at `p` and the list
      between them. */
  lemma {:induction false} BeforeMove(v: seq<DiskItem>, p: nat, q: nat)
    requires p < q < |v| && v[p].EmptySpace? && v[q].FilePart?
    ensures var b := v[p + 1..q];
      FilePositions(v[..q + 1], 0) == FilePositions(v[..p], 0) + FilePositions(b, p + 1) + q
      && |Files(b)| <= |b|
  {
    var f, e := v[q], v[p];
    var a, b := v[..p], v[p + 1..q];
    assert v[..q + 1] == a + ([e] + (b + [f]));
    FilePositionsAppend(a, [e] + (b + [f]), 0);
    FilePositionsAppend([e], b + [f], p);
    FilePositionsAppend(b, [f], p + 1);
    FilePositionsOne(e, p);
    FilePositionsOne(f, p + 1 + |b|);
    FilePositionsShift(b, p + 1);
  }

  lemma {:induction false} AfterEqualMove(a: seq<DiskItem>, f: DiskItem, b: seq<DiskItem>)
    requires f.FilePart?
    ensures FilePositions(a + ([f] + b), 0) == FilePositions(a, 0) + |a| + FilePositions(b, |a| + 1)
  {
    FilePositionsAppend(a, [f] + b, 0);
    FilePositionsAppend([f], b, |a|);
    FilePositionsOne(f, |a|);
  }

  lemma {:induction false} AfterLargerMove(a: seq<DiskItem>, f: DiskItem, g: DiskItem, b: seq<DiskItem>)
    requires f.FilePart? && g.EmptySpace?
    ensures FilePositions(a + [f, g] + b, 0)
      == FilePositions(a, 0) + |a| + FilePositions(b, |a| + 1) + |Files(b)|
  {
    assert a + [f, g] + b == a + ([f] + ([g] + b));
    FilePositionsAppend(a, [f] + ([g] + b), 0);
    FilePositionsAppend([f], [g] + b, |a|);
    FilePositionsAppend([g], b, |a| + 1);
    FilePositionsOne(f, |a|);
    FilePositionsOne(g, |a| + 1);
    FilePositionsShift(b, |a| + 1);
  }

  /** With a larger free extent, the list up to `q` after the move is the
      file, the shrunk free extent and what lay between, except that the
      last of these may have grown when it was free. */
  lemma {:induction false} LargerPrefix(v: seq<DiskItem>, p: nat, q: nat)
    requires p < q < |v| && v[p].EmptySpace? && v[q].FilePart? && v[p].size > v[q].size
    ensures var left := v[..p] + [v[q], EmptySpace(v[p].size - v[q].size)] + v[p + 1..q];
      q < |Relocate(v, p, q)| && FilePositions(Relocate(v, p, q)[..q + 1], 0) == FilePositions(left, 0)
  {
    var f := v[q];
    var left := v[..p] + [f, EmptySpace(v[p].size - f.size)] + v[p + 1..q];
    var r := Relocate(v, p, q);
    if q + 1 < |v| && v[q + 1].EmptySpace? {
      assert r[..q + 1] == left;
    } else if left[q].EmptySpace? {
      var w' := EmptySpace(left[q].size + f.size);
      assert r[..q + 1] == left[..q] + [w'];
      assert left == left[..q] + [left[q]];
      FilePositionsAppend(left[..q], [w'], 0);
      FilePositionsAppend(left[..q], [left[q]], 0);
      FilePositionsOne(w', q);
      FilePositionsOne(left[q], q);
    } else {
      assert r[..q + 1] == left;
    }
  }

  /** Unlike a full coalescing of free space, a relocation can leave two
      free extents side by side: when both neighbours of the vacated file are
      free, only the successor grows. */
  lemma {:induction false} RelocateCanLeaveAdjacentFree()
    ensures var v := [FilePart(1, 0), EmptySpace(3), FilePart(1, 1), EmptySpace(1), FilePart(1, 2), EmptySpace(1)];
      Relocate(v, 1, 4) == [FilePart(1, 0), FilePart(1, 2), EmptySpace(2), FilePart(1, 1), EmptySpace(1), EmptySpace(2)]
  {
    var v := [FilePart(1, 0), EmptySpace(3), FilePart(1, 1), EmptySpace(1), FilePart(1, 2), EmptySpace(1)];
    var left := v[..1] + [v[4], EmptySpace(2)] + v[2..4];
    assert left == [FilePart(1, 0), FilePart(1, 2), EmptySpace(2), FilePart(1, 1), EmptySpace(1)];
    assert v[6..] == [];
  }
}
