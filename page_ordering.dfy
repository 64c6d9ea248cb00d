/** Printing updates for safety manuals. A rule `X|Y` says that page X must
    come before page Y when an update prints both. An update lists the pages
    to print; it is checked against the rules that apply to it and, when it
    fails, reordered by repeated sweeps that place every page whose
    predecessors are already placed. */
module PageOrdering {
  import opened Basics
  import opened Decimal

  /** `X|Y`: page `predecessor` (X) must come before page `ref` (Y). */
  datatype Rule = PageOrderRule(predecessor: int, ref: int)

  /** What one input line holds. */
  datatype Line = RuleLine(rule: Rule) | UpdateLine(pages: seq<int>) | BlankLine | InvalidLine

  datatype Input = Input(rules: seq<Rule>, updates: seq<seq<int>>)

  /** The result of reordering: the corrected pages and their middle page,
      or the pages placed before a sweep placed nothing more. */
  datatype Reshuffled = CorrectedMid(corrected: seq<int>, mid: int) | CouldNotCorrect(placed: seq<int>)

  // ---------------------------------------------------------------- text

  /** The first position of `x` in `s`. */
  function IndexOf<T(==)>(s: seq<T>, x: T): (i: nat)
    requires x in s
    ensures i < |s| && s[i] == x && x !in s[..i]
  {
    if s[0] == x then 0
    else
      assert x in s[1..] by {
        var j :| 0 <= j < |s| && s[j] == x;
        assert s[1..][j - 1] == x;
      }
      var i := IndexOf(s[1..], x);
      assert s[..i + 1] == [s[0]] + s[1..][..i];
      i + 1
  }

  /** The position where `x` first occurs is the one `IndexOf` finds. */
  lemma {:induction false} IndexOfFirst<T>(s: seq<T>, x: T, i: nat)
    requires i < |s| && s[i] == x && x !in s[..i]
    ensures IndexOf(s, x) == i
  {
    var j := IndexOf(s, x);
    assert forall k :: 0 <= k < i ==> s[..i][k] == s[k];
    assert forall k :: 0 <= k < j ==> s[..j][k] == s[k];
  }

  /** The pieces joined back with the separator between them. */
  function Join(parts: seq<string>, c: char): string
    requires |parts| >= 1
  {
    if |parts| == 1 then parts[0] else parts[0] + [c] + Join(parts[1..], c)
  }

  /** `s.split(c)`: the pieces between the separators, empty ones included. */
  function Split(s: string, c: char): (parts: seq<string>)
    ensures |parts| >= 1
    ensures forall k :: 0 <= k < |parts| ==> c !in parts[k]
    ensures Join(parts, c) == s
    ensures c in s <==> |parts| >= 2
    decreases |s|
  {
    if c !in s then [s]
    else
      var i := IndexOf(s, c);
      assert s == s[..i] + [c] + s[i + 1..];
      var rest := Split(s[i + 1..], c);
      assert ([s[..i]] + rest)[1..] == rest;
      [s[..i]] + rest
  }

  /** The whitespace `str.strip()` removes, as far as ASCII goes. */
  predicate IsSpace(c: char) {
    c == ' ' || 9 <= c as int <= 13 || 28 <= c as int <= 31
  }

  function TrimLeft(s: string): string {
    if s != [] && IsSpace(s[0]) then TrimLeft(s[1..]) else s
  }

  function TrimRight(s: string): string {
    if s != [] && IsSpace(s[|s| - 1]) then TrimRight(s[..|s| - 1]) else s
  }

  /** `s.strip()`. */
  function Trim(s: string): string {
    TrimRight(TrimLeft(s))
  }

  /** `int(s)`: optional surrounding whitespace, an optional sign, and at
      least one ASCII digit; anything else raises ValueError (None). */
  function ParseInt(s: string): (r: Option<int>)
    ensures r.Some? ==> Trim(s) != [] && IsDigit(Trim(s)[|Trim(s)| - 1])
    ensures r.Some? && r.value < 0 ==> Trim(s)[0] == '-'
  {
    var t := Trim(s);
    if t != [] && (t[0] == '+' || t[0] == '-') then
      var d := t[1..];
      if d != [] && AllDigits(d) then
        var v: int := ValueOf(d);
        Some(if t[0] == '-' then -v else v)
      else None
    else if t != [] && AllDigits(t) then Some(ValueOf(t))
    else None
  }

  /** `list(map(int, parts))`: every piece a number, or ValueError. */
  function ParseInts(parts: seq<string>): (r: Option<seq<int>>)
    ensures r.Some? ==> |r.value| == |parts|
    ensures r.Some? <==> forall i :: 0 <= i < |parts| ==> ParseInt(parts[i]).Some?
    ensures r.Some? ==> forall i :: 0 <= i < |parts| ==> ParseInt(parts[i]) == Some(r.value[i])
  {
    if parts == [] then Some([])
    else
      match (ParseInts(parts[..|parts| - 1]), ParseInt(parts[|parts| - 1]))
      case (Some(vs), Some(v)) => Some(vs + [v])
      case _ => None
  }

  /** One input line: a line with `|` is a rule and must hold exactly two
      numbers, the first being the predecessor; a line with `,` is an update;
      any other line must be blank. */
  function ParseLine(line: string): (r: Line)
    ensures r.UpdateLine? ==> |r.pages| >= 2
    ensures r.RuleLine? ==> '|' in line
    ensures r.BlankLine? <==> '|' !in line && ',' !in line && Trim(line) == []
  {
    if '|' in line then
      var parts := Split(Trim(line), '|');
      if |parts| != 2 then InvalidLine
      else
        match (ParseInt(parts[0]), ParseInt(parts[1]))
        case (Some(x), Some(y)) => RuleLine(PageOrderRule(x, y))
        case _ => InvalidLine
    else if ',' in line then
      var parts := Split(line, ',');
      match ParseInts(parts)
      case Some(pages) => UpdateLine(pages)
      case None => InvalidLine
    else if Trim(line) != [] then InvalidLine
    else BlankLine
  }

  function RulesOf(lines: seq<string>): seq<Rule> {
    if lines == [] then []
    else
      var l := ParseLine(lines[|lines| - 1]);
      RulesOf(lines[..|lines| - 1]) + (if l.RuleLine? then [l.rule] else [])
  }

  /** The updates of the input, in order; each has at least two pages. */
  function UpdatesOf(lines: seq<string>): (r: seq<seq<int>>)
    ensures forall k :: 0 <= k < |r| ==> |r[k]| >= 2
  {
    if lines == [] then []
    else
      var l := ParseLine(lines[|lines| - 1]);
      UpdatesOf(lines[..|lines| - 1]) + (if l.UpdateLine? then [l.pages] else [])
  }

  ghost predicate AllValid(lines: seq<string>) {
    forall k :: 0 <= k < |lines| ==> !ParseLine(lines[k]).InvalidLine?
  }

  /** Reads the lines in order, appending rules and updates; an invalid line
      raises ValueError (None). */
  method ParseLines(lines: seq<string>) returns (r: Option<Input>)
    ensures r.None? <==> !AllValid(lines)
    ensures r.Some? ==> r.value == Input(RulesOf(lines), UpdatesOf(lines))
  {
    var rules, updates := [], [];
    for i := 0 to |lines|
      invariant AllValid(lines[..i])
      invariant rules == RulesOf(lines[..i]) && updates == UpdatesOf(lines[..i])
    {
      ParseStep(lines, i);
      var l := ParseLine(lines[i]);
      match l {
        case RuleLine(rule) =>
          rules := rules + [rule];
        case UpdateLine(pages) =>
          updates := updates + [pages];
        case BlankLine =>
        case InvalidLine =>
          return None;
      }
    }
    assert lines[..|lines|] == lines;
    return Some(Input(rules, updates));
  }

  lemma {:induction false} ParseStep(lines: seq<string>, i: nat)
    requires i < |lines|
    ensures var l := ParseLine(lines[i]);
            && RulesOf(lines[..i + 1]) == RulesOf(lines[..i]) + (if l.RuleLine? then [l.rule] else [])
            && UpdatesOf(lines[..i + 1]) == UpdatesOf(lines[..i]) + (if l.UpdateLine? then [l.pages] else [])
            && (AllValid(lines[..i + 1]) <==> AllValid(lines[..i]) && !l.InvalidLine?)
  {
    assert lines[..i + 1][..i] == lines[..i];
    assert lines[..i + 1][i] == lines[i];
  }

  /** Splitting a join of pieces without the separator gives the pieces back. */
  lemma {:induction false} SplitOfJoin(parts: seq<string>, c: char)
    requires |parts| >= 1 && forall k :: 0 <= k < |parts| ==> c !in parts[k]
    ensures Split(Join(parts, c), c) == parts
  {
    if |parts| > 1 {
      var s, p0, rest := Join(parts, c), parts[0], Join(parts[1..], c);
      assert s == p0 + [c] + rest;
      assert s[|p0|] == c && s[..|p0|] == p0;
      IndexOfFirst(s, c, |p0|);
      assert s[|p0| + 1..] == rest;
      SplitOfJoin(parts[1..], c);
    }
  }

  /** The decimal text of a natural number reads back as that number. */
  lemma {:induction false} ParseIntOfNat(n: nat)
    ensures ParseInt(NatToString(n)) == Some(n)
  {
    var s := NatToString(n);
    NatToStringLength(n);
    assert IsDigit(s[0]) && IsDigit(s[|s| - 1]);
    assert TrimLeft(s) == s;
    assert Trim(s) == s;
    ValueOfNatToString(n);
  }

  /** A minus sign before the decimal text of a natural reads as its negation. */
  lemma {:induction false} ParseIntOfNegative(n: nat)
    ensures ParseInt("-" + NatToString(n)) == Some(-(n as int))
  {
    var d := NatToString(n);
    var s := "-" + d;
    NatToStringLength(n);
    assert s[1..] == d;
    assert IsDigit(s[|s| - 1]);
    assert TrimLeft(s) == s;
    assert Trim(s) == s;
    ValueOfNatToString(n);
  }

  lemma {:induction false} NoSeparatorInNumber(n: nat, c: char)
    requires !IsDigit(c)
    ensures c !in NatToString(n)
  {
    var s := NatToString(n);
    assert forall i :: 0 <= i < |s| ==> s[i] != c;
  }

  /** A rule line `X|Y` reads as the rule whose predecessor is X and whose
      page is Y. */
  lemma {:induction false} RuleLineRoundTrip(x: nat, y: nat)
    ensures ParseLine(NatToString(x) + "|" + NatToString(y)) == RuleLine(PageOrderRule(x, y))
  {
    var a, b := NatToString(x), NatToString(y);
    var line := a + "|" + b;
    NatToStringLength(x);
    NatToStringLength(y);
    assert line[|a|] == '|';
    assert IsDigit(line[0]) && IsDigit(line[|line| - 1]);
    assert TrimLeft(line) == line;
    assert Trim(line) == line;
    NoSeparatorInNumber(x, '|');
    NoSeparatorInNumber(y, '|');
    assert Join([a, b], '|') == line;
    SplitOfJoin([a, b], '|');
    ParseIntOfNat(x);
    ParseIntOfNat(y);
  }

  // ------------------------------------------------------------- updates

  /** `ManualUpdate.mid`: the page in the middle position. */
  function Mid(pages: seq<int>): (r: int)
    requires |pages| > 0
    ensures r in pages
    ensures exists i :: 0 <= i < |pages| && pages[i] == r && (|pages| - 1 - i == i || |pages| - 1 - i == i - 1)
  {
    assert |pages| - 1 - |pages| / 2 == |pages| / 2 || |pages| - 1 - |pages| / 2 == |pages| / 2 - 1;
    pages[|pages| / 2]
  }

  /** Dropping as many pages from the front as from the back keeps the
      middle page. */
  lemma {:induction false} MidTrim(a: seq<int>, pages: seq<int>, b: seq<int>)
    requires |pages| > 0 && |a| == |b|
    ensures Mid(a + pages + b) == Mid(pages)
  {
    var w := a + pages + b;
    assert |w| / 2 == |a| + |pages| / 2;
    assert w[|a| + |pages| / 2] == pages[|pages| / 2];
  }

  /** The rules with page `page` whose two pages both occur in the update,
      in input order. */
  function ApplicableFor(rules: seq<Rule>, pages: seq<int>, page: int): seq<Rule> {
    if rules == [] then []
    else
      var r := rules[|rules| - 1];
      ApplicableFor(rules[..|rules| - 1], pages, page)
        + (if r.ref == page && r.ref in pages && r.predecessor in pages then [r] else [])
  }

  /** The applicable rules grouped by page; a page with none is absent. */
  function ApplicableMap(rules: seq<Rule>, pages: seq<int>): map<int, seq<Rule>> {
    map p | p in pages && ApplicableFor(rules, pages, p) != [] :: ApplicableFor(rules, pages, p)
  }

  /** `m` holds, for exactly the pages with applicable rules, those rules. */
  ghost predicate Grouped(m: map<int, seq<Rule>>, rules: seq<Rule>, pages: seq<int>) {
    (forall p :: p in m <==> p in pages && ApplicableFor(rules, pages, p) != [])
    && (forall p :: p in m ==> m[p] == ApplicableFor(rules, pages, p))
  }

  /** Appends a rule to the group of its page. */
  function AddToGroup(m: map<int, seq<Rule>>, rule: Rule): map<int, seq<Rule>> {
    m[rule.ref := (if rule.ref in m then m[rule.ref] else []) + [rule]]
  }

  /** Groups, in input order, the rules whose two pages occur in the update. */
  method Applicable(rules: seq<Rule>, pages: seq<int>) returns (m: map<int, seq<Rule>>)
    ensures m == ApplicableMap(rules, pages)
  {
    m := map[];
    for i := 0 to |rules|
      invariant Grouped(m, rules[..i], pages)
    {
      var rule := rules[i];
      GroupStep(m, rules, pages, i);
      if rule.ref in pages && rule.predecessor in pages {
        m := AddToGroup(m, rule);
      }
    }
    assert rules[..|rules|] == rules;
    SameGroups(m, rules, pages);
  }

  lemma {:induction false} GroupStep(m: map<int, seq<Rule>>, rules: seq<Rule>, pages: seq<int>, i: nat)
    requires i < |rules| && Grouped(m, rules[..i], pages)
    ensures var r := rules[i];
            Grouped(if r.ref in pages && r.predecessor in pages then AddToGroup(m, r) else m, rules[..i + 1], pages)
  {
    var r := rules[i];
    var applies := r.ref in pages && r.predecessor in pages;
    var m' := if applies then AddToGroup(m, r) else m;
    forall p
      ensures p in m' <==> p in pages && ApplicableFor(rules[..i + 1], pages, p) != []
      ensures p in m' ==> m'[p] == ApplicableFor(rules[..i + 1], pages, p)
    {
      ApplicableStep(rules, pages, i, p);
      var before, after := ApplicableFor(rules[..i], pages, p), ApplicableFor(rules[..i + 1], pages, p);
      if applies && p == r.ref {
        assert after == before + [r] && p in m' && p in pages;
        assert before == if p in m then m[p] else [];
      } else {
        assert after == before && (p in m' <==> p in m);
      }
    }
  }

  /** The grouping of all the rules is the map of applicable rules. */
  lemma {:induction false} SameGroups(m: map<int, seq<Rule>>, rules: seq<Rule>, pages: seq<int>)
    requires Grouped(m, rules, pages)
    ensures m == ApplicableMap(rules, pages)
  {
    var a := ApplicableMap(rules, pages);
    assert forall p :: p in m <==> p in a;
    assert forall p :: p in m ==> m[p] == a[p];
  }

  lemma {:induction false} ApplicableStep(rules: seq<Rule>, pages: seq<int>, i: nat, p: int)
    requires i < |rules|
    ensures ApplicableFor(rules[..i + 1], pages, p)
            == ApplicableFor(rules[..i], pages, p)
               + (if rules[i].ref == p && rules[i].ref in pages && rules[i].predecessor in pages then [rules[i]] else [])
  {
    assert rules[..i + 1][..i] == rules[..i];
  }

  /** A rule applies to a page exactly when it is one of the input rules,
      names that page, and both its pages occur in the update. */
  lemma {:induction false} ApplicableMeaning(rules: seq<Rule>, pages: seq<int>, page: int, r: Rule)
    ensures r in ApplicableFor(rules, pages, page)
            <==> r in rules && r.ref == page && r.ref in pages && r.predecessor in pages
  {
    if rules != [] {
      var q := rules[..|rules| - 1];
      assert rules == q + [rules[|rules| - 1]];
      ApplicableMeaning(q, pages, page, r);
    }
  }

  /** Every applicable predecessor of each page occurs at or before it. */
  ghost predicate Verified(pages: seq<int>, m: map<int, seq<Rule>>) {
    forall i, k :: 0 <= i < |pages| && pages[i] in m && 0 <= k < |m[pages[i]]|
      ==> m[pages[i]][k].predecessor in pages[..i + 1]
  }

  /** Every input rule whose two pages occur is respected by each
      occurrence of its page. */
  ghost predicate RulesRespected(rules: seq<Rule>, pages: seq<int>) {
    forall j, i :: 0 <= j < |rules| && 0 <= i < |pages| && rules[j].ref == pages[i] && rules[j].predecessor in pages
      ==> rules[j].predecessor in pages[..i + 1]
  }

  /** Walks the pages, adding each to the set of seen pages before checking
      that the predecessors of all its rules have been seen. */
  method VerifyUpdate(pages: seq<int>, m: map<int, seq<Rule>>) returns (ok: bool)
    ensures ok == Verified(pages, m)
  {
    var added: set<int> := {};
    for i := 0 to |pages|
      invariant forall x :: x in added <==> x in pages[..i]
      invariant forall j, k :: 0 <= j < i && pages[j] in m && 0 <= k < |m[pages[j]]|
                  ==> m[pages[j]][k].predecessor in pages[..j + 1]
    {
      var page := pages[i];
      assert pages[..i + 1] == pages[..i] + [page];
      added := added + {page};
      if page !in m {
        continue;
      }
      var fulfilled := PredecessorsAdded(m[page], added);
      if !fulfilled {
        return false;
      }
    }
    assert pages[..|pages|] == pages;
    return true;
  }

  method PredecessorsAdded(rs: seq<Rule>, added: set<int>) returns (ok: bool)
    ensures ok <==> forall k :: 0 <= k < |rs| ==> rs[k].predecessor in added
  {
    for k := 0 to |rs|
      invariant forall j :: 0 <= j < k ==> rs[j].predecessor in added
    {
      if rs[k].predecessor !in added {
        return false;
      }
    }
    return true;
  }

  /** With the map of applicable rules, the check accepts exactly the
      updates that respect every input rule whose two pages they print. */
  lemma {:induction false} VerifiedMeaning(rules: seq<Rule>, pages: seq<int>)
    ensures Verified(pages, ApplicableMap(rules, pages)) <==> RulesRespected(rules, pages)
  {
    var m := ApplicableMap(rules, pages);
    if Verified(pages, m) {
      forall j, i | 0 <= j < |rules| && 0 <= i < |pages| && rules[j].ref == pages[i] && rules[j].predecessor in pages
        ensures rules[j].predecessor in pages[..i + 1]
      {
        var r := rules[j];
        ApplicableMeaning(rules, pages, pages[i], r);
        var k := IndexOf(m[pages[i]], r);
        assert m[pages[i]][k].predecessor in pages[..i + 1];
      }
    }
    if RulesRespected(rules, pages) {
      forall i, k | 0 <= i < |pages| && pages[i] in m && 0 <= k < |m[pages[i]]|
        ensures m[pages[i]][k].predecessor in pages[..i + 1]
      {
        var r := m[pages[i]][k];
        ApplicableMeaning(rules, pages, pages[i], r);
        var j := IndexOf(rules, r);
        assert rules[j].ref == pages[i];
      }
    }
  }

  // ----------------------------------------------------------- reordering

  ghost predicate Distinct(s: seq<int>) {
    forall i, j :: 0 <= i < j < |s| ==> s[i] != s[j]
  }

  /** Each placed page comes after every applicable predecessor that the
      update prints. */
  ghost predicate Ordered(c: seq<int>, pages: seq<int>, m: map<int, seq<Rule>>) {
    forall i, k :: 0 <= i < |c| && c[i] in m && 0 <= k < |m[c[i]]| && m[c[i]][k].predecessor in pages
      ==> m[c[i]][k].predecessor in c[..i]
  }

  /** The invariant of the placed pages: distinct pages of the update,
      each after its predecessors. */
  ghost predicate Placement(c: seq<int>, pages: seq<int>, m: map<int, seq<Rule>>) {
    Distinct(c) && (forall i :: 0 <= i < |c| ==> c[i] in pages) && Ordered(c, pages, m)
  }

  /** A page waits for a predecessor the update prints and that is not
      placed yet. */
  ghost predicate Blocked(page: int, c: seq<int>, pages: seq<int>, m: map<int, seq<Rule>>) {
    page in m && exists k :: 0 <= k < |m[page]| && m[page][k].predecessor in pages && m[page][k].predecessor !in c
  }

  /** No unplaced page can be placed. */
  ghost predicate Stuck(c: seq<int>, pages: seq<int>, m: map<int, seq<Rule>>) {
    forall x :: x in pages && x !in c ==> Blocked(x, c, pages, m)
  }

  /** No rule names the same page twice. */
  ghost predicate NoSelfRule(m: map<int, seq<Rule>>) {
    forall p, k :: p in m && 0 <= k < |m[p]| ==> m[p][k].predecessor != p
  }

  /** An update the check accepts, with distinct pages and no `X|X` rule. */
  ghost predicate AlreadyOrdered(pages: seq<int>, m: map<int, seq<Rule>>) {
    Verified(pages, m) && Distinct(pages) && NoSelfRule(m)
  }

  /** No rule of `rs` waits for a printed predecessor that is not placed. */
  predicate Ready(rs: seq<Rule>, pages: seq<int>, c: seq<int>) {
    forall k :: 0 <= k < |rs| ==> (rs[k].predecessor in pages ==> rs[k].predecessor in c)
  }

  /** The rest of one sweep from position `i` of the update, with `c`
      placed so far: each unplaced page without rules, or whose printed
      predecessors are all placed, is appended in update order. */
  function SweepOnce(pages: seq<int>, m: map<int, seq<Rule>>, c: seq<int>, i: nat): (r: seq<int>)
    requires i <= |pages| && Placement(c, pages, m)
    ensures Placement(r, pages, m) && |c| <= |r| && r[..|c|] == c
    decreases |pages| - i
  {
    if i == |pages| then c
    else
      var page := pages[i];
      if page !in c && (page !in m || Ready(m[page], pages, c)) then
        Place(c, page, pages, m);
        var r := SweepOnce(pages, m, c + [page], i + 1);
        assert r[..|c|] == r[..|c| + 1][..|c|];
        r
      else SweepOnce(pages, m, c, i + 1)
  }

  /** The sweeps from the placement `c`, with pages still to place: sweep
      again while a sweep places something and some page is left. */
  function Sweeps(pages: seq<int>, m: map<int, seq<Rule>>, c: seq<int>): Reshuffled
    requires Placement(c, pages, m) && |c| < |pages|
    decreases |pages| - |c|
  {
    var c' := SweepOnce(pages, m, c, 0);
    if |c'| == |c| then CouldNotCorrect(c)
    else if |c'| < |pages| then Sweeps(pages, m, c')
    else CorrectedMid(c', Mid(c'))
  }

  /** The sweep passes a page it cannot place. */
  lemma {:induction false} SweepOnceSkips(pages: seq<int>, m: map<int, seq<Rule>>, c: seq<int>, i: nat)
    requires i < |pages| && Placement(c, pages, m)
    requires pages[i] in c || (pages[i] in m && !Ready(m[pages[i]], pages, c))
    ensures SweepOnce(pages, m, c, i) == SweepOnce(pages, m, c, i + 1)
  {
  }

  /** The sweep places a page that is not placed and waits for nothing. */
  lemma {:induction false} SweepOncePlaces(pages: seq<int>, m: map<int, seq<Rule>>, c: seq<int>, i: nat)
    requires i < |pages| && Placement(c, pages, m)
    requires pages[i] !in c && (pages[i] !in m || Ready(m[pages[i]], pages, c))
    ensures Placement(c + [pages[i]], pages, m)
    ensures SweepOnce(pages, m, c, i) == SweepOnce(pages, m, c + [pages[i]], i + 1)
  {
    Place(c, pages[i], pages, m);
  }

  /** A sweep that places nothing from position `i` on leaves every
      unplaced page from there waiting for a printed predecessor. */
  lemma {:induction false} SweepOnceStuck(pages: seq<int>, m: map<int, seq<Rule>>, c: seq<int>, i: nat)
    requires i <= |pages| && Placement(c, pages, m) && |SweepOnce(pages, m, c, i)| == |c|
    ensures forall j :: i <= j < |pages| && pages[j] !in c ==> Blocked(pages[j], c, pages, m)
    decreases |pages| - i
  {
    if i < |pages| {
      var page := pages[i];
      if page !in c && (page !in m || Ready(m[page], pages, c)) {
        assert false;
      } else {
        SweepOnceStuck(pages, m, c, i + 1);
      }
    }
  }

  /** Every unplaced page blocked is what `Stuck` says. */
  lemma {:induction false} SweepStuck(pages: seq<int>, m: map<int, seq<Rule>>, c: seq<int>)
    requires forall j :: 0 <= j < |pages| && pages[j] !in c ==> Blocked(pages[j], c, pages, m)
    ensures Stuck(c, pages, m)
  {
    forall x | x in pages && x !in c
      ensures Blocked(x, c, pages, m)
    {
      var j :| 0 <= j < |pages| && pages[j] == x;
    }
  }

  /** On an update already in order, the first sweep places every page
      where it stands. */
  lemma {:induction false} OrderedSweep(pages: seq<int>, m: map<int, seq<Rule>>, i: nat)
    requires AlreadyOrdered(pages, m) && i <= |pages| && Placement(pages[..i], pages, m)
    ensures SweepOnce(pages, m, pages[..i], i) == pages
    decreases |pages| - i
  {
    if i == |pages| {
      assert pages[..i] == pages;
    } else {
      var c := pages[..i];
      assert pages[i] !in c by {
        assert forall j :: 0 <= j < i ==> c[j] == pages[j] != pages[i];
      }
      if pages[i] in m {
        FirstSweepPlaces(pages, m, i);
      }
      SweepOncePlaces(pages, m, c, i);
      assert c + [pages[i]] == pages[..i + 1];
      OrderedSweep(pages, m, i + 1);
    }
  }

  /** What the sweeps end with: every page placed once, each after its
      printed predecessors, with the middle page; or a stuck placement. */
  lemma {:induction false} SweepsOutcome(pages: seq<int>, m: map<int, seq<Rule>>, c: seq<int>)
    requires Placement(c, pages, m) && |c| < |pages|
    ensures var r := Sweeps(pages, m, c);
      && (r.CorrectedMid? ==>
            |r.corrected| == |pages| && Distinct(r.corrected) && Distinct(pages)
            && (forall x :: x in pages <==> x in r.corrected)
            && Ordered(r.corrected, pages, m) && r.mid == Mid(r.corrected))
      && (r.CouldNotCorrect? ==> |r.placed| < |pages| && Placement(r.placed, pages, m) && Stuck(r.placed, pages, m))
    decreases |pages| - |c|
  {
    var c' := SweepOnce(pages, m, c, 0);
    if |c'| == |c| {
      SweepOnceStuck(pages, m, c, 0);
      SweepStuck(pages, m, c);
    } else if |c'| < |pages| {
      SweepsOutcome(pages, m, c');
    } else {
      PlacedAll(c', pages);
    }
  }

  /** On the update 1,2,3 with the single rule that 3 comes before 1, the first sweep
      places 2 and 3, the second places 1, and the middle page is 3. */
  lemma {:induction false} SweepsOn123()
    ensures var pages, m := [1, 2, 3], map[1 := [PageOrderRule(3, 1)]];
      Placement([], pages, m) && Sweeps(pages, m, []) == CorrectedMid([2, 3, 1], 3)
  {
    var pages: seq<int>, m: map<int, seq<Rule>> := [1, 2, 3], map[1 := [PageOrderRule(3, 1)]];
    FirstSweepOn123();
    SecondSweepOn123();
    assert Sweeps(pages, m, [2, 3]) == CorrectedMid([2, 3, 1], 3);
  }

  /** The first sweep over 1,2,3 under `3|1`: 1 waits for 3; 2 and 3 go in. */
  lemma {:induction false} FirstSweepOn123()
    ensures var pages, m := [1, 2, 3], map[1 := [PageOrderRule(3, 1)]];
      Placement([], pages, m) && SweepOnce(pages, m, [], 0) == [2, 3]
  {
    var pages: seq<int>, m: map<int, seq<Rule>> := [1, 2, 3], map[1 := [PageOrderRule(3, 1)]];
    PlacementsOn123();
    assert m[1][0].predecessor == 3 && 3 in pages;
    assert !Ready(m[1], pages, []);
    assert SweepOnce(pages, m, [2, 3], 2) == [2, 3];
    assert SweepOnce(pages, m, [2], 1) == [2, 3];
  }

  /** The placements the sweeps over 1,2,3 under `3|1` go through. */
  lemma {:induction false} PlacementsOn123()
    ensures var pages, m := [1, 2, 3], map[1 := [PageOrderRule(3, 1)]];
      Placement([2], pages, m) && Placement([2, 3], pages, m) && Placement([2, 3, 1], pages, m)
  {
    var pages: seq<int>, m: map<int, seq<Rule>> := [1, 2, 3], map[1 := [PageOrderRule(3, 1)]];
    assert [2, 3, 1][..2] == [2, 3];
  }

  /** The second sweep: 3 is placed now, so 1 goes in after it. */
  lemma {:induction false} SecondSweepOn123()
    ensures var pages, m := [1, 2, 3], map[1 := [PageOrderRule(3, 1)]];
      Placement([2, 3], pages, m) && SweepOnce(pages, m, [2, 3], 0) == [2, 3, 1]
  {
    var pages: seq<int>, m: map<int, seq<Rule>> := [1, 2, 3], map[1 := [PageOrderRule(3, 1)]];
    var c2, c3 := [2, 3], [2, 3, 1];
    PlacementsOn123();
    assert c2 + [1] == c3;
    assert Ready(m[1], pages, c2);
    assert SweepOnce(pages, m, c3, 1) == c3;
  }



  /** Sweeps until every page is placed or a sweep places nothing, which
      raises RuntimeError (CouldNotCorrect). */
  method ReshuffleUpdate(pages: seq<int>, m: map<int, seq<Rule>>) returns (r: Reshuffled)
    requires |pages| > 0
    ensures r.CorrectedMid? ==>
              |r.corrected| == |pages| && Distinct(r.corrected) && Distinct(pages)
              && (forall x :: x in pages <==> x in r.corrected)
              && Ordered(r.corrected, pages, m) && r.mid == Mid(r.corrected)
    ensures r.CouldNotCorrect? ==> |r.placed| < |pages| && Placement(r.placed, pages, m) && Stuck(r.placed, pages, m)
    ensures AlreadyOrdered(pages, m) ==> r == CorrectedMid(pages, Mid(pages))
    ensures Placement([], pages, m) && r == Sweeps(pages, m, [])
  {
    var corrected: seq<int> := [];
    var changed := true;
    while |corrected| < |pages| && changed
      invariant Placement(corrected, pages, m)
      invariant |corrected| <= |pages|
      invariant !changed ==> |corrected| < |pages| && Stuck(corrected, pages, m)
      invariant AlreadyOrdered(pages, m) ==> (corrected == [] && changed) || corrected == pages
      invariant changed && |corrected| < |pages| ==> Sweeps(pages, m, []) == Sweeps(pages, m, corrected)
      invariant changed && |corrected| == |pages| ==> Sweeps(pages, m, []) == CorrectedMid(corrected, Mid(corrected))
      invariant !changed ==> Sweeps(pages, m, []) == CouldNotCorrect(corrected)
      decreases |pages| - |corrected| + (if changed then 1 else 0)
    {
      ghost var c0 := corrected;
      corrected, changed := Sweep(pages, m, corrected);
      PlacedBound(corrected, pages);
      assert !changed ==> corrected == c0;
    }
    if !changed {
      return CouldNotCorrect(corrected);
    }
    PlacedAll(corrected, pages);
    return CorrectedMid(corrected, Mid(corrected));
  }

  /** One sweep over the update: places, in update order, each unplaced
      page without rules or whose printed predecessors are all placed. */
  method Sweep(pages: seq<int>, m: map<int, seq<Rule>>, c0: seq<int>) returns (c: seq<int>, changed: bool)
    requires Placement(c0, pages, m)
    ensures Placement(c, pages, m)
    ensures |c0| <= |c| && c[..|c0|] == c0
    ensures changed <==> |c| > |c0|
    ensures !changed ==> Stuck(c, pages, m)
    ensures c0 == [] && AlreadyOrdered(pages, m) ==> c == pages
    ensures c == SweepOnce(pages, m, c0, 0)
  {
    c, changed := c0, false;
    for i := 0 to |pages|
      invariant Placement(c, pages, m)
      invariant SweepOnce(pages, m, c, i) == SweepOnce(pages, m, c0, 0)
      invariant |c0| <= |c| && c[..|c0|] == c0
      invariant changed <==> |c| > |c0|
    {
      var page := pages[i];
      if page in c {
        SweepOnceSkips(pages, m, c, i);
        continue;
      }
      if page !in m {
        SweepOncePlaces(pages, m, c, i);
        c, changed := c + [page], true;
        continue;
      }
      var fulfilled := AllFulfilled(m[page], pages, c);
      if fulfilled {
        SweepOncePlaces(pages, m, c, i);
        c, changed := c + [page], true;
      } else {
        SweepOnceSkips(pages, m, c, i);
      }
    }
    if !changed {
      assert c == c0;
      SweepOnceStuck(pages, m, c0, 0);
      SweepStuck(pages, m, c0);
    }
    if c0 == [] && AlreadyOrdered(pages, m) {
      OrderedSweep(pages, m, 0);
    }
  }

  /** Whether no rule waits for a printed predecessor that is not placed. */
  method AllFulfilled(rs: seq<Rule>, pages: seq<int>, c: seq<int>) returns (all: bool)
    ensures all <==> forall k :: 0 <= k < |rs| ==> (rs[k].predecessor in pages ==> rs[k].predecessor in c)
    ensures all == Ready(rs, pages, c)
  {
    for k := 0 to |rs|
      invariant forall j :: 0 <= j < k ==> (rs[j].predecessor in pages ==> rs[j].predecessor in c)
    {
      if rs[k].predecessor in pages && rs[k].predecessor !in c {
        return false;
      }
    }
    return true;
  }

  /** Placing an unplaced page of the update whose printed predecessors
      are placed keeps the invariant. */
  lemma {:induction false} Place(c: seq<int>, page: int, pages: seq<int>, m: map<int, seq<Rule>>)
    requires Placement(c, pages, m) && page in pages && page !in c
    requires page in m ==> forall k :: 0 <= k < |m[page]| ==> (m[page][k].predecessor in pages ==> m[page][k].predecessor in c)
    ensures Placement(c + [page], pages, m)
  {
    var d := c + [page];
    forall i | 0 <= i < |c|
      ensures d[..i] == c[..i]
    {
    }
    assert d[..|c|] == c;
  }

  /** In the first sweep over an update that is already ordered, each page
      finds its predecessors among the pages before it. */
  lemma {:induction false} FirstSweepPlaces(pages: seq<int>, m: map<int, seq<Rule>>, i: nat)
    requires AlreadyOrdered(pages, m) && i < |pages| && pages[i] in m
    ensures forall k :: 0 <= k < |m[pages[i]]| ==> m[pages[i]][k].predecessor in pages[..i]
  {
    forall k | 0 <= k < |m[pages[i]]|
      ensures m[pages[i]][k].predecessor in pages[..i]
    {
      var x := m[pages[i]][k].predecessor;
      assert x in pages[..i + 1] && x != pages[i];
      assert pages[..i + 1] == pages[..i] + [pages[i]];
    }
  }

  // --------------------------------------------------------- cardinality

  ghost function Elements(s: seq<int>): set<int> {
    set x | x in s
  }

  lemma {:induction false} ElementsCard(s: seq<int>)
    ensures |Elements(s)| <= |s|
    ensures |Elements(s)| == |s| <==> Distinct(s)
  {
    if s != [] {
      var p, x := s[..|s| - 1], s[|s| - 1];
      assert s == p + [x];
      ElementsCard(p);
      assert Elements(s) == Elements(p) + {x};
      if x in p {
        assert Elements(s) == Elements(p);
        var j :| 0 <= j < |p| && p[j] == x;
        assert s[j] == s[|s| - 1];
      } else {
        assert Distinct(s) <==> Distinct(p);
      }
    }
  }

  /** A distinct sequence of elements of `b` is at most as long as `b` has
      elements, and lists all of them when it is as long. */
  lemma {:induction false} SubsetCard(s: seq<int>, b: set<int>)
    requires Distinct(s) && Elements(s) <= b
    ensures |s| <= |b|
    ensures |s| == |b| ==> Elements(s) == b
  {
    if s != [] {
      var p, x := s[..|s| - 1], s[|s| - 1];
      assert s == p + [x];
      assert x !in p by {
        assert forall j :: 0 <= j < |p| ==> p[j] == s[j] && s[j] != s[|s| - 1];
      }
      assert Elements(s) == Elements(p) + {x};
      assert Distinct(p);
      SubsetCard(p, b - {x});
    }
  }

  /** Distinct pages of the update are at most as many as its pages. */
  lemma {:induction false} PlacedBound(c: seq<int>, pages: seq<int>)
    requires Distinct(c) && forall i :: 0 <= i < |c| ==> c[i] in pages
    ensures |c| <= |pages|
  {
    ElementsCard(pages);
    SubsetCard(c, Elements(pages));
  }

  /** As many distinct placed pages as the update has pages: every page
      is placed, and the update has no duplicate. */
  lemma {:induction false} PlacedAll(c: seq<int>, pages: seq<int>)
    requires Distinct(c) && (forall i :: 0 <= i < |c| ==> c[i] in pages) && |c| >= |pages|
    ensures |c| == |pages| && Distinct(pages)
    ensures forall x :: x in pages <==> x in c
  {
    ElementsCard(pages);
    SubsetCard(c, Elements(pages));
    assert Elements(c) == Elements(pages);
    forall x | x in pages
      ensures x in c
    {
      assert x in Elements(pages);
    }
  }

  // --------------------------------------------------------------- cycles

  /** A rule of `m` makes `b` wait for `a`, which the update prints. */
  ghost predicate Edge(m: map<int, seq<Rule>>, pages: seq<int>, a: int, b: int) {
    a in pages && b in m && exists k :: 0 <= k < |m[b]| && m[b][k].predecessor == a
  }

  /** Each page of `cyc` waits for the one before it, the first for the last. */
  ghost predicate IsCycle(m: map<int, seq<Rule>>, pages: seq<int>, cyc: seq<int>) {
    |cyc| >= 1 && Edge(m, pages, cyc[|cyc| - 1], cyc[0])
    && forall j :: 0 <= j < |cyc| - 1 ==> Edge(m, pages, cyc[j], cyc[j + 1])
  }

  /** Pages on a cycle of rules can never all be placed, so an update
      printing a cycle cannot be corrected. */
  lemma {:induction false} CycleNotPlaced(c: seq<int>, pages: seq<int>, m: map<int, seq<Rule>>, cyc: seq<int>)
    requires Placement(c, pages, m) && IsCycle(m, pages, cyc)
    ensures exists j :: 0 <= j < |cyc| && cyc[j] in pages && cyc[j] !in c
  {
    var n := |cyc|;
    ChainOrder(c, pages, m, cyc, n - 1);
    EdgeOrder(c, pages, m, cyc[n - 1], cyc[0]);
    forall j | 0 <= j < n - 1
      ensures cyc[j] in pages
    {
      assert Edge(m, pages, cyc[j], cyc[j + 1]);
    }
    assert cyc[n - 1] in pages;
  }

  /** Along a placed edge the predecessor is placed first. */
  lemma {:induction false} EdgeOrder(c: seq<int>, pages: seq<int>, m: map<int, seq<Rule>>, a: int, b: int)
    requires Placement(c, pages, m) && Edge(m, pages, a, b)
    ensures a in c && b in c ==> IndexOf(c, a) < IndexOf(c, b)
  {
    if a in c && b in c {
      var q := IndexOf(c, b);
      var k :| 0 <= k < |m[b]| && m[b][k].predecessor == a;
      assert a in c[..q];
      var p :| 0 <= p < q && c[..q][p] == a;
      assert c[p] == a;
      IndexOfFirst(c, a, IndexOf(c, a));
      assert IndexOf(c, a) <= p;
    }
  }

  /** While the first pages of a cycle are placed, their positions grow
      along it. */
  lemma {:induction false} ChainOrder(c: seq<int>, pages: seq<int>, m: map<int, seq<Rule>>, cyc: seq<int>, j: nat)
    requires Placement(c, pages, m) && IsCycle(m, pages, cyc) && j < |cyc|
    ensures (forall i :: 0 <= i <= j ==> cyc[i] in c) ==> IndexOf(c, cyc[0]) + j <= IndexOf(c, cyc[j])
  {
    if j > 0 {
      ChainOrder(c, pages, m, cyc, j - 1);
      EdgeOrder(c, pages, m, cyc[j - 1], cyc[j]);
    }
  }
}
