// Counting the lines of files, and the difference of two files as added and deleted lines.

module LineStats {
  import opened Objects

  datatype LineKind = Code | Comment | Blank | Other

  datatype KindStats = KindStats(additions: int, deletions: int)

  // The kind a line was last seen with, and how often it was seen.
  datatype Line = Line(kind: LineKind, count: int)

  type Counts = map<string, Line>

  // A line as the scanner reports it.
  datatype Seen = Seen(text: string, kind: LineKind)

  // -------------------------------------------------------------------------
  // Sums over the lines of a map, in any order
  // -------------------------------------------------------------------------

  ghost function Sum(keys: set<string>, f: string -> int): int {
    if keys == {} then 0 else var k :| k in keys; f(k) + Sum(keys - {k}, f)
  }

  lemma {:induction false} SumTakes(keys: set<string>, f: string -> int, k: string)
    requires k in keys
    ensures Sum(keys, f) == f(k) + Sum(keys - {k}, f)
    decreases keys
  {
    var first :| first in keys && Sum(keys, f) == f(first) + Sum(keys - {first}, f);
    if first != k {
      SumTakes(keys - {first}, f, k);
      SumTakes(keys - {k}, f, first);
      assert keys - {first} - {k} == keys - {k} - {first};
    }
  }

  lemma {:induction false} SumSame(keys: set<string>, f: string -> int, g: string -> int)
    requires forall k :: k in keys ==> f(k) == g(k)
    ensures Sum(keys, f) == Sum(keys, g)
    decreases keys
  {
    if keys != {} {
      var k :| k in keys;
      SumTakes(keys, f, k);
      SumTakes(keys, g, k);
      SumSame(keys - {k}, f, g);
    }
  }

  lemma {:induction false} SumAdds(keys: set<string>, f: string -> int, g: string -> int, h: string -> int)
    requires forall k :: k in keys ==> f(k) == g(k) + h(k)
    ensures Sum(keys, f) == Sum(keys, g) + Sum(keys, h)
    decreases keys
  {
    if keys != {} {
      var k :| k in keys;
      SumTakes(keys, f, k);
      SumTakes(keys, g, k);
      SumTakes(keys, h, k);
      SumAdds(keys - {k}, f, g, h);
    }
  }

  // The size of a multiset is the sum of its counts.
  lemma {:induction false} SumIsSize(keys: set<string>, m: multiset<string>)
    requires forall k :: k in m ==> k in keys
    ensures Sum(keys, (k: string) => m[k]) == |m|
    decreases keys
  {
    var f := (k: string) => m[k];
    if keys == {} {
      assert m == multiset{};
    } else {
      var k :| k in keys;
      var rest := m[k := 0];
      SumTakes(keys, f, k);
      SumIsSize(keys - {k}, rest);
      SumSame(keys - {k}, f, (k: string) => rest[k]);
    }
  }

  // -------------------------------------------------------------------------
  // What the counters hold
  // -------------------------------------------------------------------------

  function Added(c: Counts, s: Seen): Counts {
    c[s.text := Line(s.kind, (if s.text in c then c[s.text].count else 0) + 1)]
  }

  function CountsOf(lines: seq<Seen>): Counts {
    if lines == [] then map[] else Added(CountsOf(lines[..|lines| - 1]), lines[|lines| - 1])
  }

  function Texts(lines: seq<Seen>): multiset<string> {
    if lines == [] then multiset{} else Texts(lines[..|lines| - 1]) + multiset{lines[|lines| - 1].text}
  }

  // A counter for each line of the file, holding how often it occurs.
  lemma {:induction false} CountsAreTexts(lines: seq<Seen>)
    ensures Counted(CountsOf(lines), Texts(lines))
  {
    if lines != [] {
      CountsAreTexts(lines[..|lines| - 1]);
    }
  }

  // What subtracting the counters of one file from those of another leaves.
  function Difference(dst: Counts, src: Counts): Counts {
    map l | l in dst.Keys + src.Keys ::
      if l !in dst then Line(src[l].kind, -src[l].count)
      else if l in src then Line(dst[l].kind, dst[l].count - src[l].count)
      else dst[l]
  }

  // One line taken off.
  function Without(c: Counts, l: string, line: Line): Counts {
    c[l := if l in c then Line(c[l].kind, c[l].count - line.count) else Line(line.kind, -line.count)]
  }

  // What is left after some lines of src were taken off.
  function DifferenceOn(dst: Counts, src: Counts, lines: set<string>): Counts
    requires lines <= src.Keys
  {
    Difference(dst, map l | l in lines :: src[l])
  }

  lemma DifferenceOfNone(dst: Counts, src: Counts)
    ensures DifferenceOn(dst, src, {}) == dst
  {}

  lemma DifferenceOfAll(dst: Counts, src: Counts)
    ensures DifferenceOn(dst, src, src.Keys) == Difference(dst, src)
  {
    assert (map l | l in src.Keys :: src[l]) == src;
  }

  lemma DifferenceOnNext(dst: Counts, src: Counts, lines: set<string>, l: string)
    requires lines <= src.Keys && l in src && l !in lines
    ensures DifferenceOn(dst, src, lines + {l}) == Without(DifferenceOn(dst, src, lines), l, src[l])
  {}

  function Plus(n: int): int {
    if n > 0 then n else 0
  }

  // The lines of one kind, or of all kinds.
  predicate Chosen(kind: Option<LineKind>, line: Line) {
    kind.None? || kind.value == line.kind
  }

  function Up(c: Counts, kind: Option<LineKind>): string -> int {
    (l: string) => if l in c && Chosen(kind, c[l]) then Plus(c[l].count) else 0
  }

  function Down(c: Counts, kind: Option<LineKind>): string -> int {
    (l: string) => if l in c && Chosen(kind, c[l]) then Plus(-c[l].count) else 0
  }

  ghost function StatsOf(c: Counts, kind: Option<LineKind>): KindStats {
    KindStats(Sum(c.Keys, Up(c, kind)), Sum(c.Keys, Down(c, kind)))
  }

  function Minus(k: KindStats): int {
    k.additions - k.deletions
  }

  function Swapped(k: KindStats): KindStats {
    KindStats(k.deletions, k.additions)
  }

  // A counter for each element, holding how often it occurs.
  ghost predicate Counted(c: Counts, m: multiset<string>) {
    (forall l :: l in c <==> l in m) && forall l :: l in c ==> c[l].count == m[l]
  }

  lemma DifferenceAt(d: Counts, s: Counts, a: multiset<string>, b: multiset<string>, l: string)
    requires Counted(d, a) && Counted(s, b)
    ensures Up(Difference(d, s), None)(l) == (a - b)[l] && Down(Difference(d, s), None)(l) == (b - a)[l]
    ensures l in a - b || l in b - a ==> l in Difference(d, s).Keys
  {
    var c := Difference(d, s);
    assert l in c <==> l in d || l in s;
    assert l in d <==> l in a;
    assert l in s <==> l in b;
  }

  lemma DifferenceSums(d: Counts, s: Counts, a: multiset<string>, b: multiset<string>)
    requires Counted(d, a) && Counted(s, b)
    ensures StatsOf(Difference(d, s), None) == KindStats(|a - b|, |b - a|)
  {
    var c := Difference(d, s);
    var more, fewer := a - b, b - a;
    forall l ensures Up(c, None)(l) == more[l] && Down(c, None)(l) == fewer[l]
    {
      DifferenceAt(d, s, a, b, l);
    }
    forall l | l in more || l in fewer ensures l in c.Keys {
      DifferenceAt(d, s, a, b, l);
    }
    SumSame(c.Keys, Up(c, None), (l: string) => more[l]);
    SumSame(c.Keys, Down(c, None), (l: string) => fewer[l]);
    SumIsSize(c.Keys, more);
    SumIsSize(c.Keys, fewer);
  }

  // The additions of a modified file are the lines of the new version that are not in the old one, as
  // multisets, and the deletions are those of the old one that are not in the new one.
  lemma TotalIsMultisetDifference(dst: seq<Seen>, src: seq<Seen>)
    ensures StatsOf(Difference(CountsOf(dst), CountsOf(src)), None)
            == KindStats(|Texts(dst) - Texts(src)|, |Texts(src) - Texts(dst)|)
  {
    CountsAreTexts(dst);
    CountsAreTexts(src);
    DifferenceSums(CountsOf(dst), CountsOf(src), Texts(dst), Texts(src));
  }

  // What a file grows by is what is added less what is deleted, and the other way round swaps them.
  lemma TotalBalances(dst: seq<Seen>, src: seq<Seen>)
    ensures Minus(StatsOf(Difference(CountsOf(dst), CountsOf(src)), None)) == |dst| - |src|
    ensures StatsOf(Difference(CountsOf(src), CountsOf(dst)), None)
            == Swapped(StatsOf(Difference(CountsOf(dst), CountsOf(src)), None))
  {
    TotalIsMultisetDifference(dst, src);
    TotalIsMultisetDifference(src, dst);
    TextsSize(dst);
    TextsSize(src);
    SharedCancels(Texts(dst), Texts(src));
  }

  lemma SharedCancels(a: multiset<string>, b: multiset<string>)
    ensures |a - b| - |b - a| == |a| - |b|
  {
    var both := a * b;
    assert a == (a - b) + both;
    assert b == (b - a) + both;
  }

  lemma {:induction false} TextsSize(lines: seq<Seen>)
    ensures |Texts(lines)| == |lines|
  {
    if lines != [] {
      TextsSize(lines[..|lines| - 1]);
    }
  }

  lemma KindsAddUp(keys: set<string>, all: string -> int, code: string -> int, comment: string -> int, blank: string -> int,
                   other: string -> int)
    requires forall k :: k in keys ==> all(k) == code(k) + comment(k) + blank(k) + other(k)
    ensures Sum(keys, all) == Sum(keys, code) + Sum(keys, comment) + Sum(keys, blank) + Sum(keys, other)
  {
    var two, three := (k: string) => code(k) + comment(k), (k: string) => code(k) + comment(k) + blank(k);
    SumAdds(keys, two, code, comment);
    SumAdds(keys, three, two, blank);
    SumAdds(keys, all, three, other);
  }

  function PlusStats(a: KindStats, b: KindStats): KindStats {
    KindStats(a.additions + b.additions, a.deletions + b.deletions)
  }

  // Every line has one kind, so the kinds add up to the total.
  lemma TotalIsSumOfKinds(c: Counts)
    ensures StatsOf(c, None)
            == PlusStats(PlusStats(PlusStats(StatsOf(c, Some(Code)), StatsOf(c, Some(Comment))), StatsOf(c, Some(Blank))),
                         StatsOf(c, Some(Other)))
  {
    KindsAddUp(c.Keys, Up(c, None), Up(c, Some(Code)), Up(c, Some(Comment)), Up(c, Some(Blank)), Up(c, Some(Other)));
    KindsAddUp(c.Keys, Down(c, None), Down(c, Some(Code)), Down(c, Some(Comment)), Down(c, Some(Blank)), Down(c, Some(Other)));
  }

  // -------------------------------------------------------------------------
  // Files and commits
  // -------------------------------------------------------------------------

  datatype FileResult = FileResult(code: KindStats, comment: KindStats, blank: KindStats, other: KindStats, total: KindStats)

  ghost function ResultOf(c: Counts): FileResult {
    FileResult(StatsOf(c, Some(Code)), StatsOf(c, Some(Comment)), StatsOf(c, Some(Blank)), StatsOf(c, Some(Other)),
               StatsOf(c, None))
  }

  predicate AddsUp(r: FileResult) {
    r.total == PlusStats(PlusStats(PlusStats(r.code, r.comment), r.blank), r.other)
  }

  lemma ResultsAddUp(c: Counts)
    ensures AddsUp(ResultOf(c))
  {
    TotalIsSumOfKinds(c);
  }

  // What a commit did to a file. A version of it may be one that is left out, or a binary.
  datatype Version = Ignored | Binary | Text(lines: seq<Seen>)

  datatype Change = Insert(to: Version) | Delete(from: Version) | Modify(from: Version, to: Version)

  function LinesOf(v: Version): seq<Seen> {
    if v.Text? then v.lines else []
  }

  predicate IsIgnored(ch: Change) {
    match ch case Insert(v) => v.Ignored? case Delete(v) => v.Ignored? case Modify(a, b) => a.Ignored? || b.Ignored?
  }

  // The counters of a change: a deleted file is counted like an inserted one.
  function CountsOfChange(ch: Change): Counts {
    match ch
    case Insert(v) => CountsOf(LinesOf(v))
    case Delete(v) => CountsOf(LinesOf(v))
    case Modify(a, b) => Difference(CountsOf(LinesOf(b)), CountsOf(LinesOf(a)))
  }

  // The lines of an inserted file are additions. So are, in the code, those of a deleted one.
  lemma WholeFilesAreAdditions(ch: Change)
    requires !ch.Modify?
    ensures var lines := LinesOf(if ch.Insert? then ch.to else ch.from);
            ResultOf(CountsOfChange(ch)).total == KindStats(|lines|, 0)
  {
    var lines := LinesOf(if ch.Insert? then ch.to else ch.from);
    TotalIsMultisetDifference(lines, []);
    assert Difference(CountsOf(lines), CountsOf([])) == CountsOf(lines);
    assert Texts(lines) - Texts([]) == Texts(lines) && Texts([]) - Texts(lines) == multiset{};
    TextsSize(lines);
  }

  function Growth(ch: Change): int {
    match ch
    case Insert(v) => |LinesOf(v)|
    case Delete(v) => -|LinesOf(v)|
    case Modify(a, b) => |LinesOf(b)| - |LinesOf(a)|
  }

  // Additions less deletions are what the file grew by, exactly unless lines were deleted with the file.
  lemma GrowthIsCountedIff(ch: Change)
    ensures Minus(ResultOf(CountsOfChange(ch)).total) == Growth(ch) <==> !(ch.Delete? && LinesOf(ch.from) != [])
  {
    if ch.Modify? {
      TotalBalances(LinesOf(ch.to), LinesOf(ch.from));
    } else {
      WholeFilesAreAdditions(ch);
    }
  }

  datatype CommitResult = CommitResult(files: nat, stats: FileResult)

  const ZERO: KindStats := KindStats(0, 0)

  function PlusResult(a: FileResult, b: FileResult): FileResult {
    FileResult(PlusStats(a.code, b.code), PlusStats(a.comment, b.comment), PlusStats(a.blank, b.blank),
               PlusStats(a.other, b.other), PlusStats(a.total, b.total))
  }

  function Aggregate(rs: seq<FileResult>): FileResult {
    if rs == [] then FileResult(ZERO, ZERO, ZERO, ZERO, ZERO)
    else PlusResult(Aggregate(rs[..|rs| - 1]), rs[|rs| - 1])
  }

  // The kinds of a commit add up if those of its files do.
  lemma {:induction false} AggregateAddsUp(rs: seq<FileResult>)
    requires forall r :: r in rs ==> AddsUp(r)
    ensures AddsUp(Aggregate(rs))
  {
    if rs != [] {
      AggregateAddsUp(rs[..|rs| - 1]);
      assert AddsUp(rs[|rs| - 1]);
    }
  }

  // One number of each file, added up.
  function TotalOf(rs: seq<FileResult>, number: FileResult -> int): int {
    if rs == [] then 0 else number(rs[0]) + TotalOf(rs[1..], number)
  }

  lemma {:induction false} TotalOfMore(rs: seq<FileResult>, r: FileResult, number: FileResult -> int)
    ensures TotalOf(rs + [r], number) == TotalOf(rs, number) + number(r)
  {
    if rs == [] {
      assert rs + [r] == [r] && [r][1..] == [];
    } else {
      TotalOfMore(rs[1..], r, number);
      assert (rs + [r])[1..] == rs[1..] + [r];
    }
  }

  // The number picks the same place from a sum as from what is added.
  ghost predicate Additive(number: FileResult -> int) {
    forall a, b :: number(PlusResult(a, b)) == number(a) + number(b)
  }

  lemma {:induction false} AggregateTotals(rs: seq<FileResult>, number: FileResult -> int)
    requires Additive(number) && number(FileResult(ZERO, ZERO, ZERO, ZERO, ZERO)) == 0
    ensures number(Aggregate(rs)) == TotalOf(rs, number)
  {
    if rs != [] {
      var front, last := rs[..|rs| - 1], rs[|rs| - 1];
      AggregateTotals(front, number);
      TotalOfMore(front, last, number);
      assert rs == front + [last];
    }
  }

  ghost predicate AreTotals(rs: seq<FileResult>, s: FileResult) {
    && s.code.additions == TotalOf(rs, (r: FileResult) => r.code.additions)
    && s.code.deletions == TotalOf(rs, (r: FileResult) => r.code.deletions)
    && s.comment.additions == TotalOf(rs, (r: FileResult) => r.comment.additions)
    && s.comment.deletions == TotalOf(rs, (r: FileResult) => r.comment.deletions)
    && s.blank.additions == TotalOf(rs, (r: FileResult) => r.blank.additions)
    && s.blank.deletions == TotalOf(rs, (r: FileResult) => r.blank.deletions)
    && s.other.additions == TotalOf(rs, (r: FileResult) => r.other.additions)
    && s.other.deletions == TotalOf(rs, (r: FileResult) => r.other.deletions)
    && s.total.additions == TotalOf(rs, (r: FileResult) => r.total.additions)
    && s.total.deletions == TotalOf(rs, (r: FileResult) => r.total.deletions)
  }

  // Each of the ten numbers of a commit is the sum of that number over its files.
  lemma AggregateIsSum(rs: seq<FileResult>)
    ensures AreTotals(rs, Aggregate(rs))
  {
    AggregateTotals(rs, (r: FileResult) => r.code.additions);
    AggregateTotals(rs, (r: FileResult) => r.code.deletions);
    AggregateTotals(rs, (r: FileResult) => r.comment.additions);
    AggregateTotals(rs, (r: FileResult) => r.comment.deletions);
    AggregateTotals(rs, (r: FileResult) => r.blank.additions);
    AggregateTotals(rs, (r: FileResult) => r.blank.deletions);
    AggregateTotals(rs, (r: FileResult) => r.other.additions);
    AggregateTotals(rs, (r: FileResult) => r.other.deletions);
    AggregateTotals(rs, (r: FileResult) => r.total.additions);
    AggregateTotals(rs, (r: FileResult) => r.total.deletions);
  }

  // A part of the lines, in any order.
  ghost function StatsOn(c: Counts, kind: Option<LineKind>, lines: set<string>): KindStats {
    KindStats(Sum(lines, Up(c, kind)), Sum(lines, Down(c, kind)))
  }

  ghost function ResultOn(c: Counts, lines: set<string>): FileResult {
    FileResult(StatsOn(c, Some(Code), lines), StatsOn(c, Some(Comment), lines), StatsOn(c, Some(Blank), lines),
               StatsOn(c, Some(Other), lines), StatsOn(c, None, lines))
  }

  // One more line.
  function FilledStats(k: KindStats, kind: Option<LineKind>, line: Line): KindStats {
    if Chosen(kind, line) then PlusStats(k, KindStats(Plus(line.count), Plus(-line.count))) else k
  }

  function FilledResult(r: FileResult, line: Line): FileResult {
    FileResult(FilledStats(r.code, Some(Code), line), FilledStats(r.comment, Some(Comment), line),
               FilledStats(r.blank, Some(Blank), line), FilledStats(r.other, Some(Other), line),
               FilledStats(r.total, None, line))
  }

  lemma StatsOnNext(c: Counts, kind: Option<LineKind>, lines: set<string>, l: string)
    requires l in c && l !in lines
    ensures StatsOn(c, kind, lines + {l})
            == FilledStats(StatsOn(c, kind, lines), kind, c[l])
  {
    SumTakes(lines + {l}, Up(c, kind), l);
    SumTakes(lines + {l}, Down(c, kind), l);
    assert lines + {l} - {l} == lines;
  }

  // The lines filled in one after the other, in any order.
  ghost function Tally(c: Counts, lines: set<string>): FileResult
    requires lines <= c.Keys
  {
    if lines == {} then FileResult(ZERO, ZERO, ZERO, ZERO, ZERO)
    else var l :| l in lines; FilledResult(Tally(c, lines - {l}), c[l])
  }

  lemma ResultOnNext(c: Counts, done: set<string>, l: string)
    requires l in c && l !in done
    ensures ResultOn(c, done + {l}) == FilledResult(ResultOn(c, done), c[l])
  {
    StatsOnNext(c, Some(Code), done, l);
    StatsOnNext(c, Some(Comment), done, l);
    StatsOnNext(c, Some(Blank), done, l);
    StatsOnNext(c, Some(Other), done, l);
    StatsOnNext(c, None, done, l);
  }

  lemma {:induction false} TallyIsResult(c: Counts, lines: set<string>)
    requires lines <= c.Keys
    ensures Tally(c, lines) == ResultOn(c, lines)
    decreases lines
  {
    if lines != {} {
      var l :| l in lines && Tally(c, lines) == FilledResult(Tally(c, lines - {l}), c[l]);
      var done := lines - {l};
      assert done + {l} == lines && l !in done;
      TallyIsResult(c, done);
      ResultOnNext(c, done, l);
    }
  }

  lemma TallyNext(c: Counts, done: set<string>, l: string)
    requires l in c && l !in done && done <= c.Keys
    ensures Tally(c, done + {l}) == FilledResult(Tally(c, done), c[l])
  {
    TallyIsResult(c, done);
    TallyIsResult(c, done + {l});
    ResultOnNext(c, done, l);
  }

  lemma TallyOfAll(c: Counts)
    ensures Tally(c, c.Keys) == ResultOf(c)
  {
    TallyIsResult(c, c.Keys);
  }
}
