// Under which kind the lines of a change are counted, said of the lines as the scanner reports them.

module LineKinds {
  import opened Objects
  import opened LineStats

  function Occurrences(lines: seq<Seen>, text: string): nat {
    |set i | 0 <= i < |lines| && lines[i].text == text|
  }

  ghost predicate LastAt(lines: seq<Seen>, text: string, j: int) {
    0 <= j < |lines| && lines[j].text == text && forall k :: j < k < |lines| ==> lines[k].text != text
  }

  // The kind the text was last seen with.
  ghost predicate LastSeenAs(lines: seq<Seen>, text: string, kind: LineKind) {
    exists j :: LastAt(lines, text, j) && lines[j].kind == kind
  }

  ghost predicate Occurs(lines: seq<Seen>, text: string) {
    exists i :: 0 <= i < |lines| && lines[i].text == text
  }

  // A line of a modified file goes by the new version if it is there, and by the old one otherwise.
  ghost predicate GoesUnder(to: seq<Seen>, from: seq<Seen>, text: string, kind: LineKind) {
    if Occurs(to, text) then LastSeenAs(to, text, kind) else LastSeenAs(from, text, kind)
  }

  // -------------------------------------------------------------------------
  // What the counters hold
  // -------------------------------------------------------------------------

  lemma OneMoreLine(lines: seq<Seen>, s: Seen, text: string)
    ensures Occurrences(lines + [s], text) == Occurrences(lines, text) + if s.text == text then 1 else 0
  {
    var all := lines + [s];
    var before, after := set i | 0 <= i < |lines| && lines[i].text == text, set i | 0 <= i < |all| && all[i].text == text;
    if s.text == text {
      assert after == before + {|lines|};
    } else {
      assert after == before;
    }
  }

  lemma LastOfMore(lines: seq<Seen>, s: Seen, text: string, kind: LineKind)
    ensures LastSeenAs(lines + [s], text, kind) <==> if s.text == text then kind == s.kind else LastSeenAs(lines, text, kind)
  {
    var all := lines + [s];
    if s.text == text {
      assert LastAt(all, text, |lines|);
      if LastSeenAs(all, text, kind) {
        var j :| LastAt(all, text, j) && all[j].kind == kind;
        assert j == |lines|;
      }
    } else {
      if LastSeenAs(all, text, kind) {
        var j :| LastAt(all, text, j) && all[j].kind == kind;
        assert forall k :: 0 <= k < |lines| ==> lines[k] == all[k];
        assert LastAt(lines, text, j);
      }
      if LastSeenAs(lines, text, kind) {
        var j :| LastAt(lines, text, j) && lines[j].kind == kind;
        assert LastAt(all, text, j);
      }
    }
  }

  // A text has a counter if it occurs, with how often it does and the kind it was last seen with.
  lemma {:induction false} CounterOf(lines: seq<Seen>, text: string)
    ensures text in CountsOf(lines) <==> Occurs(lines, text)
    ensures text in CountsOf(lines) ==> CountsOf(lines)[text].count == Occurrences(lines, text)
    ensures text in CountsOf(lines) ==> forall kind :: LastSeenAs(lines, text, kind) <==> kind == CountsOf(lines)[text].kind
    ensures text !in CountsOf(lines) ==> Occurrences(lines, text) == 0
  {
    if lines != [] {
      var front, last := lines[..|lines| - 1], lines[|lines| - 1];
      assert lines == front + [last];
      CounterOf(front, text);
      OneMoreLine(front, last, text);
      forall kind {
        LastOfMore(front, last, text, kind);
      }
    }
  }

  // -------------------------------------------------------------------------
  // The texts of one kind
  // -------------------------------------------------------------------------

  // The texts of these lines that are chosen.
  ghost function Pick(lines: seq<Seen>, chosen: string -> bool): multiset<string> {
    if lines == [] then multiset{}
    else
      var last := lines[|lines| - 1].text;
      Pick(lines[..|lines| - 1], chosen) + if chosen(last) then multiset{last} else multiset{}
  }

  lemma {:induction false} PickCounts(lines: seq<Seen>, chosen: string -> bool, text: string)
    ensures Pick(lines, chosen)[text] == if chosen(text) then Occurrences(lines, text) else 0
  {
    if lines != [] {
      var front, last := lines[..|lines| - 1], lines[|lines| - 1];
      assert lines == front + [last];
      PickCounts(front, chosen, text);
      OneMoreLine(front, last, text);
    }
  }

  lemma {:induction false} PickSize(lines: seq<Seen>, chosen: string -> bool)
    ensures |Pick(lines, chosen)| == |Picked(lines, chosen)|
  {
    if lines != [] {
      PickSize(lines[..|lines| - 1], chosen);
      PickedNext(lines, chosen);
    }
  }

  ghost function Picked(lines: seq<Seen>, chosen: string -> bool): set<int> {
    set i | 0 <= i < |lines| && chosen(lines[i].text)
  }

  lemma PickedNext(lines: seq<Seen>, chosen: string -> bool)
    requires lines != []
    ensures var n := |lines| - 1;
            |Picked(lines, chosen)| == |Picked(lines[..n], chosen)| + if chosen(lines[n].text) then 1 else 0
  {
    var n := |lines| - 1;
    var before := Picked(lines[..n], chosen);
    assert Picked(lines, chosen) == before + (if chosen(lines[n].text) then {n} else {});
    assert n !in before;
  }

  // -------------------------------------------------------------------------
  // Additions and deletions by kind
  // -------------------------------------------------------------------------

  ghost function Under(to: seq<Seen>, from: seq<Seen>, kind: LineKind): string -> bool {
    text => GoesUnder(to, from, text, kind)
  }

  // What the new version has more of a text, and the old one.
  lemma SurplusAt(to: seq<Seen>, from: seq<Seen>, kind: LineKind, text: string)
    ensures var c, chosen := Difference(CountsOf(to), CountsOf(from)), Under(to, from, kind);
            && Up(c, Some(kind))(text) == (Pick(to, chosen) - Pick(from, chosen))[text]
            && Down(c, Some(kind))(text) == (Pick(from, chosen) - Pick(to, chosen))[text]
  {
    var c, chosen := Difference(CountsOf(to), CountsOf(from)), Under(to, from, kind);
    DifferenceOf(to, from, kind, text);
    UpAndDown(c, kind, text);
    PickCounts(to, chosen, text);
    PickCounts(from, chosen, text);
    MinusAt(Pick(to, chosen), Pick(from, chosen), text);
    MinusAt(Pick(from, chosen), Pick(to, chosen), text);
  }

  lemma UpAndDown(c: Counts, kind: LineKind, text: string)
    ensures Up(c, Some(kind))(text) == if text in c && Chosen(Some(kind), c[text]) then Plus(c[text].count) else 0
    ensures Down(c, Some(kind))(text) == if text in c && Chosen(Some(kind), c[text]) then Plus(-c[text].count) else 0
  {}

  lemma MinusAt(a: multiset<string>, b: multiset<string>, text: string)
    ensures (a - b)[text] == Plus(a[text] as int - b[text] as int)
  {}

  // The counter of a text in the difference.
  lemma DifferenceOf(to: seq<Seen>, from: seq<Seen>, kind: LineKind, text: string)
    ensures var c := Difference(CountsOf(to), CountsOf(from));
            if text in c then
              && c[text].count == Occurrences(to, text) - Occurrences(from, text)
              && (Chosen(Some(kind), c[text]) <==> GoesUnder(to, from, text, kind))
            else Occurrences(to, text) == 0 && Occurrences(from, text) == 0
  {
    CounterOf(to, text);
    CounterOf(from, text);
  }

  lemma SurplusIsKey(to: seq<Seen>, from: seq<Seen>, chosen: string -> bool, text: string)
    requires text in Pick(to, chosen) || text in Pick(from, chosen)
    ensures text in Difference(CountsOf(to), CountsOf(from))
  {
    CounterOf(to, text);
    CounterOf(from, text);
    PickCounts(to, chosen, text);
    PickCounts(from, chosen, text);
  }

  lemma KindIsSurplus(to: seq<Seen>, from: seq<Seen>, kind: LineKind)
    ensures var chosen := Under(to, from, kind);
            StatsOf(Difference(CountsOf(to), CountsOf(from)), Some(kind))
            == KindStats(|Pick(to, chosen) - Pick(from, chosen)|, |Pick(from, chosen) - Pick(to, chosen)|)
  {
    var c, chosen := Difference(CountsOf(to), CountsOf(from)), Under(to, from, kind);
    var more, fewer := Pick(to, chosen) - Pick(from, chosen), Pick(from, chosen) - Pick(to, chosen);
    forall text ensures Up(c, Some(kind))(text) == more[text] && Down(c, Some(kind))(text) == fewer[text] {
      SurplusAt(to, from, kind, text);
    }
    forall text | text in more || text in fewer ensures text in c.Keys {
      SurplusIsKey(to, from, chosen, text);
    }
    SumSame(c.Keys, Up(c, Some(kind)), (l: string) => more[l]);
    SumSame(c.Keys, Down(c, Some(kind)), (l: string) => fewer[l]);
    SumIsSize(c.Keys, more);
    SumIsSize(c.Keys, fewer);
  }

  // These numbers are those of the texts that go under the kind: added are those the new version has
  // more of, deleted those the old one has more of, each as often.
  ghost predicate CountedUnder(to: seq<Seen>, from: seq<Seen>, kind: LineKind, k: KindStats) {
    exists more: multiset<string>, fewer: multiset<string> ::
      && Surplus(to, from, kind, more, fewer)
      && k.additions == |more| && k.deletions == |fewer|
  }

  ghost predicate Surplus(to: seq<Seen>, from: seq<Seen>, kind: LineKind, more: multiset<string>, fewer: multiset<string>) {
    forall text ::
      && more[text] == Plus(Excess(to, from, kind, text))
      && fewer[text] == Plus(-Excess(to, from, kind, text))
  }

  // How often the new version has the text more than the old one, if it goes under the kind.
  ghost function Excess(to: seq<Seen>, from: seq<Seen>, kind: LineKind, text: string): int {
    if GoesUnder(to, from, text, kind) then Occurrences(to, text) - Occurrences(from, text) else 0
  }

  lemma KindIsCounted(to: seq<Seen>, from: seq<Seen>, kind: LineKind)
    ensures CountedUnder(to, from, kind, StatsOf(Difference(CountsOf(to), CountsOf(from)), Some(kind)))
  {
    var chosen := Under(to, from, kind);
    var more, fewer := Pick(to, chosen) - Pick(from, chosen), Pick(from, chosen) - Pick(to, chosen);
    KindIsSurplus(to, from, kind);
    forall text ensures more[text] == Plus(Excess(to, from, kind, text)) && fewer[text] == Plus(-Excess(to, from, kind, text)) {
      PickCounts(to, chosen, text);
      PickCounts(from, chosen, text);
      MinusAt(Pick(to, chosen), Pick(from, chosen), text);
      MinusAt(Pick(from, chosen), Pick(to, chosen), text);
    }
    assert Surplus(to, from, kind, more, fewer);
  }

  // The lines of a file whose text was last seen as one kind.
  ghost function LastSeenLines(lines: seq<Seen>, kind: LineKind): set<int> {
    set i | 0 <= i < |lines| && LastSeenAs(lines, lines[i].text, kind)
  }

  lemma WholeKindIsCounted(lines: seq<Seen>, kind: LineKind)
    ensures StatsOf(CountsOf(lines), Some(kind)) == KindStats(|LastSeenLines(lines, kind)|, 0)
  {
    var chosen := Under(lines, [], kind);
    KindIsSurplus(lines, [], kind);
    NothingSubtracted(lines);
    PickSize(lines, chosen);
    SameLines(lines, kind);
    NothingLess(Pick(lines, chosen), Pick([], chosen));
  }

  lemma NothingSubtracted(lines: seq<Seen>)
    ensures Difference(CountsOf(lines), CountsOf([])) == CountsOf(lines)
  {}

  lemma NothingLess(m: multiset<string>, none: multiset<string>)
    requires none == multiset{}
    ensures m - none == m && none - m == none && |none| == 0
  {}

  lemma SameLines(lines: seq<Seen>, kind: LineKind)
    ensures LastSeenLines(lines, kind) == Picked(lines, Under(lines, [], kind))
  {
    forall i | 0 <= i < |lines| ensures Occurs(lines, lines[i].text) {}
  }

  // The lines of each kind and of all kinds, all of them additions.
  ghost function WholeResult(lines: seq<Seen>): FileResult {
    FileResult(KindStats(|LastSeenLines(lines, Code)|, 0), KindStats(|LastSeenLines(lines, Comment)|, 0),
               KindStats(|LastSeenLines(lines, Blank)|, 0), KindStats(|LastSeenLines(lines, Other)|, 0),
               KindStats(|lines|, 0))
  }

  // Each text is counted in the total, and under the kind the new version last saw it with, or the old
  // version if the new one does not have it.
  ghost predicate IsDifference(from: seq<Seen>, to: seq<Seen>, r: FileResult) {
    && CountedUnder(to, from, Code, r.code) && CountedUnder(to, from, Comment, r.comment)
    && CountedUnder(to, from, Blank, r.blank) && CountedUnder(to, from, Other, r.other)
    && r.total == KindStats(|Texts(to) - Texts(from)|, |Texts(from) - Texts(to)|)
  }

  lemma ModifiedByKind(from: seq<Seen>, to: seq<Seen>)
    ensures IsDifference(from, to, ResultOf(Difference(CountsOf(to), CountsOf(from))))
  {
    KindIsCounted(to, from, Code);
    KindIsCounted(to, from, Comment);
    KindIsCounted(to, from, Blank);
    KindIsCounted(to, from, Other);
    TotalIsMultisetDifference(to, from);
  }

  // A whole file counts each line as an addition, under the kind its text was last seen with.
  lemma WholeByKind(lines: seq<Seen>)
    ensures ResultOf(CountsOf(lines)) == WholeResult(lines)
  {
    WholeKindIsCounted(lines, Code);
    WholeKindIsCounted(lines, Comment);
    WholeKindIsCounted(lines, Blank);
    WholeKindIsCounted(lines, Other);
    WholeFilesAreAdditions(Insert(Text(lines)));
  }

  // A file that comes or goes is counted as a whole, a modified one by what its versions differ in.
  ghost predicate IsByKind(ch: Change, r: FileResult) {
    match ch
    case Insert(v) => r == WholeResult(LinesOf(v))
    case Delete(v) => r == WholeResult(LinesOf(v))
    case Modify(from, to) => IsDifference(LinesOf(from), LinesOf(to), r)
  }

  lemma ChangeByKind(ch: Change)
    ensures IsByKind(ch, ResultOf(CountsOfChange(ch)))
  {
    match ch
    case Insert(v) => WholeByKind(LinesOf(v));
    case Delete(v) => WholeByKind(LinesOf(v));
    case Modify(from, to) => ModifiedByKind(LinesOf(from), LinesOf(to));
  }
}
