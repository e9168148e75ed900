// Line counters on the heap, subtracted in place.

module FileStats {
  import opened Objects
  import opened LineStats
  import opened LineKinds

  class LineInfo {
    var kind: LineKind
    var count: int

    constructor (kind: LineKind, count: int)
      ensures this.kind == kind && this.count == count
    {
      this.kind, this.count := kind, count;
    }

    function Line(): Line
      reads this
    {
      LineStats.Line(kind, count)
    }
  }

  lemma OneLess(keys: set<string>, rest: set<string>, line: string)
    requires rest <= keys && line in rest
    ensures keys - rest + {line} == keys - (rest - {line})
  {}

  // The map from lines to their counters.
  class Stats {
    var infos: map<string, LineInfo>

    ghost predicate Valid()
      reads this
    {
      forall k, l :: k in infos && l in infos && k != l ==> infos[k] != infos[l]
    }

    ghost function View(): Counts
      reads this, infos.Values
    {
      map l | l in infos :: infos[l].Line()
    }

    constructor ()
      ensures Valid() && infos == map[] && View() == map[]
    {
      infos := map[];
    }

    // Counts one more line.
    method Add(line: string, kind: LineKind)
      requires Valid()
      modifies this, infos.Values
      ensures Valid() && fresh(infos.Values - old(infos.Values))
      ensures View() == Added(old(View()), Seen(line, kind))
    {
      if line !in infos {
        var info := new LineInfo(kind, 0);
        infos := infos[line := info];
      }
      var info := infos[line];
      info.count := info.count + 1;
      info.kind := kind;
    }

    // Takes the counter of one line of the other file off. A line that is not counted here keeps the
    // counter of the other file, which is turned negative.
    method SubLine(line: string, i: LineInfo)
      requires Valid() && i !in infos.Values
      modifies this, infos.Values, i
      ensures Valid() && infos.Values <= old(infos.Values) + {i}
      ensures View() == Without(old(View()), line, old(i.Line()))
    {
      if line in infos {
        infos[line].count := infos[line].count - i.count;
      } else {
        infos := infos[line := i];
        infos[line].count := infos[line].count * -1;
      }
    }

    // Takes the counters of another file off these, in whatever order its lines come.
    method Sub(to: Stats)
      requires Valid() && to.Valid() && to != this && infos.Values !! to.infos.Values
      modifies this, infos.Values, to.infos.Values
      ensures Valid() && infos.Values <= old(infos.Values) + to.infos.Values
      ensures View() == Difference(old(View()), old(to.View()))
    {
      ghost var dst, src := View(), to.View();
      var rest := to.infos.Keys;
      DifferenceOfNone(dst, src);
      while rest != {}
        invariant Valid() && rest <= to.infos.Keys
        invariant infos.Values <= old(infos.Values) + to.infos.Values
        invariant forall l :: l in rest ==> to.infos[l] !in infos.Values && to.infos[l].Line() == src[l]
        invariant View() == DifferenceOn(dst, src, to.infos.Keys - rest)
      {
        var line :| line in rest;
        var i := to.infos[line];
        assert i in to.infos.Values;
        assert forall l :: l in rest && l != line ==> to.infos[l] != i;
        DifferenceOnNext(dst, src, to.infos.Keys - rest, line);
        OneLess(to.infos.Keys, rest, line);
        SubLine(line, i);
        rest := rest - {line};
      }
      assert to.infos.Keys - rest == src.Keys;
      DifferenceOfAll(dst, src);
    }
  }

  // Additions and deletions, accumulated in place.
  class KindCounter {
    var additions: int
    var deletions: int

    constructor ()
      ensures Value() == ZERO
    {
      additions, deletions := 0, 0;
    }

    function Value(): KindStats
      reads this
    {
      KindStats(additions, deletions)
    }

    method Add(add: KindStats)
      modifies this
      ensures Value() == PlusStats(old(Value()), add)
    {
      additions := additions + add.additions;
      deletions := deletions + add.deletions;
    }

    method Fill(info: LineInfo)
      modifies this
      ensures Value() == PlusStats(old(Value()), KindStats(Plus(info.count), Plus(-info.count)))
    {
      if info.count > 0 {
        additions := additions + info.count;
      }
      if info.count < 0 {
        deletions := deletions + info.count * -1;
      }
    }
  }

  class CommitFileStats {
    const code: KindCounter
    const comment: KindCounter
    const blank: KindCounter
    const other: KindCounter
    const total: KindCounter

    ghost predicate Valid() {
      code != comment && code != blank && code != other && code != total && comment != blank && comment != other
      && comment != total && blank != other && blank != total && other != total
    }

    ghost function Repr(): set<object> {
      {code, comment, blank, other, total}
    }

    function Value(): FileResult
      reads code, comment, blank, other, total
    {
      FileResult(code.Value(), comment.Value(), blank.Value(), other.Value(), total.Value())
    }

    constructor ()
      ensures Valid() && fresh(Repr()) && Value() == FileResult(ZERO, ZERO, ZERO, ZERO, ZERO)
    {
      code := new KindCounter();
      comment := new KindCounter();
      blank := new KindCounter();
      other := new KindCounter();
      total := new KindCounter();
    }

    // One line, in the total and in its kind.
    method Fill(info: LineInfo)
      requires Valid()
      modifies Repr()
      ensures Value() == FilledResult(old(Value()), info.Line())
    {
      total.Fill(info);
      match info.kind {
        case Code => code.Fill(info);
        case Comment => comment.Fill(info);
        case Blank => blank.Fill(info);
        case Other => other.Fill(info);
      }
    }
  }

  // Adds up the counters of a file by kind, in whatever order its lines come.
  method ResultFromCounters(fi: Stats) returns (r: FileResult)
    ensures r == ResultOf(fi.View())
  {
    var stats := new CommitFileStats();
    ghost var c, done := fi.View(), {};
    var infos := fi.infos;
    var rest := infos.Keys;
    while rest != {}
      invariant done !! rest && done + rest == infos.Keys == c.Keys
      invariant stats.Valid() && fresh(stats.Repr()) && stats.Value() == Tally(c, done)
    {
      var line :| line in rest;
      TallyNext(c, done, line);
      assert infos[line].Line() == c[line];
      stats.Fill(infos[line]);
      rest, done := rest - {line}, done + {line};
    }
    assert done == c.Keys && fi.View() == c;
    TallyOfAll(c);
    r := stats.Value();
  }

  // Null is a file without counters.
  method ResultFromStats(fi: Stats?) returns (r: FileResult)
    ensures r == ResultOf(if fi == null then map[] else fi.View())
  {
    if fi == null {
      var stats := new CommitFileStats();
      r := stats.Value();
    } else {
      r := ResultFromCounters(fi);
    }
  }

  // -------------------------------------------------------------------------
  // Changes and commits
  // -------------------------------------------------------------------------

  // The counters of a version of a file; null for a binary.
  method StatsOfVersion(v: Version) returns (fi: Stats?)
    requires !v.Ignored?
    ensures fi == null <==> v.Binary?
    ensures fi != null ==> fresh(fi) && fresh(fi.infos.Values) && fi.Valid() && fi.View() == CountsOf(LinesOf(v))
  {
    if v.Binary? {
      return null;
    }
    fi := new Stats();
    for i := 0 to |v.lines|
      invariant fresh(fi) && fresh(fi.infos.Values) && fi.Valid() && fi.View() == CountsOf(v.lines[..i])
    {
      assert v.lines[..i + 1][..i] == v.lines[..i];
      fi.Add(v.lines[i].text, v.lines[i].kind);
    }
    assert v.lines[..|v.lines|] == v.lines;
  }

  // The counters of a version, none for a binary.
  method CountersOfVersion(v: Version) returns (fi: Stats)
    requires !v.Ignored?
    ensures fresh(fi) && fresh(fi.infos.Values) && fi.Valid() && fi.View() == CountsOf(LinesOf(v))
  {
    var counters := StatsOfVersion(v);
    if counters == null {
      fi := new Stats();
    } else {
      fi := counters;
    }
  }

  method DifferenceOfVersions(from: Version, to: Version) returns (dst: Stats)
    requires !from.Ignored? && !to.Ignored?
    ensures dst.View() == Difference(CountsOf(LinesOf(to)), CountsOf(LinesOf(from)))
  {
    var src := CountersOfVersion(from);
    dst := CountersOfVersion(to);
    dst.Sub(src);
  }

  method CountersOfChange(ch: Change) returns (fi: Stats?)
    requires !IsIgnored(ch)
    ensures CountsOfChange(ch) == if fi == null then map[] else fi.View()
  {
    match ch {
      case Insert(v) => fi := StatsOfVersion(v);
      case Delete(v) => fi := StatsOfVersion(v);
      case Modify(from, to) => fi := DifferenceOfVersions(from, to);
    }
  }

  // None for a change of a file that is left out.
  method ResultFromChange(ch: Change) returns (r: Option<FileResult>)
    ensures r == if IsIgnored(ch) then None else Some(ResultOf(CountsOfChange(ch)))
    ensures r.None? <==> (!ch.Delete? && ch.to.Ignored?) || (!ch.Insert? && ch.from.Ignored?)
    ensures r.Some? ==> IsByKind(ch, r.value)
  {
    if IsIgnored(ch) {
      return None;
    }
    var result := ResultOfCounted(ch);
    r := Some(result);
  }

  method ResultOfCounted(ch: Change) returns (r: FileResult)
    requires !IsIgnored(ch)
    ensures r == ResultOf(CountsOfChange(ch)) && IsByKind(ch, r)
  {
    var fi := CountersOfChange(ch);
    r := ResultFromStats(fi);
    ChangeByKind(ch);
  }

  // Adds up the files of a commit.
  method ResultOfCommit(fs: seq<FileResult>) returns (r: CommitResult)
    ensures r == CommitResult(|fs|, Aggregate(fs)) && AreTotals(fs, r.stats)
  {
    var s := new CommitFileStats();
    var files := 0;
    for i := 0 to |fs|
      invariant s.Valid() && fresh(s.Repr()) && files == i && s.Value() == Aggregate(fs[..i])
    {
      assert fs[..i + 1][..i] == fs[..i];
      s.blank.Add(fs[i].blank);
      s.comment.Add(fs[i].comment);
      s.code.Add(fs[i].code);
      s.other.Add(fs[i].other);
      s.total.Add(fs[i].total);
      files := files + 1;
    }
    assert fs[..|fs|] == fs;
    AggregateIsSum(fs);
    r := CommitResult(files, s.Value());
  }
}
