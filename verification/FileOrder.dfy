/** Which log files form a stream, and in which order they are read. */
module FileOrder {
  import opened Sorting

  datatype Logfile = Logfile(fileName: string, stringParts: map<string, string>, matchParts: map<string, int>)

  // --------------------------------------------------------------- comparison

  /** A priority entry; the source takes its first character, so it has one. */
  type Priority = p: string | |p| > 0 witness "x"

  predicate Reversed(part: Priority) { part[0] == '^' }

  function KeyName(part: Priority): string { if Reversed(part) then part[1..] else part }

  /** A missing part counts as 0. */
  function Score(f: Logfile, key: string): int {
    if key in f.matchParts then f.matchParts[key] else 0
  }

  /** The scores of a file under a priority list, a `^` key negated. */
  function Scores(priority: seq<Priority>, f: Logfile): (v: seq<int>)
    ensures |v| == |priority|
  {
    if priority == [] then []
    else
      var score := Score(f, KeyName(priority[0]));
      [if Reversed(priority[0]) then 0 - score else score] + Scores(priority[1..], f)
  }

  /** Lexicographic order. */
  predicate LexLess(u: seq<int>, v: seq<int>)
    requires |u| == |v|
  {
    u != [] && (u[0] < v[0] || (u[0] == v[0] && LexLess(u[1..], v[1..])))
  }

  predicate Before(priority: seq<Priority>, a: Logfile, b: Logfile) {
    LexLess(Scores(priority, a), Scores(priority, b))
  }

  /** ByPriority.Less: the loop over the priority list is lexicographic comparison,
    * each `^` key reversed. */
  method Less(priority: seq<Priority>, first: Logfile, second: Logfile) returns (less: bool)
    ensures less == Before(priority, first, second)
  {
    for i := 0 to |priority|
      invariant Before(priority, first, second) == Before(priority[i..], first, second)
    {
      var part := priority[i];
      assert priority[i..][0] == part && priority[i..][1..] == priority[i + 1..];
      ghost var u, v := Scores(priority[i..], first), Scores(priority[i..], second);
      assert u[1..] == Scores(priority[i + 1..], first) && v[1..] == Scores(priority[i + 1..], second);
      var negate, key := Reversed(part), KeyName(part);
      if Score(first, key) < Score(second, key) {
        return !negate;
      } else if Score(first, key) > Score(second, key) {
        return negate;
      }
    }
    return false;
  }

  /** The key of an entry, without its `^`. */
  function Key(part: Priority): string { if part[0] == '^' then part[1..] else part }

  /** The first key under which two files differ decides: the smaller value comes first,
    * or the larger if the key has a `^`.  Files that agree under all keys come in no
    * order. */
  lemma {:induction false} FirstDifference(priority: seq<Priority>, a: Logfile, b: Logfile, k: nat)
    requires k <= |priority|
    requires forall j :: 0 <= j < k ==> Score(a, Key(priority[j])) == Score(b, Key(priority[j]))
    requires k < |priority| ==> Score(a, Key(priority[k])) != Score(b, Key(priority[k]))
    ensures Before(priority, a, b) <==>
              && k < |priority|
              && if priority[k][0] == '^' then Score(a, priority[k][1..]) > Score(b, priority[k][1..])
                 else Score(a, priority[k]) < Score(b, priority[k])
  {
    hide Score;
    if k > 0 {
      assert Key(priority[0]) == KeyName(priority[0]);
      FirstDifference(priority[1..], a, b, k - 1);
      assert Scores(priority, a)[1..] == Scores(priority[1..], a) && Scores(priority, b)[1..] == Scores(priority[1..], b);
    }
  }

  lemma {:induction false} LexIrreflexive(u: seq<int>)
    ensures !LexLess(u, u)
  {
    if u != [] {
      LexIrreflexive(u[1..]);
    }
  }

  lemma {:induction false} LexTransitive(u: seq<int>, v: seq<int>, w: seq<int>)
    requires |u| == |v| == |w| && LexLess(u, v) && LexLess(v, w)
    ensures LexLess(u, w)
  {
    if u[0] == v[0] == w[0] {
      LexTransitive(u[1..], v[1..], w[1..]);
    }
  }

  lemma {:induction false} LexNegTransitive(u: seq<int>, v: seq<int>, w: seq<int>)
    requires |u| == |v| == |w| && !LexLess(u, v) && !LexLess(v, w)
    ensures !LexLess(u, w)
  {
    if u != [] && u[0] == v[0] == w[0] {
      LexNegTransitive(u[1..], v[1..], w[1..]);
    }
  }

  /** It is a strict weak order, so sorting by it makes sense. */
  lemma BeforeIsOrder(priority: seq<Priority>)
    ensures StrictWeak((a, b) => Before(priority, a, b))
  {
    forall a: Logfile ensures !Before(priority, a, a) {
      LexIrreflexive(Scores(priority, a));
    }
    forall a: Logfile, b: Logfile, c: Logfile | Before(priority, a, b) && Before(priority, b, c)
      ensures Before(priority, a, c)
    {
      LexTransitive(Scores(priority, a), Scores(priority, b), Scores(priority, c));
    }
    forall a: Logfile, b: Logfile, c: Logfile | !Before(priority, a, b) && !Before(priority, b, c)
      ensures !Before(priority, a, c)
    {
      LexNegTransitive(Scores(priority, a), Scores(priority, b), Scores(priority, c));
    }
  }

  // ----------------------------------------------------------------- grouping

  function NameParts(f: Logfile, differentiator: seq<string>): string {
    if differentiator == [] then ""
    else
      var n := |differentiator| - 1;
      var d := differentiator[n];
      NameParts(f, differentiator[..n]) + if d in f.stringParts then f.stringParts[d] else d
  }

  /** A name is made of its parts in order: each the text found under it, or itself. */
  lemma {:induction false} NameMade(f: Logfile, d: string, rest: seq<string>)
    ensures NameParts(f, [d] + rest) == (if d in f.stringParts then f.stringParts[d] else d) + NameParts(f, rest)
  {
    var all := [d] + rest;
    if rest == [] {
      assert all[..|all| - 1] == [];
      assert "" + NameParts(f, all) == NameParts(f, all) + "" == NameParts(f, all);
    } else {
      assert all[..|all| - 1] == [d] + rest[..|rest| - 1];
      NameMade(f, d, rest[..|rest| - 1]);
    }
  }

  /** ResolveDifferentiatedName. */
  method ResolveDifferentiatedName(f: Logfile, differentiator: seq<string>) returns (name: string)
    ensures name == NameParts(f, differentiator)
  {
    name := "";
    for i := 0 to |differentiator|
      invariant name == NameParts(f, differentiator[..i])
    {
      assert differentiator[..i + 1][..i] == differentiator[..i];
      var d := differentiator[i];
      if d in f.stringParts {
        name := name + f.stringParts[d];
      } else {
        name := name + d;
      }
    }
    assert differentiator[..|differentiator|] == differentiator;
  }

  /** The files of one stream, in the order they were scanned. */
  function StreamFiles(files: seq<Logfile>, differentiator: seq<string>, name: string): seq<Logfile> {
    if files == [] then []
    else
      var f := files[|files| - 1];
      StreamFiles(files[..|files| - 1], differentiator, name) + if NameParts(f, differentiator) == name then [f] else []
  }

  lemma NextFile(files: seq<Logfile>, differentiator: seq<string>, i: nat, name: string)
    requires i < |files|
    ensures StreamFiles(files[..i + 1], differentiator, name)
            == StreamFiles(files[..i], differentiator, name)
               + if NameParts(files[i], differentiator) == name then [files[i]] else []
  {
    assert files[..i + 1][..i] == files[..i];
  }

  /** A stream for every name that occurs, with exactly the files of that name. */
  ghost predicate Grouped(streams: map<string, seq<Logfile>>, files: seq<Logfile>, differentiator: seq<string>) {
    forall name ::
      if name in streams then streams[name] != [] && streams[name] == StreamFiles(files, differentiator, name)
      else StreamFiles(files, differentiator, name) == []
  }

  lemma GroupNext(streams: map<string, seq<Logfile>>, files: seq<Logfile>, differentiator: seq<string>, i: nat)
    requires i < |files| && Grouped(streams, files[..i], differentiator)
    ensures var name := NameParts(files[i], differentiator);
            Grouped(streams[name := (if name in streams then streams[name] else []) + [files[i]]],
                    files[..i + 1], differentiator)
  {
    hide NameParts;
    hide StreamFiles;
    var name := NameParts(files[i], differentiator);
    var after := streams[name := (if name in streams then streams[name] else []) + [files[i]]];
    forall other ensures if other in after
                         then after[other] != [] && after[other] == StreamFiles(files[..i + 1], differentiator, other)
                         else StreamFiles(files[..i + 1], differentiator, other) == []
    {
      NextFile(files, differentiator, i, other);
    }
  }

  /** FilterMultipleStreamFiles. */
  method FilterMultipleStreamFiles(files: seq<Logfile>, differentiator: seq<string>)
    returns (streams: map<string, seq<Logfile>>)
    ensures Grouped(streams, files, differentiator)
  {
    streams := map[];
    for i := 0 to |files|
      invariant Grouped(streams, files[..i], differentiator)
    {
      hide Grouped;
      GroupNext(streams, files, differentiator, i);
      var name := ResolveDifferentiatedName(files[i], differentiator);
      if name !in streams {
        streams := streams[name := []];
      }
      streams := streams[name := streams[name] + [files[i]]];
    }
    assert files[..|files|] == files;
  }

  /** Every scanned file is in the stream of its name as often as it was scanned,
    * and in no other. */
  lemma {:induction false} ExactlyOneStream(files: seq<Logfile>, differentiator: seq<string>, f: Logfile, name: string)
    ensures multiset(StreamFiles(files, differentiator, name))[f]
            == if NameParts(f, differentiator) == name then multiset(files)[f] else 0
  {
    if files != [] {
      var front, last := files[..|files| - 1], files[|files| - 1];
      ExactlyOneStream(front, differentiator, f, name);
      assert files == front + [last];
    }
  }

  /** No file is in front of one that comes before it. */
  predicate InOrder(priority: seq<Priority>, files: seq<Logfile>) {
    forall i, j :: 0 <= i < j < |files| ==> !Before(priority, files[j], files[i])
  }

  /** A stream with several files and nothing to order them by is refused. */
  predicate Unordered(files: seq<Logfile>, priority: seq<Priority>) {
    |priority| == 0 && |files| > 1
  }

  method SortStream(files: seq<Logfile>, priority: seq<Priority>) returns (sorted: seq<Logfile>)
    requires !Unordered(files, priority)
    ensures multiset(sorted) == multiset(files) && InOrder(priority, sorted)
  {
    sorted := files;
    if |priority| > 0 && |files| > 1 {
      BeforeIsOrder(priority);
      sorted := Sort(files, (a, b) => Before(priority, a, b));
    }
  }

  /** ScanForLogstreams, from the scanned files to the streams. A refused stream is
    * reported by its name; any other holds the files of its name, in order. */
  method ScanForLogstreams(files: seq<Logfile>, differentiator: seq<string>, priority: seq<Priority>)
    returns (streams: map<string, seq<Logfile>>, errors: set<string>)
    ensures forall f :: f in files ==>
              var name := NameParts(f, differentiator);
              name in (if Unordered(StreamFiles(files, differentiator, name), priority) then errors else streams.Keys)
    ensures forall name :: name in errors ==> Unordered(StreamFiles(files, differentiator, name), priority)
    ensures forall name :: name in streams ==>
              && !Unordered(StreamFiles(files, differentiator, name), priority)
              && multiset(streams[name]) == multiset(StreamFiles(files, differentiator, name))
              && InOrder(priority, streams[name])
  {
    var groups := FilterMultipleStreamFiles(files, differentiator);
    forall f | f in files ensures NameParts(f, differentiator) in groups {
      ExactlyOneStream(files, differentiator, f, NameParts(f, differentiator));
    }
    var left := groups.Keys;
    streams, errors := map[], {};
    while left != {}
      invariant left <= groups.Keys
      invariant forall name :: name in groups && name !in left ==>
                  name in (if Unordered(groups[name], priority) then errors else streams.Keys)
      invariant forall name :: name in errors ==> name in groups && Unordered(groups[name], priority)
      invariant forall name :: name in streams ==>
                  && name in groups && !Unordered(groups[name], priority)
                  && multiset(streams[name]) == multiset(groups[name])
                  && InOrder(priority, streams[name])
      decreases left
    {
      var name :| name in left;
      left := left - {name};
      if Unordered(groups[name], priority) {
        errors := errors + {name};
      } else {
        var sorted := SortStream(groups[name], priority);
        streams := streams[name := sorted];
      }
    }
  }
}
