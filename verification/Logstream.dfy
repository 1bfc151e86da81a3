/** A log stream read across rotations: the files of a list, oldest first, as one
  * stream of bytes.
  *
  * Files grow at their end only, new files are listed after the old ones, and a
  * file is final once a newer one is listed.  The surroundings change between any
  * two steps of the reader, as a script of changes says; for every script. */
module Logstream {
  import opened Bytes
  import opened RingBuffer
  import opened LogPosition

  datatype Change = Append(data: seq<byte>) | List(name: Name, data: seq<byte>)

  type Files = map<Name, seq<byte>>

  predicate Listing(names: seq<Name>, files: Files) {
    && (forall i :: 0 <= i < |names| ==> names[i] in files && names[i] != "")
    && (forall i, j :: 0 <= i < j < |names| ==> names[i] != names[j])
  }

  /** The bytes of the first `k` files. */
  function StreamOf(names: seq<Name>, files: Files, k: nat): seq<byte>
    requires Listing(names, files) && k <= |names|
  {
    if k == 0 then [] else StreamOf(names, files, k - 1) + files[names[k - 1]]
  }

  /** What may have happened meanwhile: the last file grew, newer ones appeared. */
  predicate Evolved(names: seq<Name>, files: Files, names': seq<Name>, files': Files) {
    && Listing(names, files) && Listing(names', files') && names <= names'
    && (forall i :: 0 <= i < |names| ==> files[names[i]] <= files'[names[i]])
    && (forall i :: 0 <= i < |names| - 1 ==> files[names[i]] == files'[names[i]])
  }

  lemma {:induction false} StreamStable(names: seq<Name>, files: Files, names': seq<Name>, files': Files, k: nat)
    requires Evolved(names, files, names', files') && k < |names|
    ensures StreamOf(names, files, k) == StreamOf(names', files', k)
  {
    if k > 0 {
      StreamStable(names, files, names', files', k - 1);
      assert names[k - 1] == names'[k - 1];
    }
  }

  /** A file of the list keeps its place and grows, if it is the last. */
  lemma GrowsAt(names: seq<Name>, files: Files, names': seq<Name>, files': Files, i: nat)
    requires Evolved(names, files, names', files') && i < |names|
    ensures i < |names'| && names'[i] == names[i] && names[i] in files && names[i] in files'
    ensures |files[names[i]]| <= |files'[names[i]]|
    ensures i + 1 < |names| ==> i + 1 < |names'| && names'[i + 1] == names[i + 1] && files'[names[i]] == files[names[i]]
  {
  }

  lemma EvolvedOn(names: seq<Name>, files: Files, names': seq<Name>, files': Files, names'': seq<Name>, files'': Files)
    requires Evolved(names, files, names', files') && Evolved(names', files', names'', files'')
    ensures Evolved(names, files, names'', files'')
  {
    forall i | 0 <= i < |names|
      ensures files[names[i]] <= files''[names[i]] && (i < |names| - 1 ==> files[names[i]] == files''[names[i]])
    {
      assert names'[i] == names[i];
      assert files[names[i]] <= files'[names'[i]] <= files''[names'[i]];
    }
  }

  /** The list and the files after a change. */
  function Happened(names: seq<Name>, files: Files, c: Change): (seq<Name>, Files)
    requires Listing(names, files)
  {
    match c
    case Append(data) =>
      if names == [] then (names, files)
      else
        var last := names[|names| - 1];
        (names, files[last := files[last] + data])
    case List(name, data) =>
      if name == "" || name in names then (names, files) else (names + [name], files[name := data])
  }

  lemma HappenedEvolves(names: seq<Name>, files: Files, c: Change)
    requires Listing(names, files)
    ensures var r := Happened(names, files, c); Evolved(names, files, r.0, r.1)
  {
  }

  function AllHappened(names: seq<Name>, files: Files, batch: seq<Change>): (r: (seq<Name>, Files))
    requires Listing(names, files)
    ensures Listing(r.0, r.1)
    decreases |batch|
  {
    if batch == [] then (names, files)
    else
      HappenedEvolves(names, files, batch[0]);
      var r := Happened(names, files, batch[0]);
      AllHappened(r.0, r.1, batch[1..])
  }

  lemma AppendHappens(names: seq<Name>, files: Files, data: seq<byte>)
    requires Listing(names, files) && names != [] && files[names[|names| - 1]] == []
    ensures AllHappened(names, files, []) == (names, files)
    ensures AllHappened(names, files, [Append(data)]) == (names, files[names[|names| - 1] := data])
  {
    assert [Append(data)][1..] == [];
    assert [] + data == data;
    HappenedEvolves(names, files, Append(data));
  }

  class World {
    var names: seq<Name>
    var files: Files
    var script: seq<seq<Change>>

    ghost predicate Valid()
      reads this
    {
      Listing(names, files)
    }

    constructor (names: seq<Name>, files: Files, script: seq<seq<Change>>)
      requires Listing(names, files)
      ensures Valid() && this.names == names && this.files == files && this.script == script
    {
      this.names, this.files, this.script := names, files, script;
    }

    /** Let the next batch of changes happen, if there is one. */
    method Tick()
      requires Valid()
      modifies this
      ensures Valid() && Evolved(old(names), old(files), names, files)
      ensures old(script) == [] ==> script == [] && names == old(names) && files == old(files)
      ensures old(script) != [] ==>
                && script == old(script)[1..]
                && (names, files) == AllHappened(old(names), old(files), old(script)[0])
    {
      if script == [] {
        return;
      }
      var batch := script[0];
      script := script[1..];
      for i := 0 to |batch|
        invariant Valid() && Evolved(old(names), old(files), names, files)
        invariant script == old(script)[1..]
        invariant AllHappened(old(names), old(files), batch) == AllHappened(names, files, batch[i..])
      {
        HappenedEvolves(names, files, batch[i]);
        var r := Happened(names, files, batch[i]);
        assert batch[i..][1..] == batch[i + 1..];
        names, files := r.0, r.1;
      }
    }
  }

  // ------------------------------------------------- finding the newer file

  /** Logfiles.IndexOf. */
  function IndexOf(names: seq<Name>, name: Name): (i: int)
    ensures -1 <= i < |names|
    ensures if i >= 0 then names[i] == name else name !in names
  {
    if names == [] then -1
    else if names[|names| - 1] == name && IndexOf(names[..|names| - 1], name) == -1 then |names| - 1
    else IndexOf(names[..|names| - 1], name)
  }

  lemma {:induction false} IndexOfListed(names: seq<Name>, i: nat)
    requires i < |names| && forall a, b :: 0 <= a < b < |names| ==> names[a] != names[b]
    ensures IndexOf(names, names[i]) == i
  {
    var front := names[..|names| - 1];
    if i < |names| - 1 {
      IndexOfListed(front, i);
      assert front[i] == names[i];
    } else if IndexOf(front, names[i]) >= 0 {
      assert front[IndexOf(front, names[i])] == names[i];
    }
  }

  /** The search of LocatePriorLocation through the files from `k` on. */
  function Locate(names: seq<Name>, files: Files, p: Position, sha1: Sha1, k: nat): Option<Position>
    requires Listing(names, files) && k <= |names|
    decreases |names| - k
  {
    if k == |names| then None
    else
      var file := files[names[k]];
      var r := if |file| < p.seek then None else SeekInFile(file, p, sha1);
      if r.Some? then Some(r.value.(filename := names[k])) else Locate(names, files, p, sha1, k + 1)
  }

  /** What NewerFileAvailable finds out about the open file: which file to turn to,
    * or that it is the one recorded, with the sizes saying if it was empty before. */
  datatype Look = Elsewhere(newer: Option<Name>) | Here(priorWasEmpty: bool)

  /** Its first part, given the size of the open file when that was looked up and the
    * size found under the recorded name a moment later; with the position afterwards. */
  function Recognise(p: Position, names: seq<Name>, files: Files, lastSize: nat, newSize: nat, sha1: Sha1)
    : (Look, Position)
    requires Listing(names, files) && p.filename in files
  {
    var priorWasEmpty := lastSize == 0 && newSize > 0;
    var check := if p.hash.None? then Some(p) else SeekInFile(files[p.filename], p, sha1);
    var p1 := if lastSize <= newSize && !priorWasEmpty && check.Some? then check.value else p;
    if lastSize > newSize || priorWasEmpty || check.None? then
      var found := Locate(names, files, p1, sha1, 0);
      if found.None? then (Elsewhere(if names == [] then None else Some(names[0])), p1)
      else (Here(priorWasEmpty), found.value)
    else (Here(false), p1)
  }

  /** Its end: is there a file ahead in the list? */
  function AheadOf(p: Position, names: seq<Name>, priorWasEmpty: bool): Option<Name> {
    var i := IndexOf(names, p.filename);
    if i == -1 then None
    else if i + 1 < |names| then Some(names[i + 1])
    else if priorWasEmpty then Some(p.filename)
    else None
  }

  function Newer(look: Look, p: Position, names: seq<Name>): Option<Name> {
    if look.Elsewhere? then look.newer else AheadOf(p, names, look.priorWasEmpty)
  }

  /** NewerFileAvailable, when the files stay as they are after the second look: the
    * newer file, if any, and the position afterwards. */
  function NewerFile(p: Position, names: seq<Name>, files: Files, lastSize: nat, newSize: nat, sha1: Sha1)
    : (Option<Name>, Position)
    requires Listing(names, files) && p.filename in files
  {
    var r := Recognise(p, names, files, lastSize, newSize, sha1);
    (Newer(r.0, r.1, names), r.1)
  }

  /** A place in file `i`, recorded under its name with the hash of its ring, is
    * recognised there, and only has its ring written over with the same bytes; unless
    * the file was empty at the first look and not at the second. */
  lemma RecogniseHere(p: Position, names: seq<Name>, files: Files, i: nat, lastSize: nat, newSize: nat, sha1: Sha1)
    requires Listing(names, files) && i < |names| && p.filename == names[i]
    requires RingMatches(p.ring, files[names[i]], p.seek) && p == GenerateHash(p, sha1)
    requires lastSize <= newSize && (lastSize == 0 ==> newSize == 0)
    ensures var r := Recognise(p, names, files, lastSize, newSize, sha1);
            r.0 == Here(false) && r.1.(ring := p.ring) == p && RingMatches(r.1.ring, files[names[i]], p.seek)
  {
    hide Padded, Window, SeekInFile;
    SelfAccepted(p, files[names[i]], sha1);
  }

  /** The newer file is then the next one of the list. */
  lemma NewerIsNext(p: Position, names: seq<Name>, files: Files, i: nat, lastSize: nat, newSize: nat, sha1: Sha1)
    requires Listing(names, files) && i < |names| && p.filename == names[i]
    requires RingMatches(p.ring, files[names[i]], p.seek) && p == GenerateHash(p, sha1)
    requires lastSize <= newSize && (lastSize == 0 ==> newSize == 0)
    ensures var r := NewerFile(p, names, files, lastSize, newSize, sha1);
            && r.0 == (if i + 1 < |names| then Some(names[i + 1]) else None)
            && r.1.(ring := p.ring) == p && RingMatches(r.1.ring, files[names[i]], p.seek)
  {
    hide Recognise, RingMatches;
    RecogniseHere(p, names, files, i, lastSize, newSize, sha1);
    IndexOfListed(names, i);
  }

  lemma SelfAccepted(p: Position, file: seq<byte>, sha1: Sha1)
    requires RingMatches(p.ring, file, p.seek) && p == GenerateHash(p, sha1)
    ensures var r := SeekInFile(file, p, sha1);
            r.Some? && r.value.(ring := p.ring) == p && RingMatches(r.value.ring, file, p.seek)
  {
    if p.seek > 0 {
      SeekReadsWindow(file, p.seek);
      LastOfWhole(p.ring, Window(file, p.seek));
    }
  }

  /** When the open file was still empty at the first look and had grown by the
    * second, the search accepts the first file of the list whatever it is, since
    * nothing needs to match at position 0: the position is renamed to that file
    * and its successor reported as newer.  That is right exactly when the open
    * file is the first one. */
  lemma EmptyFileRace(p: Position, names: seq<Name>, files: Files, i: nat, newSize: nat, sha1: Sha1)
    requires Listing(names, files) && i < |names| && p.filename == names[i]
    requires p.seek == 0 && newSize > 0
    ensures Recognise(p, names, files, 0, newSize, sha1) == (Here(true), p.(filename := names[0]))
    ensures var r := NewerFile(p, names, files, 0, newSize, sha1);
            && r.1.filename == names[0]
            && r.0 == Some(if |names| > 1 then names[1] else names[0])
            && (r.1.filename == p.filename <==> i == 0)
  {
    IndexOfListed(names, 0);
  }

  /** For instance, reading the second of two files, the "newer" file it reports
    * is the one being read. */
  lemma EmptyFileRaceExample(sha1: Sha1)
    ensures NewerFile(Position(0, "b", None, []), ["a", "b"], map["a" := [120], "b" := [121]], 0, 1, sha1)
            == (Some("b"), Position(0, "a", None, []))
  {
    EmptyFileRace(Position(0, "b", None, []), ["a", "b"], map["a" := [120], "b" := [121]], 1, 1, sha1);
  }

  /** As long as nothing was flushed, the wrong name is never noticed again: the file
    * reported as newer is the second of the list, whichever is open. */
  lemma StaysMisnamed(p: Position, names: seq<Name>, files: Files, lastSize: nat, newSize: nat, sha1: Sha1)
    requires Listing(names, files) && |names| > 1 && p.filename == names[0] && p.seek == 0 && lastSize > 0
    ensures NewerFile(p, names, files, lastSize, newSize, sha1) == (Some(names[1]), p)
  {
    IndexOfListed(names, 0);
  }

  /** Whatever the position has become, the search stays within the list, and keeps
    * the place and its hash. */
  lemma RecogniseAny(p: Position, names: seq<Name>, files: Files, lastSize: nat, newSize: nat, sha1: Sha1)
    requires Listing(names, files) && p.filename in names && |p.ring| <= LINEBUFFERLEN
    ensures var r := Recognise(p, names, files, lastSize, newSize, sha1);
            && r.1.filename in names && r.1.seek == p.seek && r.1.hash == p.hash && |r.1.ring| <= LINEBUFFERLEN
            && (r.0.Elsewhere? && r.0.newer.Some? ==> r.0.newer.value in names)
            && (r.0.Here? ==> r.0.priorWasEmpty == (lastSize == 0 && newSize > 0))
            && (r.0.Elsewhere? ==> r.1 == p)
            && (p == GenerateHash(p, sha1) ==> r.1 == GenerateHash(r.1, sha1))
  {
    hide Locate, SeekInFile, GenerateHash;
    LocateKeeps(names, files, p, sha1, 0);
    SeekKeeps(files[p.filename], p, sha1);
  }

  lemma SeekKeeps(file: seq<byte>, p: Position, sha1: Sha1)
    requires |p.ring| <= LINEBUFFERLEN
    ensures var r := SeekInFile(file, p, sha1);
            r.Some? ==> && r.value == p.(ring := r.value.ring) && |r.value.ring| <= LINEBUFFERLEN
                        && (p == GenerateHash(p, sha1) ==> r.value == GenerateHash(r.value, sha1))
  {
    if p.seek > 0 {
      SeekFills(file, p, sha1);
    }
  }

  /** What is read back has the hash it was accepted for. */
  lemma SeekFills(file: seq<byte>, p: Position, sha1: Sha1)
    requires |p.ring| <= LINEBUFFERLEN && p.seek > 0
    ensures var r := SeekInFile(file, p, sha1);
            r.Some? ==> |r.value.ring| <= LINEBUFFERLEN && r.value == GenerateHash(r.value, sha1)
  {
    var buf := SeekBuffer(file, p.seek).0;
    assert LastN(p.ring + buf, LINEBUFFERLEN) == buf;
    assert Padded(buf) == buf;
  }

  lemma {:induction false} LocateKeeps(names: seq<Name>, files: Files, p: Position, sha1: Sha1, k: nat)
    requires Listing(names, files) && k <= |names| && |p.ring| <= LINEBUFFERLEN
    ensures var r := Locate(names, files, p, sha1, k);
            r.Some? ==> && r.value.filename in names && |r.value.ring| <= LINEBUFFERLEN
                        && r.value == p.(filename := r.value.filename, ring := r.value.ring)
                        && (p == GenerateHash(p, sha1) ==> r.value == GenerateHash(r.value, sha1))
    decreases |names| - k
  {
    hide SeekInFile;
    if k < |names| {
      SeekKeeps(files[names[k]], p, sha1);
      LocateKeeps(names, files, p, sha1, k + 1);
    }
  }

  lemma ListGrows(names: seq<Name>, files: Files, names': seq<Name>, files': Files, look: Look, p: Position)
    requires Evolved(names, files, names', files')
    requires look.Elsewhere? && look.newer.Some? ==> look.newer.value in names
    ensures var newer := Newer(look, p, names'); newer.Some? ==> newer.value in names'
  {
    assert forall name :: name in names ==> name in names';
  }

  lemma StillIn(names: seq<Name>, files: Files, names': seq<Name>, files': Files, name: Name)
    requires Evolved(names, files, names', files') && name in names
    ensures name in names'
  {
  }

  lemma HashTwice(p: Position, sha1: Sha1)
    requires |p.ring| <= LINEBUFFERLEN
    ensures GenerateHash(GenerateHash(p, sha1), sha1) == GenerateHash(p, sha1)
    ensures GenerateHash(p, sha1).filename == p.filename && GenerateHash(p, sha1).seek == p.seek
  {
  }

  /** The place at `seek` in file `i` cannot be told from that in file `j`. */
  predicate LooksSame(names: seq<Name>, files: Files, j: nat, i: nat, seek: nat)
    requires Listing(names, files) && j < |names| && i < |names|
  {
    seek <= |files[names[j]]| && seek <= |files[names[i]]| && Window(files[names[j]], seek) == Window(files[names[i]], seek)
  }

  /** Something was flushed, and no earlier file looks the same there. */
  ghost predicate Unique(names: seq<Name>, files: Files, i: nat, seek: nat)
    requires Listing(names, files) && i < |names|
  {
    seek > 0 && forall j: nat :: j < i ==> !LooksSame(names, files, j, i, seek)
  }

  /** This does not change: earlier files are final, and file `i` only grows. */
  lemma UniqueOn(names: seq<Name>, files: Files, names': seq<Name>, files': Files, i: nat, seek: nat)
    requires Evolved(names, files, names', files') && i < |names| && seek <= |files[names[i]]|
    ensures Unique(names, files, i, seek) <==> Unique(names', files', i, seek)
  {
    hide Window;
    forall j: nat | j < i ensures LooksSame(names, files, j, i, seek) <==> LooksSame(names', files', j, i, seek) {
      assert names'[j] == names[j] && files'[names[j]] == files[names[j]];
      SameWindow(files[names[i]], files'[names[i]], seek);
    }
  }

  /** A place of file `i` is accepted in file `j` exactly if it looks the same there,
    * or nothing was flushed; and the ring then still holds what it should. */
  lemma AcceptedIn(p: Position, names: seq<Name>, files: Files, i: nat, j: nat, sha1: Sha1)
    requires Injective(sha1) && Listing(names, files) && i < |names| && j < |names|
    requires RingMatches(p.ring, files[names[i]], p.seek) && p == GenerateHash(p, sha1)
    ensures var r := SeekInFile(files[names[j]], p, sha1);
            && (r.Some? <==> p.seek == 0 || LooksSame(names, files, j, i, p.seek))
            && (r.Some? ==> r.value == p.(ring := r.value.ring) && RingMatches(r.value.ring, files[names[i]], p.seek))
            && (p.seek == 0 ==> r == Some(p))
  {
    hide Padded, Window;
    FoundAgain(files[names[i]], p, files[names[j]], p.ring, sha1);
    SeekKeeps(files[names[j]], p, sha1);
  }

  /** The search finds the first file that looks the same. */
  lemma {:induction false} LocateFirst(p: Position, names: seq<Name>, files: Files, i: nat, k: nat, sha1: Sha1)
    returns (m: nat)
    requires Injective(sha1) && Listing(names, files) && k <= i < |names|
    requires RingMatches(p.ring, files[names[i]], p.seek) && p == GenerateHash(p, sha1)
    ensures k <= m <= i && (p.seek == 0 || LooksSame(names, files, m, i, p.seek))
    ensures forall j: nat :: k <= j < m ==> p.seek > 0 && !LooksSame(names, files, j, i, p.seek)
    ensures var r := Locate(names, files, p, sha1, k);
            && r.Some? && r.value == p.(filename := names[m], ring := r.value.ring)
            && RingMatches(r.value.ring, files[names[i]], p.seek)
    decreases i - k
  {
    hide SeekInFile, Window, Padded;
    AcceptedIn(p, names, files, i, k, sha1);
    if p.seek == 0 || LooksSame(names, files, k, i, p.seek) {
      m := k;
    } else {
      m := LocateFirst(p, names, files, i, k + 1, sha1);
    }
  }

  /** A place of file `i` recorded under the name of an earlier one gets its right name
    * back exactly if something was flushed and no earlier file looks the same there;
    * otherwise it goes under the name of an earlier file again. */
  lemma RenamedIffUnique(p: Position, names: seq<Name>, files: Files, i: nat, lastSize: nat, newSize: nat, sha1: Sha1)
    requires Injective(sha1) && Listing(names, files) && i < |names| && p.filename in names[..i] && lastSize > 0
    requires RingMatches(p.ring, files[names[i]], p.seek) && p == GenerateHash(p, sha1)
    ensures var r := Recognise(p, names, files, lastSize, newSize, sha1);
            && r.0 == Here(false) && r.1 == p.(filename := r.1.filename, ring := r.1.ring)
            && RingMatches(r.1.ring, files[names[i]], p.seek) && r.1 == GenerateHash(r.1, sha1)
            && (if Unique(names, files, i, p.seek) then r.1.filename == names[i] else r.1.filename in names[..i])
  {
    hide SeekInFile, Window, Locate, LooksSame;
    var a :| 0 <= a < i && names[a] == p.filename;
    AcceptedIn(p, names, files, i, a, sha1);
    var m := LocateFirst(p, names, files, i, 0, sha1);
    assert m < i ==> names[..i][m] == names[m];
    assert m == i ==> !LooksSame(names, files, a, i, p.seek) && Unique(names, files, i, p.seek);
    SameHash(p, Recognise(p, names, files, lastSize, newSize, sha1).1, files[names[i]], sha1);
  }

  lemma SameHash(p: Position, q: Position, file: seq<byte>, sha1: Sha1)
    requires RingMatches(p.ring, file, p.seek) && p == GenerateHash(p, sha1) && q.seek == p.seek && q.hash == p.hash
    ensures RingMatches(q.ring, file, q.seek) ==> q == GenerateHash(q, sha1)
  {
  }

  /** Behind an earlier file comes one that is not later than this. */
  lemma EarlierAhead(p: Position, names: seq<Name>, files: Files, i: nat, priorWasEmpty: bool)
    requires Listing(names, files) && i < |names| && p.filename in names[..i]
    ensures var newer := AheadOf(p, names, priorWasEmpty); newer.Some? && IndexOf(names, newer.value) <= i
  {
    var k :| 0 <= k < i && names[k] == p.filename;
    IndexOfListed(names, k);
    IndexOfListed(names, k + 1);
  }

  /** So NewerFileAvailable answers rightly for a place under a wrong name exactly if it
    * is the only such place; otherwise it answers with a file that is not newer. */
  lemma AnswersIffUnique(p: Position, names: seq<Name>, files: Files, i: nat, lastSize: nat, newSize: nat, sha1: Sha1)
    requires Injective(sha1) && Listing(names, files) && i < |names| && p.filename in names[..i] && lastSize > 0
    requires RingMatches(p.ring, files[names[i]], p.seek) && p == GenerateHash(p, sha1)
    ensures var r := NewerFile(p, names, files, lastSize, newSize, sha1);
            && (r.1.filename == names[i] <==> Unique(names, files, i, p.seek))
            && (if Unique(names, files, i, p.seek) then r.0 == (if i + 1 < |names| then Some(names[i + 1]) else None)
                else r.0.Some? && IndexOf(names, r.0.value) <= i)
  {
    hide Recognise, RingMatches, Unique, Injective, GenerateHash, IndexOf;
    RenamedIffUnique(p, names, files, i, lastSize, newSize, sha1);
    assert names[i] !in names[..i];
    if Unique(names, files, i, p.seek) {
      IndexOfListed(names, i);
    } else {
      EarlierAhead(Recognise(p, names, files, lastSize, newSize, sha1).1, names, files, i, false);
    }
  }

  /** What has been read of a file behind its start is read again from the start of any
    * file up to it. */
  lemma GoesBack(names: seq<Name>, files: Files, i: nat, fd: Fd, p: Position, saved: seq<byte>, consumed: seq<byte>, k: nat)
    requires Placed(names, files, i, fd, p, saved, consumed) && k <= i && fd.pos > 0
    ensures StreamOf(names, files, k) < consumed
  {
    StreamPrefix(names, files, k, i);
  }

  /** Asked again with nothing changed, NewerFileAvailable gives the same answer. */
  lemma NewerAgain(p: Position, names: seq<Name>, files: Files, size: nat, sha1: Sha1)
    requires Listing(names, files) && p.filename in names && |p.ring| <= LINEBUFFERLEN && size > 0
    ensures var r := NewerFile(p, names, files, size, |files[p.filename]|, sha1);
            && r.1.filename in names
            && NewerFile(r.1, names, files, size, |files[r.1.filename]|, sha1).0 == r.0
  {
    hide SeekInFile;
    RecogniseAny(p, names, files, size, |files[p.filename]|, sha1);
    SameSeek(files[p.filename], p, NewerFile(p, names, files, size, |files[p.filename]|, sha1).1, sha1);
    SameLocate(names, files, p, NewerFile(p, names, files, size, |files[p.filename]|, sha1).1, sha1, 0);
    LocateAccepts(names, files, p, sha1, 0);
    var r := NewerFile(p, names, files, size, |files[p.filename]|, sha1);
    SameSeek(files[r.1.filename], p, r.1, sha1);
  }

  /** Acceptance depends on the place and its hash only. */
  lemma SameSeek(file: seq<byte>, p: Position, q: Position, sha1: Sha1)
    requires q.seek == p.seek && q.hash == p.hash
    ensures SeekInFile(file, p, sha1).Some? <==> SeekInFile(file, q, sha1).Some?
    ensures SeekInFile(file, p, sha1).Some? ==>
              && SeekInFile(file, p, sha1).value == p.(ring := SeekInFile(file, p, sha1).value.ring)
              && SeekInFile(file, q, sha1).value == q.(ring := SeekInFile(file, q, sha1).value.ring)
  {
  }

  lemma {:induction false} SameLocate(names: seq<Name>, files: Files, p: Position, q: Position, sha1: Sha1, k: nat)
    requires Listing(names, files) && k <= |names| && q.seek == p.seek && q.hash == p.hash
    ensures Locate(names, files, p, sha1, k).Some? <==> Locate(names, files, q, sha1, k).Some?
    ensures Locate(names, files, p, sha1, k).Some? ==>
              Locate(names, files, p, sha1, k).value.filename == Locate(names, files, q, sha1, k).value.filename
    decreases |names| - k
  {
    hide SeekInFile;
    if k < |names| {
      SameSeek(files[names[k]], p, q, sha1);
      SameLocate(names, files, p, q, sha1, k + 1);
    }
  }

  lemma {:induction false} LocateAccepts(names: seq<Name>, files: Files, p: Position, sha1: Sha1, k: nat)
    requires Listing(names, files) && k <= |names|
    ensures var r := Locate(names, files, p, sha1, k);
            r.Some? ==> r.value.filename in names && SeekInFile(files[r.value.filename], p, sha1).Some?
    decreases |names| - k
  {
    hide SeekInFile;
    if k < |names| {
      LocateAccepts(names, files, p, sha1, k + 1);
    }
  }

  // ------------------------------------------------------------- the reader

  /** An open file: its name when it was opened, and the offset in it. */
  datatype Fd = Fd(name: Name, pos: nat)

  /** An open stream stands in file `i` of the list: the file offset is the seek
    * position plus what is buffered, and everything before it has been consumed. */
  predicate Placed(names: seq<Name>, files: Files, i: nat, fd: Fd, p: Position, saved: seq<byte>, consumed: seq<byte>) {
    && Listing(names, files) && i < |names| && fd.name == names[i]
    && var file := files[names[i]];
    && fd.pos <= |file| && p.seek + |saved| == fd.pos && saved == file[p.seek..fd.pos]
    && consumed == StreamOf(names, files, i) + file[..fd.pos]
  }

  /** What should be recorded of it: its name, and in the ring the bytes before the
    * position. */
  predicate OnTrack(names: seq<Name>, files: Files, i: nat, p: Position)
    requires Listing(names, files) && i < |names|
  {
    p.filename == names[i] && RingMatches(p.ring, files[names[i]], p.seek)
  }

  /** A stream is lost if something else is.  Its file is then not empty, and if no two
    * contents have the same hash, only the name is wrong, being that of an earlier file. */
  ghost predicate Recorded(lost: bool, names: seq<Name>, files: Files, i: nat, p: Position, sha1: Sha1)
    requires Listing(names, files) && i < |names|
  {
    && p.filename in names && (lost <==> !OnTrack(names, files, i, p))
    && (lost ==> |files[names[i]]| > 0)
    && (lost && Injective(sha1) ==> p.filename in names[..i] && RingMatches(p.ring, files[names[i]], p.seek))
  }

  ghost predicate Tracks(lost: bool, names: seq<Name>, files: Files, i: nat, fd: Fd, p: Position, saved: seq<byte>,
                         consumed: seq<byte>, sha1: Sha1)
  {
    Placed(names, files, i, fd, p, saved, consumed) && Recorded(lost, names, files, i, p, sha1)
  }

  lemma TracksOn(lost: bool, names: seq<Name>, files: Files, names': seq<Name>, files': Files, i: nat, fd: Fd,
                 p: Position, saved: seq<byte>, consumed: seq<byte>, sha1: Sha1)
    requires Tracks(lost, names, files, i, fd, p, saved, consumed, sha1) && Evolved(names, files, names', files')
    ensures Tracks(lost, names', files', i, fd, p, saved, consumed, sha1)
  {
    hide Padded, Window, StreamOf, Injective;
    var file, file' := files[names[i]], files'[names[i]];
    assert file <= file' && names'[i] == names[i] && names'[..i] == names[..i];
    StreamStable(names, files, names', files', i);
    GrowthKeeps(p.ring, file, file', p.seek);
    assert file[..fd.pos] == file'[..fd.pos];
    assert file[p.seek..fd.pos] == file'[p.seek..fd.pos];
  }

  lemma ReadOn(names: seq<Name>, files: Files, i: nat, fd: Fd, p: Position, saved: seq<byte>, consumed: seq<byte>,
               data: seq<byte>)
    requires Placed(names, files, i, fd, p, saved, consumed)
    requires fd.pos + |data| <= |files[names[i]]| && data == files[names[i]][fd.pos..fd.pos + |data|]
    ensures Placed(names, files, i, Fd(fd.name, fd.pos + |data|), p, saved + data, consumed + data)
  {
    hide StreamOf;
    var file, pos, before := files[names[i]], fd.pos, StreamOf(names, files, i);
    assert file[p.seek..pos] + file[pos..pos + |data|] == file[p.seek..pos + |data|];
    assert file[..pos] + data == file[..pos + |data|];
    assert before + file[..pos] + data == before + (file[..pos] + data);
  }

  /** Flushing moves the recorded position, not the stream. */
  lemma FlushTracks(lost: bool, names: seq<Name>, files: Files, i: nat, fd: Fd, p: Position, saved: seq<byte>,
                    consumed: seq<byte>, k: nat, sha1: Sha1)
    requires Tracks(lost, names, files, i, fd, p, saved, consumed, sha1) && k <= |saved| && |p.ring| <= LINEBUFFERLEN
    ensures var p' := p.(seek := p.seek + k, ring := LastN(p.ring + saved[..k], LINEBUFFERLEN));
            var lost' := !OnTrack(names, files, i, p');
            && Tracks(lost', names, files, i, fd, p', saved[k..], consumed, sha1)
            && (lost' ==> lost) && (Injective(sha1) ==> lost' == lost)
  {
    hide Padded, Window, StreamOf, LastN, Injective;
    var file := files[names[i]];
    assert saved[..k] == file[p.seek..p.seek + k];
    assert saved[k..] == file[p.seek + k..fd.pos];
    if RingMatches(p.ring, file, p.seek) {
      FlushKeeps(p.ring, file, p.seek, k);
    }
  }

  /** The start of a file, as a place in the stream. */
  lemma AtStartOf(names: seq<Name>, files: Files, k: nat, sha1: Sha1)
    requires Listing(names, files) && k < |names|
    ensures Tracks(false, names, files, k, Fd(names[k], 0), Start.(filename := names[k]), [],
                   StreamOf(names, files, k), sha1)
  {
    hide RingMatches;
    hide StreamOf;
    var before := StreamOf(names, files, k);
    assert before + files[names[k]][..0] == before;
    StartMatches(files[names[k]]);
  }

  /** A file read to its end, of which a newer one was listed before, is done with:
    * the start of the next file is the same place. */
  lemma Rotate(names: seq<Name>, files: Files, i: nat, fd: Fd, p: Position, saved: seq<byte>, consumed: seq<byte>)
    requires Placed(names, files, i, fd, p, saved, consumed)
    requires i + 1 < |names| && fd.pos == |files[names[i]]|
    ensures consumed == StreamOf(names, files, i + 1)
  {
    var file := files[names[i]];
    assert file[..fd.pos] == file;
  }

  lemma InRange(lost: bool, names: seq<Name>, files: Files, i: nat, fd: Fd, p: Position, saved: seq<byte>,
                consumed: seq<byte>, sha1: Sha1)
    requires Tracks(lost, names, files, i, fd, p, saved, consumed, sha1)
    ensures i < |names| && fd.name == names[i] && fd.name in files && fd.pos <= |files[fd.name]|
    ensures p.filename in names && p.filename in files
  {
  }

  /** At the end of the last file, all of the stream has been consumed. */
  lemma WholeStream(names: seq<Name>, files: Files, i: nat, fd: Fd, p: Position, saved: seq<byte>, consumed: seq<byte>)
    requires Placed(names, files, i, fd, p, saved, consumed)
    requires i + 1 == |names| && fd.pos == |files[names[i]]|
    ensures consumed == StreamOf(names, files, |names|)
  {
    assert files[names[i]][..fd.pos] == files[names[i]];
  }

  lemma StartMatches(file: seq<byte>)
    ensures RingMatches([], file, 0)
  {
    WindowAtStart(file);
  }

  class Stream {
    var position: Position
    var fd: Option<Fd>
    var saveBuffer: seq<byte>
    var saveCap: nat
    var priorEOF: bool
    var journal: Option<Position>
    const w: World
    const sha1: Sha1
    // The file being read, the part of the stream before the file offset, whether what
    // is recorded is wrong, and how often the reader has switched to another place of
    // the stream than the one it stood at.
    ghost var current: nat
    ghost var consumed: seq<byte>
    ghost var lost: bool
    ghost var jumps: nat

    constructor (w: World, sha1: Sha1, position: Position)
      requires w.Valid() && |position.ring| <= LINEBUFFERLEN
      requires position.seek == 0 ==> Padded(position.ring) == Zeros(LINEBUFFERLEN)
      ensures Valid() && fd.None? && this.position == position && this.w == w && this.sha1 == sha1
    {
      this.position, this.w, this.sha1 := position, w, sha1;
      fd, saveBuffer, saveCap, priorEOF, journal := None, [], 200, false, None;
      current, consumed, lost, jumps := 0, [], false, 0;
    }

    ghost predicate Valid()
      reads this, w
    {
      && w.Valid() && |saveBuffer| <= saveCap && |position.ring| <= LINEBUFFERLEN
      && (fd.Some? ==> Tracks(lost, w.names, w.files, current, fd.value, position, saveBuffer, consumed, sha1))
      && (fd.None? ==>
            saveBuffer == [] && !lost && !priorEOF && (position.seek == 0 ==> Padded(position.ring) == Zeros(LINEBUFFERLEN)))
    }

    /** The open file and the stream to its end. */
    ghost predicate AtEOF()
      reads this, w
    {
      fd.Some? && fd.value.name in w.files && fd.value.pos == |w.files[fd.value.name]|
    }

    ghost function Everything(): seq<byte>
      requires w.Valid()
      reads this, w
    {
      StreamOf(w.names, w.files, |w.names|)
    }

    /** What NewerFileAvailable would say in a world that stands still. */
    ghost function Ahead(): Option<Name>
      requires Valid() && fd.Some?
      reads this, w
    {
      NewerFile(GenerateHash(position, sha1), w.names, w.files, |w.files[fd.value.name]|,
                |w.files[position.filename]|, sha1).0
    }

    /** Something was flushed, and the place looks like none in an earlier file. */
    ghost predicate Recoverable()
      requires Valid() && fd.Some?
      reads this, w
    {
      Unique(w.names, w.files, current, position.seek)
    }

    /** FlushBuffer: move the recorded position on by `n` buffered bytes (0, or more
      * than there are, for all of them), without moving in the stream. */
    method FlushBuffer(n: nat)
      requires Valid() && fd.Some?
      modifies this`position, this`saveBuffer, this`lost
      ensures Valid() && (lost ==> old(lost)) && (Injective(sha1) ==> lost == old(lost))
      ensures var k := if n == 0 || n > |old(saveBuffer)| then |old(saveBuffer)| else n;
              && position.seek == old(position.seek) + k && saveBuffer == old(saveBuffer)[k..]
              && position.filename == old(position.filename) && position.hash == old(position.hash)
    {
      hide Tracks, OnTrack, Injective;
      Seen();
      var k := if n == 0 || n > |saveBuffer| then |saveBuffer| else n;
      FlushTracks(lost, w.names, w.files, current, fd.value, position, saveBuffer, consumed, k, sha1);
      position := position.(seek := position.seek + k,
                            ring := LastN(position.ring + saveBuffer[..k], LINEBUFFERLEN));
      saveBuffer := saveBuffer[k..];
      lost := !OnTrack(w.names, w.files, current, position);
    }

    /** LogstreamLocation.Save. */
    method SavePosition()
      requires Valid()
      modifies this`position, this`journal
      ensures Valid() && position == GenerateHash(old(position), sha1) && journal == Some(position)
    {
      position := GenerateHash(position, sha1);
      journal := Some(position);
    }

    /** BufferSave, for bytes just read into a slice of capacity `pcap`: the buffer
      * grows to that capacity, and is flushed first if they still do not fit. */
    method BufferSave(p: seq<byte>, pcap: nat)
      requires |p| <= pcap
      requires fd.Some? && Valid() && fd.value.pos + |p| <= |w.files[fd.value.name]|
      requires p == w.files[fd.value.name][fd.value.pos..fd.value.pos + |p|]
      modifies this`position, this`saveBuffer, this`saveCap, this`fd, this`consumed, this`lost
      ensures Valid() && fd == Some(Fd(old(fd).value.name, old(fd).value.pos + |p|))
      ensures (lost ==> old(lost)) && (Injective(sha1) ==> lost == old(lost))
      ensures consumed == old(consumed) + p
      ensures position.filename == old(position.filename) && position.hash == old(position.hash)
      ensures |old(saveBuffer)| + |p| <= pcap ==> position == old(position) && lost == old(lost)
    {
      hide Placed, Recorded, Injective;
      if saveCap < pcap {
        saveCap := pcap;
      }
      if |saveBuffer| + |p| > saveCap {
        FlushBuffer(|saveBuffer|);
      }
      InRange(lost, w.names, w.files, current, fd.value, position, saveBuffer, consumed, sha1);
      ReadOn(w.names, w.files, current, fd.value, position, saveBuffer, consumed, p);
      saveBuffer := saveBuffer + p;
      fd := Some(Fd(fd.value.name, fd.value.pos + |p|));
      consumed := consumed + p;
    }

    /** GenerateHash on the recorded position. */
    method Rehash()
      requires Valid()
      modifies this`position
      ensures Valid() && position == GenerateHash(old(position), sha1) == GenerateHash(position, sha1)
    {
      position := GenerateHash(position, sha1);
    }

    /** Read from the open file, without yet recording it. */
    method ReadFile(plen: nat) returns (data: seq<byte>)
      requires fd.Some? && fd.value.name in w.files && fd.value.pos <= |w.files[fd.value.name]| && plen > 0
      ensures |data| <= plen && fd.value.pos + |data| <= |w.files[fd.value.name]|
      ensures data == w.files[fd.value.name][fd.value.pos..fd.value.pos + |data|]
      ensures data == [] <==> fd.value.pos == |w.files[fd.value.name]|
      ensures |w.files[fd.value.name]| - fd.value.pos <= plen ==> data == w.files[fd.value.name][fd.value.pos..]
    {
      var file, pos := w.files[fd.value.name], fd.value.pos;
      data := file[pos..if |file| - pos <= plen then |file| else pos + plen];
    }

    /** Time passes between two steps of the reader. */
    method Meanwhile()
      requires Valid()
      modifies w
      ensures Valid() && Evolved(old(w.names), old(w.files), w.names, w.files)
      ensures fd.Some? ==> Recoverable() == old(Recoverable())
      ensures |w.script| < |old(w.script)| || Still(old(w.names), old(w.files), old(w.script))
      ensures old(w.script) != [] ==> w.script == old(w.script)[1..]
      ensures old(w.script) != [] ==>
                (w.names, w.files) == AllHappened(old(w.names), old(w.files), old(w.script)[0])
    {
      hide Tracks, Unique;
      if fd.Some? {
        Seen();
      }
      w.Tick();
      if fd.Some? {
        UniqueOn(old(w.names), old(w.files), w.names, w.files, current, position.seek);
        TracksOn(lost, old(w.names), old(w.files), w.names, w.files, current, fd.value, position, saveBuffer, consumed,
                 sha1);
      }
    }

    /** Nothing has happened, or will. */
    ghost predicate Still(names: seq<Name>, files: Files, script: seq<seq<Change>>)
      reads this, w
    {
      script == w.script == [] && w.names == names && w.files == files
    }

    ghost function Next(): Option<Name>
      reads this, w
    {
      if current + 1 < |w.names| then Some(w.names[current + 1]) else None
    }

    /** The comparison in NewerFileAvailable, for the sizes it has looked up.  What is
      * recorded becomes wrong exactly for an open file behind the first that was empty
      * and no longer is; and right again, exactly if the place is recoverable. */
    method Compare(lastSize: nat, newSize: nat) returns (look: Look)
      requires Valid() && fd.Some? && position == GenerateHash(position, sha1)
      requires !lost ==> lastSize <= newSize <= |w.files[fd.value.name]|
      requires lastSize == 0 ==> !lost && fd.value.pos == 0
      modifies this`position, this`lost
      ensures Valid() && position == GenerateHash(position, sha1)
      ensures (look, position) == Recognise(old(position), w.names, w.files, lastSize, newSize, sha1)
      ensures !old(lost) ==> (lost <==> current > 0 && lastSize == 0 && newSize > 0)
      ensures old(lost) && Injective(sha1) ==> (lost <==> !Recoverable()) && look == Here(false)
      ensures position.seek == old(position.seek) && position.hash == old(position.hash)
      ensures !lost ==> look == Here(lastSize == 0 && newSize > 0)
      ensures lost && !old(lost) ==> && position == old(position).(filename := w.names[0]) && position.seek == 0
                                     && look.Here?
      ensures look.Elsewhere? && look.newer.Some? ==> look.newer.value in w.names
    {
      hide Recognise, StreamOf, RingMatches, Unique, Injective, GenerateHash;
      Seen();
      var r := Recognise(position, w.names, w.files, lastSize, newSize, sha1);
      RecogniseAny(position, w.names, w.files, lastSize, newSize, sha1);
      if !lost {
        CompareOnTrack(lastSize, newSize);
      } else if Injective(sha1) {
        CompareLost(lastSize, newSize);
      }
      look := r.0;
      position := r.1;
      lost := !OnTrack(w.names, w.files, current, position);
    }

    /** From a right record. */
    lemma CompareOnTrack(lastSize: nat, newSize: nat)
      requires Valid() && fd.Some? && position == GenerateHash(position, sha1) && !lost
      requires lastSize <= newSize <= |w.files[fd.value.name]|
      requires lastSize == 0 ==> fd.value.pos == 0
      ensures var r := Recognise(position, w.names, w.files, lastSize, newSize, sha1);
              && r.0 == Here(lastSize == 0 && newSize > 0)
              && RingMatches(r.1.ring, w.files[w.names[current]], r.1.seek) && r.1.seek == position.seek
              && if lastSize == 0 && newSize > 0 then r.1 == position.(filename := w.names[0]) && r.1.seek == 0
                 else r.1.filename == position.filename
      ensures newSize > 0 ==> |w.files[w.names[current]]| > 0
      ensures current > 0 ==> w.names[0] in w.names[..current] && w.names[0] != w.names[current]
    {
      hide Recognise, RingMatches, StreamOf, GenerateHash, Injective;
      if lastSize == 0 && newSize > 0 {
        EmptyFileRace(position, w.names, w.files, current, newSize, sha1);
      } else {
        RecogniseHere(position, w.names, w.files, current, lastSize, newSize, sha1);
      }
      assert current > 0 ==> w.names[..current][0] == w.names[0];
    }

    /** From a wrong one. */
    lemma CompareLost(lastSize: nat, newSize: nat)
      requires Valid() && fd.Some? && position == GenerateHash(position, sha1) && lost && Injective(sha1) && lastSize > 0
      ensures var r := Recognise(position, w.names, w.files, lastSize, newSize, sha1);
              && r.0 == Here(false) && RingMatches(r.1.ring, w.files[w.names[current]], r.1.seek)
              && (if Recoverable() then r.1.filename == w.names[current]
                  else r.1.filename in w.names[..current] && r.1.filename != w.names[current])
    {
      hide Recognise, RingMatches, StreamOf, GenerateHash, Injective, Unique;
      RenamedIffUnique(position, w.names, w.files, current, lastSize, newSize, sha1);
      assert w.names[current] !in w.names[..current];
    }

    /** NewerFileAvailable, with time passing between its steps.  The next file of the
      * list, if there is one; but an open file that was empty at the first look, is
      * not at the second, and is not the first of the list, is lost track of. */
    method NewerFileAvailable() returns (newer: Option<Name>, lastSize: nat, newSize: nat)
      requires Valid() && fd.Some? && position == GenerateHash(position, sha1)
      modifies this`position, this`lost, w
      ensures Valid() && Evolved(old(w.names), old(w.files), w.names, w.files)
      ensures |w.script| < |old(w.script)| || Still(old(w.names), old(w.files), old(w.script))
      ensures lastSize == |old(w.files)[fd.value.name]| && Recoverable() == old(Recoverable())
      ensures !old(lost) ==> (lost <==> current > 0 && lastSize == 0 && newSize > 0)
      ensures old(lost) && Injective(sha1) ==> (lost <==> !Recoverable())
      ensures position.seek == old(position.seek) && position.hash == old(position.hash)
      ensures position == GenerateHash(position, sha1)
      ensures !lost ==> newer == Next() || !AtEOF()
      ensures lost && Injective(sha1) ==> newer.Some? && IndexOf(w.names, newer.value) <= current
      ensures lost && !old(lost) ==>
                && !AtEOF() && |old(w.names)| == current + 1 && |w.script| < |old(w.script)|
                && position == old(position).(filename := w.names[0]) && position.seek == 0
      ensures newer.Some? ==> newer.value in w.names
      ensures |old(w.script)| == 1 ==> (w.names, w.files) == AllHappened(old(w.names), old(w.files), old(w.script)[0])
      ensures |old(w.script)| <= 1 ==>
                && w.script == [] && newSize == |w.files[old(position.filename)]|
                && (newer, position) == NewerFile(old(position), w.names, w.files, lastSize, newSize, sha1)
    {
      hide Recognise, Valid, Evolved, AllHappened, GenerateHash, Listing, IndexOf, Unique, Injective, Newer;
      ghost var names0, files0 := w.names, w.files;
      var look;
      look, lastSize, newSize := LookAndCompare();
      Seen();
      ghost var names2, files2 := w.names, w.files;
      newer := Answer(look);
      GrowsAt(names2, files2, w.names, w.files, 0);
      EvolvedOn(names0, files0, names2, files2, w.names, w.files);
    }

    /** Its end: the file ahead in the list, which may have grown since. */
    method Answer(look: Look) returns (newer: Option<Name>)
      requires Valid() && fd.Some?
      requires look.Elsewhere? && look.newer.Some? ==> look.newer.value in w.names
      modifies w
      ensures Valid() && Evolved(old(w.names), old(w.files), w.names, w.files) && Recoverable() == old(Recoverable())
      ensures |w.script| < |old(w.script)| || Still(old(w.names), old(w.files), old(w.script))
      ensures newer == Newer(look, position, w.names) && (newer.Some? ==> newer.value in w.names)
      ensures look == Here(false) && !lost ==> newer == Next()
      ensures look.Here? && lost && Injective(sha1) ==> newer.Some? && IndexOf(w.names, newer.value) <= current
      ensures !old(AtEOF()) ==> !AtEOF()
    {
      hide Valid, Evolved, AllHappened, Listing, IndexOf, Unique, Injective;
      Seen();
      ghost var names0, files0 := w.names, w.files;
      Meanwhile();
      Seen();
      GrowsAt(names0, files0, w.names, w.files, current);
      newer := Newer(look, position, w.names);
      ListGrows(names0, files0, w.names, w.files, look, position);
      if !lost {
        IndexOfListed(w.names, current);
      } else if look.Here? && Injective(sha1) {
        EarlierAhead(position, w.names, w.files, current, look.priorWasEmpty);
      }
    }

    /** Its first part, up to the comparison. */
    method LookAndCompare() returns (look: Look, lastSize: nat, newSize: nat)
      requires Valid() && fd.Some? && position == GenerateHash(position, sha1)
      modifies this`position, this`lost, w
      ensures Valid() && Evolved(old(w.names), old(w.files), w.names, w.files)
      ensures |w.script| < |old(w.script)| || Still(old(w.names), old(w.files), old(w.script))
      ensures lastSize == |old(w.files)[fd.value.name]| && Recoverable() == old(Recoverable())
      ensures !old(lost) ==> (lost <==> current > 0 && lastSize == 0 && newSize > 0)
      ensures old(lost) && Injective(sha1) ==> (lost <==> !Recoverable()) && look.Here?
      ensures position.seek == old(position.seek) && position.hash == old(position.hash)
      ensures position == GenerateHash(position, sha1)
      ensures !lost ==> look == Here(lastSize == 0 && newSize > 0) && (look.priorWasEmpty ==> !AtEOF())
      ensures lost && !old(lost) ==>
                && !AtEOF() && |old(w.names)| == current + 1 && |w.script| < |old(w.script)| && look.Here?
                && position == old(position).(filename := w.names[0]) && position.seek == 0
      ensures look.Elsewhere? && look.newer.Some? ==> look.newer.value in w.names
      ensures |old(w.script)| == 1 ==> (w.names, w.files) == AllHappened(old(w.names), old(w.files), old(w.script)[0])
      ensures |old(w.script)| <= 1 ==> w.script == [] && newSize == |w.files[old(position.filename)]|
      ensures (look, position) == Recognise(old(position), w.names, w.files, lastSize, newSize, sha1)
    {
      hide Recognise, Valid, Evolved, AllHappened, GenerateHash, Listing, Unique, Injective;
      Seen();
      ghost var names0, files0 := w.names, w.files;
      lastSize, newSize := LookTwice();
      Seen();
      GrowsAt(names0, files0, w.names, w.files, current);
      look := Compare(lastSize, newSize);
    }

    /** The size of the open file, and a moment later that of the recorded one. */
    method LookTwice() returns (lastSize: nat, newSize: nat)
      requires Valid() && fd.Some?
      modifies w
      ensures Valid() && Evolved(old(w.names), old(w.files), w.names, w.files)
      ensures |w.script| < |old(w.script)| || Still(old(w.names), old(w.files), old(w.script))
      ensures |old(w.script)| <= 1 ==> w.script == []
      ensures |old(w.script)| == 1 ==> (w.names, w.files) == AllHappened(old(w.names), old(w.files), old(w.script)[0])
      ensures lastSize == |old(w.files)[fd.value.name]|
      ensures !lost ==> lastSize <= newSize <= |w.files[fd.value.name]|
      ensures lastSize == 0 ==> !lost && fd.value.pos == 0
      ensures lastSize == 0 && newSize > 0 ==> |old(w.names)| == current + 1 && |w.script| < |old(w.script)|
      ensures |old(w.script)| <= 1 ==> newSize == |w.files[position.filename]|
      ensures Recoverable() == old(Recoverable())
    {
      hide Valid, Evolved, AllHappened, Listing;
      Seen();
      lastSize := |w.files[fd.value.name]|;
      ghost var names0, files0 := w.names, w.files;
      Meanwhile();
      Seen();
      GrowsAt(names0, files0, w.names, w.files, current);
      newSize := |w.files[position.filename]|;
      ghost var names1, files1 := w.names, w.files;
      Meanwhile();
      Seen();
      GrowsAt(names1, files1, w.names, w.files, current);
      EvolvedOn(names0, files0, names1, files1, w.names, w.files);
    }

    /** What an open stream knows of the files it names. */
    lemma Seen()
      requires Valid() && fd.Some?
      ensures Listing(w.names, w.files) && current < |w.names| && fd.value.name == w.names[current]
      ensures fd.value.name in w.files && fd.value.pos <= |w.files[fd.value.name]|
      ensures position.filename in w.names && position.filename in w.files
      ensures |position.ring| <= LINEBUFFERLEN
      ensures !lost ==> position.filename == fd.value.name
      ensures lost ==> |w.files[fd.value.name]| > 0
      ensures lost && Injective(sha1) ==> position.filename in w.names[..current]
      ensures position.seek + |saveBuffer| == fd.value.pos
    {
    }

    /** readBytes: the next bytes of the stream, moving on to the next file only after
      * an end of file seen once that was listed.  End of file is reported only when the
      * list has nothing more to give.  A stream that got lost goes on rightly to the end
      * of its file, and beyond it exactly if its place is recoverable; otherwise it is
      * sent back, and delivers bytes again. */
    method ReadBytes(plen: nat, pcap: nat) returns (data: seq<byte>, eof: bool)
      requires Valid() && fd.Some? && 0 < plen <= pcap
      modifies this, w
      ensures Valid() && fd.Some? && |data| <= plen && (eof <==> data == []) && (eof ==> priorEOF)
      ensures eof && old(priorEOF ==> Saved(true)) ==> Saved(true)
      ensures eof && !old(lost) && old(priorEOF ==> Saved(false)) ==> Saved(false)
      ensures !old(lost) ==> jumps == old(jumps)
      ensures jumps == old(jumps) ==> consumed == old(consumed) + data
      ensures lost && !old(lost) ==> current > 0 && data != [] && |w.script| < |old(w.script)|
      ensures old(w.script) == [] ==> Still(old(w.names), old(w.files), [])
      ensures eof && old(w.script) == [] && !lost ==> consumed == Everything() && current + 1 == |w.names| && AtEOF()
      ensures old(w.script) == [] && eof && Injective(sha1) ==> !lost
      ensures Injective(sha1) && old(Recoverable()) ==> jumps == old(jumps)
      ensures Injective(sha1) && jumps != old(jumps) ==> |consumed| < |old(consumed) + data|
      ensures Injective(sha1) && old(w.script) == [] ==>
                (jumps != old(jumps) <==> old(lost && AtEOF() && !Recoverable()))
      ensures old(w.script == [] && !(lost && AtEOF() && Ahead().Some?)) ==> jumps == old(jumps)
      ensures old(lost && w.script == [] && AtEOF() && Ahead().Some?) ==>
                && !lost && old(Ahead()).value in w.names
                && consumed == StreamOf(w.names, w.files, IndexOf(w.names, old(Ahead()).value)) + data
      ensures old(GrowsBetween()) && |old(Growth())| <= plen ==>
                && lost && current == old(current) && data == old(Growth()) != [] && AtEOF()
                && position.filename == w.names[0] && position.seek == 0
                && Grown(old(w.names), old(w.files), old(Growth()))
      decreases |w.script|, lost, |w.names| - current, !priorEOF
    {
      hide Valid, StreamOf, NewerFile, Listing, IndexOf, Unique, Injective;
      hide GrowsBetween, Growth, Grown, Ahead, Recoverable;
      Seen();
      var again;
      data, eof, again := Step(plen, pcap);
      if again {
        Seen();
        data, eof := ReadBytes(plen, pcap);
      }
    }

    /** One round of readBytes: bytes, an end of file, or another round, after marking
      * the end of file or moving on to another file. */
    method Step(plen: nat, pcap: nat) returns (data: seq<byte>, eof: bool, again: bool)
      requires Valid() && fd.Some? && 0 < plen <= pcap
      modifies this, w
      ensures Valid() && fd.Some? && |data| <= plen
      ensures (eof ==> priorEOF) && (data == [] <==> eof || again) && !(eof && again)
      ensures data == [] && priorEOF && old(priorEOF ==> Saved(true)) ==> Saved(true)
      ensures data == [] && priorEOF && !old(lost) && old(priorEOF ==> Saved(false)) ==> Saved(false)
      ensures |w.script| < |old(w.script)| || Still(old(w.names), old(w.files), old(w.script))
      ensures jumps == if consumed == old(consumed) + data then old(jumps) else old(jumps) + 1
      ensures jumps != old(jumps) ==> again && old(lost) && !lost && (Injective(sha1) ==> |consumed| < |old(consumed)|)
      ensures lost && !old(lost) ==> data != [] && current > 0 && |w.script| < |old(w.script)|
      ensures eof && old(w.script) == [] && !lost ==> consumed == Everything() && current + 1 == |w.names| && AtEOF()
      ensures eof && Injective(sha1) ==> !lost && (old(lost) ==> old(Recoverable()))
      ensures again && |w.script| == |old(w.script)| ==>
                && (lost ==> old(lost))
                && (lost == old(lost) && current <= old(current) ==> current == old(current) && priorEOF && !old(priorEOF))
      ensures again && old(Recoverable()) && Injective(sha1) ==> (lost ==> Recoverable()) && jumps == old(jumps)
      ensures old(w.script) == [] ==> (data == [] <==> old(AtEOF()))
      ensures again && lost && old(w.script) == [] ==>
                AtEOF() && Recoverable() == old(Recoverable()) && Ahead() == old(Ahead()) && jumps == old(jumps)
      ensures again && old(lost) && !lost && old(w.script) == [] ==>
                && old(Ahead()).Some? && old(Ahead()).value in w.names
                && consumed == StreamOf(w.names, w.files, IndexOf(w.names, old(Ahead()).value))
                && (Injective(sha1) && !old(Recoverable()) ==> jumps != old(jumps))
      ensures eof && old(lost) && old(w.script) == [] ==> old(Ahead()).None?
      ensures old(GrowsBetween()) && |old(Growth())| <= plen ==>
                && lost && current == old(current) && data == old(Growth()) != [] && AtEOF()
                && position.filename == w.names[0] && position.seek == 0
                && Grown(old(w.names), old(w.files), old(Growth()))
    {
      hide Valid, StreamOf, NewerFile, GenerateHash, Listing, IndexOf, Unique, Injective;
      hide GrowsBetween, Growth, Grown, Ahead, Recoverable, Repeats, Next;
      Seen();
      var newer;
      data, newer := TryRead(plen, pcap);
      eof, again := false, false;
      if data == [] {
        Seen();
        if !priorEOF {
          MarkEOF();
          again := true;
        } else if newer.None? {
          if old(w.script) == [] && !lost {
            AllRead();
          }
          eof := true;
        } else {
          var _ := MoveOn(newer.value);
          again := true;
        }
      }
    }

    /** The journal holds the recorded offset, and the recorded name. */
    ghost predicate Saved(anyName: bool)
      reads this
    {
      journal.Some? && journal.value.seek == position.seek && (anyName || journal.value.filename == position.filename)
    }

    /** The open file, empty and the last of several, grows between the two looks of the
      * next NewerFileAvailable. */
    ghost predicate GrowsBetween()
      reads this, w
    {
      && fd.Some? && !lost && priorEOF && 0 < current == |w.names| - 1
      && fd.value.name in w.files && w.files[fd.value.name] == []
      && |w.script| == 2 && w.script[0] == [] && |w.script[1]| == 1 && w.script[1][0].Append? && w.script[1][0].data != []
    }

    ghost function Growth(): seq<byte>
      reads this, w
    {
      if GrowsBetween() then w.script[1][0].data else []
    }

    ghost predicate Grown(names: seq<Name>, files: Files, data: seq<byte>)
      reads this, w
    {
      w.script == [] && names != [] && w.names == names && w.files == files[names[|names| - 1] := data]
    }

    /** The first part of readBytes: look for a newer file after an end of file, and
      * then read on. */
    method TryRead(plen: nat, pcap: nat) returns (data: seq<byte>, newer: Option<Name>)
      requires Valid() && fd.Some? && 0 < plen <= pcap
      modifies this, w
      ensures Valid() && fd.Some? && |data| <= plen
      ensures consumed == old(consumed) + data && jumps == old(jumps) && current == old(current)
      ensures |w.script| < |old(w.script)| || Still(old(w.names), old(w.files), old(w.script))
      ensures lost && !old(lost) ==> data != [] && current > 0 && |w.script| < |old(w.script)|
      ensures data == [] ==> AtEOF() && priorEOF == old(priorEOF) && fd == old(fd) && Recoverable() == old(Recoverable())
      ensures journal == old(journal) && (data == [] ==> position.seek == old(position.seek))
      ensures data == [] && !old(lost) ==> position.filename == old(position.filename)
      ensures old(w.script) == [] ==> (data == [] <==> old(AtEOF()))
      ensures newer.Some? ==> newer.value in w.names
      ensures data == [] && priorEOF ==> position == GenerateHash(position, sha1)
      ensures data == [] && priorEOF && !lost ==>
                (newer.Some? ==> newer == Next()) && (newer.None? && old(w.script) == [] ==> Next().None?)
      ensures data == [] && priorEOF && old(lost) && old(w.script) == [] ==> newer == old(Ahead()) && Repeats(newer)
      ensures data == [] && priorEOF && Injective(sha1) ==> (lost <==> old(lost) && !Recoverable()) && (lost ==> newer.Some?)
      ensures data == [] && !priorEOF ==> lost == old(lost) && (old(w.script) == [] ==> Ahead() == old(Ahead()))
      ensures old(GrowsBetween()) && |old(Growth())| <= plen ==>
                && lost && current == old(current) && data == old(Growth()) != [] && AtEOF()
                && position.filename == w.names[0] && position.seek == 0
                && Grown(old(w.names), old(w.files), old(Growth()))
    {
      hide Valid, StreamOf, NewerFile, Evolved, AllHappened, GenerateHash, Listing, IndexOf, Unique, Injective;
      Seen();
      newer := None;
      if priorEOF {
        newer := CheckNewer();
        Seen();
      }
      ghost var names1, files1 := w.names, w.files;
      data := ReadOnward(plen, pcap);
      GrowsAt(names1, files1, w.names, w.files, current);
      if newer.Some? {
        StillIn(names1, files1, w.names, w.files, newer.value);
      }
    }

    /** Read what has arrived in the open file by now. */
    method ReadOnward(plen: nat, pcap: nat) returns (data: seq<byte>)
      requires Valid() && fd.Some? && 0 < plen <= pcap
      modifies this`position, this`saveBuffer, this`saveCap, this`fd, this`consumed, this`priorEOF, this`lost, w
      ensures Valid() && fd.Some? && |data| <= plen && fd.value.name == old(fd.value.name)
      ensures Evolved(old(w.names), old(w.files), w.names, w.files)
      ensures |w.script| < |old(w.script)| || Still(old(w.names), old(w.files), old(w.script))
      ensures consumed == old(consumed) + data
      ensures data == [] ==> && AtEOF() && priorEOF == old(priorEOF) && fd == old(fd) && position == old(position)
                             && lost == old(lost) && Recoverable() == old(Recoverable())
      ensures (lost ==> old(lost)) && (Injective(sha1) ==> lost == old(lost))
      ensures fd.value.pos == old(fd.value.pos) + |data| && fd.value.name in w.files
      ensures old(w.script) == [] ==> (data == [] <==> old(AtEOF()))
      ensures |w.files[fd.value.name]| - old(fd.value.pos) <= plen ==> AtEOF()
      ensures old(fd.value.pos) == 0 ==> data <= w.files[fd.value.name] && position == old(position) && lost == old(lost)
    {
      hide Tracks, StreamOf, Evolved, AllHappened, Listing, Unique, Injective;
      Meanwhile();
      Seen();
      data := ReadFile(plen);
      if data != [] {
        BufferSave(data, pcap);
        priorEOF := false;
      }
    }

    /** Remember an end of file, and save the position at it. */
    method MarkEOF()
      requires Valid() && fd.Some?
      modifies this`position, this`journal, this`priorEOF
      ensures Valid() && position == GenerateHash(old(position), sha1) && journal == Some(position) && priorEOF
      ensures Recoverable() == old(Recoverable()) && Ahead() == old(Ahead())
    {
      hide Tracks, Unique, NewerFile, GenerateHash;
      Seen();
      HashTwice(position, sha1);
      priorEOF := true;
      SavePosition();
    }

    lemma AllRead()
      requires Valid() && AtEOF() && Next().None?
      ensures consumed == Everything() && current + 1 == |w.names|
    {
      WholeStream(w.names, w.files, current, fd.value, position, saveBuffer, consumed);
    }

    /** Nothing is consumed that is not there. */
    lemma NotBeyond()
      requires Valid() && fd.Some?
      ensures consumed <= Everything()
    {
      ConsumedIsPrefix(w.names, w.files, current, fd.value, position, saveBuffer, consumed);
    }

    /** The look for a newer file at the start of readBytes. */
    method CheckNewer() returns (newer: Option<Name>)
      requires Valid() && fd.Some?
      modifies this`position, this`lost, w
      ensures Valid() && Evolved(old(w.names), old(w.files), w.names, w.files)
      ensures |w.script| < |old(w.script)| || Still(old(w.names), old(w.files), old(w.script))
      ensures lost && !old(lost) ==> current > 0 && !AtEOF() && |w.script| < |old(w.script)|
      ensures position.seek == old(position.seek)
      ensures position == GenerateHash(position, sha1) && Recoverable() == old(Recoverable())
      ensures !lost ==> newer == Next() || !AtEOF()
      ensures old(lost) && Injective(sha1) ==> (lost <==> !Recoverable())
      ensures lost && Injective(sha1) ==> newer.Some?
      ensures newer.Some? ==> newer.value in w.names
      ensures old(lost) && old(w.script) == [] ==> newer == old(Ahead()) && Repeats(newer)
      ensures old(GrowsBetween()) ==>
                && lost && position.filename == w.names[0] && position.seek == 0
                && Grown(old(w.names), old(w.files), old(Growth()))
    {
      hide Tracks, StreamOf, NewerFile, Evolved, AllHappened, Unique, Injective;
      Seen();
      ghost var names0, files0 := w.names, w.files;
      Rehash();
      ghost var p := position;
      Meanwhile();
      Seen();
      ghost var names1, files1 := w.names, w.files;
      if old(GrowsBetween()) {
        AppendHappens(names0, files0, old(Growth()));
        assert old(w.script)[1] == [Append(old(Growth()))];
      }
      var lastSize, newSize;
      newer, lastSize, newSize := NewerFileAvailable();
      Seen();
      EvolvedOn(names0, files0, names1, files1, w.names, w.files);
      if old(lost) && old(w.script) == [] {
        NewerAgain(p, w.names, w.files, lastSize, sha1);
      }
    }

    /** Asked again, NewerFileAvailable would give the same answer. */
    ghost predicate Repeats(newer: Option<Name>)
      requires Valid() && fd.Some?
      reads this, w
    {
      NewerFile(position, w.names, w.files, |w.files[fd.value.name]|, |w.files[position.filename]|, sha1).0 == newer
    }

    /** The end of readBytes: open the newer file, look again, and switch to it, or
      * try all over if the second look says something else. */
    method MoveOn(newer: Name) returns (moved: bool)
      requires Valid() && fd.Some? && newer in w.names && position == GenerateHash(position, sha1)
      requires if lost then fd.value.pos > 0 else AtEOF() && Next() == Some(newer)
      modifies this, w
      ensures Valid() && fd.Some? && newer in w.names
      ensures |w.script| < |old(w.script)| || Still(old(w.names), old(w.files), old(w.script))
      ensures !old(lost) ==> moved && current == old(current) + 1 && consumed == old(consumed)
      ensures jumps == if consumed == old(consumed) then old(jumps) else old(jumps) + 1
      ensures !moved ==> journal == old(journal) && position.seek == old(position.seek)
      ensures moved ==> !lost && !priorEOF && current == IndexOf(w.names, newer)
                        && consumed == StreamOf(w.names, w.files, current)
      ensures !moved ==> old(lost) && consumed == old(consumed) && Recoverable() == old(Recoverable())
      ensures old(lost && !Recoverable()) && Injective(sha1) ==> if moved then |consumed| < |old(consumed)| else lost
      ensures old(lost && w.script == [] && Repeats(Some(newer))) ==> moved
    {
      hide Valid, StreamOf, NewerFile, GenerateHash, Listing, IndexOf, Unique, Injective;
      moved := LookAgain(newer);
      Seen();
      if moved {
        if !old(lost) {
          Finished();
        } else if !old(Recoverable()) && Injective(sha1) {
          SentBack(IndexOf(w.names, newer));
        }
        SwitchTo(newer);
      }
    }

    /** The second look: does it say the same? */
    method LookAgain(newer: Name) returns (same: bool)
      requires Valid() && fd.Some? && newer in w.names && position == GenerateHash(position, sha1)
      requires if lost then fd.value.pos > 0 else AtEOF() && Next() == Some(newer)
      modifies this`position, this`lost, w
      ensures Valid() && newer in w.names && Recoverable() == old(Recoverable()) && (lost ==> old(lost))
      ensures position.seek == old(position.seek)
      ensures |w.script| < |old(w.script)| || Still(old(w.names), old(w.files), old(w.script))
      ensures !old(lost) ==> same && AtEOF() && Next() == Some(newer)
      ensures old(lost && !Recoverable()) && Injective(sha1) ==> lost && (same ==> 0 <= IndexOf(w.names, newer) <= current)
      ensures old(lost && w.script == [] && Repeats(Some(newer))) ==> same
    {
      hide Valid, StreamOf, NewerFile, Evolved, AllHappened, GenerateHash, Listing, IndexOf, Unique, Injective;
      Seen();
      ghost var names0, files0 := w.names, w.files;
      Meanwhile();
      Seen();
      GrowsAt(names0, files0, w.names, w.files, current);
      StillIn(names0, files0, w.names, w.files, newer);
      assert !lost ==> AtEOF() && Next() == Some(newer);
      ghost var names1, files1 := w.names, w.files;
      var verify, _, _ := NewerFileAvailable();
      Seen();
      GrowsAt(names1, files1, w.names, w.files, current);
      StillIn(names1, files1, w.names, w.files, newer);
      same := verify == Some(newer);
    }

    /** Every file up to the open one starts before the place in it. */
    lemma SentBack(k: int)
      requires Valid() && fd.Some? && fd.value.pos > 0 && 0 <= k <= current
      ensures |StreamOf(w.names, w.files, k)| < |consumed|
    {
      hide Recorded, StreamOf;
      GoesBack(w.names, w.files, current, fd.value, position, saveBuffer, consumed, k);
    }

    method SwitchTo(newer: Name)
      requires Valid() && fd.Some? && newer in w.names
      modifies this
      ensures Valid() && fd == Some(Fd(newer, 0)) && !lost && !priorEOF && current == IndexOf(w.names, newer)
      ensures consumed == StreamOf(w.names, w.files, current)
      ensures jumps == if consumed == old(consumed) then old(jumps) else old(jumps) + 1
    {
      hide Tracks, StreamOf, Injective;
      FlushBuffer(0);
      position := Start.(filename := newer);
      fd := Some(Fd(newer, 0));
      current := IndexOf(w.names, newer);
      consumed := StreamOf(w.names, w.files, current);
      if consumed != old(consumed) {
        jumps := jumps + 1;
      }
      saveBuffer, lost, priorEOF := [], false, false;
      AtStartOf(w.names, w.files, current, sha1);
    }

    /** The next file starts where this one ends. */
    lemma Finished()
      requires Valid() && !lost && AtEOF() && current + 1 < |w.names|
      ensures consumed == StreamOf(w.names, w.files, current + 1)
      ensures IndexOf(w.names, w.names[current + 1]) == current + 1
    {
      Rotate(w.names, w.files, current, fd.value, position, saveBuffer, consumed);
      IndexOfListed(w.names, current + 1);
    }

    /** The first part of Read, for a stream with no open file: find the recorded
      * place again, first under its own name and then anywhere in the list, or
      * start with the oldest file. */
    method Open() returns (isOpen: bool)
      requires Valid() && fd.None?
      modifies this`position, this`fd, this`current, this`consumed
      ensures Valid() && !lost && isOpen == (w.names != []) && (isOpen <==> fd.Some?)
      ensures isOpen ==> && OpensAt(old(position), w.names, w.files, sha1, current, fd.value.pos)
                         && consumed == StreamOf(w.names, w.files, current) + w.files[w.names[current]][..fd.value.pos]
    {
      hide StreamOf, SeekInFile, RingMatches;
      if position.filename != "" {
        var i := IndexOf(w.names, position.filename);
        if i >= 0 {
          var r := SeekInFile(w.files[position.filename], position, sha1);
          if r.Some? {
            SeekOpens(w.files[position.filename], position, sha1);
            Begin(i, r.value);
            return true;
          }
        }
        var found := Locate(w.names, w.files, position, sha1, 0);
        ghost var first := LocateIsFirst(w.names, w.files, position, sha1, 0);
        if found.Some? {
          SeekOpens(w.files[found.value.filename], position, sha1);
          IndexOfListed(w.names, first);
          Begin(IndexOf(w.names, found.value.filename), found.value);
          return true;
        }
      }
      if |w.names| < 1 {
        return false;
      }
      StartMatches(w.files[w.names[0]]);
      Begin(0, Start.(filename := w.names[0]));
      return true;
    }

    method Begin(i: nat, p: Position)
      requires w.Valid() && |saveBuffer| <= saveCap && saveBuffer == [] && !lost
      requires i < |w.names| && p.filename == w.names[i] && RingMatches(p.ring, w.files[w.names[i]], p.seek)
      modifies this`position, this`fd, this`current, this`consumed
      ensures Valid() && fd == Some(Fd(w.names[i], p.seek)) && position == p && current == i
      ensures consumed == StreamOf(w.names, w.files, i) + w.files[w.names[i]][..p.seek]
    {
      position, fd, current := p, Some(Fd(p.filename, p.seek)), i;
      consumed := StreamOf(w.names, w.files, i) + w.files[w.names[i]][..p.seek];
    }

    /** Read: the next bytes of the stream. */
    method Read(plen: nat, pcap: nat) returns (data: seq<byte>, eof: bool)
      requires Valid() && 0 < plen <= pcap
      modifies this, w
      ensures Valid() && |data| <= plen && (eof <==> data == []) && (eof && fd.Some? ==> priorEOF)
      ensures eof && fd.Some? && old(fd.Some? && priorEOF ==> Saved(true)) ==> Saved(true)
      ensures eof && fd.Some? && !old(lost) && old(fd.Some? && priorEOF ==> Saved(false)) ==> Saved(false)
      ensures old(fd.Some?) ==> fd.Some? && (jumps == old(jumps) ==> consumed == old(consumed) + data)
      ensures !old(lost) ==> jumps == old(jumps)
      ensures lost && !old(lost) ==> current > 0 && data != [] && old(w.script) != []
      ensures old(fd.None?) && fd.None? ==> old(w.names) == [] && eof
      ensures forall i: nat, k: nat :: old(fd.None?) && OpensAt(old(position), old(w.names), old(w.files), sha1, i, k) ==>
                && i < |old(w.names)| && k <= |old(w.files)[old(w.names)[i]]|
                && consumed == StreamOf(old(w.names), old(w.files), i) + old(w.files)[old(w.names)[i]][..k] + data
      ensures old(w.script) == [] ==> Still(old(w.names), old(w.files), [])
      ensures eof && old(w.script) == [] && fd.Some? && !lost ==>
                consumed == Everything() && current + 1 == |w.names| && AtEOF()
      ensures old(w.script) == [] && eof && Injective(sha1) ==> !lost
      ensures Injective(sha1) && old(fd.Some? && Recoverable()) ==> jumps == old(jumps)
      ensures Injective(sha1) && jumps != old(jumps) ==> |consumed| < |old(consumed) + data|
      ensures Injective(sha1) && old(w.script) == [] ==>
                (jumps != old(jumps) <==> old(fd.Some? && lost && AtEOF() && !Recoverable()))
      ensures old(fd.Some? && w.script == [] && !(lost && AtEOF() && Ahead().Some?)) ==> jumps == old(jumps)
      ensures old(fd.Some? && lost && w.script == [] && AtEOF() && Ahead().Some?) ==>
                && !lost && old(Ahead()).value in w.names
                && consumed == StreamOf(w.names, w.files, IndexOf(w.names, old(Ahead()).value)) + data
      ensures old(GrowsBetween()) && |old(Growth())| <= plen ==>
                && lost && current == old(current) && data == old(Growth()) != [] && AtEOF()
                && position.filename == w.names[0] && position.seek == 0
                && Grown(old(w.names), old(w.files), old(Growth()))
    {
      hide Tracks, StreamOf, SeekInFile, NewerFile, Unique, Injective, Growth, Grown;
      if fd.None? {
        var isOpen := Open();
        if !isOpen {
          return [], true;
        }
      }
      data, eof := ReadBytes(plen, pcap);
    }
  }

  /** The place is found in this file. */
  predicate Accepts(file: seq<byte>, p: Position, sha1: Sha1) {
    p.seek <= |file| && SeekInFile(file, p, sha1).Some?
  }

  predicate NoneAccepts(names: seq<Name>, files: Files, p: Position, sha1: Sha1, k: nat)
    requires Listing(names, files) && k <= |names|
  {
    forall j :: 0 <= j < k ==> !Accepts(files[names[j]], p, sha1)
  }

  /** A stream that starts with a recorded place opens file `i` at `seek`: under the
    * recorded name if the place is recognised there; or else the oldest file in which it
    * is; or else, or with nothing recorded, the oldest file at its start. */
  predicate OpensAt(p: Position, names: seq<Name>, files: Files, sha1: Sha1, i: nat, seek: nat) {
    && Listing(names, files) && i < |names|
    && if p.filename in names && Accepts(files[p.filename], p, sha1) then names[i] == p.filename && seek == p.seek
       else if p.filename == "" || NoneAccepts(names, files, p, sha1, |names|) then i == 0 && seek == 0
       else seek == p.seek && Accepts(files[names[i]], p, sha1) && NoneAccepts(names, files, p, sha1, i)
  }

  /** With nothing recorded, the stream starts with the oldest file. */
  lemma OpensFresh(p: Position, names: seq<Name>, files: Files, sha1: Sha1)
    requires Listing(names, files) && names != [] && p.filename == ""
    ensures OpensAt(p, names, files, sha1, 0, 0) && StreamOf(names, files, 0) + files[names[0]][..0] == []
  {
  }

  lemma OpensAtOnly(p: Position, names: seq<Name>, files: Files, sha1: Sha1, i: nat, seek: nat, i': nat, seek': nat)
    requires OpensAt(p, names, files, sha1, i, seek) && OpensAt(p, names, files, sha1, i', seek')
    ensures i == i' && seek == seek' && seek <= |files[names[i]]|
  {
    hide SeekInFile;
  }

  /** However files were renamed or added since, a place of a file whose beginning is
    * still there is resumed in it, under whatever name, if its own name now leads to no
    * file that looks the same, and no older file does. */
  lemma RenamedFileResumed(p: Position, file: seq<byte>, names: seq<Name>, files: Files, i: nat, sha1: Sha1)
    requires Injective(sha1) && RingMatches(p.ring, file, p.seek) && p == GenerateHash(p, sha1) && p.seek > 0
    requires Listing(names, files) && i < |names| && p.filename != ""
    requires p.seek <= |files[names[i]]| && files[names[i]][..p.seek] == file[..p.seek]
    requires forall j: nat :: j < |names| && j != i && (j < i || names[j] == p.filename) ==>
               !LooksSame(names, files, j, i, p.seek)
    ensures OpensAt(p.(ring := []), names, files, sha1, i, p.seek)
  {
    hide SeekInFile, Window, Padded;
    var q := p.(ring := []);
    assert Window(files[names[i]], p.seek) == Window(file, p.seek) by {
      SameBefore(file, files[names[i]], p.seek);
    }
    forall j: nat | j < |names|
      ensures Accepts(files[names[j]], q, sha1) <==> LooksSame(names, files, j, i, p.seek)
    {
      FoundAgain(file, p, files[names[j]], [], sha1);
    }
  }

  lemma SameBefore(file: seq<byte>, file': seq<byte>, seek: nat)
    requires seek <= |file| && seek <= |file'| && file[..seek] == file'[..seek]
    ensures Window(file, seek) == Window(file', seek)
  {
  }

  lemma SeekOpens(file: seq<byte>, p: Position, sha1: Sha1)
    requires |p.ring| <= LINEBUFFERLEN && (p.seek == 0 ==> Padded(p.ring) == Zeros(LINEBUFFERLEN))
    requires SeekInFile(file, p, sha1).Some?
    ensures var r := SeekInFile(file, p, sha1).value;
            r == p.(ring := r.ring) && RingMatches(r.ring, file, p.seek)
  {
    if p.seek == 0 {
      WindowAtStart(file);
    } else if p.seek > |file| {
      SeekShort(file, p.seek);
    } else {
      SeekReadsWindow(file, p.seek);
      LastOfWhole(p.ring, Window(file, p.seek));
    }
  }

  /** The search finds the first file of the rest of the list that accepts the place. */
  lemma {:induction false} LocateIsFirst(names: seq<Name>, files: Files, p: Position, sha1: Sha1, k: nat) returns (i: nat)
    requires Listing(names, files) && k <= |names| && |p.ring| <= LINEBUFFERLEN
    ensures k <= i <= |names| && forall j :: k <= j < i ==> !Accepts(files[names[j]], p, sha1)
    ensures var r := Locate(names, files, p, sha1, k);
            if r.None? then i == |names|
            else && i < |names| && Accepts(files[names[i]], p, sha1)
                 && r == Some(SeekInFile(files[names[i]], p, sha1).value.(filename := names[i]))
    decreases |names| - k
  {
    hide SeekInFile;
    i := k;
    if k < |names| && !Accepts(files[names[k]], p, sha1) {
      i := LocateIsFirst(names, files, p, sha1, k + 1);
    }
  }

  lemma {:induction false} StreamPrefix(names: seq<Name>, files: Files, k: nat, n: nat)
    requires Listing(names, files) && k <= n <= |names|
    ensures StreamOf(names, files, k) <= StreamOf(names, files, n)
    decreases n
  {
    if k < n {
      StreamPrefix(names, files, k, n - 1);
    }
  }

  /** What has been consumed is always a prefix of the whole stream. */
  lemma ConsumedIsPrefix(names: seq<Name>, files: Files, i: nat, fd: Fd, p: Position, saved: seq<byte>, consumed: seq<byte>)
    requires Placed(names, files, i, fd, p, saved, consumed)
    ensures consumed <= StreamOf(names, files, |names|)
  {
    hide RingMatches;
    StreamPrefix(names, files, i + 1, |names|);
    var before, file := StreamOf(names, files, i), files[names[i]];
    assert StreamOf(names, files, i + 1) == before + file;
    assert before + file[..fd.pos] <= before + file;
  }

  /** Reading until end of file delivers the concatenation of all files, in the
    * order of the list, whatever the size of each read. */
  method ReadAll(s: Stream, plen: nat) returns (out: seq<byte>)
    requires s.Valid() && s.fd.None? && s.position.filename == "" && plen > 0
    requires s.w.script == [] && s.w.names != []
    modifies s, s.w
    ensures s.Valid() && out == StreamOf(s.w.names, s.w.files, |s.w.names|)
    ensures s.fd.Some? && !s.lost && s.consumed == out && s.current + 1 == |s.w.names| && s.AtEOF() && s.w.script == []
    ensures s.priorEOF
    ensures s.w.names == old(s.w.names) && s.w.files == old(s.w.files)
  {
    hide Placed, RingMatches, StreamOf, OpensAt;
    OpensFresh(s.position, s.w.names, s.w.files, s.sha1);
    var data, eof := s.Read(plen, plen);
    out := data;
    assert [] + data == data;
    ghost var whole := StreamOf(s.w.names, s.w.files, |s.w.names|);
    while !eof
      invariant s.Valid() && s.fd.Some? && !s.lost && out == s.consumed
      invariant s.w.script == [] && s.w.names == old(s.w.names) && s.w.files == old(s.w.files)
      invariant eof ==> out == whole && s.current + 1 == |s.w.names| && s.AtEOF() && s.priorEOF
      decreases |whole| - |out|, !eof
    {
      data, eof := s.Read(plen, plen);
      out := out + data;
      ConsumedIsPrefix(s.w.names, s.w.files, s.current, s.fd.value, s.position, s.saveBuffer, s.consumed);
    }
  }

  /** A stream built from the journal of another, however the files have grown since,
    * goes on exactly at the saved position: behind what was consumed, without the
    * bytes that were only buffered. */
  method Resume(st: Stream, plen: nat) returns (again: Stream, data: seq<byte>, eof: bool)
    requires st.Valid() && st.fd.Some? && !st.lost && plen > 0
    modifies st, st.w
    ensures fresh(again) && again.Valid() && (eof <==> data == [])
    ensures |old(st.saveBuffer)| <= |old(st.consumed)|
    ensures again.consumed == old(st.consumed)[..|old(st.consumed)| - |old(st.saveBuffer)|] + data
  {
    hide StreamOf, SeekInFile, NewerFile, AllHappened, Unique, Injective, Window, Padded;
    st.SavePosition();
    var p := st.journal.value.(ring := []);
    ghost var i, names0, files0 := st.current, st.w.names, st.w.files;
    SavedPlace(names0, files0, i, st.fd.value, st.position, st.saveBuffer, st.consumed);
    st.w.Tick();
    StillThere(names0, files0, st.w.names, st.w.files, i, st.position, st.sha1);
    again := new Stream(st.w, st.sha1, p);
    hide Tracks, Evolved, OpensAt;
    data, eof := again.Read(plen, plen);
  }

  /** The recorded position is where the buffered bytes begin. */
  lemma SavedPlace(names: seq<Name>, files: Files, i: nat, fd: Fd, p: Position, saved: seq<byte>, consumed: seq<byte>)
    requires Placed(names, files, i, fd, p, saved, consumed)
    ensures |saved| <= |consumed|
    ensures StreamOf(names, files, i) + files[names[i]][..p.seek] == consumed[..|consumed| - |saved|]
  {
    hide StreamOf;
  }

  /** It is recognised there after any growth. */
  lemma StillThere(names: seq<Name>, files: Files, names': seq<Name>, files': Files, i: nat, p: Position, sha1: Sha1)
    requires Evolved(names, files, names', files') && i < |names|
    requires p.filename == names[i] && RingMatches(p.ring, files[names[i]], p.seek) && p == GenerateHash(p, sha1)
    ensures i < |names'| && names'[i] == names[i] && p.seek <= |files'[names[i]]|
    ensures OpensAt(p.(ring := []), names', files', sha1, i, p.seek)
    ensures p.seek == 0 ==> Padded([]) == Zeros(LINEBUFFERLEN)
    ensures StreamOf(names', files', i) + files'[names[i]][..p.seek] == StreamOf(names, files, i) + files[names[i]][..p.seek]
  {
    hide StreamOf;
    var file, file' := files[names[i]], files'[names[i]];
    assert file <= file' && file[..p.seek] == file'[..p.seek];
    StreamStable(names, files, names', files', i);
    UnchangedPrefixAccepted(file, p, file', [], sha1);
  }

  /** A stream that got lost with nothing flushed, once at the end of its file, starts
    * over with the second file of the list, whichever it was reading. */
  method ReadsAgain(s: Stream, plen: nat) returns (data: seq<byte>)
    requires s.Valid() && s.fd.Some? && s.lost && s.AtEOF() && s.w.script == [] && plen > 0
    requires |s.w.names| > 1 && s.position.filename == s.w.names[0] && s.position.seek == 0
    modifies s, s.w
    ensures s.Valid() && !s.lost && s.w.names == old(s.w.names) && s.w.files == old(s.w.files)
    ensures s.consumed == StreamOf(s.w.names, s.w.files, 1) + data <= s.Everything()
    ensures data == [] ==> s.consumed == s.Everything()
  {
    hide RingMatches, SeekInFile, Recognise, StreamOf, Placed;
    s.Seen();
    StaysMisnamed(GenerateHash(s.position, s.sha1), s.w.names, s.w.files, |s.w.files[s.fd.value.name]|,
                  |s.w.files[s.position.filename]|, s.sha1);
    hide NewerFile;
    IndexOfListed(s.w.names, 1);
    var eof;
    data, eof := s.Read(plen, plen);
    ConsumedIsPrefix(s.w.names, s.w.files, s.current, s.fd.value, s.position, s.saveBuffer, s.consumed);
  }

  /** Two files, the second opened while still empty and growing between the two looks
    * of NewerFileAvailable, with nothing flushed: its byte is delivered twice. */
  method RepeatedByte(sha1: Sha1) returns (out: seq<byte>, w: World)
    ensures out == [120, 121, 121]
    ensures w.Valid() && StreamOf(w.names, w.files, |w.names|) == [120, 121]
  {
    hide RingMatches, SeekInFile, NewerFile, Recognise, StreamOf, GenerateHash;
    var s := SecondFile(sha1);
    w := s.w;
    out := [120];
    var data := LosesTrack(s);
    out := out + data;
    data := ReadsAgain(s, 10);
    TwoFiles(w.names, w.files);
    PrefixOfTwo(data);
    out := out + data;
  }

  /** The same, with the byte flushed before the next read: it is delivered once. */
  method FlushedByte(sha1: Sha1) returns (out: seq<byte>, w: World)
    requires Injective(sha1)
    ensures out == [120, 121]
    ensures w.Valid() && StreamOf(w.names, w.files, |w.names|) == [120, 121]
  {
    hide Tracks, SeekInFile, NewerFile, Recognise, StreamOf, GenerateHash, Injective;
    var s := SecondFile(sha1);
    w := s.w;
    out := [120];
    var data := LosesTrack(s);
    out := out + data;
    s.Seen();
    s.FlushBuffer(0);
    s.Seen();
    TwoFiles(w.names, w.files);
    OtherByte(w.names, w.files);
    var eof;
    data, eof := s.Read(10, 10);
    s.NotBeyond();
    out := out + data;
  }

  lemma OtherByte(names: seq<Name>, files: Files)
    requires Listing(names, files) && names == ["a", "b"] && files == map["a" := [120], "b" := [121]]
    ensures Unique(names, files, 1, 1)
  {
    assert Window(files["a"], 1)[LINEBUFFERLEN - 1] != Window(files["b"], 1)[LINEBUFFERLEN - 1];
  }

  /** Read "a" to its end and move on to "b", which is empty. */
  method SecondFile(sha1: Sha1) returns (s: Stream)
    ensures fresh(s) && fresh(s.w) && s.sha1 == sha1
    ensures s.Valid() && !s.lost && s.current == 1 && s.fd == Some(Fd("b", 0)) && s.priorEOF
    ensures s.w.names == ["a", "b"] && s.w.files == map["a" := [120], "b" := []] && s.consumed == [120]
  {
    hide RingMatches, StreamOf;
    var w := new World(["a", "b"], map["a" := [120], "b" := []], []);
    WindowAtStart([]);
    s := new Stream(w, sha1, Start);
    TwoFiles(w.names, w.files);
    var out := ReadAll(s, 10);
  }

  /** "b" grows between the looks. */
  method LosesTrack(s: Stream) returns (data: seq<byte>)
    requires s.Valid() && !s.lost && s.current == 1 && s.fd == Some(Fd("b", 0)) && s.priorEOF
    requires s.w.names == ["a", "b"] && s.w.files == map["a" := [120], "b" := []] && s.consumed == [120]
    modifies s, s.w
    ensures s.Valid() && s.fd.Some? && s.lost && s.AtEOF() && s.w.script == [] && s.current == 1
    ensures s.w.names == ["a", "b"] && s.w.files == map["a" := [120], "b" := [121]]
    ensures s.position.filename == "a" && s.position.seek == 0
    ensures data == [121] && s.consumed == [120, 121]
  {
    hide Tracks, SeekInFile, NewerFile, Recognise, StreamOf, GenerateHash, Evolved;
    s.w.script := [[], [Append([121])]];
    var eof;
    data, eof := s.Read(10, 10);
  }

  lemma PrefixOfTwo(data: seq<byte>)
    ensures [120] + data <= [120] + [121] && (data == [] ==> [120] + data == [120] + [121]) ==> data == [121]
  {
    if [120] + data <= [120] + [121] && data != [] {
      assert ([120] + data)[1] == data[0] && ([120] + [121])[1] == 121;
    }
  }

  lemma TwoFiles(names: seq<Name>, files: Files)
    requires Listing(names, files) && |names| == 2
    ensures StreamOf(names, files, 1) == files[names[0]]
    ensures StreamOf(names, files, 2) == files[names[0]] + files[names[1]]
  {
    assert StreamOf(names, files, 0) == [];
  }
}
