/** `CompareFiles` of SimFileCompare.cpp without its input and output: the names
    read from the DDD dump are tallied as they are, the names read from the DD4Hep
    dump are tallied after `ReducedName`, and the report consists of the two table
    sizes and four sections, each listed in ascending name order:
    - names occurring more than once in the DDD dump,
    - names occurring more than once in the (reduced) DD4Hep dump,
    - names of the DDD dump absent from the DD4Hep table,
    - names of the DD4Hep table absent from the DDD dump,
    every entry with its count. */
module FileComparison {
  import opened StringOrder
  import opened ReducedNames
  import opened FrequencyTables

  /** One input file: it could not be opened, or it holds these names in order. */
  datatype InputFile = Unreadable | Names(names: seq<string>)

  /** What `CompareFiles` reports. */
  datatype Report = Report(
    sizeDDD: nat,
    sizeDD4Hep: nat,
    duplicatesDDD: Table,
    duplicatesDD4Hep: Table,
    onlyInDDD: Table,
    onlyInDD4Hep: Table)

  /** A file that cannot be opened contributes no names; processing goes on. */
  function NamesOf(f: InputFile): seq<string>
  {
    match f
    case Unreadable => []
    case Names(names) => names
  }

  function ReduceAll(names: seq<string>): (r: seq<string>)
    ensures |r| == |names|
    ensures forall i :: 0 <= i < |names| ==> r[i] == ReducedName(names[i])
  {
    seq(|names|, i requires 0 <= i < |names| => ReducedName(names[i]))
  }

  /** The entries stored more than once. */
  function Duplicates(t: Table): Table
  {
    Select(t, (e: Entry) => e.count > 1)
  }

  /** The entries of `a` whose name is not a key of `b`. */
  function Missing(a: Table, b: Table): Table
  {
    Select(a, (e: Entry) => Lookup(b, e.key) == 0)
  }

  function CompareFiles(fileDDD: InputFile, fileDD4Hep: InputFile): Report
  {
    var nameDDD := Tally(NamesOf(fileDDD));
    var nameDD4Hep := Tally(ReduceAll(NamesOf(fileDD4Hep)));
    Report(
      |nameDDD|,
      |nameDD4Hep|,
      Duplicates(nameDDD),
      Duplicates(nameDD4Hep),
      Missing(nameDDD, nameDD4Hep),
      Missing(nameDD4Hep, nameDDD))
  }

  /** The duplicate section of a tally lists exactly the names read more than once,
      each with the number of times it was read, in ascending order. */
  lemma DuplicatesExact(tokens: seq<string>)
    ensures Ordered(Duplicates(Tally(tokens)))
    ensures forall e :: e in Duplicates(Tally(tokens)) <==> e.count > 1 && e.count == multiset(tokens)[e.key]
  {
    var t := Tally(tokens);
    forall e
      ensures e in Duplicates(t) <==> e.count > 1 && e.count == multiset(tokens)[e.key]
    {
      EntryInTable(t, e);
    }
  }

  /** The "entry in A not in B" section lists exactly the names read in A and never
      in B, each with its count in A, in ascending order. */
  lemma {:induction false} MissingExact(a: seq<string>, b: seq<string>)
    ensures Ordered(Missing(Tally(a), Tally(b)))
    ensures forall e :: e in Missing(Tally(a), Tally(b)) <==>
                        e.count >= 1 && e.count == multiset(a)[e.key] && e.key !in b
  {
    var ta := Tally(a);
    forall e
      ensures e in Missing(ta, Tally(b)) <==> e.count >= 1 && e.count == multiset(a)[e.key] && e.key !in b
    {
      EntryInTable(ta, e);
    }
  }

  /** The whole report, stated in terms of the names read: sizes are the numbers
      of distinct names, and each section holds exactly the entries described in
      the module comment, in ascending order. */
  lemma CompareFilesReport(fileDDD: InputFile, fileDD4Hep: InputFile)
    ensures var a := NamesOf(fileDDD);
            var b := ReduceAll(NamesOf(fileDD4Hep));
            var rep := CompareFiles(fileDDD, fileDD4Hep);
            && rep.sizeDDD == |set k | k in a|
            && rep.sizeDD4Hep == |set k | k in b|
            && Ordered(rep.duplicatesDDD) && Ordered(rep.duplicatesDD4Hep)
            && Ordered(rep.onlyInDDD) && Ordered(rep.onlyInDD4Hep)
            && (forall e :: e in rep.duplicatesDDD <==> e.count > 1 && e.count == multiset(a)[e.key])
            && (forall e :: e in rep.duplicatesDD4Hep <==> e.count > 1 && e.count == multiset(b)[e.key])
            && (forall e :: e in rep.onlyInDDD <==> e.count >= 1 && e.count == multiset(a)[e.key] && e.key !in b)
            && (forall e :: e in rep.onlyInDD4Hep <==> e.count >= 1 && e.count == multiset(b)[e.key] && e.key !in a)
  {
    var a := NamesOf(fileDDD);
    var b := ReduceAll(NamesOf(fileDD4Hep));
    TallyCounts(a);
    TallyCounts(b);
    DuplicatesExact(a);
    DuplicatesExact(b);
    MissingExact(a, b);
    MissingExact(b, a);
  }

  /** A DDD file that cannot be opened reads as an empty one: its table and its
      sections are empty, every DD4Hep entry is reported as missing from it, and
      the DD4Hep duplicates are those the DD4Hep file alone determines. */
  lemma UnreadableFileReadsAsEmpty(other: InputFile, fileDD4Hep: InputFile)
    ensures var rep := CompareFiles(Unreadable, fileDD4Hep);
            && rep == CompareFiles(Names([]), fileDD4Hep)
            && rep.sizeDDD == 0 && rep.duplicatesDDD == [] && rep.onlyInDDD == []
            && rep.duplicatesDD4Hep == CompareFiles(other, fileDD4Hep).duplicatesDD4Hep
            && (forall e :: e in rep.onlyInDD4Hep <==>
                   e.count >= 1 && e.count == multiset(ReduceAll(NamesOf(fileDD4Hep)))[e.key])
  {
    var rep := CompareFiles(Unreadable, fileDD4Hep);
    CompareFilesReport(Unreadable, fileDD4Hep);
    EmptyWhenNothingIn(rep.duplicatesDDD);
    EmptyWhenNothingIn(rep.onlyInDDD);
  }

  /** The same for a DD4Hep file that cannot be opened. */
  lemma UnreadableDD4HepFileReadsAsEmpty(fileDDD: InputFile, other: InputFile)
    ensures var rep := CompareFiles(fileDDD, Unreadable);
            && rep == CompareFiles(fileDDD, Names([]))
            && rep.sizeDD4Hep == 0 && rep.duplicatesDD4Hep == [] && rep.onlyInDD4Hep == []
            && rep.duplicatesDDD == CompareFiles(fileDDD, other).duplicatesDDD
            && (forall e :: e in rep.onlyInDDD <==>
                   e.count >= 1 && e.count == multiset(NamesOf(fileDDD))[e.key])
  {
    var rep := CompareFiles(fileDDD, Unreadable);
    CompareFilesReport(fileDDD, Unreadable);
    EmptyWhenNothingIn(rep.duplicatesDD4Hep);
    EmptyWhenNothingIn(rep.onlyInDD4Hep);
  }

  lemma EmptyWhenNothingIn(t: Table)
    ensures (forall e :: e !in t) ==> t == []
  {
    if |t| > 0 {
      assert t[0] in t;
    }
  }

  /** An ordered table whose only entry is `e` is `[e]`. */
  lemma SingleEntry(t: Table, e: Entry)
    requires Ordered(t)
    requires forall f :: f in t <==> f == e
    ensures t == [e]
  {
    assert e in t;
    if |t| > 1 {
      assert t[0] in t && t[1] in t;
      LessIrreflexive(e.key);
    }
  }

  /** When both files hold the same names (the DD4Hep ones after reduction) with
      the same multiplicities, nothing is missing on either side, the two duplicate
      sections agree and so do the table sizes. The duplicate sections are equal
      but not empty when names repeat. */
  lemma MatchingFilesShowNoDifference(fileDDD: InputFile, fileDD4Hep: InputFile)
    requires multiset(NamesOf(fileDDD)) == multiset(ReduceAll(NamesOf(fileDD4Hep)))
    ensures var rep := CompareFiles(fileDDD, fileDD4Hep);
            && rep.onlyInDDD == [] && rep.onlyInDD4Hep == []
            && rep.duplicatesDDD == rep.duplicatesDD4Hep
            && rep.sizeDDD == rep.sizeDD4Hep
  {
    var a := NamesOf(fileDDD);
    var b := ReduceAll(NamesOf(fileDD4Hep));
    var rep := CompareFiles(fileDDD, fileDD4Hep);
    TallyOrderIndependent(a, b);
    CompareFilesReport(fileDDD, fileDD4Hep);
    forall e
      ensures e !in rep.onlyInDDD && e !in rep.onlyInDD4Hep
    {
      assert e.key in a <==> multiset(a)[e.key] > 0;
      assert e.key in b <==> multiset(b)[e.key] > 0;
    }
    EmptyWhenNothingIn(rep.onlyInDDD);
    EmptyWhenNothingIn(rep.onlyInDD4Hep);
  }

  /** When the DD4Hep file holds the DDD names plus one new name `x`, the only
      difference reported is `x`, once, as missing from the DDD file. */
  lemma OneExtraNameReported(fileDDD: InputFile, fileDD4Hep: InputFile, x: string)
    requires x !in NamesOf(fileDDD)
    requires multiset(ReduceAll(NamesOf(fileDD4Hep))) == multiset(NamesOf(fileDDD)) + multiset{x}
    ensures CompareFiles(fileDDD, fileDD4Hep).onlyInDD4Hep == [Entry(x, 1)]
    ensures CompareFiles(fileDDD, fileDD4Hep).onlyInDDD == []
  {
    var a := NamesOf(fileDDD);
    var b := ReduceAll(NamesOf(fileDD4Hep));
    var rep := CompareFiles(fileDDD, fileDD4Hep);
    CompareFilesReport(fileDDD, fileDD4Hep);
    forall e
      ensures e in rep.onlyInDD4Hep <==> e == Entry(x, 1)
      ensures e !in rep.onlyInDDD
    {
      assert e.key in a <==> multiset(a)[e.key] > 0;
      assert e.key in b <==> multiset(b)[e.key] > 0;
    }
    SingleEntry(rep.onlyInDD4Hep, Entry(x, 1));
    EmptyWhenNothingIn(rep.onlyInDDD);
  }
}
