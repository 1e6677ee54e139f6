/**
 Line coverage collected over runs of the virtual machine: for every instruction of the program, the lines of its
 location and of all parent locations are statements, and covered when the run touched the instruction.
 */
module Coverage {
  import opened Wrappers

  /** A source range; a parent location is the place that instantiated it. */
  datatype Location = Location(file: string, startLine: nat, endLine: nat, parent: Option<Location>)

  type Lines = map<string, seq<nat>>

  /** `part in text` */
  predicate Contains(text: string, part: string) {
    exists i :: 0 <= i <= |text| && PartAt(text, part, i)
  }

  predicate PartAt(text: string, part: string, i: nat) {
    i + |part| <= |text| && text[i..i + |part|] == part
  }

  /** The text has the part somewhere in it. */
  ghost predicate HasPart(text: string, part: string) {
    exists front, back :: text == front + part + back
  }

  lemma {:induction false} ContainsMeansHasPart(text: string, part: string)
    ensures Contains(text, part) <==> HasPart(text, part)
  {
    if i :| 0 <= i <= |text| && PartAt(text, part, i) {
      assert text == text[..i] + part + text[i + |part|..];
    }
    if front, back :| text == front + part + back {
      assert PartAt(text, part, |front|);
    }
  }

  function Range(lo: nat, hi: nat): (r: seq<nat>)
    ensures forall x :: x in r <==> lo <= x <= hi
    decreases hi - lo
  {
    if lo > hi then [] else [lo] + Range(lo + 1, hi)
  }

  /** `lines[file].extend(range(start, end + 1))` unless the file is generated. */
  function AddRange(lines: Lines, l: Location): Lines {
    if Contains(l.file, "autogen") then lines
    else lines[l.file := (if l.file in lines then lines[l.file] else []) + Range(l.startLine, l.endLine)]
  }

  /** The ranges of a location and of its parents, innermost first. */
  function AddChain(lines: Lines, l: Location): Lines
    decreases l
  {
    var added := AddRange(lines, l);
    match l.parent
    case None => added
    case Some(parent) => AddChain(added, parent)
  }

  /** The class-level dictionaries. */
  class Store {
    var covered: Lines
    var statements: Lines

    constructor ()
      ensures covered == map[] && statements == map[]
    {
      covered, statements := map[], map[];
    }

    method Reset()
      modifies this
      ensures Reflects(covered, statements, [])
    {
      covered, statements := map[], map[];
    }

    /** `report_runs`: the report on the runs since the last reset, which it ends, sorted by file name. */
    method ReportRuns(excluded: set<string>, ghost runs: seq<Run>) returns (files: seq<CoverageFile>)
      requires Reflects(covered, statements, runs)
      modifies this
      ensures Reflects(covered, statements, [])
      ensures forall name :: IsReported(files, name) <==> IsTouched(runs, name) && IsIncluded(name, excluded)
      ensures forall i :: 0 <= i < |files| ==> Describes(files[i], runs)
      ensures forall i, j :: 0 <= i < j < |files| ==> Precedes(files[i].name, files[j].name)
    {
      files := [];
      var names := covered.Keys;
      while names != {}
        invariant names <= covered.Keys && covered == old(covered) && statements == old(statements)
        invariant forall name :: IsReported(files, name) <==> name in covered.Keys - names && IsWanted(name, excluded)
        invariant forall i :: 0 <= i < |files| ==> files[i] == FileOf(covered, statements, files[i].name)
        invariant forall i, name :: 0 <= i < |files| && name in names ==> Before(files[i].name, name)
        invariant forall i, j :: 0 <= i < j < |files| ==> Before(files[i].name, files[j].name)
      {
        var name := FirstName(names);
        names := names - {name};
        if IsWanted(name, excluded) {
          var file := FileOf(covered, statements, name);
          ReportedSnoc(files, file);
          files := files + [file];
        }
      }
      forall i | 0 <= i < |files|
        ensures Describes(files[i], runs)
      {
        FileIsDescribed(covered, statements, runs, files[i].name);
      }
      WantedMeansIncluded(excluded);
      NamesAreSorted(files);
      Reset();
    }
  }

  class VmWithCoverage {
    /** The instruction locations of the program, when it has debug information. */
    const debugInfo: Option<map<nat, Location>>
    var touchedPcs: seq<nat>

    constructor (debugInfo: Option<map<nat, Location>>)
      ensures this.debugInfo == debugInfo && touchedPcs == []
    {
      this.debugInfo := debugInfo;
      touchedPcs := [];
    }

    function Finished(): Run
      reads this
    {
      Run(if debugInfo.Some? then debugInfo.value else map[], touchedPcs)
    }

    method RunInstruction(pc: nat)
      modifies this
      ensures touchedPcs == old(touchedPcs) + [pc]
    {
      touchedPcs := touchedPcs + [pc];
    }

    /** `pc_to_line`: walk up the parent locations. */
    method PcToLine(pc: nat, location: Location, store: Store)
      modifies store
      ensures store.statements == AddChain(old(store.statements), location)
      ensures store.covered == if pc in touchedPcs then AddChain(old(store.covered), location) else old(store.covered)
    {
      var shouldUpdateReport := pc in touchedPcs;
      var current := location;
      while true
        invariant AddChain(store.statements, current) == AddChain(old(store.statements), location)
        invariant shouldUpdateReport ==> AddChain(store.covered, current) == AddChain(old(store.covered), location)
        invariant !shouldUpdateReport ==> store.covered == old(store.covered)
        decreases current
      {
        if shouldUpdateReport {
          store.covered := AddRange(store.covered, current);
        }
        store.statements := AddRange(store.statements, current);
        match current.parent {
          case None => return;
          case Some(parent) => current := parent;
        }
      }
    }

    /** `cover_file`: all instructions of the program, in no particular order. */
    method CoverFile(store: Store, ghost runs: seq<Run>)
      requires Reflects(store.covered, store.statements, runs)
      modifies store
      ensures Reflects(store.covered, store.statements, runs + [Finished()])
    {
      ghost var covered, statements := store.covered, store.statements;
      if debugInfo.Some? {
        var locations := debugInfo.value;
        var pcs := locations.Keys;
        while pcs != {}
          invariant pcs <= locations.Keys
          invariant Added(covered, store.covered, locations, (locations.Keys - pcs) * Touched(touchedPcs))
          invariant Added(statements, store.statements, locations, locations.Keys - pcs)
        {
          var pc :| pc in pcs;
          ghost var done := locations.Keys - pcs;
          ghost var c, s := store.covered, store.statements;
          PcToLine(pc, locations[pc], store);
          pcs := pcs - {pc};
          assert locations.Keys - pcs == done + {pc};
          AddedOne(statements, s, locations, done, pc);
          if pc in touchedPcs {
            AddedOne(covered, c, locations, done * Touched(touchedPcs), pc);
            assert (done + {pc}) * Touched(touchedPcs) == done * Touched(touchedPcs) + {pc};
          } else {
            assert (done + {pc}) * Touched(touchedPcs) == done * Touched(touchedPcs);
          }
        }
        assert locations.Keys - pcs == locations.Keys;
      }
      RunIsReflected(covered, statements, store.covered, store.statements, runs, Finished());
    }
  }

  // Which lines a run covers.

  predicate Has(lines: Lines, file: string, line: nat) {
    file in lines && line in lines[file]
  }

  /** The line lies in the range of the location or of one of its parents, in a file that is not generated. */
  ghost predicate OnChain(l: Location, file: string, line: nat)
    decreases l
  {
    (l.file == file && !HasPart(file, "autogen") && l.startLine <= line <= l.endLine) ||
    (l.parent.Some? && OnChain(l.parent.value, file, line))
  }

  /** The chain passes through the file. */
  ghost predicate InChain(l: Location, file: string)
    decreases l
  {
    (l.file == file && !HasPart(file, "autogen")) || (l.parent.Some? && InChain(l.parent.value, file))
  }

  lemma {:induction false} ChainIsAdded(lines: Lines, l: Location, file: string, line: nat)
    ensures Has(AddChain(lines, l), file, line) <==> Has(lines, file, line) || OnChain(l, file, line)
    ensures file in AddChain(lines, l) <==> file in lines || InChain(l, file)
    decreases l
  {
    ContainsMeansHasPart(l.file, "autogen");
    if l.parent.Some? {
      ChainIsAdded(AddRange(lines, l), l.parent.value, file, line);
    }
  }

  /** `after` is `before` with the chains of these instructions. */
  ghost predicate Added(before: Lines, after: Lines, locations: map<nat, Location>, pcs: set<nat>)
    requires pcs <= locations.Keys
  {
    && (forall file, line :: Has(after, file, line) <==>
          Has(before, file, line) || exists pc :: pc in pcs && OnChain(locations[pc], file, line))
    && (forall file :: file in after <==> file in before || exists pc :: pc in pcs && InChain(locations[pc], file))
  }

  function Touched(pcs: seq<nat>): set<nat> {
    set pc | pc in pcs
  }

  lemma {:induction false} AddedOne(before: Lines, now: Lines, locations: map<nat, Location>, pcs: set<nat>, pc: nat)
    requires pcs <= locations.Keys && pc in locations && Added(before, now, locations, pcs)
    ensures Added(before, AddChain(now, locations[pc]), locations, pcs + {pc})
  {
    var after := AddChain(now, locations[pc]);
    forall file, line
      ensures Has(after, file, line)
          <==> Has(before, file, line) || exists p :: p in pcs + {pc} && OnChain(locations[p], file, line)
    {
      ChainIsAdded(now, locations[pc], file, line);
    }
    forall file
      ensures file in after <==> file in before || exists p :: p in pcs + {pc} && InChain(locations[p], file)
    {
      ChainIsAdded(now, locations[pc], file, 0);
    }
  }

  /** One finished run of a program. */
  datatype Run = Run(locations: map<nat, Location>, touched: seq<nat>)

  ghost predicate RunStates(run: Run, file: string, line: nat) {
    exists pc :: pc in run.locations && OnChain(run.locations[pc], file, line)
  }

  ghost predicate RunCovers(run: Run, file: string, line: nat) {
    exists pc :: pc in run.locations && pc in run.touched && OnChain(run.locations[pc], file, line)
  }

  ghost predicate RunTouchesFile(run: Run, file: string) {
    exists pc :: pc in run.locations && pc in run.touched && InChain(run.locations[pc], file)
  }

  /** The line has code in one of the runs. */
  ghost predicate IsStatement(runs: seq<Run>, file: string, line: nat) {
    exists i :: 0 <= i < |runs| && RunStates(runs[i], file, line)
  }

  /** The line lies on the chain of an instruction that one of the runs touched. */
  ghost predicate IsCovered(runs: seq<Run>, file: string, line: nat) {
    exists i :: 0 <= i < |runs| && RunCovers(runs[i], file, line)
  }

  ghost predicate IsTouched(runs: seq<Run>, file: string) {
    exists i :: 0 <= i < |runs| && RunTouchesFile(runs[i], file)
  }

  /** The dictionaries hold exactly what these runs say. */
  ghost predicate Reflects(covered: Lines, statements: Lines, runs: seq<Run>) {
    && (forall file, line :: Has(covered, file, line) <==> IsCovered(runs, file, line))
    && (forall file, line :: Has(statements, file, line) <==> IsStatement(runs, file, line))
    && (forall file :: file in covered <==> IsTouched(runs, file))
  }

  lemma {:induction false} RunsSnoc(runs: seq<Run>, run: Run, file: string, line: nat)
    ensures IsCovered(runs + [run], file, line) <==> IsCovered(runs, file, line) || RunCovers(run, file, line)
    ensures IsStatement(runs + [run], file, line) <==> IsStatement(runs, file, line) || RunStates(run, file, line)
    ensures IsTouched(runs + [run], file) <==> IsTouched(runs, file) || RunTouchesFile(run, file)
  {
    var all := runs + [run];
    assert all[|runs|] == run;
    assert forall i :: 0 <= i < |runs| ==> all[i] == runs[i];
  }

  lemma {:induction false} RunIsReflected(covered: Lines, statements: Lines, covered': Lines, statements': Lines,
          runs: seq<Run>, run: Run)
    requires Reflects(covered, statements, runs)
    requires Added(covered, covered', run.locations, run.locations.Keys * Touched(run.touched))
    requires Added(statements, statements', run.locations, run.locations.Keys)
    ensures Reflects(covered', statements', runs + [run])
  {
    forall file, line
      ensures Has(covered', file, line) <==> IsCovered(runs + [run], file, line)
    {
      RunsSnoc(runs, run, file, line);
      if pc :| pc in run.locations.Keys * Touched(run.touched) && OnChain(run.locations[pc], file, line) {
        assert RunCovers(run, file, line);
      }
    }
    forall file, line
      ensures Has(statements', file, line) <==> IsStatement(runs + [run], file, line)
    {
      RunsSnoc(runs, run, file, line);
    }
    forall file
      ensures file in covered' <==> IsTouched(runs + [run], file)
    {
      RunsSnoc(runs, run, file, 0);
      if pc :| pc in run.locations.Keys * Touched(run.touched) && InChain(run.locations[pc], file) {
        assert RunTouchesFile(run, file);
      }
    }
  }

  // The report.

  /** `missed` is absent, as the attribute is, when the file has no statements. */
  datatype CoverageFile = CoverageFile(name: string, covered: set<nat>, statements: set<nat>, missed: Option<seq<nat>>)

  ghost predicate IsMin(s: set<nat>, m: nat) {
    m in s && forall x :: x in s ==> m <= x
  }

  lemma {:induction false} MinExists(s: set<nat>)
    requires s != {}
    ensures exists m :: IsMin(s, m)
    decreases |s|
  {
    var x :| x in s;
    var rest := s - {x};
    assert s == rest + {x};
    if rest == {} {
      assert IsMin(s, x);
    } else {
      MinExists(rest);
      var y :| IsMin(rest, y);
      if x < y {
        assert IsMin(s, x);
      } else {
        assert IsMin(s, y);
      }
    }
  }

  /** The least element. */
  function Least(s: set<nat>): (m: nat)
    requires s != {}
    ensures IsMin(s, m)
  {
    MinExists(s);
    assert exists m :: m in s && forall x :: x in s ==> m <= x by {
      var y :| IsMin(s, y);
    }
    var m :| m in s && forall x :: x in s ==> m <= x;
    m
  }

  /** `sorted(list(s))` */
  function Sorted(s: set<nat>): seq<nat>
    decreases |s|
  {
    if s == {} then [] else [Least(s)] + Sorted(s - {Least(s)})
  }

  lemma {:induction false} SortedIsSorted(s: set<nat>)
    ensures forall x :: x in Sorted(s) <==> x in s
    ensures forall i, j :: 0 <= i < j < |Sorted(s)| ==> Sorted(s)[i] < Sorted(s)[j]
    decreases |s|
  {
    if s != {} {
      var rest := s - {Least(s)};
      SortedIsSorted(rest);
      forall x | x in Sorted(rest)
        ensures Least(s) < x
      {
        assert x in rest;
      }
      assert Sorted(s) == [Least(s)] + Sorted(rest);
      assert forall j :: 0 <= j < |Sorted(rest)| ==> Sorted(rest)[j] in Sorted(rest);
      assert forall x :: x in s <==> x == Least(s) || x in rest;
    }
  }

  function MakeFile(name: string, covered: set<nat>, statements: set<nat>): CoverageFile {
    CoverageFile(name, covered, statements, if statements == {} then None else Some(Sorted(statements - covered)))
  }

  function AsSet(lines: Lines, file: string): set<nat> {
    if file in lines then set line | line in lines[file] else {}
  }

  /** What the report says about a file, in terms of the runs alone. */
  ghost predicate Describes(file: CoverageFile, runs: seq<Run>) {
    && (forall line :: line in file.covered <==> IsCovered(runs, file.name, line))
    && (forall line :: line in file.statements <==> IsStatement(runs, file.name, line))
    && file.missed == (if file.statements == {} then None else Some(Sorted(file.statements - file.covered)))
  }

  /** A file name that is neither empty nor excluded. */
  predicate IsWanted(name: string, excluded: set<string>) {
    name != "" && forall e :: e in excluded ==> !Contains(name, e)
  }

  /** A file name that is not empty and has no excluded part. */
  ghost predicate IsIncluded(name: string, excluded: set<string>) {
    name != "" && forall e :: e in excluded ==> !HasPart(name, e)
  }

  lemma {:induction false} WantedMeansIncluded(excluded: set<string>)
    ensures forall name :: IsWanted(name, excluded) <==> IsIncluded(name, excluded)
  {
    forall name
      ensures IsWanted(name, excluded) <==> IsIncluded(name, excluded)
    {
      forall e
        ensures Contains(name, e) <==> HasPart(name, e)
      {
        ContainsMeansHasPart(name, e);
      }
    }
  }

  ghost predicate IsReported(files: seq<CoverageFile>, name: string) {
    exists i :: 0 <= i < |files| && files[i].name == name
  }

  lemma {:induction false} ReportedSnoc(files: seq<CoverageFile>, file: CoverageFile)
    ensures forall name :: IsReported(files + [file], name) <==> IsReported(files, name) || name == file.name
  {
    forall name
      ensures IsReported(files + [file], name) <==> IsReported(files, name) || name == file.name
    {
      assert (files + [file])[|files|] == file;
      if i :| 0 <= i < |files| && files[i].name == name {
        assert (files + [file])[i].name == name;
      }
    }
  }

  /** The order of strings. */
  predicate Before(a: string, b: string) {
    b != "" && (a == "" || a[0] < b[0] || (a[0] == b[0] && Before(a[1..], b[1..])))
  }

  /** At the first difference, `a` ends or has the smaller character. */
  ghost predicate Precedes(a: string, b: string) {
    exists i :: 0 <= i <= |a| && DiffersAt(a, b, i)
  }

  ghost predicate DiffersAt(a: string, b: string, i: nat)
    requires i <= |a|
  {
    i < |b| && a[..i] == b[..i] && (i == |a| || a[i] < b[i])
  }

  lemma {:induction false} BeforeMeansPrecedes(a: string, b: string)
    ensures Before(a, b) <==> Precedes(a, b)
  {
    if a == "" {
      assert b != "" ==> DiffersAt(a, b, 0);
    } else if b != "" {
      if a[0] == b[0] {
        BeforeMeansPrecedes(a[1..], b[1..]);
        FirstDifferenceBehind(a, b);
      } else {
        assert a[0] < b[0] ==> DiffersAt(a, b, 0);
        assert forall i :: 0 < i <= |a| && DiffersAt(a, b, i) ==> a[..i][0] == b[..i][0];
      }
    }
  }

  lemma {:induction false} FirstDifferenceBehind(a: string, b: string)
    requires a != "" && b != "" && a[0] == b[0]
    ensures Precedes(a, b) <==> Precedes(a[1..], b[1..])
  {
    if i :| 0 <= i <= |a| && DiffersAt(a, b, i) {
      assert a[1..][..i - 1] == a[..i][1..] && b[1..][..i - 1] == b[..i][1..];
      assert DiffersAt(a[1..], b[1..], i - 1);
    }
    if i: nat :| i <= |a[1..]| && DiffersAt(a[1..], b[1..], i) {
      assert a[..i + 1] == [a[0]] + a[1..][..i] && b[..i + 1] == [b[0]] + b[1..][..i];
      assert DiffersAt(a, b, i + 1);
    }
  }

  lemma {:induction false} NamesAreSorted(files: seq<CoverageFile>)
    requires forall i, j :: 0 <= i < j < |files| ==> Before(files[i].name, files[j].name)
    ensures forall i, j :: 0 <= i < j < |files| ==> Precedes(files[i].name, files[j].name)
  {
    forall i, j | 0 <= i < j < |files|
      ensures Precedes(files[i].name, files[j].name)
    {
      BeforeMeansPrecedes(files[i].name, files[j].name);
    }
  }

  lemma {:induction false} BeforeIsTotal(a: string, b: string)
    ensures Before(a, b) || a == b || Before(b, a)
  {
    if a != "" && b != "" {
      assert a == [a[0]] + a[1..] && b == [b[0]] + b[1..];
      BeforeIsTotal(a[1..], b[1..]);
    }
  }

  lemma {:induction false} BeforeIsTransitive(a: string, b: string, c: string)
    requires Before(a, b) && Before(b, c)
    ensures Before(a, c)
  {
    if a != "" && a[0] == b[0] && b[0] == c[0] {
      BeforeIsTransitive(a[1..], b[1..], c[1..]);
    }
  }

  ghost predicate IsFirst(names: set<string>, name: string) {
    name in names && forall other :: other in names && other != name ==> Before(name, other)
  }

  lemma {:induction false} FirstExists(names: set<string>)
    requires names != {}
    ensures exists name :: IsFirst(names, name)
    decreases |names|
  {
    var name :| name in names;
    var rest := names - {name};
    assert forall other :: other in names ==> other == name || other in rest;
    if rest == {} {
      assert IsFirst(names, name);
    } else {
      FirstExists(rest);
      var first :| IsFirst(rest, first);
      BeforeIsTotal(name, first);
      if Before(name, first) {
        forall other | other in names && other != name
          ensures Before(name, other)
        {
          if other != first {
            BeforeIsTransitive(name, first, other);
          }
        }
        assert IsFirst(names, name);
      } else {
        assert IsFirst(names, first);
      }
    }
  }

  /** The first name in the order of strings. */
  method FirstName(names: set<string>) returns (first: string)
    requires names != {}
    ensures IsFirst(names, first)
  {
    FirstExists(names);
    first :| first in names && forall other | other in names :: other != first ==> Before(first, other);
  }

  function FileOf(covered: Lines, statements: Lines, name: string): CoverageFile {
    MakeFile(name, AsSet(covered, name), AsSet(statements, name))
  }

  lemma {:induction false} FileIsDescribed(covered: Lines, statements: Lines, runs: seq<Run>, name: string)
    requires Reflects(covered, statements, runs)
    ensures Describes(FileOf(covered, statements, name), runs)
  {
    assert forall line :: line in AsSet(covered, name) <==> Has(covered, name, line);
    assert forall line :: line in AsSet(statements, name) <==> Has(statements, name, line);
  }

  /** The entry of a file in `coverage.json`; `None` is the AttributeError when `missed` is absent. */
  function Dump(file: CoverageFile): Option<map<nat, int>> {
    match file.missed
    case None => None
    case Some(missed) => Some((map line | line in missed :: 0) + (map line | line in file.covered :: 1))
  }

  /** Covered lines are statements. */
  lemma {:induction false} CoveredIsStatement(runs: seq<Run>, file: string, line: nat)
    requires IsCovered(runs, file, line)
    ensures IsStatement(runs, file, line)
  {
    var i :| 0 <= i < |runs| && RunCovers(runs[i], file, line);
    assert RunStates(runs[i], file, line);
  }

  /**
   After any runs since the last reset, a reported file has its covered lines among its statements, its missed
   lines are the sorted difference, and the dumped map has exactly the statement lines as keys, with 1 exactly for
   the lines on the chain of a touched instruction. A file without statements has no entry.
   */
  lemma {:induction false} ReportIsSound(file: CoverageFile, runs: seq<Run>)
    requires Describes(file, runs)
    ensures file.covered <= file.statements
    ensures Dump(file).Some? <==> exists line :: IsStatement(runs, file.name, line)
    ensures Dump(file).Some? ==>
      && (forall i, j :: 0 <= i < j < |file.missed.value| ==> file.missed.value[i] < file.missed.value[j])
      && (forall line :: line in file.missed.value <==> line in file.statements && line !in file.covered)
      && (forall line :: line in Dump(file).value <==> IsStatement(runs, file.name, line))
      && (forall line :: line in Dump(file).value ==>
            Dump(file).value[line] == if IsCovered(runs, file.name, line) then 1 else 0)
  {
    SortedIsSorted(file.statements - file.covered);
    forall line | line in file.covered
      ensures line in file.statements
    {
      CoveredIsStatement(runs, file.name, line);
    }
    if file.statements != {} {
      var line :| line in file.statements;
      assert IsStatement(runs, file.name, line);
    }
  }

  // The whole dump.

  const MAIN := "__main__/"

  /** `name.split("__main__/")[-1]`, where `from` characters hold no separator. */
  function ShortName(name: string, from: nat): string
    decreases |name|, |name| - from
  {
    if from + |MAIN| > |name| then name
    else if PartAt(name, MAIN, from) then ShortName(name[from + |MAIN|..], 0)
    else ShortName(name, from + 1)
  }

  ghost predicate IsBehindSeparator(name: string, short: string) {
    exists front :: name == front + "__main__/" + short
  }

  /** The short name is what stands behind the last separator, or the whole name. */
  lemma {:induction false} ShortNameIsLastPart(name: string, from: nat)
    requires forall i :: 0 <= i < from ==> !PartAt(name, "__main__/", i)
    ensures var short := ShortName(name, from);
      !HasPart(short, "__main__/") && (short == name || IsBehindSeparator(name, short))
    decreases |name|, |name| - from
  {
    if from + |MAIN| > |name| {
      NoPartLeft(name, from);
    } else if PartAt(name, MAIN, from) {
      var rest := name[from + |MAIN|..];
      ShortNameIsLastPart(rest, 0);
      assert name == name[..from] + "__main__/" + rest;
      BehindAnother(name, name[..from], rest, ShortName(rest, 0));
    } else {
      ShortNameIsLastPart(name, from + 1);
    }
  }

  lemma {:induction false} NoPartLeft(name: string, from: nat)
    requires from + 9 > |name| && forall i :: 0 <= i < from ==> !PartAt(name, "__main__/", i)
    ensures !HasPart(name, "__main__/")
  {
    if front, back :| name == front + "__main__/" + back {
      assert PartAt(name, "__main__/", |front|);
    }
  }

  lemma {:induction false} BehindAnother(name: string, front: string, rest: string, short: string)
    requires name == front + "__main__/" + rest && (short == rest || IsBehindSeparator(rest, short))
    ensures IsBehindSeparator(name, short)
  {
    if short != rest {
      var middle :| rest == middle + "__main__/" + short;
      assert name == (front + "__main__/" + middle) + "__main__/" + short;
    }
  }

  function KeyOf(file: CoverageFile): string {
    ShortName(file.name, 0)
  }

  /** `dump_coverage`: the entries by short name, a later file with the same short name replacing an earlier one. */
  function DumpCoverage(files: seq<CoverageFile>): Option<map<string, map<nat, int>>> {
    if files == [] then Some(map[])
    else
      var last := files[|files| - 1];
      match (DumpCoverage(files[..|files| - 1]), Dump(last))
      case (Some(entries), Some(entry)) => Some(entries[KeyOf(last) := entry])
      case _ => None
  }

  ghost predicate DistinctKeys(files: seq<CoverageFile>) {
    forall i, j :: 0 <= i < j < |files| ==> KeyOf(files[i]) != KeyOf(files[j])
  }

  ghost predicate IsKey(files: seq<CoverageFile>, key: string) {
    exists i :: 0 <= i < |files| && KeyOf(files[i]) == key
  }

  lemma {:induction false} IsKeySnoc(init: seq<CoverageFile>, last: CoverageFile, key: string)
    ensures IsKey(init + [last], key) <==> IsKey(init, key) || KeyOf(last) == key
  {
    var files := init + [last];
    assert files[|init|] == last;
    if i :| 0 <= i < |init| && KeyOf(init[i]) == key {
      assert KeyOf(files[i]) == key;
    }
  }

  /** The entry of a short name is that of the last file of that name. */
  lemma {:induction false} LastFileWins(files: seq<CoverageFile>, i: nat)
    requires i < |files| && DumpCoverage(files).Some?
    requires forall j :: i < j < |files| ==> KeyOf(files[j]) != KeyOf(files[i])
    ensures var entries := DumpCoverage(files).value;
      KeyOf(files[i]) in entries && Dump(files[i]) == Some(entries[KeyOf(files[i])])
  {
    if i < |files| - 1 {
      LastFileWins(files[..|files| - 1], i);
    }
  }

  /**
   The dump exists exactly when every file has statements. It has exactly the short names as keys, and so one entry
   per file exactly when the short names differ.
   */
  lemma {:induction false} DumpHoldsEveryFile(files: seq<CoverageFile>)
    ensures DumpCoverage(files).Some? <==> forall i :: 0 <= i < |files| ==> Dump(files[i]).Some?
    ensures DumpCoverage(files).Some? ==>
      && (forall key :: key in DumpCoverage(files).value <==> IsKey(files, key))
      && |DumpCoverage(files).value| <= |files|
      && (|DumpCoverage(files).value| == |files| <==> DistinctKeys(files))
  {
    if files != [] {
      var init, last := files[..|files| - 1], files[|files| - 1];
      assert files == init + [last];
      DumpHoldsEveryFile(init);
      DistinctKeysSnoc(init, last);
      forall key
        ensures IsKey(files, key) <==> IsKey(init, key) || KeyOf(last) == key
      {
        IsKeySnoc(init, last, key);
      }
    }
  }

  lemma {:induction false} DistinctKeysSnoc(init: seq<CoverageFile>, last: CoverageFile)
    ensures DistinctKeys(init + [last]) <==> DistinctKeys(init) && !IsKey(init, KeyOf(last))
  {
    var files := init + [last];
    assert files[|init|] == last && forall i :: 0 <= i < |init| ==> files[i] == init[i];
  }
}
