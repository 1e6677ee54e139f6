/**
 Library linking: every reference to a library is patched by replacing, everywhere in the text, whatever
 the reference currently reads by the library's address.
 */
module Linker {
  import opened Bytes
  import opened Hex

  datatype Reference = Reference(start: nat, length: nat)

  datatype Library = Library(address: string, references: seq<Reference>)

  /** One patch: the characters `[at, at + width)` of the text must read `address`. */
  datatype Step = Step(at: nat, width: nat, address: string)

  /** `s[lo:hi]`, clipped to the text as Python does. */
  function Slice(s: string, lo: nat, hi: nat): string {
    if lo < hi && lo < |s| then s[lo..Min(hi, |s|)] else ""
  }

  /** A slice has the characters from `lo` on, before `hi` and the end of the text. */
  lemma {:induction false} SliceAt(s: string, lo: nat, hi: nat, i: nat)
    ensures i < |Slice(s, lo, hi)| <==> lo + i < hi && lo + i < |s|
    ensures i < |Slice(s, lo, hi)| ==> Slice(s, lo, hi)[i] == s[lo + i]
  {
  }

  function LowerChar(c: char): char {
    if 'A' <= c <= 'Z' then (c as int + 32) as char else c
  }

  /** `s.lower()` on ASCII text. */
  function Lower(s: string): (r: string)
    ensures |r| == |s|
  {
    seq(|s|, i requires 0 <= i < |s| => LowerChar(s[i]))
  }

  predicate OccursAt(s: string, pattern: string, i: int) {
    0 <= i && i + |pattern| <= |s| && s[i..i + |pattern|] == pattern
  }

  /** The part of `s.replace(pattern, new)` that comes from `s[from:]`: leftmost occurrences, none overlapping. */
  function ReplaceFrom(s: string, pattern: string, value: string, from: nat): string
    requires from <= |s| && pattern != ""
    decreases |s| - from
  {
    if OccursAt(s, pattern, from) then value + ReplaceFrom(s, pattern, value, from + |pattern|)
    else if from == |s| then ""
    else [s[from]] + ReplaceFrom(s, pattern, value, from + 1)
  }

  /** An empty pattern matches before every character and at the end. */
  function Interleave(s: string, value: string): string {
    if s == "" then value else value + [s[0]] + Interleave(s[1..], value)
  }

  /** The value stands before each character and at the end. */
  lemma {:induction false} InterleaveSnoc(s: string, c: char, value: string)
    ensures Interleave("", value) == value
    ensures Interleave(s + [c], value) == Interleave(s, value) + [c] + value
  {
    if s == "" {
      assert s + [c] == [c] && [c][1..] == "";
    } else {
      assert (s + [c])[1..] == s[1..] + [c];
      InterleaveSnoc(s[1..], c, value);
    }
  }

  /** `s.replace(pattern, new)` */
  function Replace(s: string, pattern: string, value: string): string {
    if pattern == "" then Interleave(s, value) else ReplaceFrom(s, pattern, value, 0)
  }

  function LinkStep(text: string, step: Step): string {
    Replace(text, Slice(text, step.at, step.at + step.width), step.address)
  }

  /** The text after all steps, each reading the text that the previous ones left. */
  function LinkSteps(text: string, steps: seq<Step>): string {
    if steps == [] then text
    else LinkStep(LinkSteps(text, steps[..|steps| - 1]), steps[|steps| - 1])
  }

  /** The patches asked for by one library. */
  function StepsOf(address: string, references: seq<Reference>): seq<Step> {
    if references == [] then []
    else
      var last := references[|references| - 1];
      StepsOf(address, references[..|references| - 1]) + [Step(last.start * 2, last.length * 2, address)]
  }

  /** The address without "0x", in lower case. */
  function PlainAddress(library: Library): string {
    Lower(Slice(library.address, 2, |library.address|))
  }

  function StepsOfAll(libraries: seq<Library>): seq<Step> {
    if libraries == [] then []
    else
      var last := libraries[|libraries| - 1];
      StepsOfAll(libraries[..|libraries| - 1]) + StepsOf(PlainAddress(last), last.references)
  }

  lemma {:induction false} LinkStepsSnoc(text: string, steps: seq<Step>, step: Step)
    ensures LinkSteps(text, steps + [step]) == LinkStep(LinkSteps(text, steps), step)
  {
    assert (steps + [step])[..|steps|] == steps;
  }

  lemma {:induction false} StepsOfAllSnoc(libraries: seq<Library>, i: nat)
    requires i < |libraries|
    ensures StepsOfAll(libraries[..i + 1])
         == StepsOfAll(libraries[..i]) + StepsOf(PlainAddress(libraries[i]), libraries[i].references)
  {
    assert libraries[..i + 1][..i] == libraries[..i];
  }

  lemma {:induction false} StepsOfSnoc(text: string, before: seq<Step>, address: string, references: seq<Reference>,
          j: nat)
    requires j < |references|
    ensures var step := Step(references[j].start * 2, references[j].length * 2, address);
      LinkSteps(text, before + StepsOf(address, references[..j + 1]))
      == LinkStep(LinkSteps(text, before + StepsOf(address, references[..j])), step)
  {
    var step := Step(references[j].start * 2, references[j].length * 2, address);
    var now := StepsOf(address, references[..j]);
    assert references[..j + 1][..j] == references[..j];
    assert before + (now + [step]) == before + now + [step];
    LinkStepsSnoc(text, before + now, step);
  }

  /** `process_bytecode`: patch `object[2:]` library by library, reference by reference. */
  method ProcessBytecode(object_: string, libraries: seq<Library>) returns (bytecode: string)
    ensures bytecode == LinkSteps(if |object_| < 2 then "" else object_[2..], StepsOfAll(libraries))
  {
    var text := Slice(object_, 2, |object_|);
    assert |object_| >= 2 ==> text == object_[2..];
    bytecode := text;
    for i := 0 to |libraries|
      invariant bytecode == LinkSteps(text, StepsOfAll(libraries[..i]))
    {
      bytecode := ProcessLibrary(text, StepsOfAll(libraries[..i]), libraries[i], bytecode);
      StepsOfAllSnoc(libraries, i);
    }
    assert libraries[..|libraries|] == libraries;
  }

  /** The inner loop of `process_bytecode`: the references of one library. */
  method ProcessLibrary(ghost text: string, ghost before: seq<Step>, library: Library, current: string)
    returns (bytecode: string)
    requires current == LinkSteps(text, before)
    ensures bytecode == LinkSteps(text, before + StepsOf(PlainAddress(library), library.references))
  {
    var address := PlainAddress(library);
    bytecode := current;
    assert before + [] == before;
    for j := 0 to |library.references|
      invariant bytecode == LinkSteps(text, before + StepsOf(address, library.references[..j]))
    {
      StepsOfSnoc(text, before, address, library.references, j);
      var start, length := library.references[j].start * 2, library.references[j].length * 2;
      bytecode := LinkStep(bytecode, Step(start, length, address));
    }
    assert library.references[..|library.references|] == library.references;
  }

  // What linking is for.

  predicate Covers(step: Step, p: int) {
    step.at <= p < step.at + step.width
  }

  ghost predicate Covered(steps: seq<Step>, p: int) {
    exists k :: 0 <= k < |steps| && Covers(steps[k], p)
  }

  /** The linked text: same length, every reference reads its library's address, all else is untouched. */
  ghost predicate Linked(text: string, steps: seq<Step>, linked: string) {
    && |linked| == |text|
    && (forall k :: 0 <= k < |steps| ==> OccursAt(linked, steps[k].address, steps[k].at))
    && (forall p {:trigger Covered(steps, p)} :: 0 <= p < |text| && !Covered(steps, p) ==> linked[p] == text[p])
  }

  function Placeholder(text: string, step: Step): string {
    Slice(text, step.at, step.at + step.width)
  }

  /** Compiler output: disjoint references of one width, inside the text, to hexadecimal addresses. */
  ghost predicate Regular(text: string, steps: seq<Step>, width: nat) {
    && 0 < width
    && (forall k :: 0 <= k < |steps| ==>
          && steps[k].width == width == |steps[k].address| && steps[k].at + width <= |text|
          && AllHex(steps[k].address))
    && (forall j, k :: 0 <= j < k < |steps| ==>
          steps[j].at + width <= steps[k].at || steps[k].at + width <= steps[j].at)
  }

  /** A placeholder starts and ends with a character that is not hexadecimal. */
  predicate Delimited(name: string) {
    0 < |name| && !IsHex(name[0]) && !IsHex(name[|name| - 1])
  }

  /** Some character of a placeholder is not hexadecimal. */
  ghost predicate Marked(name: string) {
    exists x :: 0 <= x < |name| && !IsHex(name[x])
  }

  /** No occurrence of the placeholder overlaps a reference without being that reference. */
  ghost predicate Clean(text: string, steps: seq<Step>, name: string) {
    forall i, j :: OccursAt(text, name, i) && 0 <= j < |steps|
      ==> i == steps[j].at || i + |name| <= steps[j].at || steps[j].at + steps[j].width <= i
  }

  /** References that read the same placeholder ask for the same address. */
  ghost predicate Agrees(text: string, steps: seq<Step>, name: string, address: string) {
    forall j :: 0 <= j < |steps| && Placeholder(text, steps[j]) == name ==> steps[j].address == address
  }

  /** Every placeholder is delimited, stands for one address and overlaps no other reference. */
  ghost predicate Distinctive(text: string, steps: seq<Step>) {
    forall k :: 0 <= k < |steps| ==>
      && Delimited(Placeholder(text, steps[k]))
      && Agrees(text, steps, Placeholder(text, steps[k]), steps[k].address)
      && Clean(text, steps, Placeholder(text, steps[k]))
  }

  /** Placeholders occur at references only. */
  ghost predicate NoStray(text: string, steps: seq<Step>) {
    forall i, k :: 0 <= k < |steps| && OccursAt(text, Placeholder(text, steps[k]), i)
      ==> IsStart(steps, i)
  }

  // What one replacement does.

  /** The positions at which `ReplaceFrom` substitutes. */
  ghost function Hits(s: string, pattern: string, from: nat): (hits: set<int>)
    requires from <= |s| && pattern != ""
    ensures forall q :: q in hits ==> from <= q && OccursAt(s, pattern, q)
    decreases |s| - from
  {
    if OccursAt(s, pattern, from) then {from} + Hits(s, pattern, from + |pattern|)
    else if from == |s| then {}
    else Hits(s, pattern, from + 1)
  }

  /** Hits do not overlap. */
  lemma {:induction false} HitsApart(s: string, pattern: string, from: nat, q: int, r: int)
    requires from <= |s| && pattern != "" && q in Hits(s, pattern, from) && r in Hits(s, pattern, from) && q < r
    ensures q + |pattern| <= r
    decreases |s| - from
  {
    if OccursAt(s, pattern, from) {
      if q != from {
        HitsApart(s, pattern, from + |pattern|, q, r);
      }
    } else {
      HitsApart(s, pattern, from + 1, q, r);
    }
  }

  predicate Near(q: int, p: int, width: nat) {
    q <= p < q + width
  }

  /** A replacement of equal width keeps the length. */
  lemma {:induction false} ReplaceLength(s: string, pattern: string, value: string, from: nat)
    requires from <= |s| && pattern != "" && |value| == |pattern|
    ensures |ReplaceFrom(s, pattern, value, from)| == |s| - from
    decreases |s| - from
  {
    if OccursAt(s, pattern, from) {
      ReplaceLength(s, pattern, value, from + |pattern|);
    } else if from < |s| {
      ReplaceLength(s, pattern, value, from + 1);
    }
  }

  lemma {:induction false} OccursBehind(front: string, s: string, pattern: string, i: int)
    requires OccursAt(s, pattern, i)
    ensures OccursAt(front + s, pattern, |front| + i)
  {
    assert (front + s)[|front| + i..|front| + i + |pattern|] == s[i..i + |pattern|];
  }

  lemma {:induction false} OccursInFront(pattern: string, back: string)
    ensures OccursAt(pattern + back, pattern, 0)
  {
    assert (pattern + back)[0..|pattern|] == pattern;
  }

  /** A hit reads the new value. */
  lemma {:induction false} ReplaceWritesHit(s: string, pattern: string, value: string, from: nat, q: int)
    requires from <= |s| && pattern != "" && |value| == |pattern| && q in Hits(s, pattern, from)
    ensures OccursAt(ReplaceFrom(s, pattern, value, from), value, q - from)
    decreases |s| - from
  {
    if OccursAt(s, pattern, from) {
      if q == from {
        OccursInFront(value, ReplaceFrom(s, pattern, value, from + |pattern|));
      } else {
        ReplaceWritesHit(s, pattern, value, from + |pattern|, q);
        WrittenBehindHit(s, pattern, value, from, q);
      }
    } else {
      ReplaceWritesHit(s, pattern, value, from + 1, q);
      WrittenBehindChar(s, pattern, value, from, q);
    }
  }

  lemma {:induction false} WrittenBehindHit(s: string, pattern: string, value: string, from: nat, q: int)
    requires pattern != "" && |value| == |pattern| && OccursAt(s, pattern, from)
    requires OccursAt(ReplaceFrom(s, pattern, value, from + |pattern|), value, q - from - |pattern|)
    ensures OccursAt(ReplaceFrom(s, pattern, value, from), value, q - from)
  {
    OccursBehind(value, ReplaceFrom(s, pattern, value, from + |pattern|), value, q - from - |pattern|);
  }

  lemma {:induction false} WrittenBehindChar(s: string, pattern: string, value: string, from: nat, q: int)
    requires pattern != "" && from < |s| && !OccursAt(s, pattern, from)
    requires OccursAt(ReplaceFrom(s, pattern, value, from + 1), value, q - from - 1)
    ensures OccursAt(ReplaceFrom(s, pattern, value, from), value, q - from)
  {
    OccursBehind([s[from]], ReplaceFrom(s, pattern, value, from + 1), value, q - from - 1);
  }

  /** It changes nothing away from its hits. */
  lemma {:induction false} ReplaceKeepsTheRest(s: string, pattern: string, value: string, from: nat, p: nat)
    requires from <= p < |s| && pattern != "" && |value| == |pattern|
    requires forall q :: q in Hits(s, pattern, from) ==> !Near(q, p, |pattern|)
    ensures |ReplaceFrom(s, pattern, value, from)| == |s| - from
    ensures ReplaceFrom(s, pattern, value, from)[p - from] == s[p]
    decreases |s| - from
  {
    ReplaceLength(s, pattern, value, from);
    if OccursAt(s, pattern, from) {
      assert from in Hits(s, pattern, from);
      assert !Near(from, p, |pattern|);
      ReplaceKeepsTheRest(s, pattern, value, from + |pattern|, p);
    } else if p > from {
      ReplaceKeepsTheRest(s, pattern, value, from + 1, p);
    }
  }

  ghost predicate Untouched(hits: set<int>, width: nat, p: int) {
    forall q :: q in hits ==> !Near(q, p, width)
  }

  /** `next` is `now` with `value` written at `hits`. */
  ghost predicate Wrote(now: string, next: string, hits: set<int>, value: string) {
    && |next| == |now|
    && (forall q :: q in hits ==> OccursAt(next, value, q))
    && (forall p {:trigger Untouched(hits, |value|, p)} ::
          0 <= p < |now| && Untouched(hits, |value|, p) ==> next[p] == now[p])
  }

  lemma {:induction false} ReplaceWrites(now: string, pattern: string, value: string)
    requires pattern != "" && |value| == |pattern|
    ensures Wrote(now, Replace(now, pattern, value), Hits(now, pattern, 0), value)
  {
    ReplaceLength(now, pattern, value, 0);
    forall q | q in Hits(now, pattern, 0)
      ensures OccursAt(ReplaceFrom(now, pattern, value, 0), value, q)
    {
      ReplaceWritesHit(now, pattern, value, 0, q);
    }
    forall p | 0 <= p < |now| && Untouched(Hits(now, pattern, 0), |value|, p)
      ensures ReplaceFrom(now, pattern, value, 0)[p] == now[p]
    {
      ReplaceKeepsTheRest(now, pattern, value, 0, p);
    }
  }

  lemma {:induction false} StepWrites(now: string, step: Step, pattern: string)
    requires pattern == Slice(now, step.at, step.at + step.width) && |pattern| == |step.address| > 0
    ensures Wrote(now, LinkStep(now, step), Hits(now, pattern, 0), step.address)
  {
    ReplaceWrites(now, pattern, step.address);
  }

  /** No occurrence escapes: a hit overlaps it from the left. */
  lemma {:induction false} HitFor(s: string, pattern: string, from: nat, i: int) returns (q: int)
    requires from <= i && pattern != "" && OccursAt(s, pattern, i)
    ensures from <= |s| && q in Hits(s, pattern, from) && Near(q, i, |pattern|)
    decreases |s| - from
  {
    if OccursAt(s, pattern, from) {
      if i < from + |pattern| {
        q := from;
      } else {
        q := HitFor(s, pattern, from + |pattern|, i);
      }
    } else {
      q := HitFor(s, pattern, from + 1, i);
    }
  }

  lemma {:induction false} ReplaceBySelf(s: string, pattern: string, from: nat)
    requires from <= |s| && pattern != ""
    ensures ReplaceFrom(s, pattern, pattern, from) == s[from..]
    decreases |s| - from
  {
    if OccursAt(s, pattern, from) {
      ReplaceBySelf(s, pattern, from + |pattern|);
      assert s[from..] == s[from..from + |pattern|] + s[from + |pattern|..];
    } else if from < |s| {
      ReplaceBySelf(s, pattern, from + 1);
      assert s[from..] == [s[from]] + s[from + 1..];
    }
  }

  // The text while some steps are done.

  ghost predicate Outside(steps: seq<Step>, done: set<int>, p: int)
    requires forall j :: j in done ==> 0 <= j < |steps|
  {
    forall j :: j in done ==> !Covers(steps[j], p)
  }

  /** Every step of `done` reads its address and all other text is original. */
  ghost predicate Shows(text: string, steps: seq<Step>, done: set<int>, now: string)
    requires forall j :: j in done ==> 0 <= j < |steps|
  {
    && |now| == |text|
    && (forall j :: j in done ==> OccursAt(now, steps[j].address, steps[j].at))
    && (forall p {:trigger Outside(steps, done, p)} :: 0 <= p < |text| && Outside(steps, done, p) ==> now[p] == text[p])
  }

  /** The text in which exactly the steps of `done` read their addresses. */
  ghost function Intended(text: string, steps: seq<Step>, done: set<int>): string
    requires forall j :: j in done ==> 0 <= j < |steps|
  {
    seq(|text|, p requires 0 <= p < |text| => IntendedChar(text, steps, done, p))
  }

  ghost function IntendedChar(text: string, steps: seq<Step>, done: set<int>, p: int): char
    requires 0 <= p < |text| && forall j :: j in done ==> 0 <= j < |steps|
  {
    if j :| j in done && Covers(steps[j], p) && p < steps[j].at + |steps[j].address| then
      steps[j].address[p - steps[j].at]
    else
      text[p]
  }

  lemma {:induction false} ShowsIsIntended(text: string, steps: seq<Step>, width: nat, done: set<int>, now: string)
    requires Regular(text, steps, width) && forall j :: j in done ==> 0 <= j < |steps|
    ensures Shows(text, steps, done, now) <==> now == Intended(text, steps, done)
  {
    var intended := Intended(text, steps, done);
    forall p, j | 0 <= p < |text| && j in done && Covers(steps[j], p)
      ensures intended[p] == steps[j].address[p - steps[j].at]
    {
    }
    forall j | j in done
      ensures OccursAt(intended, steps[j].address, steps[j].at)
    {
      assert intended[steps[j].at..steps[j].at + width] == steps[j].address;
    }
    assert Shows(text, steps, done, intended);
    if Shows(text, steps, done, now) {
      ShowsOneText(text, steps, width, done, now, intended);
    }
  }

  lemma {:induction false} ShowsOneText(text: string, steps: seq<Step>, width: nat, done: set<int>, a: string,
          b: string)
    requires Regular(text, steps, width) && forall j :: j in done ==> 0 <= j < |steps|
    requires Shows(text, steps, done, a) && Shows(text, steps, done, b)
    ensures a == b
  {
    forall p | 0 <= p < |text|
      ensures a[p] == b[p]
    {
      if j :| j in done && Covers(steps[j], p) {
        var at, address := steps[j].at, steps[j].address;
        assert a[at..at + width][p - at] == b[at..at + width][p - at];
      } else {
        assert Outside(steps, done, p);
      }
    }
  }

  /** A marked placeholder at the start of a reference is that of the reference, which is still open. */
  lemma {:induction false} StartIsOpen(text: string, steps: seq<Step>, width: nat, done: set<int>, now: string,
          pattern: string, i: int)
    returns (j: nat)
    requires Regular(text, steps, width) && forall j :: j in done ==> 0 <= j < |steps|
    requires Shows(text, steps, done, now) && |pattern| == width && Marked(pattern)
    requires OccursAt(now, pattern, i) && IsStart(steps, i)
    ensures j < |steps| && j !in done && steps[j].at == i && Placeholder(text, steps[j]) == pattern
  {
    j :| j < |steps| && steps[j].at == i;
    StepReads(text, steps, width, done, j, now);
    assert Slice(now, i, i + width) == pattern;
  }

  /** The hits of a placeholder that occurs at starts only are the references that share it. */
  lemma {:induction false} HitsAreDue(text: string, steps: seq<Step>, width: nat, done: set<int>, due: set<int>,
          now: string, pattern: string)
    requires Regular(text, steps, width) && forall j :: j in done ==> 0 <= j < |steps|
    requires forall j :: j in due <==> 0 <= j < |steps| && Placeholder(text, steps[j]) == pattern
    requires done !! due && Shows(text, steps, done, now)
    requires |pattern| == width && Marked(pattern)
    requires forall i :: OccursAt(now, pattern, i) ==> IsStart(steps, i)
    ensures forall q :: q in Hits(now, pattern, 0) ==> exists j :: j in due && steps[j].at == q
    ensures forall j :: j in due ==> steps[j].at in Hits(now, pattern, 0)
  {
    forall q | q in Hits(now, pattern, 0)
      ensures exists j :: j in due && steps[j].at == q
    {
      var j := StartIsOpen(text, steps, width, done, now, pattern, q);
      assert j in due;
    }
    forall j | j in due
      ensures steps[j].at in Hits(now, pattern, 0)
    {
      StepReads(text, steps, width, done, j, now);
      assert OccursAt(now, pattern, steps[j].at);
      var q := HitFor(now, pattern, 0, steps[j].at);
      var k :| k in due && steps[k].at == q;
      assert k == j;
    }
  }

  /** Writing the address at the steps `due` completes exactly these. */
  lemma {:induction false} WritingCompletes(text: string, steps: seq<Step>, width: nat, done: set<int>, due: set<int>,
          now: string, next: string, hits: set<int>, address: string)
    requires Regular(text, steps, width)
    requires forall j :: j in done || j in due ==> 0 <= j < |steps|
    requires done !! due && Shows(text, steps, done, now)
    requires |address| == width && Wrote(now, next, hits, address)
    requires forall j :: j in due ==> steps[j].address == address && steps[j].at in hits
    requires forall q :: q in hits ==> exists j :: j in due && steps[j].at == q
    ensures Shows(text, steps, done + due, next)
  {
    forall j | j in done
      ensures OccursAt(next, steps[j].address, steps[j].at)
    {
      var at := steps[j].at;
      forall p | at <= p < at + width
        ensures next[p] == now[p]
      {
        assert Untouched(hits, width, p);
      }
      assert next[at..at + width] == now[at..at + width];
    }
    forall p | 0 <= p < |text| && Outside(steps, done + due, p)
      ensures next[p] == text[p]
    {
      assert forall j :: j in done || j in due ==> j in done + due;
      assert Outside(steps, done, p);
      assert Untouched(hits, width, p);
    }
  }

  // The run of the steps.

  /** One of the first `k` steps has this placeholder. */
  ghost predicate Met(text: string, steps: seq<Step>, k: nat, name: string)
    requires k <= |steps|
  {
    k > 0 && (Placeholder(text, steps[k - 1]) == name || Met(text, steps, k - 1, name))
  }

  lemma {:induction false} MetFirst(text: string, steps: seq<Step>, k: nat, m: nat)
    requires m < k <= |steps|
    ensures Met(text, steps, k, Placeholder(text, steps[m]))
  {
    if m < k - 1 {
      MetFirst(text, steps, k - 1, m);
    }
  }

  lemma {:induction false} MetWitness(text: string, steps: seq<Step>, k: nat, name: string) returns (m: nat)
    requires k <= |steps| && Met(text, steps, k, name)
    ensures m < k && Placeholder(text, steps[m]) == name
  {
    if Placeholder(text, steps[k - 1]) == name {
      m := k - 1;
    } else {
      m := MetWitness(text, steps, k - 1, name);
    }
  }

  /** The references whose placeholder one of the first `k` steps replaced. */
  ghost function DoneBy(text: string, steps: seq<Step>, k: nat): set<int>
    requires k <= |steps|
  {
    set j | 0 <= j < |steps| && Met(text, steps, k, Placeholder(text, steps[j]))
  }

  ghost predicate IsStart(steps: seq<Step>, i: int) {
    exists j :: 0 <= j < |steps| && steps[j].at == i
  }

  /** What step `k` meets if all goes well: the references of earlier placeholders already read their addresses. */
  ghost function Ahead(text: string, steps: seq<Step>, k: nat): string
    requires k <= |steps|
  {
    Intended(text, steps, DoneBy(text, steps, k))
  }

  /** No earlier step has this placeholder. */
  ghost predicate IsFirst(text: string, steps: seq<Step>, k: nat)
    requires k < |steps|
  {
    !Met(text, steps, k, Placeholder(text, steps[k]))
  }

  /** An occurrence of the placeholder in that text is no start of a reference. */
  ghost predicate Stray(text: string, steps: seq<Step>, k: nat, i: int)
    requires k < |steps|
  {
    OccursAt(Ahead(text, steps, k), Placeholder(text, steps[k]), i) && !IsStart(steps, i)
  }

  /** No occurrence of the placeholder in that text cuts a reference that still reads its own placeholder. */
  ghost predicate Uncut(text: string, steps: seq<Step>, k: nat)
    requires k < |steps|
  {
    Cutless(steps, DoneBy(text, steps, k), Ahead(text, steps, k), Placeholder(text, steps[k]))
  }

  ghost predicate Cutless(steps: seq<Step>, done: set<int>, now: string, name: string) {
    forall i, j :: OccursAt(now, name, i) && 0 <= j < |steps| && j !in done
      ==> i == steps[j].at || i + |name| <= steps[j].at || steps[j].at + steps[j].width <= i
  }

  ghost predicate NeverCut(text: string, steps: seq<Step>) {
    forall k :: 0 <= k < |steps| && IsFirst(text, steps, k) ==> Uncut(text, steps, k)
  }

  /** Every placeholder has a character that is not hexadecimal and stands for one address. */
  ghost predicate Workable(text: string, steps: seq<Step>) {
    forall k :: 0 <= k < |steps| ==>
      && Marked(Placeholder(text, steps[k]))
      && Agrees(text, steps, Placeholder(text, steps[k]), steps[k].address)
  }

  /** When its turn comes, every placeholder occurs at references only. */
  ghost predicate WellPlaced(text: string, steps: seq<Step>) {
    forall k, i :: 0 <= k < |steps| && IsFirst(text, steps, k) ==> !Stray(text, steps, k, i)
  }

  /** Some character outside the references was overwritten by a character of an address. */
  ghost predicate Damaged(text: string, steps: seq<Step>, now: string) {
    |now| == |text| && exists p :: 0 <= p < |text| && !Covered(steps, p) && !IsHex(text[p]) && IsHex(now[p])
  }

  /** Damage is never repaired: later steps only write hexadecimal characters. */
  lemma {:induction false} DamageStays(text: string, steps: seq<Step>, width: nat, now: string, k: nat)
    requires Regular(text, steps, width) && k < |steps|
    requires Damaged(text, steps, now)
    ensures Damaged(text, steps, LinkStep(now, steps[k]))
  {
    var pattern := Slice(now, steps[k].at, steps[k].at + width);
    StepWrites(now, steps[k], pattern);
    WritingKeepsDamage(text, steps, now, LinkStep(now, steps[k]), Hits(now, pattern, 0), steps[k].address);
  }

  lemma {:induction false} WritingKeepsDamage(text: string, steps: seq<Step>, now: string, next: string,
          hits: set<int>, address: string)
    requires Damaged(text, steps, now) && Wrote(now, next, hits, address) && AllHex(address)
    ensures Damaged(text, steps, next)
  {
    var p :| 0 <= p < |text| && !Covered(steps, p) && !IsHex(text[p]) && IsHex(now[p]);
    if q :| q in hits && Near(q, p, |address|) {
      assert next[p] == address[p - q];
    } else {
      assert Untouched(hits, |address|, p);
    }
    assert IsHex(next[p]);
  }

  /** A step that meets a stray placeholder damages the text: it overwrites the character that is not hexadecimal. */
  lemma {:induction false} StrayDamages(text: string, steps: seq<Step>, width: nat, done: set<int>, now: string,
          k: nat, i: int)
    requires Regular(text, steps, width) && k < |steps|
    requires (forall j :: j in done ==> 0 <= j < |steps|) && k !in done
    requires Shows(text, steps, done, now)
    requires Marked(Placeholder(text, steps[k])) && Cutless(steps, done, now, Placeholder(text, steps[k]))
    requires OccursAt(now, Placeholder(text, steps[k]), i) && !IsStart(steps, i)
    ensures Damaged(text, steps, LinkStep(now, steps[k]))
  {
    StepReads(text, steps, width, done, k, now);
    var pattern, address := Placeholder(text, steps[k]), steps[k].address;
    StepWrites(now, steps[k], pattern);
    var q, x := StrayHit(text, steps, width, done, now, pattern, i);
    HitDamages(text, steps, now, LinkStep(now, steps[k]), Hits(now, pattern, 0), pattern, address, q, x);
  }

  lemma {:induction false} StrayHit(text: string, steps: seq<Step>, width: nat, done: set<int>, now: string,
          pattern: string, i: int)
    returns (q: int, x: int)
    requires Regular(text, steps, width) && forall j :: j in done ==> 0 <= j < |steps|
    requires Shows(text, steps, done, now)
    requires |pattern| == width && Marked(pattern) && Cutless(steps, done, now, pattern)
    requires OccursAt(now, pattern, i) && !IsStart(steps, i)
    ensures q in Hits(now, pattern, 0) && 0 <= x < width && !IsHex(pattern[x])
    ensures 0 <= q + x < |now| == |text| && !Covered(steps, q + x) && text[q + x] == now[q + x]
  {
    q := HitFor(now, pattern, 0, i);
    x :| 0 <= x < width && !IsHex(pattern[x]);
    OccurrenceReads(now, pattern, q, x);
    StrayIsUncovered(text, steps, width, done, now, pattern, i, q, q + x);
  }

  lemma {:induction false} OccurrenceReads(s: string, pattern: string, q: int, x: int)
    requires OccursAt(s, pattern, q) && 0 <= x < |pattern|
    ensures 0 <= q + x < |s| && s[q + x] == pattern[x]
  {
    assert s[q..q + |pattern|][x] == s[q + x];
  }

  lemma {:induction false} HitDamages(text: string, steps: seq<Step>, now: string, next: string, hits: set<int>,
          pattern: string, address: string, q: int, x: int)
    requires |now| == |text| && Wrote(now, next, hits, address) && q in hits
    requires |address| == |pattern| && AllHex(address) && 0 <= x < |pattern| && !IsHex(pattern[x])
    requires OccursAt(now, pattern, q) && !Covered(steps, q + x) && text[q + x] == now[q + x]
    ensures Damaged(text, steps, next)
  {
    OccurrenceReads(now, pattern, q, x);
    OccurrenceReads(next, address, q, x);
  }

  lemma {:induction false} DoneIsHex(text: string, steps: seq<Step>, width: nat, done: set<int>, now: string,
          j: int, p: int)
    requires Regular(text, steps, width) && forall j :: j in done ==> 0 <= j < |steps|
    requires Shows(text, steps, done, now) && j in done
    ensures Covers(steps[j], p) ==> IsHex(now[p])
  {
    if Covers(steps[j], p) {
      OccurrenceReads(now, steps[j].address, steps[j].at, p - steps[j].at);
    }
  }

  /** What overlaps a stray occurrence and is not hexadecimal is original text outside the references. */
  lemma {:induction false} StrayIsUncovered(text: string, steps: seq<Step>, width: nat, done: set<int>, now: string,
          pattern: string, i: int, q: int, p: int)
    requires Regular(text, steps, width) && forall j :: j in done ==> 0 <= j < |steps|
    requires Shows(text, steps, done, now) && |pattern| == width && Cutless(steps, done, now, pattern)
    requires OccursAt(now, pattern, i) && !IsStart(steps, i)
    requires OccursAt(now, pattern, q) && Near(q, i, width) && Near(q, p, width) && !IsHex(now[p])
    ensures !Covered(steps, p) && text[p] == now[p]
  {
    forall j | 0 <= j < |steps|
      ensures !Covers(steps[j], p)
    {
      var at := steps[j].at;
      assert at != i;
      if j in done {
        DoneIsHex(text, steps, width, done, now, j, p);
      }
    }
    assert Outside(steps, done, p);
  }

  /** A reference that is not done reads its placeholder; one that is done reads its address. */
  lemma {:induction false} StepReads(text: string, steps: seq<Step>, width: nat, done: set<int>, k: nat, now: string)
    requires Regular(text, steps, width) && k < |steps|
    requires forall j :: j in done ==> 0 <= j < |steps|
    requires Shows(text, steps, done, now)
    ensures Slice(now, steps[k].at, steps[k].at + width)
         == if k in done then steps[k].address else Placeholder(text, steps[k])
  {
    var at := steps[k].at;
    if k in done {
      assert now[at..at + width] == steps[k].address;
    } else {
      forall p | at <= p < at + width
        ensures now[p] == text[p]
      {
        assert forall j :: j in done ==> j != k && !Covers(steps[j], p);
        assert Outside(steps, done, p);
      }
      assert now[at..at + width] == text[at..at + width];
    }
  }

  /** A step whose placeholder is not astray completes the references that share it. */
  lemma {:induction false} StepCompletes(text: string, steps: seq<Step>, width: nat, k: nat, now: string)
    requires Regular(text, steps, width) && k < |steps|
    requires Shows(text, steps, DoneBy(text, steps, k), now)
    requires Marked(Placeholder(text, steps[k]))
    requires Agrees(text, steps, Placeholder(text, steps[k]), steps[k].address)
    requires IsFirst(text, steps, k) ==> forall i :: !Stray(text, steps, k, i)
    ensures Shows(text, steps, DoneBy(text, steps, k + 1), LinkStep(now, steps[k]))
  {
    var done := DoneBy(text, steps, k);
    var due := set j | 0 <= j < |steps| && Placeholder(text, steps[j]) == Placeholder(text, steps[k]);
    DoneByNext(text, steps, k, due);
    assert k in due;
    if k in done {
      assert due <= done;
      assert done + due == done;
      DoneStepIsIdle(text, steps, width, k, done, now);
    } else {
      ShowsIsIntended(text, steps, width, done, now);
      var name := Placeholder(text, steps[k]);
      assert forall i :: OccursAt(now, name, i) && !IsStart(steps, i) ==> Stray(text, steps, k, i);
      NewStepCompletes(text, steps, width, k, done, due, now);
    }
  }

  lemma {:induction false} DoneStepIsIdle(text: string, steps: seq<Step>, width: nat, k: nat, done: set<int>,
          now: string)
    requires Regular(text, steps, width) && k < |steps| && k in done
    requires forall j :: j in done ==> 0 <= j < |steps|
    requires Shows(text, steps, done, now)
    ensures LinkStep(now, steps[k]) == now
  {
    StepReads(text, steps, width, done, k, now);
    ReplaceBySelf(now, steps[k].address, 0);
  }

  lemma {:induction false} NewStepCompletes(text: string, steps: seq<Step>, width: nat, k: nat, done: set<int>,
          due: set<int>, now: string)
    requires Regular(text, steps, width) && k < |steps| && k !in done
    requires forall j :: j in done ==> 0 <= j < |steps|
    requires forall j :: j in due <==> 0 <= j < |steps| && Placeholder(text, steps[j]) == Placeholder(text, steps[k])
    requires done !! due && Shows(text, steps, done, now)
    requires Marked(Placeholder(text, steps[k]))
    requires Agrees(text, steps, Placeholder(text, steps[k]), steps[k].address)
    requires forall i :: OccursAt(now, Placeholder(text, steps[k]), i) ==> IsStart(steps, i)
    ensures Shows(text, steps, done + due, LinkStep(now, steps[k]))
  {
    var pattern, address := Placeholder(text, steps[k]), steps[k].address;
    StepReads(text, steps, width, done, k, now);
    HitsAreDue(text, steps, width, done, due, now, pattern);
    StepWrites(now, steps[k], pattern);
    WritingCompletes(text, steps, width, done, due, now, LinkStep(now, steps[k]), Hits(now, pattern, 0), address);
  }

  lemma {:induction false} DoneByNext(text: string, steps: seq<Step>, k: nat, due: set<int>)
    requires k < |steps|
    requires forall j :: j in due <==> 0 <= j < |steps| && Placeholder(text, steps[j]) == Placeholder(text, steps[k])
    ensures DoneBy(text, steps, k + 1) == DoneBy(text, steps, k) + due
  {
  }

  ghost predicate StrayBefore(text: string, steps: seq<Step>, k: nat)
    requires k <= |steps|
  {
    exists m, i :: 0 <= m < k && IsFirst(text, steps, m) && Stray(text, steps, m, i)
  }

  /**
   After `k` steps, none of which met a stray placeholder, the text is as intended. Once one met a stray placeholder
   that cuts no reference, the text is damaged.
   */
  lemma {:induction false} RunProgresses(text: string, steps: seq<Step>, width: nat, k: nat)
    requires Regular(text, steps, width) && Workable(text, steps) && k <= |steps|
    ensures var now := LinkSteps(text, steps[..k]);
      if StrayBefore(text, steps, k) then NeverCut(text, steps) ==> Damaged(text, steps, now)
      else Shows(text, steps, DoneBy(text, steps, k), now)
  {
    if k == 0 {
      assert DoneBy(text, steps, 0) == {};
    } else {
      RunProgresses(text, steps, width, k - 1);
      var m := k - 1;
      StepOutcome(text, steps, width, m, LinkSteps(text, steps[..m]));
      LinkStepsTo(text, steps, m);
    }
  }

  lemma {:induction false} LinkStepsTo(text: string, steps: seq<Step>, m: nat)
    requires m < |steps|
    ensures LinkSteps(text, steps[..m + 1]) == LinkStep(LinkSteps(text, steps[..m]), steps[m])
  {
    assert steps[..m + 1] == steps[..m] + [steps[m]];
    LinkStepsSnoc(text, steps[..m], steps[m]);
  }

  lemma {:induction false} StepOutcome(text: string, steps: seq<Step>, width: nat, m: nat, before: string)
    requires Regular(text, steps, width) && Workable(text, steps) && m < |steps|
    requires if StrayBefore(text, steps, m) then NeverCut(text, steps) ==> Damaged(text, steps, before)
      else Shows(text, steps, DoneBy(text, steps, m), before)
    ensures var next := LinkStep(before, steps[m]);
      if StrayBefore(text, steps, m + 1) then NeverCut(text, steps) ==> Damaged(text, steps, next)
      else Shows(text, steps, DoneBy(text, steps, m + 1), next)
  {
    if StrayBefore(text, steps, m) {
      if NeverCut(text, steps) {
        DamageStays(text, steps, width, before, m);
      }
      var l, i :| 0 <= l < m && IsFirst(text, steps, l) && Stray(text, steps, l, i);
      assert StrayBefore(text, steps, m + 1);
    } else if i :| IsFirst(text, steps, m) && Stray(text, steps, m, i) {
      assert StrayBefore(text, steps, m + 1);
      ShowsIsIntended(text, steps, width, DoneBy(text, steps, m), before);
      if NeverCut(text, steps) {
        StrayDamages(text, steps, width, DoneBy(text, steps, m), before, m, i);
      }
    } else {
      StepCompletes(text, steps, width, m, before);
      assert !StrayBefore(text, steps, m + 1);
    }
  }

  /**
   Linking is correct when every placeholder occurs at references only in the text that its step meets, which is the
   compiler's text with the addresses of earlier placeholders. It is correct only then, unless an occurrence that is
   no reference cuts into a reference. Each step reads its placeholder in text that the earlier steps patched, and
   replaces it everywhere.
   */
  lemma {:induction false} LinkingIsCorrect(text: string, steps: seq<Step>, width: nat)
    requires Regular(text, steps, width) && Workable(text, steps)
    ensures WellPlaced(text, steps) ==> Linked(text, steps, LinkSteps(text, steps))
    ensures NeverCut(text, steps) ==> (Linked(text, steps, LinkSteps(text, steps)) <==> WellPlaced(text, steps))
  {
    var n, now := |steps|, LinkSteps(text, steps);
    assert steps[..n] == steps;
    RunProgresses(text, steps, width, n);
    if !StrayBefore(text, steps, n) {
      AllDoneIsLinked(text, steps, width, DoneBy(text, steps, n), now);
    } else if NeverCut(text, steps) {
      var p :| 0 <= p < |text| && !Covered(steps, p) && !IsHex(text[p]) && IsHex(now[p]);
      assert !Linked(text, steps, now);
    }
  }

  // Delimited placeholders, which written addresses cannot spell: the compiler's text alone decides.

  /** Hexadecimal addresses cannot create, nor take part in, an occurrence of a delimited placeholder. */
  lemma {:induction false} OccurrenceIsOriginal(text: string, steps: seq<Step>, width: nat, done: set<int>,
          now: string, pattern: string, i: int)
    requires Regular(text, steps, width) && forall j :: j in done ==> 0 <= j < |steps|
    requires Shows(text, steps, done, now)
    requires |pattern| == width && Delimited(pattern)
    requires OccursAt(now, pattern, i)
    ensures OccursAt(text, pattern, i)
  {
    assert now[i] == pattern[0] && now[i + width - 1] == pattern[width - 1];
    forall p | i <= p < i + width
      ensures now[p] == text[p]
    {
      forall j | j in done
        ensures !Covers(steps[j], p)
      {
        var at, address := steps[j].at, steps[j].address;
        assert forall x :: at <= x < at + width ==> now[x] == address[x - at];
        assert forall x :: at <= x < at + width ==> IsHex(now[x]);
      }
      assert Outside(steps, done, p);
    }
    assert text[i..i + width] == now[i..i + width];
  }

  /** An original occurrence that no finished step touches is still there. */
  lemma {:induction false} OccurrenceRemains(text: string, steps: seq<Step>, width: nat, done: set<int>, now: string,
          pattern: string, i: int)
    requires Regular(text, steps, width) && forall j :: j in done ==> 0 <= j < |steps|
    requires Shows(text, steps, done, now) && |pattern| == width
    requires OccursAt(text, pattern, i)
    requires forall j :: j in done ==> i + width <= steps[j].at || steps[j].at + width <= i
    ensures OccursAt(now, pattern, i)
  {
    forall p | i <= p < i + width
      ensures now[p] == text[p]
    {
      assert Outside(steps, done, p);
    }
    assert text[i..i + width] == now[i..i + width];
  }

  lemma {:induction false} AheadIsOriginal(text: string, steps: seq<Step>, width: nat, k: nat, i: int)
    requires Regular(text, steps, width) && k < |steps| && Delimited(Placeholder(text, steps[k]))
    requires OccursAt(Ahead(text, steps, k), Placeholder(text, steps[k]), i)
    ensures OccursAt(text, Placeholder(text, steps[k]), i)
  {
    var done, now := DoneBy(text, steps, k), Ahead(text, steps, k);
    ShowsIsIntended(text, steps, width, done, now);
    OccurrenceIsOriginal(text, steps, width, done, now, Placeholder(text, steps[k]), i);
  }

  lemma {:induction false} DistinctiveIsWorkable(text: string, steps: seq<Step>, width: nat)
    requires Regular(text, steps, width) && Distinctive(text, steps)
    ensures Workable(text, steps) && NeverCut(text, steps)
  {
    forall k | 0 <= k < |steps|
      ensures Marked(Placeholder(text, steps[k])) && Uncut(text, steps, k)
    {
      var name, now := Placeholder(text, steps[k]), Ahead(text, steps, k);
      assert Delimited(name) && !IsHex(name[0]);
      forall i | OccursAt(now, name, i)
        ensures OccursAt(text, name, i)
      {
        AheadIsOriginal(text, steps, width, k, i);
      }
    }
  }

  /** The first step with the placeholder of step `k`. */
  lemma {:induction false} FirstWith(text: string, steps: seq<Step>, k: nat, n: nat) returns (m: nat)
    requires k < n <= |steps|
    ensures m < n && IsFirst(text, steps, m) && Placeholder(text, steps[m]) == Placeholder(text, steps[k])
    decreases n
  {
    if Met(text, steps, n - 1, Placeholder(text, steps[k])) {
      var l := MetWitness(text, steps, n - 1, Placeholder(text, steps[k]));
      m := FirstWith(text, steps, l, n - 1);
    } else {
      MetFirst(text, steps, n, k);
      m := n - 1;
    }
  }

  /** A placeholder astray in the compiler's text is astray when its turn comes. */
  lemma {:induction false} StrayFromTheStart(text: string, steps: seq<Step>, width: nat, k: nat, i: int)
    returns (m: nat)
    requires Regular(text, steps, width) && Distinctive(text, steps) && k < |steps|
    requires OccursAt(text, Placeholder(text, steps[k]), i) && !IsStart(steps, i)
    ensures m < |steps| && IsFirst(text, steps, m) && Stray(text, steps, m, i)
  {
    m := FirstWith(text, steps, k, |steps|);
    var done, now := DoneBy(text, steps, m), Ahead(text, steps, m);
    ShowsIsIntended(text, steps, width, done, now);
    forall j | j in done
      ensures i + width <= steps[j].at || steps[j].at + width <= i
    {
      assert steps[j].at != i;
    }
    OccurrenceRemains(text, steps, width, done, now, Placeholder(text, steps[m]), i);
  }

  /** With delimited placeholders, linking is correct exactly when they occur at references only. */
  lemma {:induction false} DelimitedLinkingIsCorrect(text: string, steps: seq<Step>, width: nat)
    requires Regular(text, steps, width) && Distinctive(text, steps)
    ensures Linked(text, steps, LinkSteps(text, steps)) <==> NoStray(text, steps)
  {
    DistinctiveIsWorkable(text, steps, width);
    LinkingIsCorrect(text, steps, width);
    if NoStray(text, steps) {
      forall k, i | 0 <= k < |steps| && IsFirst(text, steps, k)
        ensures !Stray(text, steps, k, i)
      {
        if Stray(text, steps, k, i) {
          AheadIsOriginal(text, steps, width, k, i);
        }
      }
    } else {
      var i, k :| 0 <= k < |steps| && OccursAt(text, Placeholder(text, steps[k]), i) && !IsStart(steps, i);
      var m := StrayFromTheStart(text, steps, width, k, i);
      assert !WellPlaced(text, steps);
    }
  }

  // In terms of libraries.

  function StepFor(library: Library, reference: Reference): Step {
    Step(reference.start * 2, reference.length * 2, PlainAddress(library))
  }

  lemma {:induction false} StepsCoverReferences(libraries: seq<Library>, l: nat, r: nat)
    requires l < |libraries| && r < |libraries[l].references|
    ensures StepFor(libraries[l], libraries[l].references[r]) in StepsOfAll(libraries)
  {
    if l == |libraries| - 1 {
      StepsOfCover(libraries[l], libraries[l].references, r);
    } else {
      StepsCoverReferences(libraries[..|libraries| - 1], l, r);
    }
  }

  lemma {:induction false} StepsOfCover(library: Library, references: seq<Reference>, r: nat)
    requires r < |references|
    ensures StepFor(library, references[r]) in StepsOf(PlainAddress(library), references)
  {
    if r < |references| - 1 {
      StepsOfCover(library, references[..|references| - 1], r);
    }
  }

  lemma {:induction false} StepsAreReferences(libraries: seq<Library>, step: Step) returns (l: nat, r: nat)
    requires step in StepsOfAll(libraries)
    ensures l < |libraries| && r < |libraries[l].references|
        && step == StepFor(libraries[l], libraries[l].references[r])
  {
    var last := libraries[|libraries| - 1];
    if step in StepsOf(PlainAddress(last), last.references) {
      l := |libraries| - 1;
      r := StepsOfAreReferences(last, last.references, step);
    } else {
      l, r := StepsAreReferences(libraries[..|libraries| - 1], step);
    }
  }

  lemma {:induction false} StepsOfAreReferences(library: Library, references: seq<Reference>, step: Step)
    returns (r: nat)
    requires step in StepsOf(PlainAddress(library), references)
    ensures r < |references| && step == StepFor(library, references[r])
  {
    if step == StepFor(library, references[|references| - 1]) {
      r := |references| - 1;
    } else {
      r := StepsOfAreReferences(library, references[..|references| - 1], step);
    }
  }

  /** A character of the text outside every reference of every library. */
  ghost predicate IsCode(libraries: seq<Library>, p: int) {
    forall l, r :: 0 <= l < |libraries| && 0 <= r < |libraries[l].references|
      ==> !Covers(StepFor(libraries[l], libraries[l].references[r]), p)
  }

  /** The text reads, in lower case, the digits that follow the "0x" of the address. */
  predicate SpellsAddress(s: string, at: nat, address: string) {
    at + |address| - 2 <= |s| && forall i :: 2 <= i < |address| ==> SpellsDigit(s[at + i - 2], address[i])
  }

  predicate SpellsDigit(c: char, digit: char) {
    IsLowerHex(c) && IsHex(digit) && Digit(c) == Digit(digit)
  }

  lemma {:induction false} LowerDigit(c: char, d: char)
    requires IsHex(LowerChar(d))
    ensures c == LowerChar(d) <==> SpellsDigit(c, d)
  {
  }

  /** `library_address[2:].lower()` is the address in lower case. */
  lemma {:induction false} PlainAddressSpells(library: Library, s: string, at: nat)
    requires 2 < |library.address| && AllHex(PlainAddress(library))
    ensures |PlainAddress(library)| == |library.address| - 2
    ensures OccursAt(s, PlainAddress(library), at) <==> SpellsAddress(s, at, library.address)
  {
    var plain, address := PlainAddress(library), library.address;
    if at + |plain| <= |s| {
      var read := s[at..at + |plain|];
      forall i | 2 <= i < |address|
        ensures read[i - 2] == plain[i - 2] <==> SpellsDigit(s[at + i - 2], address[i])
      {
        assert plain[i - 2] == LowerChar(address[i]);
        LowerDigit(s[at + i - 2], address[i]);
      }
      if SpellsAddress(s, at, address) {
        forall x | 0 <= x < |plain|
          ensures read[x] == plain[x]
        {
          assert SpellsDigit(s[at + (x + 2) - 2], address[x + 2]);
        }
      }
    }
  }

  /** Every reference reads the address of its own library, and the code is untouched. */
  ghost predicate LibrariesLinked(text: string, libraries: seq<Library>, linked: string) {
    && |linked| == |text|
    && (forall l, r :: 0 <= l < |libraries| && 0 <= r < |libraries[l].references|
          ==> SpellsAddress(linked, libraries[l].references[r].start * 2, libraries[l].address))
    && (forall p {:trigger IsCode(libraries, p)} :: 0 <= p < |text| && IsCode(libraries, p) ==> linked[p] == text[p])
  }

  lemma {:induction false} LibrariesAreLinked(text: string, libraries: seq<Library>, width: nat)
    requires Regular(text, StepsOfAll(libraries), width) && Workable(text, StepsOfAll(libraries))
    ensures var linked := LinkSteps(text, StepsOfAll(libraries));
      && (WellPlaced(text, StepsOfAll(libraries)) ==> LibrariesLinked(text, libraries, linked))
      && (NeverCut(text, StepsOfAll(libraries)) ==>
            (LibrariesLinked(text, libraries, linked) <==> WellPlaced(text, StepsOfAll(libraries))))
  {
    LinkingIsCorrect(text, StepsOfAll(libraries), width);
    LinkedIsLibrariesLinked(text, libraries, width, LinkSteps(text, StepsOfAll(libraries)));
  }

  lemma {:induction false} LinkedIsLibrariesLinked(text: string, libraries: seq<Library>, width: nat, linked: string)
    requires Regular(text, StepsOfAll(libraries), width)
    ensures Linked(text, StepsOfAll(libraries), linked) <==> LibrariesLinked(text, libraries, linked)
  {
    var steps := StepsOfAll(libraries);
    forall p
      ensures IsCode(libraries, p) <==> !Covered(steps, p)
    {
      CodeIsUncovered(libraries, p);
    }
    if Linked(text, steps, linked) {
      forall l, r | 0 <= l < |libraries| && 0 <= r < |libraries[l].references|
        ensures SpellsAddress(linked, libraries[l].references[r].start * 2, libraries[l].address)
      {
        StepsCoverReferences(libraries, l, r);
        var k :| 0 <= k < |steps| && steps[k] == StepFor(libraries[l], libraries[l].references[r]);
        PlainAddressSpells(libraries[l], linked, steps[k].at);
      }
    }
    if LibrariesLinked(text, libraries, linked) {
      forall k | 0 <= k < |steps|
        ensures OccursAt(linked, steps[k].address, steps[k].at)
      {
        var l, r := StepsAreReferences(libraries, steps[k]);
        PlainAddressSpells(libraries[l], linked, steps[k].at);
      }
    }
  }

  lemma {:induction false} CodeIsUncovered(libraries: seq<Library>, p: int)
    ensures IsCode(libraries, p) <==> !Covered(StepsOfAll(libraries), p)
  {
    var steps := StepsOfAll(libraries);
    if k :| 0 <= k < |steps| && Covers(steps[k], p) {
      var l, r := StepsAreReferences(libraries, steps[k]);
    } else {
      forall l, r | 0 <= l < |libraries| && 0 <= r < |libraries[l].references|
        ensures !Covers(StepFor(libraries[l], libraries[l].references[r]), p)
      {
        StepsCoverReferences(libraries, l, r);
        var k :| 0 <= k < |steps| && steps[k] == StepFor(libraries[l], libraries[l].references[r]);
      }
    }
  }

  lemma {:induction false} AllDoneIsLinked(text: string, steps: seq<Step>, width: nat, done: set<int>, now: string)
    requires Regular(text, steps, width) && done == DoneBy(text, steps, |steps|)
    requires Shows(text, steps, done, now)
    ensures Linked(text, steps, now)
  {
    forall j | 0 <= j < |steps|
      ensures j in done
    {
      MetFirst(text, steps, |steps|, j);
    }
    forall p | 0 <= p < |text| && !Covered(steps, p)
      ensures now[p] == text[p]
    {
      assert Outside(steps, done, p);
    }
  }
}
