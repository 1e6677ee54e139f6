/**
 Bytecode with 20-byte references to 20-byte addresses that shows what the conditions for linking are needed for, and
 what they are not needed for.
 */
module LinkerExamples {
  import opened Hex
  import opened Linker

  /** Forty lower-case hexadecimal digits. */
  predicate IsAddress(a: string) {
    |a| == 40 && AllHex(a) && Lower(a) == a
  }

  /** A library with one reference, at a byte offset. */
  function LibraryAt(address: string, start: nat): Library {
    Library("0x" + address, [Reference(start, 20)])
  }

  lemma {:induction false} StepsOfLibraryAt(before: seq<Library>, address: string, start: nat)
    requires IsAddress(address)
    ensures StepsOfAll(before + [LibraryAt(address, start)]) == StepsOfAll(before) + [Step(start * 2, 40, address)]
  {
    var library := LibraryAt(address, start);
    assert (before + [library])[..|before|] == before;
    assert library.address[2..] == address && PlainAddress(library) == address;
    var last := library.references[0];
    assert library.references[..0] == [] && last == Reference(start, 20);
    assert StepsOf(address, library.references) == [] + [Step(last.start * 2, last.length * 2, address)];
  }

  lemma {:induction false} StepsOfTwo(a: string, i: nat, b: string, j: nat)
    requires IsAddress(a) && IsAddress(b)
    ensures StepsOfAll([LibraryAt(a, i), LibraryAt(b, j)]) == [Step(i * 2, 40, a), Step(j * 2, 40, b)]
  {
    var first, second := LibraryAt(a, i), LibraryAt(b, j);
    StepsOfLibraryAt([], a, i);
    StepsOfLibraryAt([first], b, j);
    assert [] + [first] == [first] && [first] + [second] == [first, second];
  }

  lemma {:induction false} StepsOfThree(a: string, i: nat, b: string, j: nat, c: string, k: nat)
    requires IsAddress(a) && IsAddress(b) && IsAddress(c)
    ensures StepsOfAll([LibraryAt(a, i), LibraryAt(b, j), LibraryAt(c, k)])
         == [Step(i * 2, 40, a), Step(j * 2, 40, b), Step(k * 2, 40, c)]
  {
    var first, second, third := LibraryAt(a, i), LibraryAt(b, j), LibraryAt(c, k);
    StepsOfTwo(a, i, b, j);
    StepsOfLibraryAt([first, second], c, k);
    assert [first, second] + [third] == [first, second, third];
  }

  // What a replacement writes.

  ghost predicate Free(s: string, pattern: string, lo: int, hi: int) {
    forall p :: lo <= p < hi ==> !OccursAt(s, pattern, p)
  }

  lemma {:induction false} NoHits(s: string, pattern: string, from: nat)
    requires from <= |s| && pattern != "" && Free(s, pattern, from, |s|)
    ensures Hits(s, pattern, from) == {}
    decreases |s| - from
  {
    if from < |s| {
      NoHits(s, pattern, from + 1);
    }
  }

  lemma {:induction false} OneHit(s: string, pattern: string, from: nat, at: nat, rest: set<int>)
    requires from <= at && pattern != "" && OccursAt(s, pattern, at) && Free(s, pattern, from, at)
    requires Hits(s, pattern, at + |pattern|) == rest
    ensures Hits(s, pattern, from) == {at} + rest
    decreases at - from
  {
    if from < at {
      OneHit(s, pattern, from + 1, at, rest);
    }
  }

  lemma {:induction false} TwoHits(s: string, pattern: string, i: nat, j: nat)
    requires pattern != "" && OccursAt(s, pattern, i) && OccursAt(s, pattern, j) && i + |pattern| <= j
    requires Free(s, pattern, 0, i) && Free(s, pattern, i + |pattern|, j) && Free(s, pattern, j + |pattern|, |s|)
    ensures Hits(s, pattern, 0) == {i, j}
  {
    NoHits(s, pattern, j + |pattern|);
    HitsBefore(s, pattern, i, j, {});
  }

  /** Occurrences that start inside a hit are passed over. */
  lemma {:induction false} ThreeHits(s: string, pattern: string, i: nat, j: nat, k: nat)
    requires pattern != "" && OccursAt(s, pattern, i) && OccursAt(s, pattern, j) && OccursAt(s, pattern, k)
    requires i + |pattern| <= j && j + |pattern| <= k
    requires Free(s, pattern, 0, i) && Free(s, pattern, i + |pattern|, j)
    requires Free(s, pattern, j + |pattern|, k) && Free(s, pattern, k + |pattern|, |s|)
    ensures Hits(s, pattern, 0) == {i, j, k}
  {
    NoHits(s, pattern, k + |pattern|);
    OneHit(s, pattern, j + |pattern|, k, {});
    HitsBefore(s, pattern, i, j, {k});
  }

  lemma {:induction false} HitsBefore(s: string, pattern: string, i: nat, j: nat, rest: set<int>)
    requires pattern != "" && OccursAt(s, pattern, i) && OccursAt(s, pattern, j) && i + |pattern| <= j
    requires Free(s, pattern, 0, i) && Free(s, pattern, i + |pattern|, j)
    requires Hits(s, pattern, j + |pattern|) == rest
    ensures Hits(s, pattern, 0) == {i, j} + rest
  {
    OneHit(s, pattern, i + |pattern|, j, rest);
    OneHit(s, pattern, 0, i, {j} + rest);
  }

  /** The hits and the value determine what is written. */
  lemma {:induction false} WroteOneText(now: string, a: string, b: string, hits: set<int>, value: string)
    requires Wrote(now, a, hits, value)
    requires |b| == |now| && forall q :: q in hits ==> OccursAt(b, value, q)
    requires forall p :: 0 <= p < |now| && (forall q :: q in hits ==> !Near(q, p, |value|)) ==> b[p] == now[p]
    ensures a == b
  {
    forall p | 0 <= p < |now|
      ensures a[p] == b[p]
    {
      if q :| q in hits && Near(q, p, |value|) {
        OccurrenceReads(a, value, q, p - q);
        OccurrenceReads(b, value, q, p - q);
      } else {
        assert Untouched(hits, |value|, p);
      }
    }
  }

  lemma {:induction false} StepGives(now: string, step: Step, pattern: string, hits: set<int>, next: string)
    requires pattern == Slice(now, step.at, step.at + step.width) && |pattern| == |step.address| > 0
    requires Hits(now, pattern, 0) == hits
    requires |next| == |now| && forall q :: q in hits ==> OccursAt(next, step.address, q)
    requires forall p :: 0 <= p < |now| && (forall q :: q in hits ==> !Near(q, p, |pattern|)) ==> next[p] == now[p]
    ensures LinkStep(now, step) == next
  {
    StepWrites(now, step, pattern);
    WroteOneText(now, LinkStep(now, step), next, hits, step.address);
  }

  // A placeholder that starts or ends with a hexadecimal digit.

  function UndelimitedText(a: string): string
    requires |a| == 40
  {
    seq(120, p requires 0 <= p < 120 => if p < 40 then 'x' else if p == 80 then a[39] else '_')
  }

  /**
   Placeholders that contain a character that is not hexadecimal, differ between the libraries and occur at
   references only are not enough, whatever the addresses: the last digit of the first address and the text behind
   it spell the second placeholder.
   */
  lemma {:induction false} UndelimitedPlaceholderIsLost(a: string, b: string)
    requires IsAddress(a) && IsAddress(b)
    ensures var text, steps := UndelimitedText(a), StepsOfAll([LibraryAt(a, 0), LibraryAt(b, 40)]);
      && steps == [Step(0, 40, a), Step(80, 40, b)]
      && Regular(text, steps, 40) && Workable(text, steps) && NoStray(text, steps)
      && Placeholder(text, steps[0]) != Placeholder(text, steps[1])
      && !Linked(text, steps, LinkSteps(text, steps))
  {
    var text, steps := UndelimitedText(a), [Step(0, 40, a), Step(80, 40, b)];
    StepsOfTwo(a, 0, b, 40);
    UndelimitedNames(a, b, text, steps);
    UndelimitedIsNotStray(a, b, text, steps);
    UndelimitedAhead(a, b, text, steps);
    LinkingIsCorrect(text, steps, 40);
  }

  ghost predicate IsUndelimited(a: string, b: string, text: string, steps: seq<Step>) {
    && IsAddress(a) && IsAddress(b) && text == UndelimitedText(a)
    && steps == [Step(0, 40, a), Step(80, 40, b)]
  }

  lemma {:induction false} UndelimitedNames(a: string, b: string, text: string, steps: seq<Step>)
    requires IsUndelimited(a, b, text, steps)
    ensures Regular(text, steps, 40) && Workable(text, steps)
    ensures Placeholder(text, steps[0]) == text[0..40] && Placeholder(text, steps[1]) == text[80..120]
    ensures text[0..40] != text[80..120]
  {
    var first, second := text[0..40], text[80..120];
    assert first[1] == 'x' && second[1] == '_';
    assert Marked(first) && Marked(second);
  }

  lemma {:induction false} UndelimitedIsNotStray(a: string, b: string, text: string, steps: seq<Step>)
    requires IsUndelimited(a, b, text, steps)
    ensures NoStray(text, steps)
  {
    UndelimitedNames(a, b, text, steps);
    forall i, k | 0 <= k < |steps| && OccursAt(text, Placeholder(text, steps[k]), i)
      ensures IsStart(steps, i)
    {
      OccurrenceReads(text, Placeholder(text, steps[k]), i, 0);
      OccurrenceReads(text, Placeholder(text, steps[k]), i, 39);
      assert i == steps[k].at;
    }
  }

  /** When its turn comes, the second placeholder occurs at 39 too, and nowhere cuts its own reference. */
  lemma {:induction false} UndelimitedAhead(a: string, b: string, text: string, steps: seq<Step>)
    requires IsUndelimited(a, b, text, steps)
    ensures NeverCut(text, steps) && !WellPlaced(text, steps)
  {
    UndelimitedFirst(a, b, text, steps);
    UndelimitedStray(a, b, text, steps);
    UndelimitedUncut(a, b, text, steps);
  }

  lemma {:induction false} UndelimitedStray(a: string, b: string, text: string, steps: seq<Step>)
    requires IsUndelimited(a, b, text, steps)
    ensures IsFirst(text, steps, 1) && Stray(text, steps, 1, 39)
  {
    UndelimitedNames(a, b, text, steps);
    var now := UndelimitedSecond(a, b, text, steps);
    SecondNameRepeats(a, text, now);
    assert 1 !in DoneBy(text, steps, 1);
  }

  lemma {:induction false} SecondNameRepeats(a: string, text: string, now: string)
    requires |a| == 40 && text == UndelimitedText(a)
    requires |now| == 120 && forall p :: 0 <= p < 120 ==> now[p] == if p < 40 then a[p] else text[p]
    ensures OccursAt(now, text[80..120], 39)
  {
    forall x | 0 <= x < 40
      ensures now[39..79][x] == text[80..120][x]
    {
      assert now[39..79][x] == now[39 + x];
    }
  }

  lemma {:induction false} UndelimitedUncut(a: string, b: string, text: string, steps: seq<Step>)
    requires IsUndelimited(a, b, text, steps)
    ensures Uncut(text, steps, 1)
  {
    UndelimitedNames(a, b, text, steps);
    var now := UndelimitedSecond(a, b, text, steps);
    var name := text[80..120];
    forall i, j | OccursAt(now, name, i) && 0 <= j < |steps| && j !in {0}
      ensures i == steps[j].at || i + |name| <= steps[j].at || steps[j].at + steps[j].width <= i
    {
      OccurrenceReads(now, name, i, 0);
    }
  }

  lemma {:induction false} UndelimitedFirst(a: string, b: string, text: string, steps: seq<Step>)
    requires IsUndelimited(a, b, text, steps)
    ensures Uncut(text, steps, 0)
  {
    UndelimitedNames(a, b, text, steps);
    assert DoneBy(text, steps, 0) == {};
    ShowsIsIntended(text, steps, 40, {}, text);
    var name := Placeholder(text, steps[0]);
    forall i, j | OccursAt(text, name, i) && 0 <= j < |steps|
      ensures i == steps[j].at || i + |name| <= steps[j].at || steps[j].at + steps[j].width <= i
    {
      OccurrenceReads(text, name, i, 39);
    }
  }

  lemma {:induction false} UndelimitedSecond(a: string, b: string, text: string, steps: seq<Step>)
    returns (now: string)
    requires IsUndelimited(a, b, text, steps)
    ensures DoneBy(text, steps, 1) == {0} && now == Ahead(text, steps, 1)
    ensures |now| == 120 && forall p :: 0 <= p < 120 ==> now[p] == if p < 40 then a[p] else text[p]
  {
    UndelimitedNames(a, b, text, steps);
    assert Met(text, steps, 0, Placeholder(text, steps[1])) == false;
    now := a + text[40..];
    assert now[0..40] == a;
    assert Covers(steps[0], 0);
    forall p | 0 <= p < 120 && Outside(steps, {0}, p)
      ensures now[p] == text[p]
    {
      assert !Covers(steps[0], p);
    }
    ShowsIsIntended(text, steps, 40, {0}, now);
  }

  // One placeholder for two addresses.

  /** Two libraries with one placeholder and two addresses: the last address wins everywhere. */
  lemma {:induction false} SharedPlaceholderIsLost(name: string, a: string, b: string)
    requires |name| == 40 && IsAddress(a) && IsAddress(b) && a != b
    ensures var text, steps := name + name, StepsOfAll([LibraryAt(a, 0), LibraryAt(b, 20)]);
      LinkSteps(text, steps) == b + b && !Linked(text, steps, LinkSteps(text, steps))
  {
    var text, steps := name + name, [Step(0, 40, a), Step(40, 40, b)];
    StepsOfTwo(a, 0, b, 20);
    assert Slice(text, 0, 40) == name && Slice(a + a, 40, 80) == a;
    ReplaceTwice(name, a);
    ReplaceTwice(a, b);
    var now := LinkTwo(text, steps[0], steps[1]);
    assert (b + b)[0..40] == b;
    assert !OccursAt(now, steps[0].address, steps[0].at);
  }

  lemma {:induction false} ReplaceTwice(pattern: string, value: string)
    requires |pattern| == |value| > 0
    ensures Replace(pattern + pattern, pattern, value) == value + value
  {
    var s, n := pattern + pattern, |pattern|;
    assert s[0..n] == pattern && s[n..n + n] == pattern;
    assert ReplaceFrom(s, pattern, value, n + n) == "";
    assert ReplaceFrom(s, pattern, value, n) == value + "";
  }

  lemma {:induction false} LinkTwo(text: string, first: Step, second: Step) returns (now: string)
    ensures now == LinkSteps(text, [first, second]) == LinkStep(LinkStep(text, first), second)
  {
    LinkStepsSnoc(text, [], first);
    LinkStepsSnoc(text, [first], second);
    assert [] + [first] == [first] && [first] + [second] == [first, second];
    now := LinkSteps(text, [first, second]);
  }

  // Two addresses that cancel out.

  function SameDigits(): string {
    seq(40, i requires 0 <= i < 40 => 'a')
  }

  function LastDigitB(): string {
    seq(40, i requires 0 <= i < 40 => if i == 39 then 'b' else 'a')
  }

  /** References at 0, 42 and 84, between them "0a"; their characters are `fill`, or 'b' at `bs`. */
  function CancelText(fill: char, bs: set<int>): string {
    seq(124, p requires 0 <= p < 124 =>
      if p == 40 || p == 82 then '0' else if p in bs then 'b' else if p == 41 || p == 83 then 'a' else fill)
  }

  /**
   Equal placeholders with different addresses are not always lost: misaligned replacements can cancel out. So
   agreement suffices for linking, but is not necessary.
   */
  lemma {:induction false} DisagreementCanCancel()
    ensures IsAddress(SameDigits()) && IsAddress(LastDigitB())
    ensures var text, a, b := CancelText('_', {}), SameDigits(), LastDigitB();
      var steps := StepsOfAll([LibraryAt(a, 21), LibraryAt(b, 0), LibraryAt(a, 42)]);
      && steps == [Step(42, 40, a), Step(0, 40, b), Step(84, 40, a)]
      && Regular(text, steps, 40) && !Agrees(text, steps, Placeholder(text, steps[0]), a)
      && Linked(text, steps, LinkSteps(text, steps))
  {
    var a, b := SameDigits(), LastDigitB();
    AddressesAreFine();
    StepsOfThree(a, 21, b, 0, a, 42);
    var steps := [Step(42, 40, a), Step(0, 40, b), Step(84, 40, a)];
    CancelDisagrees(steps);
    CancelRun(steps);
    CancelIsLinked(steps);
  }

  lemma {:induction false} AddressesAreFine()
    ensures IsAddress(SameDigits()) && IsAddress(LastDigitB())
  {
    assert Lower(SameDigits()) == SameDigits() && Lower(LastDigitB()) == LastDigitB();
  }

  ghost predicate IsCancelling(steps: seq<Step>) {
    steps == [Step(42, 40, SameDigits()), Step(0, 40, LastDigitB()), Step(84, 40, SameDigits())]
  }

  lemma {:induction false} CancelDisagrees(steps: seq<Step>)
    requires IsCancelling(steps)
    ensures var text := CancelText('_', {});
      Regular(text, steps, 40) && !Agrees(text, steps, Placeholder(text, steps[0]), SameDigits())
  {
    AddressesAreFine();
    var text := CancelText('_', {});
    assert text[42..82] == text[0..40];
    assert steps[1].address[39] == 'b' && SameDigits()[39] == 'a';
  }

  lemma {:induction false} CancelRun(steps: seq<Step>)
    requires IsCancelling(steps)
    ensures LinkSteps(CancelText('_', {}), steps) == CancelText('a', {39})
  {
    CancelFirst();
    CancelSecond();
    CancelThird();
    var now := LinkTwo(CancelText('_', {}), steps[0], steps[1]);
    LinkStepsSnoc(CancelText('_', {}), [steps[0], steps[1]], steps[2]);
    assert [steps[0], steps[1]] + [steps[2]] == steps;
  }

  lemma {:induction false} CancelIsLinked(steps: seq<Step>)
    requires IsCancelling(steps)
    ensures Linked(CancelText('_', {}), steps, CancelText('a', {39}))
  {
    var text, linked := CancelText('_', {}), CancelText('a', {39});
    assert linked[42..82] == SameDigits() && linked[0..40] == LastDigitB() && linked[84..124] == SameDigits();
    forall p | 0 <= p < 124 && !Covered(steps, p)
      ensures linked[p] == text[p]
    {
      assert !Covers(steps[0], p) && !Covers(steps[1], p) && !Covers(steps[2], p);
    }
  }

  lemma {:induction false} CancelFirst()
    ensures LinkStep(CancelText('_', {}), Step(42, 40, SameDigits())) == CancelText('a', {})
  {
    var now, next, step := CancelText('_', {}), CancelText('a', {}), Step(42, 40, SameDigits());
    FirstHits(now, now[42..82]);
    assert next[0..40] == SameDigits() && next[42..82] == SameDigits() && next[84..124] == SameDigits();
    StepGives(now, step, now[42..82], {0, 42, 84}, next);
  }

  lemma {:induction false} FirstHits(now: string, name: string)
    requires now == CancelText('_', {}) && name == now[42..82]
    ensures Hits(now, name, 0) == {0, 42, 84}
  {
    assert now[0..40] == name && now[84..124] == name;
    forall p | OccursAt(now, name, p)
      ensures p == 0 || p == 42 || p == 84
    {
      CodeStops(now, name, p);
    }
    ThreeHits(now, name, 0, 42, 84);
  }

  lemma {:induction false} CodeStops(now: string, name: string, p: int)
    requires now == CancelText('_', {}) && |name| == 40 && (forall x :: 0 <= x < 40 ==> name[x] == '_')
    requires OccursAt(now, name, p)
    ensures p == 0 || p == 42 || p == 84
  {
    CodeIsOutside(now, name, p, 40);
    CodeIsOutside(now, name, p, 41);
    CodeIsOutside(now, name, p, 82);
    CodeIsOutside(now, name, p, 83);
  }

  lemma {:induction false} CodeIsOutside(now: string, name: string, p: int, q: nat)
    requires OccursAt(now, name, p) && (forall x :: 0 <= x < |name| ==> name[x] == '_')
    requires q < |now| && now[q] != '_'
    ensures q < p || p + |name| <= q
  {
    if p <= q < p + |name| {
      OccurrenceReads(now, name, p, q - p);
    }
  }

  lemma {:induction false} CancelSecond()
    ensures LinkStep(CancelText('a', {}), Step(0, 40, LastDigitB())) == CancelText('a', {39, 80, 122})
  {
    var now, next, step := CancelText('a', {}), CancelText('a', {39, 80, 122}), Step(0, 40, LastDigitB());
    SecondHits(now, SameDigits());
    assert now[0..40] == SameDigits();
    assert next[0..40] == LastDigitB() && next[41..81] == LastDigitB() && next[83..123] == LastDigitB();
    StepGives(now, step, SameDigits(), {0, 41, 83}, next);
  }

  lemma {:induction false} SecondHits(now: string, name: string)
    requires now == CancelText('a', {}) && name == SameDigits()
    ensures Hits(now, name, 0) == {0, 41, 83}
  {
    assert now[0..40] == name && now[41..81] == name && now[83..123] == name;
    forall p | OccursAt(now, name, p)
      ensures p == 0 || p == 41 || p == 42 || p == 83 || p == 84
    {
      SeparatorsStop(now, name, p);
    }
    ThreeHits(now, name, 0, 41, 83);
  }

  lemma {:induction false} SeparatorsStop(now: string, name: string, p: int)
    requires now == CancelText('a', {}) && name == SameDigits() && OccursAt(now, name, p)
    ensures p == 0 || p == 41 || p == 42 || p == 83 || p == 84
  {
    if p <= 40 < p + 40 {
      OccurrenceReads(now, name, p, 40 - p);
    }
    if p <= 82 < p + 40 {
      OccurrenceReads(now, name, p, 82 - p);
    }
  }

  lemma {:induction false} CancelThird()
    ensures LinkStep(CancelText('a', {39, 80, 122}), Step(84, 40, SameDigits())) == CancelText('a', {39})
  {
    var now, next, step := CancelText('a', {39, 80, 122}), CancelText('a', {39}), Step(84, 40, SameDigits());
    ThirdHits(now, now[84..124]);
    assert next[42..82] == SameDigits() && next[84..124] == SameDigits();
    StepGives(now, step, now[84..124], {42, 84}, next);
  }

  lemma {:induction false} ThirdHits(now: string, name: string)
    requires now == CancelText('a', {39, 80, 122}) && name == now[84..124]
    ensures Hits(now, name, 0) == {42, 84}
  {
    assert now[42..82] == name;
    forall p | OccursAt(now, name, p)
      ensures p == 42 || p == 84
    {
      OccurrenceReads(now, name, p, 38);
      OccurrenceReads(now, name, p, 39);
    }
    TwoHits(now, name, 42, 84);
  }

  // An occurrence that cuts into a reference.

  /** The first placeholder occurs at 79 too: the last character of the second one, and the digits behind it. */
  function CutText(): string {
    seq(120, p requires 0 <= p < 120 => if p == 0 || p == 79 then 'x' else if 40 <= p < 79 then 'z' else '0')
  }

  function ZerosBehindA(): string {
    seq(40, i requires 0 <= i < 40 => if i == 0 then 'a' else '0')
  }

  /** An occurrence that cuts into a reference can be harmless, when it writes the digits that are there already. */
  lemma {:induction false} CutCanBeHarmless(b: string)
    requires IsAddress(b)
    ensures IsAddress(ZerosBehindA())
    ensures var text, steps := CutText(), StepsOfAll([LibraryAt(ZerosBehindA(), 0), LibraryAt(b, 20)]);
      && Regular(text, steps, 40) && Workable(text, steps)
      && !NeverCut(text, steps) && !WellPlaced(text, steps) && Linked(text, steps, LinkSteps(text, steps))
  {
    var a := ZerosBehindA();
    assert Lower(a) == a;
    StepsOfTwo(a, 0, b, 20);
    var steps := [Step(0, 40, a), Step(40, 40, b)];
    CutNames(steps, b);
    CutIsStray(steps, b);
    CutIsLinked(steps, b);
  }

  ghost predicate IsCut(steps: seq<Step>, b: string) {
    IsAddress(b) && steps == [Step(0, 40, ZerosBehindA()), Step(40, 40, b)]
  }

  lemma {:induction false} CutNames(steps: seq<Step>, b: string)
    requires IsCut(steps, b)
    ensures Regular(CutText(), steps, 40) && Workable(CutText(), steps)
    ensures Placeholder(CutText(), steps[0]) == CutText()[0..40]
    ensures Placeholder(CutText(), steps[1]) == CutText()[40..80]
  {
    var first, second := CutText()[0..40], CutText()[40..80];
    assert first[0] == 'x' && second[0] == 'z';
    assert Marked(first) && Marked(second);
  }

  lemma {:induction false} CutIsStray(steps: seq<Step>, b: string)
    requires IsCut(steps, b)
    ensures !NeverCut(CutText(), steps) && !WellPlaced(CutText(), steps)
  {
    var text := CutText();
    CutNames(steps, b);
    assert DoneBy(text, steps, 0) == {};
    ShowsIsIntended(text, steps, 40, {}, text);
    assert text[79..119] == text[0..40];
    assert OccursAt(text, Placeholder(text, steps[0]), 79) && !IsStart(steps, 79);
    assert IsFirst(text, steps, 0) && Stray(text, steps, 0, 79);
    assert 1 !in DoneBy(text, steps, 0) && steps[1].at == 40;
    assert !Uncut(text, steps, 0);
  }

  /** The text after the first step. */
  function CutOnce(): string {
    seq(120, p requires 0 <= p < 120 => if p == 0 || p == 79 then 'a' else if 40 <= p < 79 then 'z' else '0')
  }

  lemma {:induction false} CutIsLinked(steps: seq<Step>, b: string)
    requires IsCut(steps, b)
    ensures Linked(CutText(), steps, LinkSteps(CutText(), steps))
  {
    var text, once := CutText(), CutOnce();
    var now := LinkTwo(text, steps[0], steps[1]);
    CutFirst();
    CutSecond(b);
    var next := LinkStep(once, steps[1]);
    assert next[0..40] == ZerosBehindA() && next[40..80] == b;
    forall p | 0 <= p < 120 && !Covered(steps, p)
      ensures next[p] == text[p]
    {
      assert !Covers(steps[0], p) && !Covers(steps[1], p);
    }
  }

  lemma {:induction false} CutFirst()
    ensures LinkStep(CutText(), Step(0, 40, ZerosBehindA())) == CutOnce()
  {
    var now, next, step := CutText(), CutOnce(), Step(0, 40, ZerosBehindA());
    CutFirstHits(now, now[0..40]);
    assert next[0..40] == ZerosBehindA() && next[79..119] == ZerosBehindA();
    StepGives(now, step, now[0..40], {0, 79}, next);
  }

  lemma {:induction false} CutFirstHits(now: string, name: string)
    requires now == CutText() && name == now[0..40]
    ensures Hits(now, name, 0) == {0, 79}
  {
    assert now[79..119] == name;
    forall p | OccursAt(now, name, p)
      ensures p == 0 || p == 79
    {
      OccurrenceReads(now, name, p, 0);
    }
    TwoHits(now, name, 0, 79);
  }

  lemma {:induction false} CutSecond(b: string)
    requires IsAddress(b)
    ensures LinkStep(CutOnce(), Step(40, 40, b)) == CutOnce()[..40] + b + CutOnce()[80..]
  {
    var now, step := CutOnce(), Step(40, 40, b);
    var name, next := now[40..80], now[..40] + b + now[80..];
    CutSecondHit(now, name);
    assert next[40..80] == b;
    StepGives(now, step, name, {40}, next);
  }

  lemma {:induction false} CutSecondHit(now: string, name: string)
    requires now == CutOnce() && name == now[40..80]
    ensures Hits(now, name, 0) == {40}
  {
    forall p | OccursAt(now, name, p)
      ensures p == 40
    {
      OccurrenceReads(now, name, p, 0);
      OccurrenceReads(now, name, p, 39);
    }
    NoHits(now, name, 80);
    OneHit(now, name, 0, 40, {});
  }
}
