/** The palindrome program on the Project 2 machine: what it prints for every input, and exactly how
    many instructions and cycles that takes. */
module Palindrome {
  import opened GprSim

  /** The instruction at index k; branch offsets count from the branch itself, before the PC is
      advanced. */
  function Line(k: nat): Instruction {
    match k
    case 0 => La(30, 0)       // "read" the string
    case 1 => Li(29, 0)
    case 2 => Syscall
    case 3 => Li(0, 0)        // first := 0
    case 4 => Li(1, 0)        // last := 0
    case 5 => Lb(2, 1)        // look for the terminating NUL
    case 6 => Beqz(2, 2)
    case 7 => Addi(1, 1, 1)
    case 8 => B(-4)
    case 9 => Subi(1, 1, 1)   // last character
    case 10 => Bge(0, 1, 6)   // met in the middle?
    case 11 => Lb(2, 0)
    case 12 => Lb(3, 1)
    case 13 => Bne(2, 3, 7)   // the ends differ?
    case 14 => Addi(0, 0, 1)
    case 15 => Subi(1, 1, 1)
    case 16 => B(-7)
    case 17 => La(31, 1)      // print strings[1]
    case 18 => Li(29, 1)
    case 19 => Syscall
    case 20 => B(4)
    case 21 => La(31, 2)      // print strings[2]
    case 22 => Li(29, 1)
    case 23 => Syscall
    case 24 => B(0)
    case 25 => Li(29, 2)      // exit
    case _ => Syscall
  }

  const PALINDROME := Program(seq(27, (k: nat) => Line(k)), [0, 1, 2])

  /** An input string: at most 255 chars, none of them NUL. */
  ghost predicate IsInput(s: seq<int32>) {
    |s| <= 255 && forall k :: 0 <= k < |s| ==> s[k] != 0
  }

  /** strings[0] holds the input and its terminating NUL. */
  ghost predicate Holds(strings: Strings, s: seq<int32>) {
    && IsInput(s)
    && strings[0][|s|] == 0 && forall k :: 0 <= k < |s| ==> strings[0][k] == s[k]
  }

  function Reverse(s: seq<int32>): (r: seq<int32>)
    ensures |r| == |s|
  {
    if s == [] then [] else Reverse(s[1..]) + [s[0]]
  }

  lemma {:induction false} ReverseAt(s: seq<int32>, k: nat)
    requires k < |s|
    ensures Reverse(s)[k] == s[|s| - 1 - k]
  {
    if k < |s| - 1 {
      ReverseAt(s[1..], k);
    }
  }

  /** The ends agree before index m. */
  ghost predicate EndsAgree(s: seq<int32>, m: int) {
    forall k :: 0 <= k < m && k < |s| ==> s[k] == s[|s| - 1 - k]
  }

  lemma MirrorFromHalf(s: seq<int32>, k: nat)
    requires EndsAgree(s, |s| / 2) && k < |s|
    ensures s[k] == s[|s| - 1 - k]
  {
    var j := |s| - 1 - k;
    if j < k {
      assert s[j] == s[|s| - 1 - j];
    }
  }

  /** A string equals its reverse when the ends agree up to the middle. */
  lemma HalfIsEnough(s: seq<int32>)
    ensures s == Reverse(s) <==> EndsAgree(s, |s| / 2)
  {
    hide Reverse;
    forall k: nat | k < |s|
      ensures Reverse(s)[k] == s[|s| - 1 - k]
    {
      ReverseAt(s, k);
    }
    if EndsAgree(s, |s| / 2) {
      hide EndsAgree;
      forall k: nat | k < |s|
        ensures s[k] == Reverse(s)[k]
      {
        MirrorFromHalf(s, k);
      }
    }
  }

  /** A running machine that has printed nothing, at pc, with the two indices and the costs so far. */
  ghost predicate At(s: State, pc: int, first: int, last: int, cycles: int, count: int) {
    && s.run && !s.fault && s.output == [] && s.pc == pc
    && s.registers[0] == first && s.registers[1] == last && s.cycles == cycles && s.count == count
  }

  /** One step of the program: the line at the PC is executed. */
  lemma Turn(strings: Strings, s: State) returns (t: State)
    requires s.run && 0 <= s.pc < 27
    ensures t == Execute(PALINDROME, strings, s, Line(s.pc))
    ensures forall n: nat :: n > 0 ==> Run(PALINDROME, strings, s, n) == Run(PALINDROME, strings, t, n - 1)
    ensures Run(PALINDROME, strings, t, 0) == t
  {
    hide Execute;
    assert PALINDROME.text[s.pc] == Line(s.pc);
    t := Step(PALINDROME, strings, s);
    TurnIsStep(PALINDROME, strings, s);
  }

  // The straight stretches of the program.
  lemma Opening(strings: Strings)
    ensures At(Run(PALINDROME, strings, Initial(), 5), 5, 0, 0, 22, 5)
  {
    hide Run;
    var s1 := Turn(strings, Initial());
    var s2 := Turn(strings, s1);
    var s3 := Turn(strings, s2);
    var s4 := Turn(strings, s3);
    var s5 := Turn(strings, s4);
  }

  lemma ScanOne(strings: Strings, s: State, k: nat, cycles: int, count: int)
    requires At(s, 5, 0, k, cycles, count) && k <= 255
    ensures if strings[0][k] == 0 then At(Run(PALINDROME, strings, s, 3), 10, 0, k - 1, cycles + 17, count + 3)
            else At(Run(PALINDROME, strings, s, 4), 5, 0, k + 1, cycles + 21, count + 4)
  {
    hide Run, Int32;
    ScanChar(strings, s, k, cycles, count);
    var s2 := Run(PALINDROME, strings, s, 2);
    SmallInt32(if strings[0][k] == 0 then k - 1 else k + 1);
    var s3 := Turn(strings, s2);
    RunAdd(PALINDROME, strings, s, 2, 1);
    if strings[0][k] != 0 {
      var s4 := Turn(strings, s3);
      RunAdd(PALINDROME, strings, s, 2, 2);
    }
  }

  // Loading a char and testing it for NUL.
  lemma ScanChar(strings: Strings, s: State, k: nat, cycles: int, count: int)
    requires At(s, 5, 0, k, cycles, count) && k <= 255
    ensures At(Run(PALINDROME, strings, s, 2), if strings[0][k] == 0 then 9 else 7, 0, k, cycles + 11, count + 2)
  {
    hide Run, Int32;
    var s1 := Turn(strings, s);
    var s2 := Turn(strings, s1);
  }

  lemma SmallInt32(x: int32)
    ensures Int32(x) == x
  {
  }

  lemma CompareTest(strings: Strings, s: State, i: nat, j: int, cycles: int, count: int)
    requires At(s, 10, i, j, cycles, count) && i < 255 && j < 255
    ensures if i >= j then At(Run(PALINDROME, strings, s, 1), 17, i, j, cycles + 5, count + 1)
            else if strings[0][i] != strings[0][j] then At(Run(PALINDROME, strings, s, 4), 21, i, j, cycles + 22, count + 4)
            else At(Run(PALINDROME, strings, s, 4), 14, i, j, cycles + 22, count + 4)
  {
    hide Run, Int32;
    var s1 := Turn(strings, s);
    if i < j {
      CompareChars(strings, s1, i, j, cycles + 5, count + 1);
      RunAdd(PALINDROME, strings, s, 1, 3);
    }
  }

  lemma CompareChars(strings: Strings, s: State, i: nat, j: nat, cycles: int, count: int)
    requires At(s, 11, i, j, cycles, count) && i < 255 && j < 255
    ensures At(Run(PALINDROME, strings, s, 3), if strings[0][i] != strings[0][j] then 21 else 14, i, j, cycles + 17, count + 3)
  {
    hide Run, Int32;
    var s1 := Turn(strings, s);
    var s2 := Turn(strings, s1);
    var s3 := Turn(strings, s2);
  }

  lemma MoveInwards(strings: Strings, s: State, i: nat, j: nat, cycles: int, count: int)
    requires At(s, 14, i, j, cycles, count) && i < 255 && j < 255
    ensures At(Run(PALINDROME, strings, s, 3), 10, i + 1, j - 1, cycles + 16, count + 3)
  {
    hide Run;
    var s1 := Turn(strings, s);
    var s2 := Turn(strings, s1);
    var s3 := Turn(strings, s2);
  }

  /** The machine has printed one string and is about to exit. */
  ghost predicate Printed(s: State, answer: Buffer, cycles: int, count: int) {
    s.run && !s.fault && s.output == [answer] && s.pc == 25 && s.cycles == cycles && s.count == count
  }

  lemma Print(strings: Strings, s: State, i: int, j: int, cycles: int, count: int)
    requires At(s, 17, i, j, cycles, count) || At(s, 21, i, j, cycles, count)
    ensures Printed(Run(PALINDROME, strings, s, 4), strings[if s.pc == 17 then 1 else 2], cycles + 20, count + 4)
  {
    hide Run;
    if s.pc == 17 {
      PrintYes(strings, s);
    } else {
      PrintNo(strings, s);
    }
  }

  lemma PrintYes(strings: Strings, s: State)
    requires s.run && !s.fault && s.output == [] && s.pc == 17
    ensures Printed(Run(PALINDROME, strings, s, 4), strings[1], s.cycles + 20, s.count + 4)
  {
    hide Run, Int32;
    var s1 := Turn(strings, s);
    var s2 := Turn(strings, s1);
    var s3 := Turn(strings, s2);
    var s4 := Turn(strings, s3);
  }

  lemma PrintNo(strings: Strings, s: State)
    requires s.run && !s.fault && s.output == [] && s.pc == 21
    ensures Printed(Run(PALINDROME, strings, s, 4), strings[2], s.cycles + 20, s.count + 4)
  {
    hide Run, Int32;
    var s1 := Turn(strings, s);
    var s2 := Turn(strings, s1);
    var s3 := Turn(strings, s2);
    var s4 := Turn(strings, s3);
  }

  lemma Exit(strings: Strings, s: State, answer: Buffer, cycles: int, count: int)
    requires Printed(s, answer, cycles, count)
    ensures var t := Run(PALINDROME, strings, s, 2);
      !t.run && !t.fault && t.output == [answer] && t.cycles == cycles + 11 && t.count == count + 2
  {
    hide Run;
    var s1 := Turn(strings, s);
    var s2 := Turn(strings, s1);
  }

  /** Printing one of the two answers and leaving. */
  lemma Answer(strings: Strings, s: State, i: int, j: int, cycles: int, count: int)
    requires At(s, 17, i, j, cycles, count) || At(s, 21, i, j, cycles, count)
    ensures var t := Run(PALINDROME, strings, s, 6);
      && !t.run && !t.fault && t.output == [strings[if s.pc == 17 then 1 else 2]]
      && t.cycles == cycles + 31 && t.count == count + 6
  {
    hide Run, Printed;
    Print(strings, s, i, j, cycles, count);
    RunAdd(PALINDROME, strings, s, 4, 2);
    Exit(strings, Run(PALINDROME, strings, s, 4), strings[if s.pc == 17 then 1 else 2], cycles + 20, count + 4);
  }

  // ---- The two loops -------------------------------------------------------------------------------

  lemma {:induction false} ScanAll(strings: Strings, s: State, input: seq<int32>, k: nat, cycles: int, count: int)
    requires Holds(strings, input) && k <= |input| && At(s, 5, 0, k, cycles, count)
    ensures var rest := |input| - k;
      At(Run(PALINDROME, strings, s, 4 * rest + 3), 10, 0, |input| - 1, cycles + 21 * rest + 17, count + 4 * rest + 3)
    decreases |input| - k
  {
    hide Run;
    ScanOne(strings, s, k, cycles, count);
    if k < |input| {
      var s1 := Run(PALINDROME, strings, s, 4);
      ScanAll(strings, s1, input, k + 1, cycles + 21, count + 4);
      RunAdd(PALINDROME, strings, s, 4, 4 * (|input| - k - 1) + 3);
    }
  }

  lemma ComparePair(strings: Strings, s: State, input: seq<int32>, i: nat, m: nat, cycles: int, count: int)
    requires Holds(strings, input) && i < m <= |input| / 2 && EndsAgree(input, m)
    requires At(s, 10, i, |input| - 1 - i, cycles, count)
    ensures At(Run(PALINDROME, strings, s, 7), 10, i + 1, |input| - 2 - i, cycles + 38, count + 7)
  {
    hide Run, At;
    var j := |input| - 1 - i;
    assert strings[0][i] == strings[0][j];
    CompareTest(strings, s, i, j, cycles, count);
    MoveInwards(strings, Run(PALINDROME, strings, s, 4), i, j, cycles + 22, count + 4);
    RunAdd(PALINDROME, strings, s, 4, 3);
  }

  lemma RunNone(strings: Strings, s: State)
    ensures Run(PALINDROME, strings, s, 0) == s
  {
  }

  /** The comparisons from index i on, which all agree before index m. */
  lemma {:induction false} CompareAll(strings: Strings, s: State, input: seq<int32>, i: nat, m: nat, cycles: int, count: int)
    requires Holds(strings, input) && i <= m <= |input| / 2 && EndsAgree(input, m)
    requires At(s, 10, i, |input| - 1 - i, cycles, count)
    ensures At(Run(PALINDROME, strings, s, 7 * (m - i)), 10, m, |input| - 1 - m, cycles + 38 * (m - i), count + 7 * (m - i))
    decreases m - i
  {
    hide Run, At, Holds, EndsAgree;
    RunNone(strings, s);
    if i < m {
      ComparePair(strings, s, input, i, m, cycles, count);
      var s1 := Run(PALINDROME, strings, s, 7);
      CompareAll(strings, s1, input, i + 1, m, cycles + 38, count + 7);
      RunAdd(PALINDROME, strings, s, 7, 7 * (m - i - 1));
    }
  }

  // ---- The whole run -------------------------------------------------------------------------------

  /** The first index at which the ends differ, or the middle when they all agree. */
  function FirstMismatch(s: seq<int32>, i: nat): (m: nat)
    requires i <= |s| / 2
    ensures i <= m <= |s| / 2
    ensures EndsAgree(s, i) ==> EndsAgree(s, m)
    ensures m < |s| / 2 ==> s[m] != s[|s| - 1 - m]
    decreases |s| - i
  {
    if i >= |s| / 2 then |s| / 2
    else if s[i] != s[|s| - 1 - i] then i
    else FirstMismatch(s, i + 1)
  }

  /** Numbers of instructions and cycles, for an input whose ends first differ at m. */
  function Instructions(s: seq<int32>): nat {
    var n, m := |s|, FirstMismatch(s, 0);
    if m == n / 2 then 15 + 4 * n + 7 * (n / 2) else 18 + 4 * n + 7 * m
  }

  function Cycles(s: seq<int32>): nat {
    var n, m := |s|, FirstMismatch(s, 0);
    if m == n / 2 then 75 + 21 * n + 38 * (n / 2) else 92 + 21 * n + 38 * m
  }

  lemma MismatchDecides(s: seq<int32>)
    ensures FirstMismatch(s, 0) == |s| / 2 <==> s == Reverse(s)
  {
    HalfIsEnough(s);
  }

  // Both loops, for an input whose ends agree before m.
  lemma AfterLoops(strings: Strings, input: seq<int32>, m: nat)
    requires Holds(strings, input) && m <= |input| / 2 && EndsAgree(input, m)
    ensures var n := |input|;
      At(Run(PALINDROME, strings, Initial(), 8 + 4 * n + 7 * m), 10, m, n - 1 - m, 39 + 21 * n + 38 * m, 8 + 4 * n + 7 * m)
  {
    hide Run, At, Holds, EndsAgree;
    var start, scan := Initial(), 4 * |input| + 3;
    Opening(strings);
    var s1 := Run(PALINDROME, strings, start, 5);
    ScanAll(strings, s1, input, 0, 22, 5);
    RunAdd(PALINDROME, strings, start, 5, scan);
    var s2 := Run(PALINDROME, strings, start, 5 + scan);
    CompareAll(strings, s2, input, 0, m, 22 + 21 * |input| + 17, 5 + scan);
    RunAdd(PALINDROME, strings, start, 5 + scan, 7 * m);
  }

  /** For every input, the program halts after exactly that many instructions and cycles, having
      printed strings[1] if the input equals its reverse and strings[2] if not. */
  lemma Decides(strings: Strings, input: seq<int32>)
    requires Holds(strings, input)
    ensures var t := Run(PALINDROME, strings, Initial(), Instructions(input));
      && !t.run && !t.fault
      && t.output == [strings[if input == Reverse(input) then 1 else 2]]
      && t.count == Instructions(input) && t.cycles == Cycles(input)
  {
    hide Run, Reverse;
    var n, m := |input|, FirstMismatch(input, 0);
    MismatchDecides(input);
    var start, done := Initial(), 8 + 4 * n + 7 * m;
    AfterLoops(strings, input, m);
    var s3 := Run(PALINDROME, strings, start, done);
    CompareTest(strings, s3, m, n - 1 - m, 39 + 21 * n + 38 * m, done);
    var last := if m == n / 2 then 1 else 4;
    RunAdd(PALINDROME, strings, start, done, last);
    var s4 := Run(PALINDROME, strings, start, done + last);
    Answer(strings, s4, m, n - 1 - m, 39 + 21 * n + 38 * m + if m == n / 2 then 5 else 22, done + last);
    RunAdd(PALINDROME, strings, start, done + last, 6);
  }

  /** The simulator run on the program: it ends, with the answer and the costs above. */
  method Simulate(strings: Strings, ghost input: seq<int32>) returns (output: seq<Buffer>, cycles: int, count: int)
    requires Holds(strings, input)
    ensures output == [strings[if input == Reverse(input) then 1 else 2]]
    ensures cycles == Cycles(input) && count == Instructions(input)
  {
    hide Run;
    Decides(strings, input);
    var sim := new Simulator(PALINDROME, strings);
    sim.RunToEnd(Instructions(input));
    output, cycles, count := sim.output, sim.numCycles, sim.instructionCount;
  }
}
