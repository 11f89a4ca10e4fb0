/** The stack a program starts with: copies of the environment and argument strings at the top, and below
    them argc and two null-terminated vectors of pointers to the copies. */
module RunStack {
  import opened Words
  import opened Isa
  import opened Immediates

  const STACK_TOP := 0x8000_0000
  const MAX_STRINGS := 10000

  const A0: reg := 4
  const A1: reg := 5
  const A2: reg := 6
  const V0: reg := 2
  const SP: reg := 29

  type Text8 = s: seq<byte> | forall k :: 0 <= k < |s| ==> s[k] != 0

  // ---- What is in memory ---------------------------------------------------------------------------

  /** A null-terminated copy of s begins at address a. */
  ghost predicate StringAt(mem: Bytes, a: int, s: seq<byte>) {
    && 0 <= a && a + |s| < TWO32
    && (forall x: word | a <= x < a + |s| :: x in mem && mem[x] == s[x - a])
    && a + |s| in mem && mem[a + |s|] == 0
  }

  ghost predicate WordIs(mem: Bytes, a: int, v: word) {
    0 <= a && a + 3 < TWO32 && Mapped(mem, a, 4) && WordAt(mem, a) == v
  }

  /** The words vs lie one after the other from address a on. */
  ghost predicate VectorAt(mem: Bytes, a: int, vs: seq<word>) {
    forall k :: 0 <= k < |vs| ==> WordIs(mem, a + 4 * k, vs[k])
  }

  /** Nothing has changed outside the addresses from lo to hi - 1. */
  ghost predicate OnlyWithin(before: Bytes, after: Bytes, lo: int, hi: int) {
    forall x: word | x in before && !(lo <= x < hi) :: x in after && after[x] == before[x]
  }

  function Size(strings: seq<Text8>): nat {
    if strings == [] then 0 else |strings[0]| + 1 + Size(strings[1..])
  }

  /** Room enough for the strings, the alignment and the vectors. */
  function Need(envp: seq<Text8>, argv: seq<Text8>): nat {
    Size(envp) + Size(argv) + 16 + 4 * (|envp| + |argv| + 3)
  }

  lemma {:induction false} SizeOfFront(strings: seq<Text8>, k: nat)
    requires k < |strings|
    ensures Size(strings[..k + 1]) == Size(strings[..k]) + |strings[k]| + 1
  {
    if k > 0 {
      assert strings[..k + 1][1..] == strings[1..][..k] && strings[..k][1..] == strings[1..][..k - 1];
      SizeOfFront(strings[1..], k - 1);
    } else {
      assert strings[..1][1..] == [];
    }
  }

  lemma {:induction false} FrontIsSmaller(strings: seq<Text8>, k: nat)
    requires k <= |strings|
    ensures Size(strings[..k]) <= Size(strings)
    decreases |strings| - k
  {
    if k < |strings| {
      SizeOfFront(strings, k);
      FrontIsSmaller(strings, k + 1);
    } else {
      assert strings[..k] == strings;
    }
  }

  // ---- Keeping what is there -----------------------------------------------------------------------

  lemma StringStays(before: Bytes, after: Bytes, lo: int, hi: int, a: int, s: seq<byte>)
    requires StringAt(before, a, s) && OnlyWithin(before, after, lo, hi) && hi <= a
    ensures StringAt(after, a, s)
  {
  }

  lemma WordStays(before: Bytes, after: Bytes, lo: int, hi: int, a: int, v: word)
    requires WordIs(before, a, v) && OnlyWithin(before, after, lo, hi) && hi <= a
    ensures WordIs(after, a, v)
  {
    hide Join;
    var b: word := a;
    assert b in before && b + 1 in before && b + 2 in before && b + 3 in before;
  }

  lemma VectorStays(before: Bytes, after: Bytes, lo: int, hi: int, a: int, vs: seq<word>)
    requires VectorAt(before, a, vs) && OnlyWithin(before, after, lo, hi) && hi <= a
    ensures VectorAt(after, a, vs)
  {
    hide WordIs, OnlyWithin;
    forall k | 0 <= k < |vs|
      ensures WordIs(after, a + 4 * k, vs[k])
    {
      WordStays(before, after, lo, hi, a + 4 * k, vs[k]);
    }
  }

  lemma WordPut(mem: Bytes, a: word, v: word)
    requires a + 3 < TWO32
    ensures WordIs(PutWord(mem, a, v), a, v) && OnlyWithin(mem, PutWord(mem, a, v), a, a + 4)
  {
    hide ByteOf, Join;
    BytesJoin(v);
  }

  lemma VectorGrows(mem: Bytes, a: int, v: word, vs: seq<word>)
    requires WordIs(mem, a, v) && VectorAt(mem, a + 4, vs)
    ensures VectorAt(mem, a, [v] + vs)
  {
    hide WordIs;
    var all := [v] + vs;
    forall k | 0 <= k < |all|
      ensures WordIs(mem, a + 4 * k, all[k])
    {
      if k > 0 {
        assert WordIs(mem, a + 4 + 4 * (k - 1), vs[k - 1]);
      }
    }
  }

  // ---- Building the stack --------------------------------------------------------------------------

  class Loader {
    var mem: Bytes
    var sp: word
    var a0: word
    var a1: word
    var a2: word

    /** Copies a string and its terminator to the stack, last byte first; returns where it begins. */
    method CopyString(s: Text8) returns (start: word)
      requires sp > |s| && sp < STACK_TOP
      modifies this`mem, this`sp
      ensures sp == old(sp) - |s| - 1 && start == sp + 1
      ensures StringAt(mem, start, s) && OnlyWithin(old(mem), mem, start, old(sp) + 1)
    {
      var i := |s|;
      while i >= 0
        invariant -1 <= i <= |s|
        invariant sp == old(sp) - (|s| - i)
        invariant forall x: word | sp < x <= old(sp) ::
                    x in mem && mem[x] == if x == old(sp) then 0 else s[x - (old(sp) - |s|)]
        invariant OnlyWithin(old(mem), mem, sp + 1, old(sp) + 1)
        decreases i + 1
      {
        mem := mem[sp := if i == |s| then 0 else s[i]];
        sp := sp - 1;
        i := i - 1;
      }
      start := sp + 1;
    }

    /** Pushes a word; returns its address. */
    method CopyInt(n: word) returns (at: word)
      requires 4 <= sp < STACK_TOP
      modifies this`mem, this`sp
      ensures sp == old(sp) - 4 && at == old(sp)
      ensures WordIs(mem, at, n) && OnlyWithin(old(mem), mem, at, at + 4)
    {
      WordPut(mem, sp, n);
      mem := PutWord(mem, sp, n);
      sp := sp - 4;
      at := sp + 4;
    }

    /** Copies the strings, recording in addrs from index from on where each of them begins. */
    method CopyStrings(strings: seq<Text8>, addrs: array<word>, from: nat) returns (ghost starts: seq<word>)
      requires Size(strings) < sp < STACK_TOP && from + |strings| <= addrs.Length
      modifies this`mem, this`sp, addrs
      ensures sp == old(sp) - Size(strings)
      ensures OnlyWithin(old(mem), mem, sp + 1, old(sp) + 1)
      ensures addrs[..from] == old(addrs[..from])
      ensures starts == addrs[from..from + |strings|] && |starts| == |strings|
      ensures forall k :: 0 <= k < |strings| ==> starts[k] > sp && StringAt(mem, starts[k], strings[k])
    {
      hide StringAt, OnlyWithin;
      starts := [];
      var i := 0;
      NothingChanged(mem, sp + 1);
      while i < |strings|
        invariant 0 <= i <= |strings| && sp == old(sp) - Size(strings[..i])
        invariant OnlyWithin(old(mem), mem, sp + 1, old(sp) + 1)
        invariant addrs[..from] == old(addrs[..from])
        invariant starts == addrs[from..from + i]
        invariant forall k :: 0 <= k < i ==> starts[k] > sp && StringAt(mem, starts[k], strings[k])
      {
        SizeOfFront(strings, i);
        FrontIsSmaller(strings, i + 1);
        ghost var before, was := mem, sp;
        var start := CopyString(strings[i]);
        forall k | 0 <= k < i
          ensures StringAt(mem, starts[k], strings[k])
        {
          StringStays(before, mem, start, was + 1, starts[k], strings[k]);
        }
        Widened(old(mem), before, mem, sp + 1, was + 1, old(sp) + 1);
        addrs[from + i] := start;
        starts := starts + [start];
        i := i + 1;
      }
      assert strings[..i] == strings && starts == addrs[from..from + |strings|];
    }

    /** Pushes the entries from lo to hi - 1 of addrs and a final null, so that they form a vector;
        returns the address of the first entry if there is one. */
    method PushVector(addrs: array<word>, lo: nat, hi: nat, ghost above: seq<word>) returns (first: word)
      requires lo <= hi <= addrs.Length && sp % 4 == 0 && 4 * (hi - lo + 2) <= sp < STACK_TOP
      requires VectorAt(mem, sp + 4, above)
      modifies this`mem, this`sp
      ensures sp == old(sp) - 4 * (hi - lo + 1) && first == sp + 4
      ensures VectorAt(mem, first, addrs[lo..hi] + [0] + above)
      ensures OnlyWithin(old(mem), mem, sp + 4, old(sp) + 4)
    {
      hide VectorAt, OnlyWithin, WordIs;
      ghost var before := mem;
      first := CopyInt(0);
      VectorStays(before, mem, first, first + 4, first + 4, above);
      VectorGrows(mem, first, 0, above);
      var i := hi;
      assert addrs[hi..hi] + [0] + above == [0] + above;
      while i > lo
        invariant lo <= i <= hi && sp == old(sp) - 4 * (hi - i + 1) && first == sp + 4
        invariant VectorAt(mem, first, addrs[i..hi] + [0] + above)
        invariant OnlyWithin(old(mem), mem, sp + 4, old(sp) + 4)
      {
        i := i - 1;
        ghost var was, vs := mem, addrs[i + 1..hi] + [0] + above;
        first := CopyInt(addrs[i]);
        VectorStays(was, mem, first, first + 4, first + 4, vs);
        VectorGrows(mem, first, addrs[i], vs);
        assert [addrs[i]] + vs == addrs[i..hi] + [0] + above;
        Widened(old(mem), was, mem, first, first + 4, old(sp) + 4);
      }
    }

    /** Pushes the vectors of pointers, the environment's first e ones and then the arguments' up to j,
        and argc. */
    method BuildVectors(addrs: array<word>, e: nat, j: nat)
      requires e <= j <= addrs.Length && j <= MAX_STRINGS && sp % 4 == 0 && 4 * (j + 4) <= sp < STACK_TOP
      modifies this
      ensures sp == old(sp) - 4 * (j + 2) && a0 == j - e
      ensures VectorAt(mem, sp, [a0] + (addrs[e..j] + [0] + (addrs[0..e] + [0])))
      ensures e < j ==> a1 == sp + 4
      ensures e > 0 ==> a2 == sp + 4 + 4 * (j - e + 1)
      ensures OnlyWithin(old(mem), mem, sp, old(sp) + 4)
    {
      hide StringAt, VectorAt, OnlyWithin, WordIs;
      NoVector(mem, sp + 4);
      var first := PushVector(addrs, 0, e, []);
      if e > 0 {
        a2 := first;
      }
      ghost var env, middle, low := addrs[0..e] + [0], mem, first;
      assert env + [] == env;
      first := PushVector(addrs, e, j, env);
      if e < j {
        a1 := first;
      }
      Widened(old(mem), middle, mem, first, low, old(sp) + 4);
      ghost var pushed := mem;
      a0 := j - e;
      WordPut(mem, sp, a0);
      mem := PutWord(mem, sp, a0);
      VectorStays(pushed, mem, sp, sp + 4, sp + 4, addrs[e..j] + [0] + env);
      VectorGrows(mem, sp, a0, addrs[e..j] + [0] + env);
      Widened(old(mem), pushed, mem, sp, sp + 4, old(sp) + 4);
    }

    /** Rounds down to a word, goes to the next free one, and rounds that down to a double word. */
    method AlignStack() returns (ghost doubles: nat)
      requires sp >= 14
      modifies this`sp
      ensures sp == 8 * doubles && old(sp) - 14 <= sp <= old(sp) - 4
    {
      sp := sp - sp % 4 - 4;
      doubles := sp / 8;
      sp := sp - sp % 8;
    }

    /** Builds the stack for a program.  The stack pointer is aligned to double words before the vectors are
        pushed, and so afterwards exactly if the words pushed, the entries and the two nulls, are even in
        number.  Every pointer of the two vectors leads to an intact copy of its string, all above the
        vectors. */
    method Initialize(envp: seq<Text8>, argv: seq<Text8>) returns (ghost args: seq<word>, ghost env: seq<word>)
      requires |envp| + |argv| <= MAX_STRINGS && Need(envp, argv) <= STACK_TOP - 1
      modifies this
      ensures STACK_TOP - Need(envp, argv) <= sp && sp % 4 == 0 && a0 == |argv|
      ensures AlignedIfEven(sp, |envp| + |argv| + 2)
      ensures |args| == |argv| && |env| == |envp|
      ensures VectorAt(mem, sp, [a0] + (args + [0] + (env + [0])))
      ensures argv != [] ==> a1 == sp + 4
      ensures envp != [] ==> a2 == sp + 4 + 4 * (|argv| + 1)
      ensures var top := sp + 4 * (|argv| + |envp| + 3);
        && (forall k :: 0 <= k < |argv| ==> args[k] >= top && StringAt(mem, args[k], argv[k]))
        && (forall k :: 0 <= k < |envp| ==> env[k] >= top && StringAt(mem, env[k], envp[k]))
    {
      hide StringAt, VectorAt, OnlyWithin, WordIs, Size, AlignedIfEven;
      var addrs := new word[MAX_STRINGS];
      sp := STACK_TOP - 1;
      env := CopyStrings(envp, addrs, 0);
      ghost var before, was := mem, sp;
      args := CopyStrings(argv, addrs, |envp|);
      KeepStrings(before, mem, sp + 1, was + 1, env, envp);
      assert env == addrs[0..|envp|];
      ghost var doubles := AlignStack();
      DoubleWords(sp, doubles, 0);
      before, was := mem, sp;
      BuildVectors(addrs, |envp|, |envp| + |argv|);
      KeepStrings(before, mem, sp, was + 4, env, envp);
      KeepStrings(before, mem, sp, was + 4, args, argv);
      DoubleWords(sp, doubles, |envp| + |argv| + 2);
    }
  }

  /** A double-word address exactly if n is even. */
  predicate AlignedIfEven(a: int, n: nat) {
    a % 8 == 0 <==> n % 2 == 0
  }

  lemma DoubleWords(sp: int, doubles: nat, words: nat)
    requires sp == 8 * doubles - 4 * words
    ensures sp % 4 == 0 && AlignedIfEven(sp, words)
  {
    var h, r := words / 2, words % 2;
    QuotientIs(sp, 4, 2 * doubles - words, 0);
    QuotientIs(sp, 8, doubles - h - r, 4 * r);
  }

  lemma NothingChanged(mem: Bytes, a: int)
    ensures OnlyWithin(mem, mem, a, a)
  {
  }

  lemma NoVector(mem: Bytes, a: int)
    ensures VectorAt(mem, a, [])
  {
  }

  // Two changes one below the other.
  lemma Widened(before: Bytes, middle: Bytes, after: Bytes, lo: int, mid: int, hi: int)
    requires OnlyWithin(before, middle, mid, hi) && OnlyWithin(middle, after, lo, mid)
    requires lo <= mid <= hi
    ensures OnlyWithin(before, after, lo, hi)
  {
  }

  lemma KeepStrings(before: Bytes, after: Bytes, lo: int, hi: int, addrs: seq<word>, strings: seq<Text8>)
    requires |addrs| == |strings| && OnlyWithin(before, after, lo, hi)
    requires forall k :: 0 <= k < |strings| ==> addrs[k] >= hi && StringAt(before, addrs[k], strings[k])
    ensures forall k :: 0 <= k < |strings| ==> StringAt(after, addrs[k], strings[k])
  {
    hide StringAt, OnlyWithin;
    forall k | 0 <= k < |strings|
      ensures StringAt(after, addrs[k], strings[k])
    {
      StringStays(before, after, lo, hi, addrs[k], strings[k]);
    }
  }

  // ---- The startup code ----------------------------------------------------------------------------

  /** __start: argc from the stack, argv right above it, envp after argv's null. */
  function StartCode(): seq<Inst> {
    [IType(LW, A0, SP, 0), IType(ADDIU, A1, SP, 4), IType(ADDIU, A2, A1, 4), ShiftType(SLL, V0, A0, 2),
     RType(ADDU, A2, A2, V0)]
  }

  lemma DoLoadWord(s: State, rt: reg, rs: reg, v: word)
    requires Reg(s, rs) % 4 == 0 && WordIs(s.mem, Reg(s, rs), v)
    ensures Perform(IType(LW, rt, rs, 0), s) == After(s, rt, v)
  {
    hide Mapped, WordAt;
    SmallWrap(Reg(s, rs));
    hide Wrap;
  }

  lemma TimesFour(argc: word)
    requires argc < 0x4000_0000
    ensures ShiftOp(SLL, argc, 2) == 4 * argc
  {
    Pow2Values();
    SmallWrap(4 * argc);
    hide Wrap;
  }

  /** On the stack that has been built, __start passes argc, the argument vector and the environment
      vector to main. */
  lemma StartFindsVectors(text: Text, s: State, argc: word)
    requires s.outcome == Running && Placed(text, s.PC, StartCode())
    requires var sp := Reg(s, SP); sp % 4 == 0 && WordIs(s.mem, sp, argc) && sp + 4 * argc + 8 < TWO32
    ensures var t, sp := Run(text, s, 5), Reg(s, SP);
      && t.outcome == Running && t.PC == s.PC + 20
      && t.R[A0] == argc && t.R[A1] == sp + 4 && t.R[A2] == sp + 4 + 4 * (argc + 1)
  {
    hide Perform, Wrap, ShiftOp, WordIs, RegisterOp, ImmediateOp;
    var code, sp := StartCode(), Reg(s, SP);
    FirstTwo(text, s.PC, code);
    assert text[s.PC + 4 * 3] == code[3] && text[s.PC + 4 * 4] == code[4];
    assert Run(text, s, 0) == s;
    hide Run;
    SmallPCs(s.PC);
    DoLoadWord(s, A0, SP, argc);
    StepTo(text, s, 0, s, code[0]);
    var s1 := After(s, A0, argc);
    DoImmediateOp(s1, code[1]);
    AddFour(sp);
    StepTo(text, s, 1, s1, code[1]);
    var s2 := After(s1, A1, sp + 4);
    DoImmediateOp(s2, code[2]);
    AddFour(sp + 4);
    StepTo(text, s, 2, s2, code[2]);
    var s3 := After(s2, A2, sp + 8);
    DoShift(s3, code[3]);
    TimesFour(argc);
    StepTo(text, s, 3, s3, code[3]);
    var s4 := After(s3, V0, 4 * argc);
    DoRegisterOp(s4, code[4]);
    AddUp(sp + 8, 4 * argc);
    StepTo(text, s, 4, s4, code[4]);
  }

  lemma SmallPCs(pc: word)
    requires pc + 20 < TWO32
    ensures Wrap(pc + 4) == pc + 4 && Wrap(pc + 8) == pc + 8 && Wrap(pc + 12) == pc + 12
    ensures Wrap(pc + 16) == pc + 16 && Wrap(pc + 20) == pc + 20
  {
    hide Wrap;
    SmallWrap(pc + 4);
    SmallWrap(pc + 8);
    SmallWrap(pc + 12);
    SmallWrap(pc + 16);
    SmallWrap(pc + 20);
  }

  lemma AddFour(a: word)
    requires a + 4 < TWO32
    ensures ImmediateOp(ADDIU, a, 4) == a + 4
  {
    SmallWrap((a as int) + 4);
  }

  lemma AddUp(a: word, b: word)
    requires a + b < TWO32
    ensures RegisterOp(ADDU, a, b) == a + b
  {
    SmallWrap((a as int) + b);
  }

  lemma VectorParts(mem: Bytes, a: int, front: seq<word>, back: seq<word>)
    requires VectorAt(mem, a, front + back)
    ensures VectorAt(mem, a, front) && VectorAt(mem, a + 4 * |front|, back)
  {
    hide WordIs;
    var all := front + back;
    forall k | 0 <= k < |front|
      ensures WordIs(mem, a + 4 * k, front[k])
    {
      assert all[k] == front[k] && WordIs(mem, a + 4 * k, all[k]);
    }
    forall k | 0 <= k < |back|
      ensures WordIs(mem, a + 4 * |front| + 4 * k, back[k])
    {
      assert all[|front| + k] == back[k] && WordIs(mem, a + 4 * (|front| + k), all[|front| + k]);
    }
  }

  /** What main gets from the stack that Loader.Initialize leaves: the number of arguments and the two
      null-terminated vectors. */
  lemma MainArguments(text: Text, s: State, args: seq<word>, env: seq<word>)
    requires s.outcome == Running && Placed(text, s.PC, StartCode()) && |args| <= MAX_STRINGS
    requires var sp := Reg(s, SP);
      && sp % 4 == 0 && sp < STACK_TOP
      && VectorAt(s.mem, sp, [|args|] + (args + [0] + (env + [0])))
    ensures var t := Run(text, s, 5);
      && t.outcome == Running && t.R[A0] == |args|
      && VectorAt(s.mem, t.R[A1], args + [0]) && VectorAt(s.mem, t.R[A2], env + [0])
  {
    hide Run, WordIs, Placed;
    var sp := Reg(s, SP);
    var argc: seq<word> := [|args|];
    VectorParts(s.mem, sp, argc, args + [0] + (env + [0]));
    VectorParts(s.mem, sp + 4, args + [0], env + [0]);
    assert WordIs(s.mem, sp + 4 * 0, argc[0]);
    hide VectorAt;
    StartFindsVectors(text, s, |args|);
  }
}
