/** Breakpoints: the one shared break instruction is planted in the text, and what was there is kept in
    a linked list of records. */
module Breakpoints {
  import opened Options
  import opened Words
  import Isa

  const TEXT_BOT := 0x40_0000
  const K_TEXT_BOT := 0x8000_0000

  /** A place in the text: no instruction, one of the program's, or the shared break instruction, which
      is told from a break of the program by its identity. */
  datatype Slot = Empty | Holds(inst: Isa.Inst) | Planted

  datatype Record = Record(addr: word, slot: Slot)

  datatype Text = Text(user: seq<Slot>, kernel: seq<Slot>)

  datatype State = State(text: Text, records: seq<Record>)

  // ---- Text addresses ------------------------------------------------------------------------------

  predicate InUser(text: Text, addr: word) {
    TEXT_BOT <= addr < TEXT_BOT + 4 * |text.user| && addr % 4 == 0
  }

  predicate InKernel(text: Text, addr: word) {
    K_TEXT_BOT <= addr < K_TEXT_BOT + 4 * |text.kernel| && addr % 4 == 0
  }

  /** The segments do not reach each other or the end of memory. */
  predicate Fits(text: Text) {
    TEXT_BOT + 4 * |text.user| <= K_TEXT_BOT && K_TEXT_BOT + 4 * |text.kernel| <= TWO32
  }

  predicate InText(text: Text, addr: word) {
    InUser(text, addr) || InKernel(text, addr)
  }

  function At(text: Text, addr: word): Slot
    requires InText(text, addr)
  {
    if InUser(text, addr) then text.user[(addr - TEXT_BOT) / 4] else text.kernel[(addr - K_TEXT_BOT) / 4]
  }

  function Put(text: Text, addr: word, slot: Slot): (r: Text)
    ensures |r.user| == |text.user| && |r.kernel| == |text.kernel|
  {
    if InUser(text, addr) then text.(user := text.user[(addr - TEXT_BOT) / 4 := slot])
    else if InKernel(text, addr) then text.(kernel := text.kernel[(addr - K_TEXT_BOT) / 4 := slot])
    else text
  }

  lemma PutAt(text: Text, addr: word, slot: Slot, other: word)
    requires Fits(text) && InText(text, addr) && InText(text, other)
    ensures InText(Put(text, addr, slot), other) && Fits(Put(text, addr, slot))
    ensures At(Put(text, addr, slot), other) == if other == addr then slot else At(text, other)
  {
  }

  lemma SameText(a: Text, b: Text)
    requires |a.user| == |b.user| && |a.kernel| == |b.kernel| && Fits(a)
    requires forall addr: word | InText(a, addr) :: InText(b, addr) && At(a, addr) == At(b, addr)
    ensures a == b
  {
    forall k | 0 <= k < |a.user|
      ensures a.user[k] == b.user[k]
    {
      var addr: word := TEXT_BOT + 4 * k;
      assert At(a, addr) == a.user[k] && At(b, addr) == b.user[k];
    }
    forall k | 0 <= k < |a.kernel|
      ensures a.kernel[k] == b.kernel[k]
    {
      var addr: word := K_TEXT_BOT + 4 * k;
      assert At(a, addr) == a.kernel[k] && At(b, addr) == b.kernel[k];
    }
  }

  // ---- The specification ---------------------------------------------------------------------------

  /** Sets a breakpoint.  The break is planted even where there is no instruction, but only an
      instruction is recorded. */
  function Add(s: State, addr: word): State {
    if !InText(s.text, addr) || At(s.text, addr) == Planted then s
    else
      var slot := At(s.text, addr);
      State(Put(s.text, addr, Planted), if slot == Empty then s.records else [Record(addr, slot)] + s.records)
  }

  /** Every record of the address is written back, in the order of the list, and dropped. */
  function Restored(text: Text, records: seq<Record>, addr: word): (r: Text)
    ensures |r.user| == |text.user| && |r.kernel| == |text.kernel|
    decreases |records|
  {
    if records == [] then text
    else Restored(if records[0].addr == addr then Put(text, addr, records[0].slot) else text, records[1..], addr)
  }

  function Without(records: seq<Record>, addr: word): (r: seq<Record>)
    ensures forall k :: 0 <= k < |r| ==> r[k].addr != addr && r[k] in records
  {
    if records == [] then []
    else (if records[0].addr == addr then [] else [records[0]]) + Without(records[1..], addr)
  }

  function Delete(s: State, addr: word): State {
    State(Restored(s.text, s.records, addr), Without(s.records, addr))
  }

  // ---- The list in place ---------------------------------------------------------------------------

  class Node {
    const addr: word
    const slot: Slot
    var next: Node?

    constructor (addr: word, slot: Slot, next: Node?)
      ensures this.addr == addr && this.slot == slot && this.next == next
    {
      this.addr, this.slot, this.next := addr, slot, next;
    }
  }

  function RecordsOf(nodes: seq<Node>): (r: seq<Record>)
    ensures |r| == |nodes| && forall k :: 0 <= k < |nodes| ==> r[k] == Record(nodes[k].addr, nodes[k].slot)
  {
    seq(|nodes|, k requires 0 <= k < |nodes| => Record(nodes[k].addr, nodes[k].slot))
  }

  function NodeAt(nodes: seq<Node>, k: int): Node? {
    if 0 <= k < |nodes| then nodes[k] else null
  }

  class Debugger {
    const user: array<Slot>
    const kernel: array<Slot>
    var head: Node?
    ghost var nodes: seq<Node>

    ghost predicate Linked()
      reads this, nodes
    {
      && user != kernel
      && TEXT_BOT + 4 * user.Length <= K_TEXT_BOT && K_TEXT_BOT + 4 * kernel.Length <= TWO32
      && head == NodeAt(nodes, 0)
      && (forall k :: 0 <= k < |nodes| ==> nodes[k].next == NodeAt(nodes, k + 1))
      && (forall j, k :: 0 <= j < k < |nodes| ==> nodes[j] != nodes[k])
    }

    ghost function View(): State
      reads this, user, kernel
    {
      State(Text(user[..], kernel[..]), RecordsOf(nodes))
    }

    constructor (user: array<Slot>, kernel: array<Slot>)
      requires user != kernel
      requires TEXT_BOT + 4 * user.Length <= K_TEXT_BOT && K_TEXT_BOT + 4 * kernel.Length <= TWO32
      ensures Linked() && this.user == user && this.kernel == kernel
      ensures View() == State(Text(user[..], kernel[..]), [])
    {
      this.user, this.kernel, head, nodes := user, kernel, null, [];
    }

    method ReadInst(addr: word) returns (slot: Option<Slot>)
      ensures var text := Text(user[..], kernel[..]);
        slot == if InText(text, addr) then Some(At(text, addr)) else None
    {
      if TEXT_BOT <= addr < TEXT_BOT + 4 * user.Length && addr % 4 == 0 {
        slot := Some(user[(addr - TEXT_BOT) / 4]);
      } else if K_TEXT_BOT <= addr < K_TEXT_BOT + 4 * kernel.Length && addr % 4 == 0 {
        slot := Some(kernel[(addr - K_TEXT_BOT) / 4]);
      } else {
        slot := None;
      }
    }

    method SetInst(addr: word, slot: Slot)
      requires user != kernel
      modifies user, kernel
      ensures Text(user[..], kernel[..]) == Put(old(Text(user[..], kernel[..])), addr, slot)
    {
      if TEXT_BOT <= addr < TEXT_BOT + 4 * user.Length && addr % 4 == 0 {
        user[(addr - TEXT_BOT) / 4] := slot;
      } else if K_TEXT_BOT <= addr < K_TEXT_BOT + 4 * kernel.Length && addr % 4 == 0 {
        kernel[(addr - K_TEXT_BOT) / 4] := slot;
      }
    }

    /** Every node is an old one or a new one. */
    twostate predicate Grown()
      reads this
    {
      forall k :: 0 <= k < |nodes| ==> nodes[k] in old(nodes) || fresh(nodes[k])
    }

    method Push(addr: word, slot: Slot)
      requires Linked()
      modifies this
      ensures Linked() && RecordsOf(nodes) == [Record(addr, slot)] + old(RecordsOf(nodes))
      ensures Grown()
    {
      var node := new Node(addr, slot, head);
      head := node;
      nodes := [node] + nodes;
      assert RecordsOf(nodes) == [Record(addr, slot)] + old(RecordsOf(nodes));
    }

    /** False when no record was made. */
    method AddBreakpoint(addr: word) returns (ok: bool)
      requires Linked()
      modifies this, user, kernel
      ensures Linked() && View() == Add(old(View()), addr) && Grown()
      ensures ok <==> |nodes| > |old(nodes)|
    {
      hide Put;
      var slot := ReadInst(addr);
      ok := false;
      if slot.Some? && slot.value != Planted {
        SetInst(addr, Planted);
        if slot.value != Empty {
          Push(addr, slot.value);
          ok := true;
        }
      }
    }

    lemma InList(b: Node, i: nat)
      requires Linked() && b == NodeAt(nodes, i)
      ensures i < |nodes| && nodes[i] == b && b.next == NodeAt(nodes, i + 1)
    {
    }

    /** Takes the i-th node, whose predecessor is p, out of the list. */
    method Unlink(p: Node?, b: Node, ghost i: nat)
      requires Linked() && i < |nodes| && nodes[i] == b
      requires p == NodeAt(nodes, i - 1)
      modifies this, nodes
      ensures Linked() && nodes == old(nodes)[..i] + old(nodes)[i + 1..]
    {
      if p == null {
        head := b.next;
      } else {
        p.next := b.next;
      }
      ghost var was := nodes;
      nodes := nodes[..i] + nodes[i + 1..];
      forall k | 0 <= k < |nodes|
        ensures nodes[k].next == NodeAt(nodes, k + 1)
      {
        assert nodes[k] == was[if k < i then k else k + 1];
      }
    }

    /** Writes a node's instruction back and takes the node out of the list. */
    method RemoveNode(p: Node?, b: Node, ghost i: nat)
      requires Linked() && i < |nodes| && nodes[i] == b
      requires p == NodeAt(nodes, i - 1)
      modifies this, user, kernel, nodes
      ensures Linked() && nodes == old(nodes)[..i] + old(nodes)[i + 1..]
      ensures Text(user[..], kernel[..]) == Put(old(Text(user[..], kernel[..])), b.addr, b.slot)
    {
      hide Put;
      SetInst(b.addr, b.slot);
      Unlink(p, b, i);
    }

    /** b is the node of the first of the remaining records, and p the one before it. */
    ghost predicate Position(p: Node?, b: Node?, done: seq<Record>, rest: seq<Record>)
      reads this, nodes
    {
      && Linked() && RecordsOf(nodes) == done + rest
      && b == NodeAt(nodes, |done|) && p == NodeAt(nodes, |done| - 1)
    }

    /** Keeps the node b, or takes it out, and goes on to the next one. */
    method Visit(addr: word, p: Node?, b: Node, ghost done: seq<Record>, ghost rest: seq<Record>)
      returns (last: Node?, next: Node?, ghost kept: seq<Record>)
      requires Position(p, b, done, rest) && rest != []
      modifies this, user, kernel, nodes
      ensures Position(last, next, kept, rest[1..]) && rest[0].addr == b.addr
      ensures kept == if b.addr == addr then done else done + [rest[0]]
      ensures forall k :: 0 <= k < |nodes| ==> nodes[k] in old(nodes)
      ensures var text := old(Text(user[..], kernel[..]));
        Text(user[..], kernel[..]) == if b.addr == addr then Put(text, addr, rest[0].slot) else text
    {
      hide Put, Linked, RecordsOf, NodeAt;
      InList(b, |done|);
      RecordAt(nodes, done, rest);
      StillIn(nodes, nodes, |done|);
      next := b.next;
      if b.addr == addr {
        RemoveNode(p, b, |done|);
        last, kept := p, done;
      } else {
        last, kept := b, done + [rest[0]];
      }
    }

    /** False when there was nothing to delete. */
    method DeleteBreakpoint(addr: word) returns (ok: bool)
      requires Linked()
      modifies this, user, kernel, nodes
      ensures Linked() && View() == Delete(old(View()), addr)
      ensures forall k :: 0 <= k < |nodes| ==> nodes[k] in old(nodes)
      ensures ok <==> Without(old(View()).records, addr) != old(View()).records
    {
      hide Put, Restored, Without, RecordsOf, Linked, NodeAt, Position;
      ghost var goal, all := Delete(View(), addr), nodes;
      ghost var done, rest := [], RecordsOf(nodes);
      var p: Node?, b: Node? := null, head;
      Started();
      ok := false;
      while b != null
        modifies this, user, kernel, nodes
        invariant Position(p, b, done, rest)
        invariant forall k :: 0 <= k < |nodes| ==> nodes[k] in all
        invariant Restored(Text(user[..], kernel[..]), rest, addr) == goal.text
        invariant done + Without(rest, addr) == goal.records
        invariant ok <==> |done| + |rest| != |all|
        invariant |done| + |rest| <= |all|
        decreases |rest|
      {
        Remaining(p, b, done, rest);
        OneRecord(Text(user[..], kernel[..]), done, rest, addr);
        ok := ok || b.addr == addr;
        p, b, done := Visit(addr, p, b, done, rest);
        rest := rest[1..];
      }
      Finished(p, done, rest);
      NoRecord(Text(user[..], kernel[..]), addr);
      ShorterUnlessAbsent(RecordsOf(all), addr);
    }

    lemma Started()
      requires Linked()
      ensures Position(null, head, [], RecordsOf(nodes))
    {
    }

    lemma Remaining(p: Node?, b: Node, done: seq<Record>, rest: seq<Record>)
      requires Position(p, b, done, rest)
      ensures rest != [] && rest[0].addr == b.addr && |done| + |rest| == |nodes|
    {
      assert RecordsOf(nodes)[|done|] == rest[0];
    }

    lemma Finished(p: Node?, done: seq<Record>, rest: seq<Record>)
      requires Position(p, null, done, rest)
      ensures Linked() && rest == [] && done == RecordsOf(nodes) && done + [] == done
    {
      assert |done| + |rest| == |nodes|;
    }
  }

  // The nodes that make up the records, with and without the first of the rest.
  lemma RecordAt(nodes: seq<Node>, done: seq<Record>, rest: seq<Record>)
    requires RecordsOf(nodes) == done + rest && |done| < |nodes|
    ensures var i := |done|;
      && rest != [] && rest[0] == Record(nodes[i].addr, nodes[i].slot)
      && RecordsOf(nodes[..i] + nodes[i + 1..]) == done + rest[1..]
      && done + rest == (done + [rest[0]]) + rest[1..]
      && NodeAt(nodes[..i] + nodes[i + 1..], i) == NodeAt(nodes, i + 1)
      && NodeAt(nodes[..i] + nodes[i + 1..], i - 1) == NodeAt(nodes, i - 1)
      && NodeAt(nodes, i) == nodes[i]
  {
    var i := |done|;
    assert RecordsOf(nodes)[i] == rest[0];
    assert forall k :: i < k < |nodes| ==> RecordsOf(nodes)[k] == rest[k - i];
    assert RecordsOf(nodes[..i] + nodes[i + 1..]) == done + rest[1..];
  }

  lemma StillIn(nodes: seq<Node>, all: seq<Node>, i: nat)
    requires i < |nodes| && forall k :: 0 <= k < |nodes| ==> nodes[k] in all
    ensures var left := nodes[..i] + nodes[i + 1..];
      forall k :: 0 <= k < |left| ==> left[k] in all
  {
  }

  lemma NoRecord(text: Text, addr: word)
    ensures Restored(text, [], addr) == text && Without([], addr) == []
  {
  }

  lemma OneRecord(text: Text, done: seq<Record>, rest: seq<Record>, addr: word)
    requires rest != []
    ensures Restored(text, rest, addr)
            == Restored(if rest[0].addr == addr then Put(text, addr, rest[0].slot) else text, rest[1..], addr)
    ensures done + Without(rest, addr)
            == (if rest[0].addr == addr then done else done + [rest[0]]) + Without(rest[1..], addr)
  {
    hide Put;
    assert Without(rest, addr) == (if rest[0].addr == addr then [] else [rest[0]]) + Without(rest[1..], addr);
  }

  lemma {:induction false} ShorterUnlessAbsent(records: seq<Record>, addr: word)
    ensures |Without(records, addr)| <= |records|
    ensures Without(records, addr) == records <==> |Without(records, addr)| == |records|
  {
    if records != [] {
      ShorterUnlessAbsent(records[1..], addr);
    }
  }

  // ---- The logical program -------------------------------------------------------------------------

  function Find(records: seq<Record>, addr: word): (r: Option<Slot>)
    ensures r.Some? <==> exists k :: 0 <= k < |records| && records[k].addr == addr
  {
    if records == [] then None
    else if records[0].addr == addr then Some(records[0].slot)
    else Find(records[1..], addr)
  }

  predicate Distinct(records: seq<Record>) {
    forall j, k :: 0 <= j < k < |records| ==> records[j].addr != records[k].addr
  }

  /** The break is planted exactly at the recorded addresses, each of which has one record, of an
      instruction of the program. */
  ghost predicate Sound(s: State) {
    && Fits(s.text) && Distinct(s.records)
    && (forall k :: 0 <= k < |s.records| ==> InText(s.text, s.records[k].addr) && s.records[k].slot.Holds?)
    && (forall addr: word | InText(s.text, addr) :: At(s.text, addr) == Planted <==> Find(s.records, addr).Some?)
  }

  /** The instruction the program has at an address: the recorded one, or what is there. */
  function Logical(s: State, addr: word): Slot
    requires InText(s.text, addr)
  {
    var recorded := Find(s.records, addr);
    if recorded.Some? then recorded.value else At(s.text, addr)
  }

  ghost predicate SameProgram(s: State, t: State) {
    && |s.text.user| == |t.text.user| && |s.text.kernel| == |t.text.kernel|
    && forall addr: word | InText(s.text, addr) :: InText(t.text, addr) && Logical(t, addr) == Logical(s, addr)
  }

  /** Adding at this address plants a break that no record will ever remove. */
  predicate NothingThere(s: State, addr: word) {
    InText(s.text, addr) && At(s.text, addr) == Empty
  }

  /** Adding a breakpoint keeps the records sound, and the logical program, exactly if it is not at a
      place in the text without an instruction. */
  lemma AddKeeps(s: State, addr: word)
    requires Sound(s)
    ensures Sound(Add(s, addr)) <==> !NothingThere(s, addr)
    ensures SameProgram(s, Add(s, addr)) <==> !NothingThere(s, addr)
  {
    hide Put, At, InText, Fits;
    var t := Add(s, addr);
    if InText(s.text, addr) && At(s.text, addr) != Planted {
      forall a: word | InText(s.text, a)
        ensures InText(t.text, a) && At(t.text, a) == if a == addr then Planted else At(s.text, a)
      {
        PutAt(s.text, addr, Planted, a);
      }
      PutInText(s.text, addr, Planted);
      if NothingThere(s, addr) {
        assert Logical(s, addr) == Empty && Logical(t, addr) == Planted;
        assert At(t.text, addr) == Planted && Find(t.records, addr).None?;
      } else {
        AddFind(s.records, Record(addr, At(s.text, addr)));
        AddSound(s, addr);
      }
    }
  }

  lemma PutInText(text: Text, addr: word, slot: Slot)
    ensures Fits(text) ==> Fits(Put(text, addr, slot))
    ensures forall a: word :: InText(Put(text, addr, slot), a) <==> InText(text, a)
  {
  }

  lemma AddFind(records: seq<Record>, r: Record)
    ensures forall a: word :: Find([r] + records, a) == if a == r.addr then Some(r.slot) else Find(records, a)
  {
    assert ([r] + records)[1..] == records;
  }

  lemma AddSound(s: State, addr: word)
    requires Sound(s) && InText(s.text, addr) && At(s.text, addr).Holds?
    ensures Sound(Add(s, addr))
  {
    hide Put, At, InText, Fits;
    var t := Add(s, addr);
    AddFind(s.records, Record(addr, At(s.text, addr)));
    PutInText(s.text, addr, Planted);
    assert Find(s.records, addr).None?;
    forall a: word | InText(t.text, a)
      ensures At(t.text, a) == Planted <==> Find(t.records, a).Some?
    {
      PutAt(s.text, addr, Planted, a);
    }
  }

  // ---- Deleting ------------------------------------------------------------------------------------

  lemma {:induction false} WithoutFind(records: seq<Record>, addr: word, a: word)
    ensures Find(Without(records, addr), a) == if a == addr then None else Find(records, a)
  {
    if records != [] {
      var first, rest := records[0], Without(records[1..], addr);
      WithoutFind(records[1..], addr, a);
      assert Without(records, addr) == if first.addr == addr then rest else [first] + rest;
      AddFind(rest, first);
    }
  }

  lemma {:induction false} WithoutDistinct(records: seq<Record>, addr: word)
    requires Distinct(records)
    ensures Distinct(Without(records, addr))
  {
    if records != [] {
      WithoutDistinct(records[1..], addr);
    }
  }

  lemma {:induction false} RestoredOnce(text: Text, records: seq<Record>, addr: word)
    requires Distinct(records)
    ensures Restored(text, records, addr)
            == match Find(records, addr) case Some(slot) => Put(text, addr, slot) case None => text
    decreases |records|
  {
    hide Put;
    if records != [] {
      RestoredOnce(if records[0].addr == addr then Put(text, addr, records[0].slot) else text, records[1..], addr);
      assert records[0].addr == addr ==> Find(records[1..], addr).None?;
    }
  }

  /** Deleting a breakpoint keeps the records sound and the logical program, and leaves no record of the
      address. */
  lemma DeleteKeeps(s: State, addr: word)
    requires Sound(s)
    ensures var t := Delete(s, addr);
      Sound(t) && SameProgram(s, t) && Find(t.records, addr).None?
  {
    hide Put, At, InText, Fits, Without, Restored;
    var t := Delete(s, addr);
    RestoredOnce(s.text, s.records, addr);
    WithoutDistinct(s.records, addr);
    forall a: word
      ensures Find(t.records, a) == if a == addr then None else Find(s.records, a)
    {
      WithoutFind(s.records, addr, a);
    }
    var recorded := Find(s.records, addr);
    if recorded.Some? {
      FoundHolds(s, addr);
      PutInText(s.text, addr, recorded.value);
      forall a: word | InText(s.text, a)
        ensures At(t.text, a) == if a == addr then recorded.value else At(s.text, a)
      {
        PutAt(s.text, addr, recorded.value, a);
      }
    }
    assert forall k :: 0 <= k < |t.records| ==> t.records[k] in s.records;
  }

  lemma {:induction false} FindIsRecord(records: seq<Record>, addr: word)
    requires Find(records, addr).Some?
    ensures Record(addr, Find(records, addr).value) in records
  {
    if records[0].addr != addr {
      FindIsRecord(records[1..], addr);
    }
  }

  lemma FoundHolds(s: State, addr: word)
    requires Sound(s) && Find(s.records, addr).Some?
    ensures InText(s.text, addr) && Find(s.records, addr).value.Holds?
  {
    hide At, InText, Find;
    FindIsRecord(s.records, addr);
  }

  // ---- Runs ----------------------------------------------------------------------------------------

  datatype Command = AddAt(addr: word) | DeleteAt(addr: word)

  function Do(s: State, c: Command): State {
    match c
    case AddAt(addr) => Add(s, addr)
    case DeleteAt(addr) => Delete(s, addr)
  }

  function After(s: State, commands: seq<Command>): State {
    if commands == [] then s else Do(After(s, commands[..|commands| - 1]), commands[|commands| - 1])
  }

  /** The commands, carried out in place. */
  method Execute(debugger: Debugger, commands: seq<Command>)
    requires debugger.Linked()
    modifies debugger, debugger.user, debugger.kernel, debugger.nodes
    ensures debugger.Linked() && debugger.View() == After(old(debugger.View()), commands)
  {
    hide Add, Delete, Debugger.Linked, Debugger.View;
    ghost var start := debugger.View();
    var i := 0;
    while i < |commands|
      invariant 0 <= i <= |commands|
      invariant debugger.Linked() && debugger.View() == After(start, commands[..i])
      invariant debugger.Grown()
    {
      assert commands[..i + 1][..i] == commands[..i];
      match commands[i] {
        case AddAt(addr) =>
          var ok := debugger.AddBreakpoint(addr);
        case DeleteAt(addr) =>
          var ok := debugger.DeleteBreakpoint(addr);
      }
      i := i + 1;
    }
    assert commands[..i] == commands;
  }

  /** Over any commands whose additions are not at empty places, the logical program stays what it was. */
  lemma {:induction false} ProgramUnchanged(s: State, commands: seq<Command>)
    requires Sound(s)
    requires forall k :: 0 <= k < |commands| && commands[k].AddAt? && InText(s.text, commands[k].addr) ==>
               Logical(s, commands[k].addr) != Empty
    ensures Sound(After(s, commands)) && SameProgram(s, After(s, commands))
  {
    hide Add, Delete, Sound, Logical, InText;
    if commands != [] {
      var front, c := commands[..|commands| - 1], commands[|commands| - 1];
      ProgramUnchanged(s, front);
      var t := After(s, front);
      match c
      case AddAt(addr) =>
        NotEmptyLater(s, t, addr);
        AddKeeps(t, addr);
      case DeleteAt(addr) =>
        DeleteKeeps(t, addr);
    }
  }

  lemma NotEmptyLater(s: State, t: State, addr: word)
    requires Sound(t) && SameProgram(s, t)
    requires InText(s.text, addr) ==> Logical(s, addr) != Empty
    ensures !NothingThere(t, addr)
  {
    hide At, InText;
    SameSegments(s.text, t.text, addr);
  }

  lemma SameSegments(a: Text, b: Text, addr: word)
    requires |a.user| == |b.user| && |a.kernel| == |b.kernel|
    ensures InText(a, addr) <==> InText(b, addr)
  {
  }

  /** Whether the last command that names the address set a breakpoint there, or there was one before. */
  predicate Broken(s: State, commands: seq<Command>, addr: word) {
    if commands == [] then Find(s.records, addr).Some?
    else if commands[|commands| - 1].addr == addr then commands[|commands| - 1].AddAt?
    else Broken(s, commands[..|commands| - 1], addr)
  }

  /** The debugger breaks exactly where it has last been told to: after any commands whose additions are not
      at empty places, a place in the text holds the break, and a record of its instruction, if the last
      command that names it was an addition, and otherwise its instruction and no record. */
  lemma {:induction false} BreaksWhereTold(s: State, commands: seq<Command>, addr: word)
    requires Sound(s) && InText(s.text, addr)
    requires forall k :: 0 <= k < |commands| && commands[k].AddAt? && InText(s.text, commands[k].addr) ==>
               Logical(s, commands[k].addr) != Empty
    ensures var t, broken := After(s, commands), Broken(s, commands, addr);
      && Distinct(t.records) && InText(t.text, addr)
      && At(t.text, addr) == (if broken then Planted else Logical(s, addr))
      && Find(t.records, addr) == (if broken then Some(Logical(s, addr)) else None)
  {
    hide At, InText, Add, Delete, Logical, Find;
    if commands == [] {
      SoundAt(s, addr);
    } else {
      var front, c := commands[..|commands| - 1], commands[|commands| - 1];
      ProgramUnchanged(s, front);
      BreaksWhereTold(s, front, addr);
      ProgramUnchanged(s, commands);
      var t := After(s, front);
      SameSegments(s.text, t.text, c.addr);
      if c.AddAt? {
        NotEmptyLater(s, t, c.addr);
        AddBreaks(t, c.addr, addr);
      } else {
        DeleteMends(t, c.addr, addr);
      }
    }
  }

  // What a sound state has at a place, broken or not.
  lemma SoundAt(s: State, addr: word)
    requires Sound(s) && InText(s.text, addr)
    ensures At(s.text, addr) == if Find(s.records, addr).Some? then Planted else Logical(s, addr)
    ensures Find(s.records, addr).Some? ==> Find(s.records, addr) == Some(Logical(s, addr))
  {
    hide At, InText, Find;
  }

  lemma AddBreaks(s: State, addr: word, other: word)
    requires Sound(s) && InText(s.text, other) && !NothingThere(s, addr)
    ensures var t, broken := Add(s, addr), other == addr || Find(s.records, other).Some?;
      && InText(t.text, other)
      && At(t.text, other) == (if broken then Planted else Logical(s, other))
      && Find(t.records, other) == (if broken then Some(Logical(s, other)) else None)
  {
    hide Put, At, InText, Fits, Find;
    SoundAt(s, other);
    if InText(s.text, addr) && At(s.text, addr) != Planted {
      PutInText(s.text, addr, Planted);
      PutAt(s.text, addr, Planted, other);
      AddFind(s.records, Record(addr, At(s.text, addr)));
    }
  }

  lemma DeleteMends(s: State, addr: word, other: word)
    requires Sound(s) && InText(s.text, other)
    ensures var t, broken := Delete(s, addr), other != addr && Find(s.records, other).Some?;
      && InText(t.text, other)
      && At(t.text, other) == (if broken then Planted else Logical(s, other))
      && Find(t.records, other) == (if broken then Some(Logical(s, other)) else None)
  {
    hide Put, At, InText, Fits, Without, Restored, Find;
    SoundAt(s, other);
    RestoredOnce(s.text, s.records, addr);
    WithoutFind(s.records, addr, other);
    var recorded := Find(s.records, addr);
    if recorded.Some? {
      FoundHolds(s, addr);
      PutInText(s.text, addr, recorded.value);
      PutAt(s.text, addr, recorded.value, other);
    }
  }

  /** Once every breakpoint has been deleted again, the text is the original one. */
  lemma AllDeleted(s: State, commands: seq<Command>)
    requires Sound(s) && s.records == []
    requires forall k :: 0 <= k < |commands| && commands[k].AddAt? && InText(s.text, commands[k].addr) ==>
               Logical(s, commands[k].addr) != Empty
    ensures var t := After(s, commands); t.records == [] ==> t.text == s.text
  {
    hide At, InText, After;
    var t := After(s, commands);
    ProgramUnchanged(s, commands);
    if t.records == [] {
      SameText(s.text, t.text);
    }
  }
}
