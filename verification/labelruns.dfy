/** Whole runs of the symbol table: it is a finite map from names to addresses, with a list of the names
    that are local. */
module LabelRuns {
  import opened Words
  import opened Labels

  /** What is known of a name: its address, 0 while it has none, and whether it is global. */
  datatype Entry = Entry(addr: word, isGlobal: bool)

  datatype Symbols = Symbols(entries: imap<Name, Entry>, locals: seq<Name>)

  datatype Command = LookUp(name: Name) | Record(name: Name, addr: word) | MakeGlobal(name: Name) | Flush

  // ---- The specification ---------------------------------------------------------------------------

  ghost function EntryOf(t: Symbols, name: Name): Entry {
    if name in t.entries then t.entries[name] else Entry(0, false)
  }

  /** Recording the name gives it an address, and it is not global. */
  ghost predicate BecomesLocal(t: Symbols, name: Name) {
    EntryOf(t, name) == Entry(0, false)
  }

  ghost function Next(t: Symbols, c: Command): Symbols {
    match c
    case LookUp(name) => t.(entries := t.entries[name := EntryOf(t, name)])
    case Record(name, addr) =>
      var e := EntryOf(t, name);
      if e.addr != 0 then t
      else Symbols(t.entries[name := e.(addr := addr)], if e.isGlobal then t.locals else [name] + t.locals)
    case MakeGlobal(name) => t.(entries := t.entries[name := EntryOf(t, name).(isGlobal := true)])
    case Flush => Symbols(imap name | name in t.entries && name !in t.locals :: t.entries[name], [])
  }

  ghost function After(t: Symbols, cs: seq<Command>): Symbols {
    if cs == [] then t else Next(After(t, cs[..|cs| - 1]), cs[|cs| - 1])
  }

  /** A label recorded with address 0 is recorded again while it is on the list of local labels. */
  ghost predicate Spoils(t: Symbols, c: Command) {
    c.Record? && BecomesLocal(t, c.name) && c.name in t.locals
  }

  ghost predicate NeverSpoils(t: Symbols, cs: seq<Command>) {
    forall k :: 0 <= k < |cs| ==> !Spoils(After(t, cs[..k]), cs[k])
  }

  // ---- The table in place --------------------------------------------------------------------------

  ghost predicate Known(table: SymbolTable, name: Name)
    requires table.Valid()
    reads table, table.buckets, table.repr
  {
    table.Lookup(name) != null
  }

  ghost function EntryIn(table: SymbolTable, name: Name): Entry
    requires table.Valid() && Known(table, name)
    reads table, table.buckets, table.repr
  {
    LookupInRepr(table, name);
    Entry(table.Lookup(name).addr, table.Lookup(name).isGlobal)
  }

  lemma LookupInRepr(table: SymbolTable, name: Name)
    requires table.Table()
    ensures table.Lookup(name) != null ==> table.Lookup(name) in table.repr
  {
    hide MixedFrom;
    var h := Hash(name);
    assert Bucket(table.chains[h], table.buckets[h], table.Links(), h);
    FoundIsLinked(table.chains[h], table.buckets[h], table.Links(), name);
  }

  lemma FoundIsLinked(chain: seq<Label>, head: Label?, links: map<Label, Label?>, name: Name)
    requires Linked(chain, head, links)
    ensures Find(chain, name) != null ==> Find(chain, name) in links
  {
    if Find(chain, name) != null {
      var k :| 0 <= k < |chain| && chain[k] == Find(chain, name);
    }
  }

  ghost function NamesOf(labels: seq<Label>): (r: seq<Name>)
    ensures |r| == |labels| && forall k :: 0 <= k < |labels| ==> r[k] == labels[k].name
  {
    seq(|labels|, k requires 0 <= k < |labels| => labels[k].name)
  }

  ghost function View(table: SymbolTable): Symbols
    requires table.Valid()
    reads table, table.buckets, table.repr
  {
    Symbols(imap name: Name | Known(table, name) :: EntryIn(table, name), NamesOf(table.locals))
  }

  lemma ViewOf(table: SymbolTable, name: Name)
    requires table.Valid()
    ensures table.Lookup(name) != null ==> table.Lookup(name) in table.repr
    ensures name in View(table).entries <==> table.Lookup(name) != null
    ensures table.Lookup(name) != null ==>
              View(table).entries[name] == Entry(table.Lookup(name).addr, table.Lookup(name).isGlobal)
    ensures name in View(table).locals <==> Find(table.locals, name) != null
  {
    LookupInRepr(table, name);
    NamesFound(table.locals, name);
  }

  lemma NamesFound(labels: seq<Label>, name: Name)
    ensures name in NamesOf(labels) <==> Find(labels, name) != null
  {
    if name in NamesOf(labels) {
      var k :| 0 <= k < |labels| && NamesOf(labels)[k] == name;
      assert labels[k].name == name;
    }
    if Find(labels, name) != null {
      var k :| 0 <= k < |labels| && labels[k] == Find(labels, name);
      assert NamesOf(labels)[k] == name;
    }
  }

  lemma AllViews(table: SymbolTable)
    requires table.Valid()
    ensures forall name: Name ::
              && (table.Lookup(name) != null ==> table.Lookup(name) in table.repr && table.Lookup(name).name == name)
              && (name in View(table).entries <==> table.Lookup(name) != null)
              && (table.Lookup(name) != null ==>
                    View(table).entries[name] == Entry(table.Lookup(name).addr, table.Lookup(name).isGlobal))
    ensures View(table).locals == NamesOf(table.locals) && forall name :: name in NamesOf(table.locals) <==> Find(table.locals, name) != null
  {
    forall name: Name
      ensures table.Lookup(name) != null ==> table.Lookup(name) in table.repr
      ensures name in NamesOf(table.locals) <==> Find(table.locals, name) != null
    {
      ViewOf(table, name);
    }
  }

  lemma SameSymbols(a: Symbols, b: Symbols)
    requires a.locals == b.locals
    requires forall name: Name :: EntryOf(a, name) == EntryOf(b, name) && (name in a.entries <==> name in b.entries)
    ensures a == b
  {
    forall name: Name | name in a.entries
      ensures a.entries[name] == b.entries[name]
    {
      assert EntryOf(a, name) == EntryOf(b, name);
    }
    assert a.entries == b.entries;
  }

  method DoLookUp(table: SymbolTable, name: Name)
    requires table.Valid()
    modifies table, table.buckets, table.repr
    ensures table.Valid() && View(table) == Next(old(View(table)), LookUp(name))
    ensures old(table.repr) <= table.repr && fresh(table.repr - old(table.repr))
  {
    hide View, Find, SymbolTable.Valid, SymbolTable.Lookup;
    ghost var was := View(table);
    AllViews(table);
    var l := table.LookupLabel(name);
    AllViews(table);
    SameSymbols(View(table), Next(was, LookUp(name)));
  }

  method DoRecord(table: SymbolTable, name: Name, addr: word)
    requires table.Valid() && !Spoils(View(table), Record(name, addr))
    modifies table, table.buckets, table.repr
    ensures table.Valid() && View(table) == Next(old(View(table)), Record(name, addr))
    ensures old(table.repr) <= table.repr && fresh(table.repr - old(table.repr))
  {
    hide View, Find, SymbolTable.Valid, SymbolTable.Lookup;
    ghost var was, locals := View(table), table.locals;
    AllViews(table);
    var l, ok := table.RecordLabel(name, addr);
    AllViews(table);
    assert NamesOf([l] + locals) == [name] + NamesOf(locals);
    SameSymbols(View(table), Next(was, Record(name, addr)));
  }

  method DoMakeGlobal(table: SymbolTable, name: Name)
    requires table.Valid()
    modifies table, table.buckets, table.repr
    ensures table.Valid() && View(table) == Next(old(View(table)), MakeGlobal(name))
    ensures old(table.repr) <= table.repr && fresh(table.repr - old(table.repr))
  {
    hide View, Find, SymbolTable.Valid, SymbolTable.Lookup;
    ghost var was := View(table);
    AllViews(table);
    var l := table.MakeGlobal(name);
    AllViews(table);
    SameSymbols(View(table), Next(was, MakeGlobal(name)));
  }

  method DoFlush(table: SymbolTable)
    requires table.Valid()
    modifies table, table.buckets, table.repr
    ensures table.Valid() && View(table) == Next(old(View(table)), Flush)
    ensures table.repr == old(table.repr)
  {
    hide View, Find, SymbolTable.Valid, SymbolTable.Lookup;
    ghost var was := View(table);
    AllViews(table);
    table.FlushLocalLabels();
    AllViews(table);
    SameSymbols(View(table), Next(was, Flush));
  }

  /** Any commands that never spoil the list leave the table as the finite map is left. */
  method Execute(table: SymbolTable, cs: seq<Command>)
    requires table.Valid() && NeverSpoils(View(table), cs)
    modifies table, table.buckets, table.repr
    ensures table.Valid() && View(table) == After(old(View(table)), cs)
    ensures old(table.repr) <= table.repr && fresh(table.repr - old(table.repr))
  {
    hide View, SymbolTable.Valid, Next, Spoils;
    ghost var start := View(table);
    var i := 0;
    while i < |cs|
      invariant 0 <= i <= |cs| && table.Valid() && View(table) == After(start, cs[..i])
      invariant old(table.repr) <= table.repr && fresh(table.repr - old(table.repr))
    {
      assert cs[..i + 1][..i] == cs[..i];
      assert !Spoils(After(start, cs[..i]), cs[i]);
      match cs[i] {
        case LookUp(name) => DoLookUp(table, name);
        case Record(name, addr) => DoRecord(table, name, addr);
        case MakeGlobal(name) => DoMakeGlobal(table, name);
        case Flush => DoFlush(table);
      }
      i := i + 1;
    }
    assert cs[..i] == cs;
  }

  /** And a command that spoils it does: no finite chain of labels is the list any more. */
  method Spoil(table: SymbolTable, name: Name, addr: word)
    requires table.Valid() && Spoils(View(table), Record(name, addr))
    modifies table, table.buckets, table.repr
    ensures !table.Valid() && forall chain: seq<Label> :: !LocallyLinked(chain, table.localLabels)
  {
    hide View, Find, SymbolTable.Valid, SymbolTable.Lookup;
    AllViews(table);
    table.ListedIsKnown(name);
    var l, ok := table.RecordLabel(name, addr);
  }

  /** Defining a name as the constant 0 twice is enough. */
  method ZeroTwice(name: Name) returns (table: SymbolTable)
    ensures !table.Valid() && forall chain: seq<Label> :: !LocallyLinked(chain, table.localLabels)
  {
    hide View, Find, SymbolTable.Valid, SymbolTable.Lookup;
    table := new SymbolTable();
    ghost var empty := View(table);
    AllViews(table);
    NothingRecorded(empty, table);
    DoRecord(table, name, 0);
    Spoil(table, name, 0);
  }

  lemma NothingRecorded(t: Symbols, table: SymbolTable)
    requires table.Valid() && t == View(table) && table.locals == []
    ensures t.locals == []
  {
  }

  // ---- Histories -----------------------------------------------------------------------------------

  ghost predicate NoFlushFrom(cs: seq<Command>, i: int) {
    forall k :: i <= k < |cs| && 0 <= k ==> !cs[k].Flush?
  }

  /** At some command since the last flush the name was recorded while it was neither defined nor global. */
  ghost predicate RecordedLocally(t: Symbols, cs: seq<Command>, name: Name) {
    exists k :: 0 <= k < |cs| && RecordedAt(t, cs, name, k)
  }

  ghost predicate RecordedAt(t: Symbols, cs: seq<Command>, name: Name, k: nat)
    requires k < |cs|
  {
    cs[k].Record? && cs[k].name == name && BecomesLocal(After(t, cs[..k]), name) && NoFlushFrom(cs, k)
  }

  /** The list of local labels holds exactly the names recorded as locals since the last flush. */
  lemma {:induction false} LocalsAreHistory(t: Symbols, cs: seq<Command>, name: Name)
    ensures name in After(t, cs).locals <==> (name in t.locals && NoFlushFrom(cs, 0)) || RecordedLocally(t, cs, name)
  {
    hide Next, BecomesLocal;
    if cs != [] {
      var n := |cs| - 1;
      var front, c := cs[..n], cs[n];
      LocalsAreHistory(t, front, name);
      LocalsNext(After(t, front), c, name);
      assert NoFlushFrom(cs, 0) <==> NoFlushFrom(front, 0) && !c.Flush? by {
        assert forall k :: 0 <= k < n ==> front[k] == cs[k];
      }
      assert RecordedAt(t, cs, name, n) <==> c.Record? && c.name == name && BecomesLocal(After(t, front), name);
      if c.Flush? {
        assert forall k :: 0 <= k <= n ==> !RecordedAt(t, cs, name, k) by {
          assert cs[n].Flush?;
        }
      } else {
        Extended(t, cs, name);
      }
    }
  }

  lemma LocalsNext(t: Symbols, c: Command, name: Name)
    ensures name in Next(t, c).locals
            <==> !c.Flush? && (name in t.locals || (c.Record? && c.name == name && BecomesLocal(t, name)))
  {
  }

  lemma OneMore(t: Symbols, cs: seq<Command>, name: Name)
    requires cs != [] && !cs[|cs| - 1].Flush?
    ensures forall k :: 0 <= k < |cs| - 1 ==>
              (RecordedAt(t, cs[..|cs| - 1], name, k) <==> RecordedAt(t, cs, name, k))
  {
    hide After, BecomesLocal;
    var n := |cs| - 1;
    forall k | 0 <= k < n
      ensures RecordedAt(t, cs[..n], name, k) <==> RecordedAt(t, cs, name, k)
    {
      assert cs[..n][..k] == cs[..k];
      assert NoFlushFrom(cs[..n], k) <==> NoFlushFrom(cs, k) by {
        assert forall j :: 0 <= j < n ==> cs[..n][j] == cs[j];
      }
    }
  }

  lemma Extended(t: Symbols, cs: seq<Command>, name: Name)
    requires cs != [] && !cs[|cs| - 1].Flush?
    ensures RecordedLocally(t, cs, name)
            <==> RecordedLocally(t, cs[..|cs| - 1], name) || RecordedAt(t, cs, name, |cs| - 1)
  {
    hide RecordedAt;
    var n := |cs| - 1;
    OneMore(t, cs, name);
    if RecordedLocally(t, cs[..n], name) {
      var k :| 0 <= k < n && RecordedAt(t, cs[..n], name, k);
      assert RecordedAt(t, cs, name, k);
    }
    if RecordedLocally(t, cs, name) {
      var k :| 0 <= k < |cs| && RecordedAt(t, cs, name, k);
      assert k < n ==> RecordedAt(t, cs[..n], name, k);
    }
  }

  /** A flush forgets exactly the names that were recorded as locals since the flush before it. */
  lemma FlushForgets(t: Symbols, cs: seq<Command>, name: Name)
    requires t.locals == []
    ensures name in After(t, cs + [Flush]).entries
            <==> name in After(t, cs).entries && !RecordedLocally(t, cs, name)
  {
    hide After, RecordedLocally;
    LocalsAreHistory(t, cs, name);
    FlushedNext(t, cs);
  }

  lemma FlushedNext(t: Symbols, cs: seq<Command>)
    ensures After(t, cs + [Flush]) == Next(After(t, cs), Flush)
  {
    assert (cs + [Flush])[..|cs|] == cs;
  }

  /** The first definition counts: an address stays what it is until a flush forgets the name. */
  lemma {:induction false} FirstDefinitionStays(t: Symbols, cs: seq<Command>, name: Name)
    requires EntryOf(t, name).addr != 0
    requires forall k :: 0 <= k < |cs| && cs[k].Flush? ==> name !in After(t, cs[..k]).locals
    ensures name in After(t, cs).entries && EntryOf(After(t, cs), name).addr == EntryOf(t, name).addr
  {
    if cs != [] {
      var n := |cs| - 1;
      assert forall k :: 0 <= k < n ==> cs[..n][k] == cs[k] && cs[..n][..k] == cs[..k];
      FirstDefinitionStays(t, cs[..n], name);
    }
  }
  /** No flush of the run finds the name on the list. */
  ghost predicate NeverForgotten(t: Symbols, cs: seq<Command>, name: Name) {
    forall k :: 0 <= k < |cs| && cs[k].Flush? ==> name !in After(t, cs[..k]).locals
  }

  /** The first address other than 0 that the name is recorded with, or 0. */
  function FirstAddress(cs: seq<Command>, name: Name): word {
    if cs == [] then 0
    else
      var before, c := FirstAddress(cs[..|cs| - 1], name), cs[|cs| - 1];
      if before == 0 && c.Record? && c.name == name then c.addr else before
  }

  predicate Names(c: Command, name: Name) {
    !c.Flush? && c.name == name
  }

  /** What the table knows of a name that it has not forgotten is its history: it is there if a command has
      named it, it has the first address that it was given, and it is global if it was ever made so. */
  lemma {:induction false} EntryIsHistory(t: Symbols, cs: seq<Command>, name: Name)
    requires NeverForgotten(t, cs, name)
    ensures name in After(t, cs).entries <==> name in t.entries || exists k :: 0 <= k < |cs| && Names(cs[k], name)
    ensures EntryOf(After(t, cs), name).addr
            == if EntryOf(t, name).addr != 0 then EntryOf(t, name).addr else FirstAddress(cs, name)
    ensures EntryOf(After(t, cs), name).isGlobal <==> EntryOf(t, name).isGlobal || MakeGlobal(name) in cs
  {
    hide Next, EntryOf;
    if cs != [] {
      var n := |cs| - 1;
      var front, c := cs[..n], cs[n];
      assert forall k :: 0 <= k < n ==> front[k] == cs[k] && front[..k] == cs[..k];
      EntryIsHistory(t, front, name);
      EntryNext(After(t, front), c, name);
      assert cs == front + [c];
      if Names(c, name) {
        assert Names(cs[n], name);
      }
    }
  }

  lemma EntryNext(t: Symbols, c: Command, name: Name)
    requires c.Flush? ==> name !in t.locals
    ensures name in Next(t, c).entries <==> name in t.entries || Names(c, name)
    ensures EntryOf(Next(t, c), name).addr
            == if EntryOf(t, name).addr == 0 && c.Record? && c.name == name then c.addr else EntryOf(t, name).addr
    ensures EntryOf(Next(t, c), name).isGlobal <==> EntryOf(t, name).isGlobal || c == MakeGlobal(name)
  {
  }
}
