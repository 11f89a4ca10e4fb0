/** The symbol table: labels in hash buckets, each a chain through the labels' next fields, and the list of
    the labels that are local to the current file. */
module Labels {
  import opened Words

  type Name = seq<byte>

  const HASH_BITS := 0x4000_0000
  const TABLE_SIZE := 8191

  class Label {
    const name: Name
    var addr: word
    var isGlobal: bool
    var next: Label?
    var nextLocal: Label?

    constructor (name: Name, next: Label?)
      ensures this.name == name && this.next == next && addr == 0 && !isGlobal && nextLocal == null
    {
      this.name, this.next := name, next;
      addr, isGlobal, nextLocal := 0, false, null;
    }
  }

  // ---- Hashing -------------------------------------------------------------------------------------

  /** A character is signed. */
  function CharValue(c: byte): int {
    if c < 0x80 then c else c - 0x100
  }

  /** The hash code after the characters from index i on have been mixed into hi. */
  function MixedFrom(name: Name, hi: int, i: nat): word
    requires i <= |name|
    decreases |name| - i
  {
    if i == |name| then Wrap(hi) else MixedFrom(name, Wrap(Wrap(hi) * 613 + CharValue(name[i])), i + 1)
  }

  function Hash(name: Name): (slot: nat)
    ensures slot < TABLE_SIZE
  {
    MixedFrom(name, |name|, 0) % HASH_BITS % TABLE_SIZE
  }

  function Power(n: nat): nat {
    if n == 0 then 1 else 613 * Power(n - 1)
  }

  /** The characters as the digits, in base 613 and signed, of one unbounded number. */
  function Digits(name: Name): int {
    if name == [] then 0 else 613 * Digits(name[..|name| - 1]) + CharValue(name[|name| - 1])
  }

  lemma Mixed(x: int, c: int)
    ensures Wrap(Wrap(x) * 613 + c) == Wrap(x * 613 + c)
  {
    var q := x / TWO32;
    assert x == TWO32 * q + Wrap(x);
    var y := Wrap(x) * 613 + c;
    QuotientIs(x * 613 + c, TWO32, 613 * q + y / TWO32, y % TWO32);
  }

  /** Wrapping at every character is wrapping once at the end. */
  lemma {:induction false} MixedIsPolynomial(name: Name, hi: int, i: nat)
    requires i <= |name|
    ensures MixedFrom(name, hi * Power(i) + Digits(name[..i]), i) == Wrap(hi * Power(|name|) + Digits(name))
    decreases |name| - i
  {
    hide Wrap, CharValue;
    if i == |name| {
      assert name[..i] == name;
    } else {
      var x := hi * Power(i) + Digits(name[..i]);
      assert name[..i + 1][..i] == name[..i];
      OneMoreDigit(hi, Power(i), Digits(name[..i]), CharValue(name[i]));
      Mixed(x, CharValue(name[i]));
      WrapTwice(x * 613 + CharValue(name[i]), name, i + 1);
      MixedIsPolynomial(name, hi, i + 1);
    }
  }

  lemma OneMoreDigit(hi: int, p: int, d: int, c: int)
    ensures (hi * p + d) * 613 + c == hi * (613 * p) + (613 * d + c)
  {
  }

  // What is mixed in may be wrapped first.
  lemma WrapTwice(x: int, name: Name, i: nat)
    requires i <= |name|
    ensures MixedFrom(name, Wrap(x), i) == MixedFrom(name, x, i)
  {
    WrapSteps(x, 0);
    hide Wrap;
  }

  /** The bucket of a name: the polynomial of its length and its characters, modulo 2^30 and the size of the
      table. */
  lemma HashIsPolynomial(name: Name)
    ensures Hash(name) == (|name| * Power(|name|) + Digits(name)) % HASH_BITS % TABLE_SIZE
  {
    hide Wrap, Power, Digits, MixedFrom;
    NoDigits();
    assert name[..0] == [];
    MixedIsPolynomial(name, |name|, 0);
    LowBits(|name| * Power(|name|) + Digits(name));
  }

  lemma NoDigits()
    ensures Power(0) == 1 && Digits([]) == 0
  {
  }

  lemma LowBits(x: int)
    ensures Wrap(x) % HASH_BITS == x % HASH_BITS
  {
    var q := x / TWO32;
    QuotientIs(x, HASH_BITS, 4 * q + Wrap(x) / HASH_BITS, Wrap(x) % HASH_BITS);
  }

  // ---- Chains --------------------------------------------------------------------------------------

  function LabelAt(chain: seq<Label>, k: int): Label? {
    if 0 <= k < |chain| then chain[k] else null
  }

  /** The chain hangs from head by the given links. */
  predicate Linked(chain: seq<Label>, head: Label?, links: map<Label, Label?>) {
    && head == LabelAt(chain, 0)
    && forall k :: 0 <= k < |chain| ==> chain[k] in links && links[chain[k]] == LabelAt(chain, k + 1)
  }

  ghost predicate LocallyLinked(chain: seq<Label>, head: Label?)
    reads chain`nextLocal
  {
    head == LabelAt(chain, 0) && forall k :: 0 <= k < |chain| ==> chain[k].nextLocal == LabelAt(chain, k + 1)
  }

  /** No name twice. */
  predicate Distinct(chain: seq<Label>) {
    forall j, k :: 0 <= j < k < |chain| ==> chain[j].name != chain[k].name
  }

  predicate InBucket(chain: seq<Label>, h: nat) {
    forall k :: 0 <= k < |chain| ==> Hash(chain[k].name) == h
  }

  /** The chain of bucket h. */
  predicate Bucket(chain: seq<Label>, head: Label?, links: map<Label, Label?>, h: nat) {
    InBucket(chain, h) && Distinct(chain) && Linked(chain, head, links)
  }

  function Find(chain: seq<Label>, name: Name): (l: Label?)
    ensures l != null ==> l in chain && l.name == name
    ensures l == null ==> forall k :: 0 <= k < |chain| ==> chain[k].name != name
  {
    if chain == [] then null
    else if chain[0].name == name then chain[0]
    else Find(chain[1..], name)
  }

  lemma {:induction false} FoundAt(chain: seq<Label>, k: nat)
    requires Distinct(chain) && k < |chain|
    ensures Find(chain, chain[k].name) == chain[k]
  {
    if k > 0 {
      FoundAt(chain[1..], k - 1);
    }
  }

  function Removed(chain: seq<Label>, i: nat): seq<Label>
    requires i < |chain|
  {
    chain[..i] + chain[i + 1..]
  }

  lemma RemovedFind(chain: seq<Label>, i: nat, name: Name)
    requires Distinct(chain) && i < |chain|
    ensures Distinct(Removed(chain, i))
    ensures Find(Removed(chain, i), name) == if name == chain[i].name then null else Find(chain, name)
  {
    var rest := Removed(chain, i);
    var l := Find(chain, name);
    if l != null && name != chain[i].name {
      var k :| 0 <= k < |chain| && chain[k] == l;
      var j := if k < i then k else k - 1;
      assert rest[j] == l;
      FoundAt(rest, j);
    }
  }

  lemma Consed(l: Label, chain: seq<Label>)
    requires Find(chain, l.name) == null
    ensures Distinct(chain) ==> Distinct([l] + chain)
    ensures forall k :: LabelAt([l] + chain, k) == if k == 0 then l else LabelAt(chain, k - 1)
    ensures forall name: Name :: Find([l] + chain, name) == if name == l.name then l else Find(chain, name)
  {
    assert ([l] + chain)[1..] == chain;
  }

  // ---- The table -----------------------------------------------------------------------------------

  class SymbolTable {
    const buckets: array<Label?>
    var localLabels: Label?
    ghost var chains: seq<seq<Label>>
    ghost var locals: seq<Label>
    ghost var repr: set<Label>

    ghost predicate Valid()
      reads this, buckets, repr
    {
      Table() && Locals()
    }

    ghost predicate Table()
      reads this`chains, this`repr, buckets, repr`next
    {
      && buckets.Length == |chains| == TABLE_SIZE
      && forall h :: 0 <= h < TABLE_SIZE ==> Bucket(chains[h], buckets[h], Links(), h)
    }

    ghost function Links(): map<Label, Label?>
      reads this`repr, repr`next
    {
      map l | l in repr :: l.next
    }

    /** The list of local labels: no name twice, and all still in the table. */
    ghost predicate Locals()
      requires |chains| == TABLE_SIZE
      reads this, repr`nextLocal
    {
      && (forall k :: 0 <= k < |locals| ==> locals[k] in repr && Lookup(locals[k].name) == locals[k])
      && LocallyLinked(locals, localLabels) && Distinct(locals)
    }

    /** The finite map that the table represents. */
    ghost function Lookup(name: Name): Label?
      requires |chains| == TABLE_SIZE
      reads this`chains
    {
      Find(chains[Hash(name)], name)
    }

    constructor ()
      ensures Valid() && locals == [] && forall name: Name :: Lookup(name) == null
      ensures fresh(buckets) && repr == {}
    {
      buckets := new Label?[TABLE_SIZE](_ => null);
      localLabels, locals, repr := null, [], {};
      chains := seq(TABLE_SIZE, _ => []);
    }

    /** The bucket of a name, and its label if there is one. */
    method GetHash(name: Name) returns (slot: nat, entry: Label?)
      requires Table()
      ensures slot == Hash(name) && entry == Lookup(name)
    {
      var hi: int := |name|;
      var i := 0;
      while i < |name|
        invariant 0 <= i <= |name| && MixedFrom(name, hi, i) == MixedFrom(name, |name|, 0)
      {
        hi := Wrap(Wrap(hi) * 613 + CharValue(name[i]));
        i := i + 1;
      }
      slot := Wrap(hi) % HASH_BITS % TABLE_SIZE;
      assert Bucket(chains[slot], buckets[slot], Links(), slot);
      entry := buckets[slot];
      ghost var chain, k := chains[slot], 0;
      while entry != null && entry.name != name
        invariant 0 <= k <= |chain| && entry == LabelAt(chain, k)
        invariant forall j :: 0 <= j < k ==> chain[j].name != name
        decreases |chain| - k
      {
        entry := entry.next;
        k := k + 1;
      }
      if entry != null {
        FoundAt(chain, k);
      }
    }

    /** The label with the name, which is created if there is none. */
    method LookupLabel(name: Name) returns (l: Label)
      requires Valid()
      modifies this, buckets
      ensures Valid() && l == Lookup(name) && l.name == name
      ensures old(Lookup(name)) != null ==> l == old(Lookup(name)) && repr == old(repr)
      ensures old(Lookup(name)) == null ==> fresh(l) && repr == old(repr) + {l} && l.addr == 0 && !l.isGlobal
      ensures l in repr
      ensures forall other: Name :: other != name ==> Lookup(other) == old(Lookup(other))
      ensures locals == old(locals) && localLabels == old(localLabels)
    {
      var slot, entry := GetHash(name);
      assert Bucket(chains[slot], buckets[slot], Links(), slot);
      if entry != null {
        return entry;
      }
      ghost var heads, links := buckets[..], Links();
      l := Prepend(slot, name);
    }

    /** A new label at the head of its chain. */
    method Prepend(slot: nat, name: Name) returns (l: Label)
      requires Table() && slot == Hash(name) && Lookup(name) == null
      modifies buckets, this`chains, this`repr
      ensures Table() && fresh(l) && l.name == name && l.addr == 0 && !l.isGlobal
      ensures repr == old(repr) + {l} && chains == old(chains)[slot := [l] + old(chains[slot])]
      ensures forall other: Name :: Lookup(other) == if other == name then l else old(Lookup(other))
    {
      hide Hash, InBucket, Distinct, LabelAt;
      ghost var heads, links := buckets[..], Links();
      assert Bucket(chains[slot], buckets[slot], links, slot);
      l := new Label(name, buckets[slot]);
      buckets[slot] := l;
      chains := chains[slot := [l] + chains[slot]];
      repr := repr + {l};
      Consed(l, old(chains[slot]));
      LongerChain(l, old(chains[slot]), heads[slot], links, slot);
      forall h | 0 <= h < TABLE_SIZE
        ensures Bucket(chains[h], buckets[h], Links(), h)
      {
        assert Bucket(old(chains)[h], heads[h], links, h);
        if h == slot {
          MoreLinks([l] + old(chains)[h], l, links[l := heads[h]], Links(), h);
        } else {
          MoreLinks(old(chains)[h], heads[h], links, Links(), h);
        }
      }
    }

    /** Recording this label again would put it on the list of local labels a second time. */
    ghost predicate Spoils(name: Name)
      requires |chains| == TABLE_SIZE
      reads this, repr
    {
      var l := Lookup(name);
      l != null && l in repr && l.addr == 0 && !l.isGlobal && Find(locals, name) != null
    }

    /** Gives the label an address; refused when it has one.  An address of 0 leaves it undefined, so
        that a label can be recorded again; if it is local and on the list by then, the list becomes a
        cycle, and whoever walks along it never comes to an end. */
    method RecordLabel(name: Name, address: word) returns (l: Label, ok: bool)
      requires Valid()
      modifies this, buckets, repr`addr, repr`nextLocal
      ensures Table() && l == Lookup(name) && l.name == name && l in repr
      ensures old(repr) <= repr && fresh(repr - old(repr))
      ensures forall other: Name :: other != name ==> Lookup(other) == old(Lookup(other))
      ensures old(Lookup(name)) != null ==> l == old(Lookup(name)) && l.isGlobal == old(Lookup(name).isGlobal)
      ensures old(Lookup(name)) == null ==> fresh(l) && !l.isGlobal
      ensures ok <==> old(Lookup(name)) == null || old(Lookup(name).addr) == 0
      ensures l.addr == if ok then address else old(Lookup(name).addr)
      ensures forall o :: o in old(repr) && o != l ==> o.addr == old(o.addr)
      ensures Valid() <==> !old(Spoils(name))
      ensures Valid() ==> locals == if ok && !l.isGlobal then [l] + old(locals) else old(locals)
      ensures old(Spoils(name)) ==> forall chain: seq<Label> :: !LocallyLinked(chain, localLabels)
    {
      hide Hash, Bucket, Find, Locals, Lookup;
      ListedIsKnown(name);
      l := LookupLabel(name);
      if l.addr != 0 {
        return l, false;
      }
      l.addr := address;
      ok := true;
      if !l.isGlobal {
        PushLocal(l);
        if Valid() {
          ListIsLinked();
        }
      }
    }

    lemma ListedIsKnown(name: Name)
      requires Valid()
      ensures Find(locals, name) != null ==> Lookup(name) == Find(locals, name) && Lookup(name) in repr
    {
      hide Hash, Bucket;
    }

    lemma ListIsLinked()
      requires Valid()
      ensures LocallyLinked(locals, localLabels)
    {
    }

    /** Puts a label at the head of the list of local ones. */
    method PushLocal(l: Label)
      requires Valid() && l in repr && Lookup(l.name) == l
      modifies this`localLabels, this`locals, l`nextLocal
      ensures Table() && localLabels == l && l.nextLocal == old(localLabels)
      ensures if Find(old(locals), l.name) == null then Locals() && locals == [l] + old(locals)
              else forall chain: seq<Label> :: !LocallyLinked(chain, localLabels)
    {
      hide Hash, Bucket, Find, LabelAt;
      ghost var was := locals;
      NotFound(was, l.name);
      StartOf(was);
      l.nextLocal := localLabels;
      localLabels := l;
      if Find(locals, l.name) == null {
        Consed(l, was);
        locals := [l] + was;
        forall k | 0 <= k < |locals|
          ensures locals[k] in repr && Lookup(locals[k].name) == locals[k]
          ensures locals[k].nextLocal == LabelAt(locals, k + 1)
        {
          if k > 0 {
            assert locals[k] == was[k - 1] && was[k - 1].name != l.name;
          }
        }
      } else {
        FirstOf(was);
        Cyclic(was, l);
      }
    }

    // A label of the list has been put in front of it: there is no end.
    lemma Cyclic(was: seq<Label>, l: Label)
      requires l in was && l.nextLocal == was[0]
      requires forall k :: 0 <= k < |was| && was[k] != l ==> was[k].nextLocal == LabelAt(was, k + 1)
      ensures forall chain: seq<Label> :: !LocallyLinked(chain, l)
    {
      var j :| 0 <= j < |was| && was[j] == l;
      forall chain: seq<Label>
        ensures !LocallyLinked(chain, l)
      {
        if LocallyLinked(chain, l) {
          NoEnd(was, j, chain, 0, j);
        }
      }
    }

    // Walking on from the i-th label of such a chain, which is the k-th of the old list.
    lemma {:induction false} NoEnd(was: seq<Label>, j: nat, chain: seq<Label>, i: nat, k: nat)
      requires j < |was| && was[j].nextLocal == was[0]
      requires forall n :: 0 <= n < |was| && was[n] != was[j] ==> was[n].nextLocal == LabelAt(was, n + 1)
      requires LocallyLinked(chain, was[j]) && k <= j && i < |chain| && chain[i] == was[k]
      ensures false
      decreases |chain| - i
    {
      NoEnd(was, j, chain, i + 1, if was[k] == was[j] then 0 else k + 1);
    }

    /** Makes a label global, whether or not it is defined. */
    method MakeGlobal(name: Name) returns (l: Label)
      requires Valid()
      modifies this, buckets, repr`isGlobal
      ensures Valid() && l == Lookup(name) && l.name == name && l.isGlobal && l in repr
      ensures old(repr) <= repr && fresh(repr - old(repr))
      ensures forall o :: o in old(repr) && o != l ==> o.isGlobal == old(o.isGlobal)
      ensures old(Lookup(name)) != null ==> l == old(Lookup(name)) && l.addr == old(Lookup(name).addr)
      ensures old(Lookup(name)) == null ==> fresh(l) && l.addr == 0
      ensures forall other: Name :: other != name ==> Lookup(other) == old(Lookup(other))
      ensures locals == old(locals)
    {
      hide Hash, Bucket, Lookup, Distinct;
      l := LookupLabel(name);
      l.isGlobal := true;
    }

    /** Takes a label out of its chain. */
    method Remove(entry: Label, slot: nat)
      requires Table() && slot == Hash(entry.name) && Lookup(entry.name) == entry
      modifies buckets, this`chains, repr`next
      ensures Table()
      ensures forall name: Name :: Lookup(name) == if name == entry.name then null else old(Lookup(name))
    {
      hide Hash, InBucket, Distinct;
      ghost var chain, i, links := chains[slot], 0, Links();
      assert Bucket(chain, buckets[slot], links, slot);
      var p: Label?, lab := null, buckets[slot];
      while lab != entry
        modifies {}
        invariant 0 <= i < |chain| && lab == LabelAt(chain, i) && p == LabelAt(chain, i - 1)
        invariant entry in chain[i..]
        decreases |chain| - i
      {
        p, lab := lab, lab.next;
        i := i + 1;
      }
      Unlink(slot, p, entry, i);
      forall name: Name
        ensures Lookup(name) == if name == entry.name then null else old(Lookup(name))
      {
        SlotDistinct(slot, chain);
        RemovedFind(chain, i, name);
      }
    }

    lemma SlotDistinct(slot: nat, chain: seq<Label>)
      requires InBucket(chain, slot)
      ensures forall k :: 0 <= k < |chain| ==> Hash(chain[k].name) == slot
    {
      hide Hash;
    }

    method Unlink(slot: nat, p: Label?, lab: Label, ghost i: nat)
      requires Table() && slot < TABLE_SIZE && i < |chains[slot]|
      requires lab == chains[slot][i] && p == LabelAt(chains[slot], i - 1)
      modifies buckets, this`chains, repr`next
      ensures Table() && chains == old(chains)[slot := Removed(old(chains[slot]), i)]
    {
      hide Bucket, Removed, LabelAt;
      ghost var chain, heads, links := chains[slot], buckets[..], Links();
      assert Bucket(chain, buckets[slot], links, slot);
      Unlinked(chain, buckets[slot], links, slot, i);
      if p == null {
        buckets[slot] := lab.next;
      } else {
        p.next := lab.next;
      }
      chains := chains[slot := Removed(chain, i)];
      assert Links() == if p == null then links else links[p := links[lab]];
      forall h | 0 <= h < TABLE_SIZE
        ensures Bucket(chains[h], buckets[h], Links(), h)
      {
        assert Bucket(old(chains)[h], heads[h], links, h);
        if h != slot {
          OtherBucket(chain, links, slot, i, old(chains)[h], heads[h], h);
        }
      }
    }

    lemma FirstLocal()
      requires LocallyLinked(locals, localLabels)
      ensures localLabels == LabelAt(locals, 0) && LocallyLinked([], null)
    {
    }

    lemma NextLocal(k: nat)
      requires LocallyLinked(locals, localLabels) && k < |locals|
      ensures locals[k].nextLocal == LabelAt(locals, k + 1)
    {
    }

    /** Forgets the local labels: the table loses exactly those on the list. */
    method FlushLocalLabels()
      requires Valid()
      modifies this, buckets, repr`next
      ensures Valid() && locals == [] && repr == old(repr)
      ensures forall name: Name :: Lookup(name) == if Find(old(locals), name) != null then null else old(Lookup(name))
    {
      hide Hash, Bucket, Find, Lookup, Distinct, LocallyLinked;
      FirstLocal();
      var l := localLabels;
      NoneTwice();
      ghost var k := 0;
      NothingFound();
      while l != null
        modifies this`chains, buckets, repr`next
        invariant Table() && 0 <= k <= |locals| && l == LabelAt(locals, k)
        invariant LocallyLinked(locals, localLabels)
        invariant forall j :: k <= j < |locals| ==> Lookup(locals[j].name) == locals[j]
        invariant forall name: Name :: Lookup(name) == if Find(locals[..k], name) != null then null else old(Lookup(name))
        decreases |locals| - k
      {
        var slot, entry := GetHash(l.name);
        Remove(entry, slot);
        LaterNames(locals, k);
        Snoc(locals, k);
        NextLocal(k);
        l := l.nextLocal;
        k := k + 1;
      }
      assert locals[..k] == locals;
      localLabels, locals := null, [];
    }
  }

  lemma LaterNames(chain: seq<Label>, k: nat)
    requires Distinct(chain) && k < |chain|
    ensures forall j :: k < j < |chain| ==> chain[j].name != chain[k].name
  {
  }

  lemma NoneTwice()
    ensures Distinct([])
  {
  }

  lemma NothingFound()
    ensures forall name: Name :: Find([], name) == null
  {
  }

  lemma LongerChain(l: Label, chain: seq<Label>, head: Label?, links: map<Label, Label?>, h: nat)
    requires Bucket(chain, head, links, h) && l !in links && Hash(l.name) == h && Find(chain, l.name) == null
    ensures Bucket([l] + chain, l, links[l := head], h)
  {
    hide Hash;
    Consed(l, chain);
    assert ([l] + chain)[1..] == chain;
    forall k | 0 <= k < |chain| + 1
      ensures var c := [l] + chain;
        c[k] in links[l := head] && links[l := head][c[k]] == LabelAt(c, k + 1)
    {
      if k > 0 {
        assert ([l] + chain)[k] == chain[k - 1];
      }
    }
  }

  lemma MoreLinks(chain: seq<Label>, head: Label?, links: map<Label, Label?>, more: map<Label, Label?>, h: nat)
    requires Bucket(chain, head, links, h) && forall l :: l in links ==> l in more && more[l] == links[l]
    ensures Bucket(chain, head, more, h)
  {
    hide Hash;
  }

  // The bucket of a label that is taken out.
  lemma Unlinked(chain: seq<Label>, head: Label?, links: map<Label, Label?>, h: nat, i: nat)
    requires Bucket(chain, head, links, h) && i < |chain|
    ensures InBucket(chain, h) && chain[i] in links
    ensures LabelAt(chain, i - 1) != null ==> LabelAt(chain, i - 1) in links
    ensures var p := LabelAt(chain, i - 1);
      Bucket(Removed(chain, i), if p == null then links[chain[i]] else head,
             if p == null then links else links[p := links[chain[i]]], h)
  {
    hide InBucket, Distinct, Removed, LabelAt;
    Ends(chain, i);
    RemovedLinks(chain, i, h);
    var rest, p := Removed(chain, i), LabelAt(chain, i - 1);
    var after := if p == null then links else links[p := links[chain[i]]];
    forall k | 0 <= k < |rest|
      ensures rest[k] in after && after[rest[k]] == LabelAt(rest, k + 1)
    {
      var j := if k < i then k else k + 1;
      assert rest[k] == chain[j];
      if k == i - 1 {
        assert chain[j] == p && LabelAt(rest, i) == LabelAt(chain, i + 1);
      } else {
        assert chain[j] != p && LabelAt(rest, k + 1) == LabelAt(chain, j + 1);
      }
    }
    assert LabelAt(rest, 0) == if p == null then links[chain[i]] else head;
  }

  lemma Ends(chain: seq<Label>, i: nat)
    requires i < |chain|
    ensures i == 0 <==> LabelAt(chain, i - 1) == null
    ensures i > 0 ==> LabelAt(chain, i - 1) == chain[i - 1]
  {
  }

  // A chain of another bucket does not contain the label whose link has changed.
  lemma OtherBucket(chain: seq<Label>, links: map<Label, Label?>, slot: nat, i: nat, other: seq<Label>, head: Label?, h: nat)
    requires i < |chain| && InBucket(chain, slot) && Bucket(other, head, links, h) && h != slot && chain[i] in links
    ensures var p := LabelAt(chain, i - 1);
      Bucket(other, head, if p == null then links else links[p := links[chain[i]]], h)
  {
    hide Hash;
  }

  lemma RemovedLinks(chain: seq<Label>, i: nat, h: nat)
    requires InBucket(chain, h) && Distinct(chain) && i < |chain|
    ensures var rest := Removed(chain, i);
      && InBucket(rest, h) && Distinct(rest)
      && (forall k :: k < i ==> LabelAt(rest, k) == LabelAt(chain, k))
      && (forall k :: k >= i ==> LabelAt(rest, k) == LabelAt(chain, k + 1))
      && |rest| == |chain| - 1 && (forall k :: 0 <= k < |rest| ==> rest[k] == chain[if k < i then k else k + 1])
      && (forall k :: 0 <= k < |chain| && k != i - 1 ==> chain[k] != LabelAt(chain, i - 1))
  {
    hide Hash;
    var rest := Removed(chain, i);
    assert forall k :: 0 <= k < |rest| ==> rest[k] == chain[if k < i then k else k + 1];
  }

  lemma NotFound(chain: seq<Label>, name: Name)
    ensures Find(chain, name) == null ==> forall k :: 0 <= k < |chain| ==> chain[k].name != name
  {
  }

  lemma FirstOf(chain: seq<Label>)
    ensures chain != [] ==> LabelAt(chain, 0) == chain[0]
  {
  }

  lemma StartOf(chain: seq<Label>)
    ensures forall l: Label :: LabelAt([l] + chain, 0) == l
  {
  }

  lemma Snoc(chain: seq<Label>, k: nat)
    requires k < |chain|
    ensures forall name: Name ::
              Find(chain[..k + 1], name) != null <==> Find(chain[..k], name) != null || name == chain[k].name
  {
    forall name: Name
      ensures Find(chain[..k + 1], name) != null <==> Find(chain[..k], name) != null || name == chain[k].name
    {
      var l := Find(chain[..k + 1], name);
      if l != null {
        var j :| 0 <= j < k + 1 && chain[..k + 1][j] == l;
        assert chain[j] == l && (j < k ==> chain[..k][j] == l);
      }
      if name == chain[k].name {
        assert chain[..k + 1][k] == chain[k];
      }
      var m := Find(chain[..k], name);
      if m != null {
        var j :| 0 <= j < k && chain[..k][j] == m;
        assert chain[..k + 1][j] == m;
      }
    }
  }
}
