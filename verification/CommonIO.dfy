/**
 The in-memory database of lib/commonio.c: a doubly linked list of entries with
 head, tail and cursor pointers, and the operations that edit it.

 Each operation is proved against a function on the ghost field `items`, the
 entry values in order from `head`; the lemmas about those functions are what the
 account-file tools rely on.
 */
module CommonIO {
  import opened Wrappers

  /** The value of one list entry: the raw line, the parsed record, the dirty bit. */
  datatype Item<+T> = Item(line: Option<string>, rec: Option<T>, changed: bool)

  /** The per-database operations a list needs (`struct commonio_ops`). */
  datatype Ops<!T> = Ops(getName: T -> string, parse: string -> Option<T>, put: T -> Option<string>)

  // ----- specification functions on item sequences -----

  /** A line or name that starts with `+` or `-` belongs to NIS. */
  predicate NameIsNis(s: string) {
    |s| > 0 && (s[0] == '+' || s[0] == '-')
  }

  predicate LineIsNis<T>(it: Item<T>) {
    it.line.Some? && NameIsNis(it.line.value)
  }

  /** The test made when a new entry is placed: by record name, else by line. */
  predicate EntryIsNis<T>(it: Item<T>, getName: T -> string) {
    match it.rec
    case Some(r) => NameIsNis(getName(r))
    case None => LineIsNis(it)
  }

  predicate Named<T>(it: Item<T>, name: string, getName: T -> string) {
    it.rec.Some? && getName(it.rec.value) == name
  }

  function FirstNamed<T>(s: seq<Item<T>>, from: nat, name: string, getName: T -> string): (k: nat)
    requires from <= |s|
    ensures from <= k <= |s|
    ensures k < |s| ==> Named(s[k], name, getName)
    ensures forall j :: from <= j < k ==> !Named(s[j], name, getName)
    decreases |s| - from
  {
    if from == |s| || Named(s[from], name, getName) then from
    else FirstNamed(s, from + 1, name, getName)
  }

  function FirstNis<T>(s: seq<Item<T>>, from: nat, getName: T -> string): (k: nat)
    requires from <= |s|
    ensures from <= k <= |s|
    ensures k < |s| ==> EntryIsNis(s[k], getName)
    ensures forall j :: from <= j < k ==> !EntryIsNis(s[j], getName)
    decreases |s| - from
  {
    if from == |s| || EntryIsNis(s[from], getName) then from
    else FirstNis(s, from + 1, getName)
  }

  /** The records a traversal can deliver, in list order. */
  function Parsed<T>(s: seq<Item<T>>): seq<T> {
    if s == [] then []
    else (if s[0].rec.Some? then [s[0].rec.value] else []) + Parsed(s[1..])
  }

  /** `s` without its element at `k`, and `s` with `x` placed before position `k`. */
  function Without<X>(s: seq<X>, k: nat): (t: seq<X>)
    requires k < |s|
    ensures |t| == |s| - 1
    ensures forall i :: 0 <= i < |t| ==> t[i] == if i < k then s[i] else s[i + 1]
  {
    s[..k] + s[k + 1..]
  }

  function Inserted<X>(s: seq<X>, k: nat, x: X): (t: seq<X>)
    requires k <= |s|
    ensures |t| == |s| + 1
    ensures forall i :: 0 <= i < |t| ==> t[i] == if i < k then s[i] else if i == k then x else s[i - 1]
  {
    s[..k] + [x] + s[k..]
  }

  /** The records from position `p` on, in order. */
  function Delivered<T>(s: seq<Item<T>>, p: int): seq<T>
    decreases |s| - p
  {
    if p < 0 || p >= |s| then []
    else (if s[p].rec.Some? then [s[p].rec.value] else []) + Delivered(s, p + 1)
  }

  lemma {:induction false} DeliveredIsParsed<T>(s: seq<Item<T>>, p: nat)
    requires p <= |s|
    ensures Delivered(s, p) == Parsed(s[p..])
    decreases |s| - p
  {
    if p < |s| {
      assert s[p..][1..] == s[p + 1..];
      DeliveredIsParsed(s, p + 1);
    }
  }

  /** `commonio_update`: rewrite the unique entry of that name, refuse a
      duplicated name, insert an unknown name before the first NIS entry. */
  function Updated<T>(s: seq<Item<T>>, r: T, getName: T -> string): Option<seq<Item<T>>> {
    var k := FirstNamed(s, 0, getName(r), getName);
    if k == |s| then
      var n := FirstNis(s, 0, getName);
      Some(Inserted(s, n, Item(None, Some(r), true)))
    else if FirstNamed(s, k + 1, getName(r), getName) < |s| then None
    else Some(s[k := Item(s[k].line, Some(r), true)])
  }

  /** `commonio_remove`: unlink the unique entry of that name. */
  function Removed<T>(s: seq<Item<T>>, name: string, getName: T -> string): Option<seq<Item<T>>> {
    var k := FirstNamed(s, 0, name, getName);
    if k == |s| || FirstNamed(s, k + 1, name, getName) < |s| then None
    else Some(Without(s, k))
  }

  /** The entry `commonio_open` builds for one line of the file. */
  function Loaded<T>(line: string, parse: string -> Option<T>): Item<T> {
    Item(Some(line), if NameIsNis(line) then None else parse(line), false)
  }

  // ----- the linked list -----

  class Entry<T> {
    var line: Option<string>
    var rec: Option<T>
    var changed: bool
    var prev: Entry?<T>
    var next: Entry?<T>

    constructor (line: Option<string>, rec: Option<T>, changed: bool)
      ensures this.line == line && this.rec == rec && this.changed == changed
      ensures prev == null && next == null
    {
      this.line, this.rec, this.changed := line, rec, changed;
      prev, next := null, null;
    }
  }

  /** The entry at position `i`, or null when there is none. */
  ghost function At<T>(ns: seq<Entry<T>>, i: int): Entry?<T> {
    if 0 <= i < |ns| then ns[i] else null
  }

  ghost predicate Distinct<T>(ns: seq<Entry<T>>) {
    forall i, j :: 0 <= i < j < |ns| ==> ns[i] != ns[j]
  }

  /** `s` is what the entries hold, and each has a record or at least its line. */
  ghost predicate Filled<T>(ns: seq<Entry<T>>, s: seq<Item<T>>)
    reads ns`line, ns`rec, ns`changed
  {
    && |s| == |ns|
    && (forall i {:trigger s[i]} {:trigger ns[i].rec} :: 0 <= i < |ns| ==>
          ns[i].line == s[i].line && ns[i].rec == s[i].rec && ns[i].changed == s[i].changed)
    && (forall i {:trigger s[i]} :: 0 <= i < |s| ==> s[i].rec.Some? || s[i].line.Some?)
  }

  lemma {:induction false} FilledInserted<T>(ns: seq<Entry<T>>, s: seq<Item<T>>, k: nat, e: Entry<T>)
    requires Filled(ns, s) && k <= |ns| && (e.rec.Some? || e.line.Some?)
    ensures Filled(Inserted(ns, k, e), Inserted(s, k, Item(e.line, e.rec, e.changed)))
  {
  }

  lemma {:induction false} FilledWithout<T>(ns: seq<Entry<T>>, s: seq<Item<T>>, k: nat)
    requires Filled(ns, s) && k < |ns|
    ensures Filled(Without(ns, k), Without(s, k))
  {
  }

  lemma {:induction false} NextWithout<T>(ns: seq<Entry<T>>, k: nat)
    requires Distinct(ns) && k < |ns|
    requires forall i {:trigger ns[i].next} :: 0 <= i < |ns| && i != k - 1 ==> ns[i].next == At(ns, i + 1)
    requires k > 0 ==> ns[k - 1].next == At(ns, k + 1)
    ensures Distinct(Without(ns, k))
    ensures forall i {:trigger Without(ns, k)[i].next} :: 0 <= i < |ns| - 1 ==>
              Without(ns, k)[i].next == At(Without(ns, k), i + 1)
  {
    forall i {:trigger Without(ns, k)[i].next} | 0 <= i < |ns| - 1
      ensures Without(ns, k)[i].next == At(Without(ns, k), i + 1)
    {
      var j := if i < k then i else i + 1;
      assert ns[j].next == At(ns, if j == k - 1 then k + 1 else j + 1);
    }
  }

  lemma {:induction false} PrevWithout<T>(ns: seq<Entry<T>>, k: nat)
    requires k < |ns|
    requires forall i {:trigger ns[i].prev} :: 0 <= i < |ns| && i != k + 1 ==> ns[i].prev == At(ns, i - 1)
    requires k + 1 < |ns| ==> ns[k + 1].prev == At(ns, k - 1)
    ensures forall i {:trigger Without(ns, k)[i].prev} :: 0 <= i < |ns| - 1 ==>
              Without(ns, k)[i].prev == At(Without(ns, k), i - 1)
  {
    forall i {:trigger Without(ns, k)[i].prev} | 0 <= i < |ns| - 1
      ensures Without(ns, k)[i].prev == At(Without(ns, k), i - 1)
    {
      var j := if i < k then i else i + 1;
      assert ns[j].prev == At(ns, if j == k + 1 then k - 1 else j - 1);
    }
  }

  ghost function IndexOf<T>(ns: seq<Entry<T>>, e: Entry?<T>): (k: int)
    ensures e in ns ==> 0 <= k < |ns| && ns[k] == e
    ensures e !in ns ==> k == -1
  {
    if e !in ns then -1 else var i :| 0 <= i < |ns| && ns[i] == e; i
  }

  class Database<T> {
    const ops: Ops<T>
    var head: Entry?<T>
    var tail: Entry?<T>
    var cursor: Entry?<T>
    var changed: bool
    var isOpen: bool
    var readOnly: bool
    var locked: bool
    ghost var nodes: seq<Entry<T>>  // the entries in list order
    ghost var items: seq<Item<T>>   // their values

    constructor (ops: Ops<T>)
      ensures this.ops == ops && Valid() && nodes == [] && items == []
      ensures !isOpen && !locked && !changed && !readOnly && cursor == null
    {
      this.ops := ops;
      head, tail, cursor := null, null, null;
      changed, isOpen, readOnly, locked := false, false, false, false;
      nodes, items := [], [];
    }

    /** The forward chain from `head` is exactly `nodes`. */
    ghost predicate Forward()
      reads this`head, this`nodes, nodes`next
    {
      && Distinct(nodes)
      && head == At(nodes, 0)
      && forall i {:trigger nodes[i].next} :: 0 <= i < |nodes| ==> nodes[i].next == At(nodes, i + 1)
    }

    ghost predicate BackLinked()
      reads this`nodes, nodes`prev
    {
      forall i {:trigger nodes[i].prev} :: 0 <= i < |nodes| ==> nodes[i].prev == At(nodes, i - 1)
    }

    ghost predicate TailSet()
      reads this`tail, this`nodes
    {
      tail == At(nodes, |nodes| - 1)
    }

    /** While the database is open its cursor is rewound or on the list. */
    ghost predicate CursorOnList()
      reads this`isOpen, this`cursor, this`nodes
    {
      isOpen && cursor != null ==> cursor in nodes
    }

    ghost predicate Sound()
      reads this`isOpen, this`cursor, this`nodes, this`items, nodes`line, nodes`rec, nodes`changed
    {
      Filled(nodes, items) && CursorOnList()
    }

    /** A well-formed doubly linked list. */
    ghost predicate Valid()
      reads this`head, this`tail, this`cursor, this`isOpen, this`nodes, this`items
      reads nodes
    {
      Forward() && BackLinked() && TailSet() && Sound()
    }

    /** The position of the cursor, -1 when it is rewound. */
    ghost function Pos(): int
      reads this`nodes, this`cursor
    {
      IndexOf(nodes, cursor)
    }

    /** The records that repeated `Next` calls will still deliver. */
    ghost function Ahead(): seq<T>
      reads this`nodes, this`cursor, this`items
    {
      Delivered(items, Pos() + 1)
    }

    predicate Writable()
      reads this`isOpen, this`readOnly
    {
      isOpen && !readOnly
    }

    // ----- adding entries -----

    method AddOneEntry(p: Entry<T>)
      requires Forward() && TailSet() && p !in nodes
      modifies this`head, this`tail, this`nodes, nodes`next, p`prev, p`next
      ensures Forward() && TailSet() && nodes == old(nodes) + [p]
      ensures old(BackLinked()) ==> BackLinked()
    {
      p.next := null;
      p.prev := tail;
      if head == null {
        head := p;
      }
      if tail != null {
        tail.next := p;
      }
      tail := p;
      nodes := nodes + [p];
    }

    /** Links `p` in front of the entry `q` at position `n`. */
    method LinkBefore(p: Entry<T>, q: Entry<T>, ghost n: nat)
      requires Forward() && BackLinked() && p !in nodes
      requires n < |nodes| && q == nodes[n]
      modifies this`head, this`nodes, nodes`prev, nodes`next, p`prev, p`next
      ensures Forward() && BackLinked() && nodes == Inserted(old(nodes), n, p)
      ensures old(TailSet()) ==> TailSet()
    {
      p.next := q;
      p.prev := q.prev;
      if q.prev != null {
        q.prev.next := p;
      } else {
        head := p;
      }
      q.prev := p;
      nodes := Inserted(nodes, n, p);
    }

    /** Where a new entry is placed: the first NIS entry. */
    method FindFirstNis() returns (q: Entry?<T>)
      requires Forward() && Filled(nodes, items)
      ensures q == At(nodes, FirstNis(items, 0, ops.getName))
    {
      ghost var n := 0;
      q := head;
      while q != null
        invariant 0 <= n <= |nodes| && q == At(nodes, n)
        invariant FirstNis(items, 0, ops.getName) == FirstNis(items, n, ops.getName)
        decreases |nodes| - n
      {
        assert items[n].rec == q.rec && items[n].line == q.line;
        var nis := match q.rec case Some(r) => NameIsNis(ops.getName(r)) case None => NameIsNis(q.line.value);
        if nis {
          return;
        }
        q := q.next;
        n := n + 1;
      }
    }

    method AddOneEntryNis(p: Entry<T>)
      requires Valid() && p !in nodes
      modifies this`head, this`tail, this`nodes, nodes`prev, nodes`next, p`prev, p`next
      ensures Forward() && BackLinked() && TailSet()
      ensures nodes == Inserted(old(nodes), FirstNis(old(items), 0, ops.getName), p)
    {
      var q := FindFirstNis();
      if q != null {
        LinkBefore(p, q, FirstNis(items, 0, ops.getName));
      } else {
        AddOneEntry(p);
      }
    }

    // ----- looking entries up -----

    method NextEntryByName(pos: Entry?<T>, name: string, ghost from: nat) returns (p: Entry?<T>)
      requires Forward() && Sound() && from <= |nodes| && pos == At(nodes, from)
      ensures p == At(nodes, FirstNamed(items, from, name, ops.getName))
    {
      ghost var n := from;
      p := pos;
      while p != null
        invariant from <= n <= |nodes| && p == At(nodes, n)
        invariant FirstNamed(items, from, name, ops.getName) == FirstNamed(items, n, name, ops.getName)
        decreases |nodes| - n
      {
        assert items[n].rec == p.rec;
        if p.rec.Some? && ops.getName(p.rec.value) == name {
          return;
        }
        p := p.next;
        n := n + 1;
      }
    }

    method FindEntryByName(name: string) returns (p: Entry?<T>)
      requires Forward() && Sound()
      ensures p == At(nodes, FirstNamed(items, 0, name, ops.getName))
    {
      p := NextEntryByName(head, name, 0);
    }

    /** The first entry of that name, and whether a later one repeats it. */
    method FindUnique(name: string) returns (p: Entry?<T>, repeated: bool)
      requires Forward() && Sound()
      ensures var k := FirstNamed(items, 0, name, ops.getName);
              if k == |items| then p == null
              else p == nodes[k] && repeated == (FirstNamed(items, k + 1, name, ops.getName) < |items|)
    {
      p := FindEntryByName(name);
      repeated := false;
      if p != null {
        var q := NextEntryByName(p.next, name, FirstNamed(items, 0, name, ops.getName) + 1);
        repeated := q != null;
      }
    }

    method Locate(name: string) returns (r: Option<T>)
      requires Forward() && Sound()
      modifies this`cursor
      ensures Sound()
      ensures var k := FirstNamed(items, 0, name, ops.getName);
              if isOpen && k < |nodes|
              then r == items[k].rec && cursor == nodes[k]
              else r == None && cursor == old(cursor)
    {
      if !isOpen {
        return None;
      }
      var p := FindEntryByName(name);
      if p == null {
        return None;
      }
      cursor := p;
      return p.rec;
    }

    // ----- editing -----

    /** The found branch of `Update`: overwrite the entry at position `k`. */
    method Rewrite(p: Entry<T>, r: T, ghost k: nat)
      requires Forward() && Sound() && k < |nodes| && p == nodes[k]
      modifies this`cursor, this`changed, this`items, p`rec, p`changed
      ensures Sound() && cursor == p && changed
      ensures items == old(items)[k := Item(old(items)[k].line, Some(r), true)]
    {
      p.rec := Some(r);
      p.changed := true;
      items := items[k := Item(items[k].line, Some(r), true)];
      cursor := p;
      changed := true;
    }

    /** Places an entry that is not on the list yet. */
    method Place(e: Entry<T>)
      requires Valid() && e !in nodes && e.rec.Some?
      modifies this`head, this`tail, this`nodes, this`items, nodes`prev, nodes`next, e`prev, e`next
      ensures Valid()
      ensures var n := FirstNis(old(items), 0, ops.getName);
              && nodes == Inserted(old(nodes), n, e)
              && items == Inserted(old(items), n, Item(e.line, e.rec, e.changed))
    {
      AddOneEntryNis(e);
      FilledInserted(old(nodes), items, FirstNis(items, 0, ops.getName), e);
      items := Inserted(items, FirstNis(items, 0, ops.getName), Item(e.line, e.rec, e.changed));
    }

    /** The absent branch of `Update`: a new entry in front of the NIS entries. */
    method AddNew(r: T) returns (e: Entry<T>)
      requires Valid()
      modifies this`head, this`tail, this`nodes, this`items, this`changed, nodes`prev, nodes`next
      ensures Valid() && changed && fresh(e)
      ensures forall q :: q in nodes ==> q in old(nodes) || fresh(q)
      ensures var n := FirstNis(old(items), 0, ops.getName);
              nodes == Inserted(old(nodes), n, e) && items == Inserted(old(items), n, Item(None, Some(r), true))
    {
      e := new Entry(None, Some(r), true);
      Place(e);
      changed := true;
    }

    method Update(r: T) returns (ok: bool)
      requires Valid()
      modifies this`head, this`tail, this`cursor, this`changed, this`nodes, this`items, nodes
      ensures Valid()
      ensures forall e :: e in nodes ==> e in old(nodes) || fresh(e)
      ensures ok == (Writable() && Updated(old(items), r, ops.getName).Some?)
      ensures ok ==> changed && items == Updated(old(items), r, ops.getName).value
      ensures ok ==> var k := FirstNamed(old(items), 0, ops.getName(r), ops.getName);
                     if k < |old(nodes)| then nodes == old(nodes) && cursor == nodes[k]
                     else cursor == old(cursor)
      ensures !ok ==> unchanged(this)
    {
      if !isOpen || readOnly {
        return false;
      }
      ghost var k := FirstNamed(items, 0, ops.getName(r), ops.getName);
      var p, repeated := FindUnique(ops.getName(r));
      if p != null {
        if repeated {
          return false;
        }
        Rewrite(p, r, k);
        return true;
      }
      var e := AddNew(r);
      return true;
    }

    method Append(r: T) returns (ok: bool)
      requires Forward() && TailSet() && Sound()
      modifies this`head, this`tail, this`nodes, this`items, this`changed, nodes`next
      ensures Forward() && TailSet() && Sound() && (old(BackLinked()) ==> BackLinked())
      ensures ok == Writable()
      ensures ok ==> changed && items == old(items) + [Item(None, Some(r), true)]
      ensures ok ==> |nodes| == |old(nodes)| + 1 && nodes[..|old(nodes)|] == old(nodes) && fresh(nodes[|old(nodes)|])
      ensures !ok ==> unchanged(this)
    {
      if !isOpen || readOnly {
        return false;
      }
      var p := new Entry(None, Some(r), true);
      AddOneEntry(p);
      items := items + [Item(None, Some(r), true)];
      changed := true;
      return true;
    }

    /** Makes the neighbours of the entry at position `k` point past it. */
    method Bypass(p: Entry<T>, ghost k: nat)
      requires Forward() && BackLinked() && TailSet() && k < |nodes| && p == nodes[k]
      modifies this`head, this`tail, nodes`prev, nodes`next
      ensures head == (if k == 0 then At(nodes, 1) else At(nodes, 0))
      ensures tail == (if k == |nodes| - 1 then At(nodes, k - 1) else At(nodes, |nodes| - 1))
      ensures forall i {:trigger nodes[i].next} :: 0 <= i < |nodes| && i != k - 1 ==> nodes[i].next == At(nodes, i + 1)
      ensures k > 0 ==> nodes[k - 1].next == At(nodes, k + 1)
      ensures forall i {:trigger nodes[i].prev} :: 0 <= i < |nodes| && i != k + 1 ==> nodes[i].prev == At(nodes, i - 1)
      ensures k + 1 < |nodes| ==> nodes[k + 1].prev == At(nodes, k - 1)
    {
      if p.prev != null {
        p.prev.next := p.next;
      } else {
        head := p.next;
      }
      if p.next != null {
        p.next.prev := p.prev;
      } else {
        tail := p.prev;
      }
    }

    method Unlink(p: Entry<T>, ghost k: nat)
      requires Forward() && BackLinked() && TailSet() && k < |nodes| && p == nodes[k]
      modifies this`head, this`tail, this`nodes, nodes`prev, nodes`next
      ensures Forward() && BackLinked() && TailSet()
      ensures nodes == Without(old(nodes), k)
      ensures p.next == old(p.next) && p.prev == old(p.prev)
    {
      Bypass(p, k);
      NextWithout(nodes, k);
      PrevWithout(nodes, k);
      nodes := Without(nodes, k);
    }

    /** Unlinks `p`; a cursor on `p` moves to its successor. */
    method DelEntry(p: Entry<T>, ghost k: nat)
      requires Valid() && k < |nodes| && p == nodes[k]
      modifies this`head, this`tail, this`cursor, this`changed, this`nodes, this`items, nodes`prev, nodes`next
      ensures Valid() && changed
      ensures nodes == Without(old(nodes), k) && items == Without(old(items), k)
      ensures cursor == (if old(cursor) == p then At(old(nodes), k + 1) else old(cursor))
      ensures p.next == At(old(nodes), k + 1)
    {
      if p == cursor {
        cursor := p.next;
      }
      Unlink(p, k);
      changed := true;
      FilledWithout(old(nodes), items, k);
      items := Without(items, k);
    }

    method Remove(name: string) returns (ok: bool)
      requires Valid()
      modifies this`head, this`tail, this`cursor, this`changed, this`nodes, this`items, nodes`prev, nodes`next
      ensures Valid()
      ensures ok == (Writable() && Removed(old(items), name, ops.getName).Some?)
      ensures ok ==> changed && items == Removed(old(items), name, ops.getName).value
      ensures ok ==> var k := FirstNamed(old(items), 0, name, ops.getName);
                     && nodes == Without(old(nodes), k)
                     && cursor == (if old(cursor) == old(nodes)[k] then At(old(nodes), k + 1) else old(cursor))
      ensures !ok ==> unchanged(this)
    {
      if !isOpen || readOnly {
        return false;
      }
      var p, repeated := FindUnique(name);
      if p == null || repeated {
        return false;
      }
      ghost var k := FirstNamed(items, 0, name, ops.getName);
      DelEntry(p, k);
      return true;
    }

    // ----- cursor iteration -----

    method Rewind() returns (ok: bool)
      requires Forward() && Sound()
      modifies this`cursor
      ensures Sound() && ok == isOpen
      ensures if isOpen then cursor == null && Pos() == -1 && Ahead() == Parsed(items) else cursor == old(cursor)
    {
      if !isOpen {
        return false;
      }
      cursor := null;
      DeliveredIsParsed(items, 0);
      assert items[0..] == items;
      return true;
    }

    /** Moves the cursor to the next entry that holds a record and delivers it;
        at the end the cursor is rewound. */
    method Next() returns (r: Option<T>)
      requires Forward() && Sound()
      modifies this`cursor
      ensures Sound()
      ensures !isOpen ==> r == None && cursor == old(cursor)
      ensures isOpen && old(Ahead()) == [] ==> r == None && cursor == null
      ensures isOpen && old(Ahead()) != [] ==> r == Some(old(Ahead())[0]) && Ahead() == old(Ahead())[1..]
      ensures isOpen && r.Some? ==> old(Pos()) < Pos() < |items| && items[Pos()].rec == r && cursor == nodes[Pos()]
    {
      if !isOpen {
        return None;
      }
      ghost var n := Pos() + 1;
      if cursor == null {
        cursor := head;
      } else {
        cursor := cursor.next;
      }
      r := SkipUnparsed(n);
    }

    /** The loop of `Next`, the cursor standing at position `from`. */
    method SkipUnparsed(ghost from: nat) returns (r: Option<T>)
      requires Forward() && Filled(nodes, items) && from <= |nodes| && cursor == At(nodes, from)
      modifies this`cursor
      ensures CursorOnList()
      ensures var rest := Delivered(items, from);
              if rest == [] then r == None && cursor == null
              else r == Some(rest[0]) && Ahead() == rest[1..] && from <= Pos() < |items|
                   && items[Pos()].rec == r && cursor == nodes[Pos()]
    {
      ghost var n := from;
      while cursor != null
        invariant from <= n <= |nodes| && cursor == At(nodes, n)
        invariant Delivered(items, from) == Delivered(items, n)
        decreases |nodes| - n
      {
        assert items[n].rec == cursor.rec;
        if cursor.rec.Some? {
          assert Pos() == n;
          return cursor.rec;
        }
        cursor := cursor.next;
        n := n + 1;
      }
      return None;
    }
  }
}
