/**
 `commonio_open` of lib/commonio.c: reads a file line by line into the list. What a
 commit then writes is the same text except for the entries that were changed.
 */
module CommonIOOpen {
  import opened Wrappers
  import opened CommonIO
  import opened Commit

  // ----- lines -----

  function NewlineFrom(text: string, from: nat): (k: nat)
    requires from <= |text|
    ensures from <= k <= |text|
    ensures k < |text| ==> text[k] == '\n'
    ensures forall j :: from <= j < k ==> text[j] != '\n'
    decreases |text| - from
  {
    if from == |text| || text[from] == '\n' then from else NewlineFrom(text, from + 1)
  }

  /** The lines `getline` delivers; a last line without its newline is refused. */
  function Lines(text: string): Option<seq<string>>
    decreases |text|
  {
    if text == "" then Some([])
    else
      var k := NewlineFrom(text, 0);
      if k == |text| then None
      else
        var rest := Lines(text[k + 1..]);
        if rest.None? then None else Some([text[..k]] + rest.value)
  }

  function Join(lines: seq<string>): string {
    if lines == [] then "" else lines[0] + "\n" + Join(lines[1..])
  }

  predicate Plain(lines: seq<string>) {
    forall i :: 0 <= i < |lines| ==> '\n' !in lines[i]
  }

  lemma {:induction false} LinesArePlain(text: string, i: nat)
    requires Lines(text).Some? && i < |Lines(text).value|
    ensures '\n' !in Lines(text).value[i]
    decreases |text|
  {
    if i > 0 {
      LinesArePlain(text[NewlineFrom(text, 0) + 1..], i - 1);
    }
  }

  lemma {:induction false} LinesMakeUp(text: string)
    requires Lines(text).Some?
    ensures Join(Lines(text).value) == text
    decreases |text|
  {
    if text != "" {
      var k := NewlineFrom(text, 0);
      LinesMakeUp(text[k + 1..]);
      assert Lines(text).value[1..] == Lines(text[k + 1..]).value;
      assert text == text[..k] + "\n" + text[k + 1..];
    }
  }

  /** Reading splits a text file into lines that make it up again. */
  lemma {:induction false} LinesThenJoin(text: string)
    requires Lines(text).Some?
    ensures Join(Lines(text).value) == text && Plain(Lines(text).value)
  {
    LinesMakeUp(text);
    forall i | 0 <= i < |Lines(text).value|
      ensures '\n' !in Lines(text).value[i]
    {
      LinesArePlain(text, i);
    }
  }

  lemma {:induction false} FirstLine(l: string, rest: string)
    requires '\n' !in l
    ensures NewlineFrom(l + "\n" + rest, 0) == |l|
    ensures Lines(l + "\n" + rest) == if Lines(rest).None? then None else Some([l] + Lines(rest).value)
  {
    var t := l + "\n" + rest;
    assert t[|l|] == '\n';
    assert forall j :: 0 <= j < |l| ==> t[j] == l[j];
    var k := NewlineFrom(t, 0);
    assert t[..k] == l && t[k + 1..] == rest;
  }

  lemma {:induction false} JoinThenLines(lines: seq<string>)
    requires Plain(lines)
    ensures Lines(Join(lines)) == Some(lines)
  {
    if lines != [] {
      var rest := lines[1..];
      assert forall i :: 0 <= i < |rest| ==> rest[i] == lines[i + 1];
      JoinThenLines(rest);
      FirstLine(lines[0], Join(rest));
      assert [lines[0]] + rest == lines;
    }
  }

  /** Any text that ends with a newline can be read. */
  lemma {:induction false} TerminatedIsRead(text: string)
    requires text == "" || text[|text| - 1] == '\n'
    ensures Lines(text).Some?
    decreases |text|
  {
    if text != "" {
      var k := NewlineFrom(text, 0);
      if k + 1 < |text| {
        assert text[k + 1..][|text| - k - 2] == text[|text| - 1];
      }
      TerminatedIsRead(text[k + 1..]);
    }
  }

  // ----- the list that is read, and what is written back -----

  function LoadedAll<T>(lines: seq<string>, parse: string -> Option<T>): (r: seq<Item<T>>)
    ensures |r| == |lines| && forall i :: 0 <= i < |r| ==> r[i] == Loaded(lines[i], parse)
  {
    seq(|lines|, i requires 0 <= i < |lines| => Loaded(lines[i], parse))
  }

  /** The list of a file that can be read, as it is before any hook runs. */
  function Load<T>(text: string, parse: string -> Option<T>): (r: seq<Item<T>>)
    requires Lines(text).Some?
  {
    LoadedAll(Lines(text).value, parse)
  }

  lemma {:induction false} JoinConcat(a: seq<string>, b: seq<string>)
    ensures Join(a + b) == Join(a) + Join(b)
  {
    if a == [] {
      assert a + b == b;
    } else {
      assert (a + b)[0] == a[0] && (a + b)[1..] == a[1..] + b;
      JoinConcat(a[1..], b);
    }
  }

  lemma {:induction false} SerializeSnoc<T>(s: seq<Item<T>>, it: Item<T>, put: T -> Option<string>)
    ensures Serialize(s + [it], put) == (if Serialize(s, put).Some? && Text(it, put).Some?
                                         then Some(Serialize(s, put).value + Text(it, put).value) else None)
  {
    assert (s + [it])[..|s + [it]| - 1] == s;
  }

  lemma {:induction false} JoinSnoc(lines: seq<string>, line: string)
    ensures Join(lines + [line]) == Join(lines) + (line + "\n")
  {
    JoinConcat(lines, [line]);
    assert [line][1..] == [];
    assert Join([line]) == line + "\n" + "";
  }

  /** When each entry is one line of text, the file is those lines. */
  lemma {:induction false} SerializeLines<T>(s: seq<Item<T>>, lines: seq<string>, put: T -> Option<string>)
    requires |s| == |lines| && forall i :: 0 <= i < |s| ==> Text(s[i], put) == Some(lines[i] + "\n")
    ensures Serialize(s, put) == Some(Join(lines))
  {
    if s != [] {
      var n := |s| - 1;
      SerializeLines(s[..n], lines[..n], put);
      assert s == s[..n] + [s[n]] && lines == lines[..n] + [lines[n]];
      SerializeSnoc(s[..n], s[n], put);
      JoinSnoc(lines[..n], lines[n]);
    }
  }

  /** If none of the lines holds a newline, they are what is read back. */
  lemma {:induction false} RereadLines<T>(s: seq<Item<T>>, lines: seq<string>, put: T -> Option<string>)
    requires |s| == |lines| && Plain(lines) && forall i :: 0 <= i < |s| ==> Text(s[i], put) == Some(lines[i] + "\n")
    ensures Serialize(s, put).Some? && Lines(Serialize(s, put).value) == Some(lines)
  {
    SerializeLines(s, lines, put);
    JoinThenLines(lines);
  }

  /** A file can be written exactly when each of its entries can. */
  lemma {:induction false} SerializeEach<T>(s: seq<Item<T>>, put: T -> Option<string>)
    ensures Serialize(s, put).Some? <==> forall i :: 0 <= i < |s| ==> Text(s[i], put).Some?
  {
    if s != [] {
      SerializeEach(s[..|s| - 1], put);
      assert forall i :: 0 <= i < |s| - 1 ==> s[i] == s[..|s| - 1][i];
    }
  }

  lemma {:induction false} SerializeAlike<T>(s: seq<Item<T>>, u: seq<Item<T>>, put: T -> Option<string>)
    requires |s| == |u| && forall i :: 0 <= i < |s| ==> Text(s[i], put) == Text(u[i], put)
    ensures Serialize(s, put) == Serialize(u, put)
  {
    if s != [] {
      assert forall i :: 0 <= i < |s| - 1 ==> s[i] == s[..|s| - 1][i] && u[i] == u[..|s| - 1][i];
      SerializeAlike(s[..|s| - 1], u[..|u| - 1], put);
    }
  }

  /** An entry that was read, perhaps edited, and will be written as one line. */
  ghost predicate OneLine<T>(it: Item<T>, put: T -> Option<string>, line: T -> string) {
    if it.changed then it.rec.Some? && (put(it.rec.value).Some? ==>
                         put(it.rec.value).value == line(it.rec.value) + "\n" && '\n' !in line(it.rec.value))
    else it.line.Some? && '\n' !in it.line.value
  }

  function WrittenLine<T>(it: Item<T>, line: T -> string): string {
    if it.changed && it.rec.Some? then line(it.rec.value) else if it.line.Some? then it.line.value else ""
  }

  /** What the next open makes of such a list. */
  lemma {:induction false} CommitThenLoad<T>(s: seq<Item<T>>, put: T -> Option<string>, line: T -> string,
                                             parse: string -> Option<T>)
    requires Serialize(s, put).Some? && forall i :: 0 <= i < |s| ==> OneLine(s[i], put, line)
    ensures Lines(Serialize(s, put).value).Some?
    ensures var u := Load(Serialize(s, put).value, parse);
            |u| == |s| && forall i :: 0 <= i < |s| ==> u[i] == Loaded(WrittenLine(s[i], line), parse)
    ensures forall i :: 0 <= i < |s| && s[i].changed ==> s[i].rec.Some? && put(s[i].rec.value).Some?
  {
    SerializeEach(s, put);
    var lines := seq(|s|, i requires 0 <= i < |s| => WrittenLine(s[i], line));
    forall i | 0 <= i < |s|
      ensures Text(s[i], put) == Some(lines[i] + "\n") && '\n' !in lines[i]
    {
      assert OneLine(s[i], put, line) && Text(s[i], put).Some?;
    }
    RereadLines(s, lines, put);
  }

  lemma {:induction false} SerializeConcat<T>(a: seq<Item<T>>, b: seq<Item<T>>, put: T -> Option<string>)
    ensures Serialize(a + b, put) == (if Serialize(a, put).Some? && Serialize(b, put).Some?
                                      then Some(Serialize(a, put).value + Serialize(b, put).value) else None)
    decreases |b|
  {
    if b == [] {
      assert a + b == a;
      assert Serialize(a, put).Some? ==> Serialize(a, put).value + "" == Serialize(a, put).value;
    } else {
      var init, last := b[..|b| - 1], b[|b| - 1];
      assert b == init + [last] && a + b == (a + init) + [last];
      SerializeConcat(a, init, put);
      SerializeSnoc(init, last, put);
      SerializeSnoc(a + init, last, put);
      if Serialize(a, put).Some? && Serialize(b, put).Some? {
        var x, y, z := Serialize(a, put).value, Serialize(init, put).value, Text(last, put).value;
        assert (x + y) + z == x + (y + z);
      }
    }
  }

  lemma {:induction false} SerializeOne<T>(it: Item<T>, put: T -> Option<string>)
    ensures Serialize([it], put) == Text(it, put)
  {
    assert [] + [it] == [it];
    SerializeSnoc([], it, put);
    assert Text(it, put).Some? ==> "" + Text(it, put).value == Text(it, put).value;
  }

  /** A list nobody changed is written as it was read, NIS lines and lines that could
      not be parsed included. */
  lemma {:induction false} UnchangedIsVerbatim<T>(lines: seq<string>, parse: string -> Option<T>,
                                                  put: T -> Option<string>)
    ensures Serialize(LoadedAll(lines, parse), put) == Some(Join(lines))
  {
    if lines == [] {
      assert LoadedAll(lines, parse) == [];
    } else {
      var n := |lines| - 1;
      var init, last := lines[..n], lines[n];
      assert lines == init + [last];
      assert LoadedAll(lines, parse) == LoadedAll(init, parse) + [Loaded(last, parse)];
      UnchangedIsVerbatim(init, parse, put);
      SerializeSnoc(LoadedAll(init, parse), Loaded(last, parse), put);
      JoinConcat(init, [last]);
      JoinOne(last);
    }
  }

  lemma {:induction false} JoinOne(line: string)
    ensures Join([line]) == line + "\n"
  {
    assert [line][1..] == [];
    assert Join([line]) == line + "\n" + "";
  }

  /** An entry that was updated is printed where its line stood and nothing else is
      touched; if it cannot be printed, nothing can be written. */
  lemma {:induction false} EditedInPlace<T>(lines: seq<string>, k: nat, r: T, parse: string -> Option<T>,
                                            put: T -> Option<string>)
    requires k < |lines|
    ensures var t := Serialize(LoadedAll(lines, parse)[k := Item(Some(lines[k]), Some(r), true)], put);
            t == if put(r).None? then None else Some(Join(lines[..k]) + (put(r).value + Join(lines[k + 1..])))
  {
    var s, it := LoadedAll(lines, parse), Item(Some(lines[k]), Some(r), true);
    var a, b := LoadedAll(lines[..k], parse), LoadedAll(lines[k + 1..], parse);
    assert s[k := it] == a + ([it] + b);
    UnchangedIsVerbatim(lines[..k], parse, put);
    UnchangedIsVerbatim(lines[k + 1..], parse, put);
    SerializeOne(it, put);
    SerializeConcat([it], b, put);
    SerializeConcat(a, [it] + b, put);
  }

  // ----- commonio_open -----

  /** One turn of the reading loop. */
  method ReadLine<T>(db: Database<T>, line: string)
    requires db.Valid()
    modifies db`head, db`tail, db`nodes, db`items, db.nodes`next
    ensures db.Valid()
    ensures db.items == old(db.items) + [Loaded(line, db.ops.parse)]
    ensures forall i :: 0 <= i < |db.nodes| ==> db.nodes[i] in old(db.nodes) || fresh(db.nodes[i])
  {
    var rec := if NameIsNis(line) then None else db.ops.parse(line);
    var p := new Entry(Some(line), rec, false);
    db.AddOneEntry(p);
    db.items := db.items + [Item(Some(line), rec, false)];
  }

  /** `done` has been read and `rest` is still to be read. */
  ghost predicate ReadSoFar(text: string, done: seq<string>, rest: string) {
    Lines(text) == if Lines(rest).None? then None else Some(done + Lines(rest).value)
  }

  lemma {:induction false} ReadNext(text: string, done: seq<string>, rest: string)
    requires ReadSoFar(text, done, rest) && rest != ""
    ensures var k := NewlineFrom(rest, 0);
            if k == |rest| then Lines(text).None? else ReadSoFar(text, done + [rest[..k]], rest[k + 1..])
  {
    var k := NewlineFrom(rest, 0);
    if k < |rest| && Lines(rest[k + 1..]).Some? {
      assert done + ([rest[..k]] + Lines(rest[k + 1..]).value) == (done + [rest[..k]]) + Lines(rest[k + 1..]).value;
    }
  }

  lemma {:induction false} LoadedSnoc<T>(lines: seq<string>, line: string, parse: string -> Option<T>)
    ensures LoadedAll(lines + [line], parse) == LoadedAll(lines, parse) + [Loaded(line, parse)]
  {
  }

  /** The reading loop: one entry for each line, at the end of the list. */
  method ReadAll<T>(db: Database<T>, text: string) returns (ok: bool)
    requires db.Valid() && db.nodes == [] && !db.isOpen
    modifies db`head, db`tail, db`nodes, db`items
    ensures db.Valid()
    ensures ok == Lines(text).Some?
    ensures ok ==> db.items == LoadedAll(Lines(text).value, db.ops.parse)
  {
    var rest := text;
    ghost var done: seq<string> := [];
    assert Lines(text).Some? ==> [] + Lines(text).value == Lines(text).value;
    while rest != ""
      invariant db.Valid() && forall i :: 0 <= i < |db.nodes| ==> fresh(db.nodes[i])
      invariant db.items == LoadedAll(done, db.ops.parse) && ReadSoFar(text, done, rest)
      decreases |rest|
    {
      var k := NewlineFrom(rest, 0);
      ReadNext(text, done, rest);
      if k == |rest| {
        return false;
      }
      ReadLine(db, rest[..k]);
      LoadedSnoc(done, rest[..k], db.ops.parse);
      done, rest := done + [rest[..k]], rest[k + 1..];
    }
    assert done + [] == done;
    return true;
  }

  /** What may go wrong besides a missing or non-text file. */
  datatype Trouble = Nothing | CannotOpen | CannotRead

  /** The list that opening a file with this content gives, if it succeeds. */
  function OpenedList<T>(content: Option<string>, create: bool, trouble: Trouble, parse: string -> Option<T>):
    Option<seq<Item<T>>> {
    if trouble.CannotOpen? then None
    else if content.None? then (if create then Some([]) else None)
    else if Lines(content.value).None? || trouble.CannotRead? then None
    else Some(LoadedAll(Lines(content.value).value, parse))
  }

  /**
   `commonio_open`; `content` is `None` for a file that does not exist, and
   `CannotRead` stands for a read error and for a failing open hook alike.
   */
  method Open<T>(db: Database<T>, write: bool, create: bool, content: Option<string>, trouble: Trouble)
      returns (ok: bool)
    modifies db`head, db`tail, db`cursor, db`changed, db`isOpen, db`readOnly, db`nodes, db`items
    ensures ok <==> !old(db.isOpen) && (write ==> db.locked) && OpenedList(content, create, trouble, db.ops.parse).Some?
    ensures ok ==> && db.Valid() && db.isOpen && db.readOnly == !write && !db.changed && db.cursor == null
                   && db.items == OpenedList(content, create, trouble, db.ops.parse).value
    ensures !ok ==> db.isOpen == old(db.isOpen) && (db.isOpen ==> unchanged(db))
  {
    if db.isOpen {
      return false;
    }
    db.readOnly := !write;
    if !db.readOnly && !db.locked {
      return false;
    }
    db.head, db.tail, db.cursor := null, null, null;
    db.nodes, db.items := [], [];
    db.changed := false;
    if trouble.CannotOpen? {
      return false;
    }
    if content.None? {
      if create {
        db.isOpen := true;
      }
      return create;
    }
    ok := ReadAll(db, content.value);
    if !ok || trouble.CannotRead? {
      FreeLinkedList(db);
      return false;
    }
    db.isOpen := true;
  }

  /** A missing file opens as an empty list exactly if it may be created. A file is
      refused exactly if it does not end with a newline; else each of its lines gives
      an entry, without a record if it starts with a sign. */
  lemma {:induction false} OpenedExactly<T>(content: Option<string>, create: bool, parse: string -> Option<T>)
    ensures content == None ==> OpenedList(content, create, Nothing, parse) == if create then Some([]) else None
    ensures content.Some? ==>
              var u := OpenedList(content, create, Nothing, parse);
              && (u.Some? <==> content.value == "" || content.value[|content.value| - 1] == '\n')
              && (u.Some? ==> exists lines: seq<string> ::
                    && Join(lines) == content.value && |u.value| == |lines|
                    && forall i :: 0 <= i < |lines| ==> '\n' !in lines[i] && IsLoaded(u.value[i], lines[i], parse))
    ensures OpenedList(content, create, CannotOpen, parse) == None
    ensures content.Some? ==> OpenedList(content, create, CannotRead, parse) == None
  {
    if content.Some? {
      var text := content.value;
      if text == "" || text[|text| - 1] == '\n' {
        TerminatedIsRead(text);
      }
      if Lines(text).Some? {
        LinesThenJoin(text);
        var lines := Lines(text).value;
        JoinTerminates(lines);
        assert forall i :: 0 <= i < |lines| ==> IsLoaded(LoadedAll(lines, parse)[i], lines[i], parse);
      }
    }
  }

  predicate IsLoaded<T(==)>(it: Item<T>, line: string, parse: string -> Option<T>) {
    && it.line == Some(line) && !it.changed
    && it.rec == if line != "" && (line[0] == '+' || line[0] == '-') then None else parse(line)
  }

  lemma {:induction false} JoinTerminates(lines: seq<string>)
    ensures Join(lines) == "" || Join(lines)[|Join(lines)| - 1] == '\n'
  {
    if lines != [] {
      JoinSnoc(lines[..|lines| - 1], lines[|lines| - 1]);
      assert lines == lines[..|lines| - 1] + [lines[|lines| - 1]];
    }
  }

  lemma {:induction false} LoadThenSerialize<T>(text: string, parse: string -> Option<T>, put: T -> Option<string>)
    requires Lines(text).Some?
    ensures Serialize(Load(text, parse), put) == Some(text)
  {
    LinesThenJoin(text);
    UnchangedIsVerbatim(Lines(text).value, parse, put);
  }

  /** Opening a text file and committing the list unchanged writes the same text. */
  lemma {:induction false} OpenThenCommit<T>(text: string, create: bool, parse: string -> Option<T>,
                                             put: T -> Option<string>)
    requires OpenedList(Some(text), create, Nothing, parse).Some?
    ensures Serialize(OpenedList(Some(text), create, Nothing, parse).value, put) == Some(text)
  {
    LoadThenSerialize(text, parse, put);
  }
}
