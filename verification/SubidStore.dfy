/**
 What a subordinate-ID list becomes when it is committed and opened again: the
 file is written with `subordinate_put`, split into lines, and parsed.
 */
module SubidStore {
  import opened Wrappers
  import opened CommonIO
  import opened Commit
  import opened CommonIOOpen
  import opened Fields
  import opened SubidRanges
  import opened SubidList
  import opened SubidText

  /** A list that was read and then edited: entries are as their line says, or marked. */
  ghost predicate Stored(s: seq<Item<Range>>, num: Reader) {
    forall i :: 0 <= i < |s| ==> StoredItem(s[i], num)
  }

  predicate StoredItem(it: Item<Range>, num: Reader) {
    if it.changed then it.rec.Some?
    else it.line.Some? && '\n' !in it.line.value && it == Loaded(it.line.value, Parser(num))
  }

  /** The line that is written for an entry. */
  function TextLine(it: Item<Range>): string {
    if it.changed && it.rec.Some? then Line(it.rec.value) else if it.line.Some? then it.line.value else ""
  }

  function TextLines(s: seq<Item<Range>>): (r: seq<string>)
    ensures |r| == |s| && forall i :: 0 <= i < |s| ==> r[i] == TextLine(s[i])
  {
    seq(|s|, i requires 0 <= i < |s| => TextLine(s[i]))
  }

  /** The text that is written for a list. */
  function FileOf(s: seq<Item<Range>>): string {
    Join(TextLines(s))
  }

  lemma {:induction false} FileIsSerialized(s: seq<Item<Range>>, num: Reader)
    requires Stored(s, num)
    ensures Serialize(s, Put) == Some(FileOf(s))
  {
    forall i | 0 <= i < |s|
      ensures Text(s[i], Put) == Some(TextLines(s)[i] + "\n")
    {
      assert StoredItem(s[i], num);
    }
    SerializeLines(s, TextLines(s), Put);
  }

  /** Whatever was written can be opened. */
  lemma {:induction false} FileIsRead(s: seq<Item<Range>>)
    ensures Lines(FileOf(s)).Some?
  {
    JoinTerminates(TextLines(s));
    TerminatedIsRead(FileOf(s));
  }

  /** The list the next call opens. */
  function Reread(s: seq<Item<Range>>, num: Reader): seq<Item<Range>> {
    if Lines(FileOf(s)).Some? then Load(FileOf(s), Parser(num)) else []
  }

  /** What is read is a stored list of good entries. */
  lemma {:induction false} LoadIsStored(text: string, num: Reader)
    requires Lines(text).Some?
    ensures Stored(Load(text, Parser(num)), num)
    ensures forall i :: 0 <= i < |Load(text, Parser(num))| && Load(text, Parser(num))[i].rec.Some? ==>
              GoodOwner(Load(text, Parser(num))[i].rec.value.owner) && Parses(Load(text, Parser(num))[i].rec.value)
  {
    var s := Load(text, Parser(num));
    forall i | 0 <= i < |s|
      ensures StoredItem(s[i], num)
      ensures s[i].rec.Some? ==> GoodOwner(s[i].rec.value.owner) && Parses(s[i].rec.value)
    {
      LinesArePlain(text, i);
      if s[i].rec.Some? {
        ParsedIsGood(Lines(text).value[i], num);
      }
    }
  }

  ghost predicate PlainOwners(s: seq<Item<Range>>) {
    forall i :: 0 <= i < |s| && s[i].changed && s[i].rec.Some? ==> '\n' !in s[i].rec.value.owner
  }

  /** Without a newline in an owner each entry is read back from its own line. */
  lemma {:induction false} RereadEach(s: seq<Item<Range>>, num: Reader)
    requires Stored(s, num) && PlainOwners(s) && ReadsDecimals(num)
    ensures |Reread(s, num)| == |s|
    ensures forall i :: 0 <= i < |s| ==> Reread(s, num)[i] == Loaded(TextLine(s[i]), Parser(num))
  {
    forall i | 0 <= i < |s|
      ensures '\n' !in TextLines(s)[i]
    {
      assert StoredItem(s[i], num);
      if s[i].changed {
        LineIs(s[i].rec.value);
      }
    }
    JoinThenLines(TextLines(s));
  }

  /** Every marked entry is one that is read back as written. */
  ghost predicate AllReadBack(s: seq<Item<Range>>) {
    forall i :: 0 <= i < |s| && s[i].changed && s[i].rec.Some? ==> ReadsBack(s[i].rec.value)
  }

  lemma {:induction false} RereadRec(it: Item<Range>, num: Reader)
    requires StoredItem(it, num) && ReadsDecimals(num) && (it.changed ==> '\n' !in it.rec.value.owner)
    ensures Loaded(TextLine(it), Parser(num)).rec == if it.changed && !ReadsBack(it.rec.value) then None else it.rec
  {
    if it.changed {
      PrintThenParse(it.rec.value, num);
    }
  }

  lemma {:induction false} FewerParsed<T>(s: seq<Item<T>>, u: seq<Item<T>>)
    requires |s| == |u| && forall i :: 0 <= i < |s| ==> u[i].rec == s[i].rec || u[i].rec.None?
    ensures |Parsed(u)| <= |Parsed(s)|
    ensures (forall i :: 0 <= i < |s| ==> u[i].rec == s[i].rec) ==> Parsed(u) == Parsed(s)
    ensures |Parsed(u)| == |Parsed(s)| ==> forall i :: 0 <= i < |s| ==> u[i].rec == s[i].rec
  {
    if s != [] {
      assert forall i :: 0 <= i < |s| - 1 ==> s[1..][i] == s[i + 1] && u[1..][i] == u[i + 1];
      FewerParsed(s[1..], u[1..]);
      assert forall i :: 1 <= i < |s| ==> s[i] == s[1..][i - 1] && u[i] == u[1..][i - 1];
    }
  }

  /** Committing and reading again keeps the ranges of a list exactly when every
      marked entry is read back; no other range can make up for a lost one. */
  lemma {:induction false} CommitKeepsIff(s: seq<Item<Range>>, num: Reader)
    requires Stored(s, num) && ReadsDecimals(num)
    ensures Parsed(Reread(s, num)) == Parsed(s) <==> AllReadBack(s)
  {
    var u := Reread(s, num);
    FileIsRead(s);
    if PlainOwners(s) {
      RereadEach(s, num);
      forall i | 0 <= i < |s|
        ensures u[i].rec == if s[i].changed && !ReadsBack(s[i].rec.value) then None else s[i].rec
      {
        assert StoredItem(s[i], num);
        RereadRec(s[i], num);
      }
      FewerParsed(s, u);
      if !AllReadBack(s) {
        var i :| 0 <= i < |s| && s[i].changed && s[i].rec.Some? && !ReadsBack(s[i].rec.value);
        assert u[i].rec != s[i].rec;
      }
    } else {
      var i :| 0 <= i < |s| && s[i].changed && s[i].rec.Some? && '\n' in s[i].rec.value.owner;
      ParsedHas(s, s[i].rec.value);
      if Parsed(u) == Parsed(s) {
        ParsedHas(u, s[i].rec.value);
        LoadIsStored(FileOf(s), num);
      }
    }
  }
}
