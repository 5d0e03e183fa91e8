/**
 The group file from one program to the next: the close hook splits, the commit
 prints, and the next open reads and merges. With the limit 0 both hooks do nothing.
 */
module GroupFiles {
  import opened Wrappers
  import opened CommonIO
  import opened Commit
  import opened CommonIOOpen
  import opened Fields
  import opened GroupSplit
  import opened Grpconv
  import opened GroupText
  import opened GroupStore
  import opened GroupPieces

  /** The list after `gr_open`. */
  function Opened(text: string, max: nat, num: Reader): seq<GroupItem>
    requires Lines(text).Some?
  {
    var g := Load(text, GroupParser(num));
    if max == 0 then g else MergeAll(g)
  }

  /** The list that `gr_close` prints. */
  function Closed(h: seq<GroupItem>, max: nat): seq<GroupItem> {
    if max == 0 then h else SplitAll(h, max)
  }

  function Parts(it: GroupItem, max: nat): seq<GroupItem> {
    if max == 0 then [it] else Pieces(it, max)
  }

  // ----- entries of several lines -----

  /** The lines of an entry; the open hook puts a newline between those it merges. */
  function LinesIn(it: GroupItem): seq<string> {
    FieldsOf(LineOf(it), '\n')
  }

  /** An unmarked entry with the lines of one group, whose key it has. */
  predicate FromLines(it: GroupItem, max: nat, num: Reader) {
    var b := LoadedAll(LinesIn(it), GroupParser(num));
    && !it.changed && it.line.Some? && IsBlock(b) && (max == 0 ==> |b| == 1)
    && if it.rec.Some? then SameKey(it, b[0]) else b[0].rec.None?
  }

  /** The entry is what those lines are merged into. */
  predicate AsOpened(it: GroupItem, max: nat, num: Reader) {
    FromLines(it, max, num) && it == Fold(LoadedAll(LinesIn(it), GroupParser(num)))
  }

  lemma {:induction false} ReadIsOpened(it: GroupItem, max: nat, num: Reader)
    requires GroupAsRead(it, num)
    ensures AsOpened(it, max, num) && LinesIn(it) == [it.line.value]
  {
    SplitPlain(it.line.value, '\n');
    assert LoadedAll([it.line.value], GroupParser(num)) == [it];
  }

  lemma {:induction false} MergedLines(a: GroupItem, b: GroupItem, num: Reader)
    requires a.line.Some? && GroupAsRead(b, num) && SameKey(a, b)
    ensures LoadedAll(LinesIn(Merged(a, b)), GroupParser(num)) == LoadedAll(LinesIn(a), GroupParser(num)) + [b]
  {
    var x, y := a.line.value, b.line.value;
    SplitPlain(y, '\n');
    SplitTwo(x, y, '\n');
    assert LineOf(Merged(a, b)) == x + (['\n'] + y);
    assert LoadedAll(LinesIn(a) + [y], GroupParser(num)) == LoadedAll(LinesIn(a), GroupParser(num)) + [b];
  }

  lemma {:induction false} MergedIsOpened(a: GroupItem, b: GroupItem, max: nat, num: Reader)
    requires AsOpened(a, max, num) && GroupAsRead(b, num) && SameKey(a, b) && max > 0
    ensures AsOpened(Merged(a, b), max, num)
  {
    var u := LoadedAll(LinesIn(a), GroupParser(num));
    MergedLines(a, b, num);
    FoldSnoc(u, b);
    assert (u + [b])[0] == u[0];
  }

  /** The first `n` entries are merged, the others as they were read. */
  predicate MergedUpTo(s: seq<GroupItem>, n: nat, max: nat, num: Reader) {
    && (forall i :: 0 <= i < n && i < |s| ==> AsOpened(s[i], max, num))
    && (forall i :: n <= i < |s| ==> GroupAsRead(s[i], num))
  }

  lemma {:induction false} JoinedUpTo(s: seq<GroupItem>, k: nat, n: nat, max: nat, num: Reader)
    requires k < n < |s| && SameKey(s[k], s[n]) && max > 0 && MergedUpTo(s, k + 1, max, num)
    ensures MergedUpTo(Joined(s, k, n), k + 1, max, num)
  {
    MergedIsOpened(s[k], s[n], max, num);
  }

  lemma {:induction false} AbsorbOpened(s: seq<GroupItem>, k: nat, n: nat, max: nat, num: Reader)
    requires k < n && max > 0 && MergedUpTo(s, k + 1, max, num)
    ensures MergedUpTo(Absorb(s, k, n), k + 1, max, num)
    decreases |s| - n
  {
    if n < |s| {
      if SameKey(s[k], s[n]) {
        JoinedUpTo(s, k, n, max, num);
        AbsorbOpened(Joined(s, k, n), k, n, max, num);
      } else {
        AbsorbOpened(s, k, n + 1, max, num);
      }
    }
  }

  lemma {:induction false} MergeOpened(s: seq<GroupItem>, k: nat, max: nat, num: Reader)
    requires max > 0 && MergedUpTo(s, k, max, num)
    ensures MergedUpTo(MergeFrom(s, k), |MergeFrom(s, k)|, max, num)
    decreases |s| - k
  {
    if k < |s| {
      ReadIsOpened(s[k], max, num);
      AbsorbOpened(s, k, k + 1, max, num);
      MergeOpened(Absorb(s, k, k + 1), k + 1, max, num);
    }
  }

  /** What every open delivers. */
  lemma {:induction false} OpenedEntries(text: string, max: nat, num: Reader)
    requires Lines(text).Some?
    ensures forall i :: 0 <= i < |Opened(text, max, num)| ==> AsOpened(Opened(text, max, num)[i], max, num)
    ensures max > 0 ==> UniqueKeys(Opened(text, max, num))
  {
    var g := Load(text, GroupParser(num));
    GroupLoaded(text, num);
    if max > 0 {
      MergeOpened(g, 0, max, num);
      MergeFromCleans(g, 0);
    } else {
      forall i | 0 <= i < |g|
        ensures AsOpened(g[i], max, num)
      {
        ReadIsOpened(g[i], max, num);
      }
    }
  }

  /** A parsed entry has a name that is not an NIS one, and so has its line. */
  lemma {:induction false} OpenedName(it: GroupItem, max: nat, num: Reader)
    requires FromLines(it, max, num) && it.rec.Some?
    ensures !NameIsNis(it.rec.value.name) && !LineIsNis(it)
  {
    var l := LinesIn(it);
    FirstField(LineOf(it), '\n');
    ReadName(l[0], ':');
  }

  // ----- the lines that are written -----

  predicate GroupWritable(it: GroupItem) {
    it.changed ==> it.rec.Some? && GroupPrintable(it.rec.value)
  }

  /** An entry of a list that was opened and then edited. */
  predicate Keepable(it: GroupItem, max: nat, num: Reader) {
    GroupMarked(it) || FromLines(it, max, num)
  }

  function PrintedLines(p: seq<GroupItem>): (r: seq<string>)
    ensures |r| == |p| && forall i :: 0 <= i < |p| ==> r[i] == if p[i].rec.Some? then GroupLine(p[i].rec.value) else ""
  {
    seq(|p|, i requires 0 <= i < |p| => if p[i].rec.Some? then GroupLine(p[i].rec.value) else "")
  }

  function TextLines(it: GroupItem, max: nat): seq<string> {
    if it.changed then PrintedLines(Parts(it, max)) else LinesIn(it)
  }

  lemma {:induction false} PartsMarked(it: GroupItem, max: nat)
    requires GroupMarked(it)
    ensures Parts(it, max) != []
    ensures forall i :: 0 <= i < |Parts(it, max)| ==> GroupMarked(Parts(it, max)[i]) && SameKey(it, Parts(it, max)[i])
    decreases Size(it)
  {
    if max > 0 && MustSplit(it, max) {
      PartsMarked(Overflow(it, max), max);
    }
  }

  lemma {:induction false} PartsPrintable(it: GroupItem, max: nat)
    requires GroupMarked(it)
    ensures GroupWritable(it) <==> forall i :: 0 <= i < |Parts(it, max)| ==> GroupWritable(Parts(it, max)[i])
    decreases Size(it)
  {
    if max > 0 && MustSplit(it, max) {
      var o, p := Overflow(it, max), Parts(it, max);
      PartsPrintable(o, max);
      var ms := it.rec.value.members;
      assert ms == ms[..max] + ms[max..];
      assert ValidNames(ms) <==> ValidNames(ms[..max]) && ValidNames(ms[max..]);
      assert p[0] == Kept(it, max) && p[1..] == Parts(o, max);
      assert forall i :: 1 <= i < |p| ==> p[i] == p[1..][i - 1];
      assert forall i :: 0 <= i < |p| - 1 ==> p[1..][i] == p[i + 1];
    } else {
      assert Parts(it, max)[0] == it && |Parts(it, max)| == 1;
    }
  }

  lemma {:induction false} JoinedLines(ls: seq<string>)
    requires ls != []
    ensures Join(ls) == JoinBy(ls, '\n') + "\n"
  {
    if |ls| > 1 {
      JoinedLines(ls[1..]);
      var rest := JoinBy(ls[1..], '\n');
      assert ls[0] + "\n" + (rest + "\n") == (ls[0] + (['\n'] + rest)) + "\n";
    } else {
      assert ls == [ls[0]];
      JoinOne(ls[0]);
    }
  }

  lemma {:induction false} LinesInText(it: GroupItem)
    ensures Join(LinesIn(it)) == LineOf(it) + "\n" && Plain(LinesIn(it))
  {
    var ls := LinesIn(it);
    JoinedLines(ls);
    JoinedFields(LineOf(it), '\n');
    forall i | 0 <= i < |ls|
      ensures '\n' !in ls[i]
    {
      if '\n' in ls[i] {
        SplitParts(LineOf(it), '\n', i, '\n');
      }
    }
  }

  lemma {:induction false} PartsWritable(it: GroupItem, max: nat)
    requires it.changed ==> GroupMarked(it)
    ensures Serialize(Parts(it, max), PutGroup).Some? <==> GroupWritable(it)
  {
    var p := Parts(it, max);
    SerializeEach(p, PutGroup);
    if it.changed {
      PartsMarked(it, max);
      PartsPrintable(it, max);
      assert forall i :: 0 <= i < |p| ==> (Text(p[i], PutGroup).Some? <==> GroupWritable(p[i]));
    } else {
      assert p == [it];
    }
  }

  /** A list can be written exactly when each of its entries can. */
  lemma {:induction false} ClosedWritable(h: seq<GroupItem>, max: nat)
    requires forall i :: 0 <= i < |h| && h[i].changed ==> GroupMarked(h[i])
    ensures Serialize(Closed(h, max), PutGroup).Some? <==> forall i :: 0 <= i < |h| ==> GroupWritable(h[i])
  {
    if h != [] {
      assert forall i :: 0 <= i < |h| - 1 ==> h[1..][i] == h[i + 1];
      ClosedWritable(h[1..], max);
      PartsWritable(h[0], max);
      ClosedHead(h, max);
      SerializeConcat(Parts(h[0], max), Closed(h[1..], max), PutGroup);
      assert (forall i :: 0 <= i < |h| ==> GroupWritable(h[i])) <==>
               GroupWritable(h[0]) && forall i :: 0 <= i < |h[1..]| ==> GroupWritable(h[1..][i]);
    }
  }

  /** What one entry becomes in the file. */
  lemma {:induction false} PartsText(it: GroupItem, max: nat, num: Reader)
    requires ReadsDecimals(num) && Keepable(it, max, num) && GroupWritable(it)
    ensures Serialize(Parts(it, max), PutGroup) == Some(Join(TextLines(it, max))) && Plain(TextLines(it, max))
  {
    if it.changed {
      PartsMarked(it, max);
      PartsPrintable(it, max);
      PrintedText(Parts(it, max), num);
    } else {
      assert Parts(it, max) == [it];
      LinesInText(it);
      SerializeOne(it, PutGroup);
    }
  }

  lemma {:induction false} PrintedText(p: seq<GroupItem>, num: Reader)
    requires ReadsDecimals(num) && forall i :: 0 <= i < |p| ==> GroupMarked(p[i]) && GroupWritable(p[i])
    ensures Serialize(p, PutGroup) == Some(Join(PrintedLines(p))) && Plain(PrintedLines(p))
  {
    forall i | 0 <= i < |p|
      ensures Text(p[i], PutGroup) == Some(PrintedLines(p)[i] + "\n") && '\n' !in PrintedLines(p)[i]
    {
      GroupReadsBack(p[i].rec.value, num);
    }
    SerializeLines(p, PrintedLines(p), PutGroup);
  }

  function AllLines(h: seq<GroupItem>, max: nat): seq<string> {
    if h == [] then [] else TextLines(h[0], max) + AllLines(h[1..], max)
  }

  lemma {:induction false} ClosedHead(h: seq<GroupItem>, max: nat)
    requires h != []
    ensures Closed(h, max) == Parts(h[0], max) + Closed(h[1..], max)
  {
  }

  /** The file that a close writes. */
  lemma {:induction false} ClosedText(h: seq<GroupItem>, max: nat, num: Reader)
    requires ReadsDecimals(num) && forall i :: 0 <= i < |h| ==> Keepable(h[i], max, num) && GroupWritable(h[i])
    ensures Serialize(Closed(h, max), PutGroup) == Some(Join(AllLines(h, max))) && Plain(AllLines(h, max))
  {
    if h != [] {
      assert forall i :: 0 <= i < |h| - 1 ==> h[1..][i] == h[i + 1];
      ClosedText(h[1..], max, num);
      PartsText(h[0], max, num);
      ClosedHead(h, max);
      SerializeConcat(Parts(h[0], max), Closed(h[1..], max), PutGroup);
      JoinConcat(TextLines(h[0], max), AllLines(h[1..], max));
    }
  }

  // ----- the next open -----

  /** The entries that the lines of an entry are loaded as. */
  function BlockOf(it: GroupItem, max: nat, num: Reader): seq<GroupItem> {
    LoadedAll(TextLines(it, max), GroupParser(num))
  }

  /** The entry that is delivered for `it` when the written file is opened. */
  function BackOf(it: GroupItem, max: nat, num: Reader): GroupItem {
    if IsBlock(BlockOf(it, max, num)) then Fold(BlockOf(it, max, num)) else it
  }

  function PrintedItem(it: GroupItem): GroupItem
    requires it.rec.Some?
  {
    Item(Some(GroupLine(it.rec.value)), Some(GroupAgain(it.rec.value)), false)
  }

  lemma {:induction false} MarkedBlock(it: GroupItem, max: nat, num: Reader)
    requires ReadsDecimals(num) && GroupMarked(it) && GroupWritable(it)
    ensures var p, b := Parts(it, max), BlockOf(it, max, num);
            && |b| == |p| && IsBlock(b) && SameKey(it, b[0])
            && forall i :: 0 <= i < |p| ==> p[i].rec.Some? && b[i] == PrintedItem(p[i])
  {
    var p := Parts(it, max);
    PartsMarked(it, max);
    PartsPrintable(it, max);
    forall i | 0 <= i < |p|
      ensures p[i].rec.Some? && BlockOf(it, max, num)[i] == PrintedItem(p[i])
    {
      assert GroupMarked(p[i]) && GroupWritable(p[i]);
      GroupReadsBack(p[i].rec.value, num);
    }
  }

  /** Every entry is written as a block of its own key, or as one unparsed line. */
  lemma {:induction false} WrittenBlock(it: GroupItem, max: nat, num: Reader)
    requires ReadsDecimals(num) && Keepable(it, max, num) && GroupWritable(it)
    ensures var b := BlockOf(it, max, num);
            && IsBlock(b) && (max == 0 ==> |b| == 1)
            && if it.rec.Some? then SameKey(it, b[0]) else b[0].rec.None?
  {
    if it.changed {
      MarkedBlock(it, max, num);
    }
  }

  function Blocks(h: seq<GroupItem>, max: nat, num: Reader): (r: seq<seq<GroupItem>>)
    ensures |r| == |h| && forall i :: 0 <= i < |h| ==> r[i] == BlockOf(h[i], max, num)
  {
    seq(|h|, i requires 0 <= i < |h| => BlockOf(h[i], max, num))
  }

  lemma {:induction false} LoadedBlocks(h: seq<GroupItem>, max: nat, num: Reader)
    ensures LoadedAll(AllLines(h, max), GroupParser(num)) == Flat(Blocks(h, max, num))
  {
    if h != [] {
      LoadedBlocks(h[1..], max, num);
      assert Blocks(h, max, num)[1..] == Blocks(h[1..], max, num);
      LoadedConcat(TextLines(h[0], max), AllLines(h[1..], max), GroupParser(num));
    }
  }

  lemma {:induction false} LoadedConcat(a: seq<string>, b: seq<string>, parse: string -> Option<GroupRec>)
    ensures LoadedAll(a + b, parse) == LoadedAll(a, parse) + LoadedAll(b, parse)
  {
  }

  /** Blocks of one entry are their folds. */
  lemma {:induction false} FlatSingles(bs: seq<seq<GroupItem>>)
    requires forall i :: 0 <= i < |bs| ==> IsBlock(bs[i]) && |bs[i]| == 1
    ensures Flat(bs) == Folds(bs)
  {
    if bs != [] {
      FlatSingles(bs[1..]);
      FoldOfOne(bs[0]);
      FoldsHead(bs);
    }
  }

  lemma {:induction false} FoldOfOne(b: seq<GroupItem>)
    requires |b| == 1
    ensures IsBlock(b) && [Fold(b)] == b
  {
    assert b[1..] == [];
  }

  lemma {:induction false} TextOfLoaded(lines: seq<string>, parse: string -> Option<GroupRec>)
    ensures FileText(LoadedAll(lines, parse)) == Join(lines)
  {
    if lines != [] {
      assert LoadedAll(lines, parse)[1..] == LoadedAll(lines[1..], parse);
      TextOfLoaded(lines[1..], parse);
    }
  }

  lemma {:induction false} BlocksApart(h: seq<GroupItem>, max: nat, num: Reader)
    requires ReadsDecimals(num) && UniqueKeys(h)
    requires forall i :: 0 <= i < |h| ==> Keepable(h[i], max, num) && GroupWritable(h[i])
    ensures Apart(Blocks(h, max, num))
  {
    var bs := Blocks(h, max, num);
    forall i | 0 <= i < |h|
      ensures IsBlock(bs[i]) && if h[i].rec.Some? then SameKey(h[i], bs[i][0]) else bs[i][0].rec.None?
    {
      WrittenBlock(h[i], max, num);
    }
    forall i, j | 0 <= i < j < |h|
      ensures !SameKey(bs[i][0], bs[j][0])
    {
      assert NoneOf(h[i], h, i + 1);
      assert !SameKey(h[i], h[j]);
    }
  }

  /** The list that the next open delivers, entry by entry; its lines are the file. */
  lemma {:induction false} Reopened(h: seq<GroupItem>, max: nat, c: string, num: Reader)
    requires ReadsDecimals(num) && (max > 0 ==> UniqueKeys(h))
    requires forall i :: 0 <= i < |h| ==> Keepable(h[i], max, num)
    requires Serialize(Closed(h, max), PutGroup) == Some(c)
    ensures Lines(c).Some? && |Opened(c, max, num)| == |h| && FileText(Opened(c, max, num)) == c
    ensures forall i :: 0 <= i < |h| ==> Opened(c, max, num)[i] == BackOf(h[i], max, num) && GroupWritable(h[i])
  {
    var bs := Blocks(h, max, num);
    ClosedWritable(h, max);
    ClosedText(h, max, num);
    JoinThenLines(AllLines(h, max));
    LoadedBlocks(h, max, num);
    TextOfLoaded(AllLines(h, max), GroupParser(num));
    forall i | 0 <= i < |h|
      ensures IsBlock(bs[i]) && (max == 0 ==> |bs[i]| == 1)
    {
      WrittenBlock(h[i], max, num);
    }
    FoldsText(bs);
    if max > 0 {
      BlocksApart(h, max, num);
      MergeBlocks([], bs);
      assert [] + Flat(bs) == Flat(bs) && [] + Folds(bs) == Folds(bs);
    } else {
      FlatSingles(bs);
    }
  }

  // ----- what comes back of a list of members -----

  function AgainRec(r: GroupRec, max: nat): GroupRec {
    r.(members := Again(r.members, max))
  }

  lemma {:induction false} FoldPieces(a: GroupItem, it: GroupItem, max: nat, num: Reader)
    requires ReadsDecimals(num) && GroupMarked(it) && GroupWritable(it) && max > 0 && SameKey(a, it)
    ensures var b := BlockOf(it, max, num);
            && (forall i :: 0 <= i < |b| ==> SameKey(a, b[i]))
            && Folded(a, b).rec
               == Some(a.rec.value.(members := AgainAfter(a.rec.value.members, it.rec.value.members, max)))
    decreases Size(it)
  {
    var b := BlockOf(it, max, num);
    MarkedBlock(it, max, num);
    if MustSplit(it, max) {
      BlockHead(it, max, num);
      PartsPrintable(it, max);
      var o := Overflow(it, max);
      var m := Merged(a, b[0]);
      FoldPieces(m, o, max, num);
    } else {
      assert b[1..] == [];
    }
  }

  lemma {:induction false} BothWritable(it: GroupItem, max: nat)
    requires GroupMarked(it) && GroupWritable(it) && MustSplit(it, max)
    ensures GroupWritable(Kept(it, max)) && GroupMarked(Overflow(it, max)) && GroupWritable(Overflow(it, max))
  {
    var ms := it.rec.value.members;
    assert forall m :: m in ms[max..] ==> m in ms;
    assert forall m :: m in ms[..max] ==> m in ms;
  }

  lemma {:induction false} TextHead(it: GroupItem, max: nat)
    requires max > 0 && MustSplit(it, max)
    ensures TextLines(it, max) == [GroupLine(Kept(it, max).rec.value)] + TextLines(Overflow(it, max), max)
  {
    var p := Pieces(Overflow(it, max), max);
    assert Parts(it, max) == [Kept(it, max)] + p;
    assert PrintedLines([Kept(it, max)] + p) == [GroupLine(Kept(it, max).rec.value)] + PrintedLines(p);
  }

  lemma {:induction false} BlockHead(it: GroupItem, max: nat, num: Reader)
    requires ReadsDecimals(num) && GroupMarked(it) && GroupWritable(it) && max > 0 && MustSplit(it, max)
    ensures var o := Overflow(it, max);
            && GroupMarked(o) && GroupWritable(o)
            && BlockOf(it, max, num) == [PrintedItem(Kept(it, max))] + BlockOf(o, max, num)
  {
    var l := GroupLine(Kept(it, max).rec.value);
    BothWritable(it, max);
    GroupReadsBack(Kept(it, max).rec.value, num);
    TextHead(it, max);
    LoadedConcat([l], TextLines(Overflow(it, max), max), GroupParser(num));
    assert LoadedAll([l], GroupParser(num)) == [PrintedItem(Kept(it, max))];
  }

  /** A marked entry comes back with its key and those members. */
  lemma {:induction false} MarkedBack(it: GroupItem, max: nat, num: Reader)
    requires ReadsDecimals(num) && GroupMarked(it) && GroupWritable(it)
    ensures var u := BackOf(it, max, num);
            !u.changed && u.line.Some? && !LineIsNis(u) && u.rec == Some(AgainRec(it.rec.value, max))
  {
    var b := BlockOf(it, max, num);
    MarkedBlock(it, max, num);
    if max > 0 && MustSplit(it, max) {
      BlockHead(it, max, num);
      assert b[1..] == BlockOf(Overflow(it, max), max, num);
      FoldPieces(b[0], Overflow(it, max), max, num);
    } else {
      assert Parts(it, max) == [it] && b[1..] == [];
    }
    FoldedLine(b[0], b[1..]);
    GroupLineStart(Parts(it, max)[0].rec.value);
  }

  /** The line of a merged entry starts with the line of its first one. */
  lemma {:induction false} FoldedLine(a: GroupItem, b: seq<GroupItem>)
    requires (forall i :: 0 <= i < |b| ==> SameKey(a, b[i])) && a.line.Some?
    ensures Folded(a, b).line.Some?
    ensures a.line.value != "" ==> Folded(a, b).line.value != "" && Folded(a, b).line.value[0] == a.line.value[0]
    decreases |b|
  {
    if b != [] {
      FoldedLine(Merged(a, b[0]), b[1..]);
    }
  }

  lemma {:induction false} GroupLineStart(r: GroupRec)
    requires !NameIsNis(r.name)
    ensures GroupLine(r) != "" && !NameIsNis(GroupLine(r))
  {
    FirstCharacter([r.name, r.passwd, Decimal(r.gid), JoinBy(r.members, ',')], ':');
  }

  /** An unmarked entry comes back as it was opened. */
  lemma {:induction false} UnmarkedBack(it: GroupItem, max: nat, num: Reader)
    requires FromLines(it, max, num)
    ensures BackOf(it, max, num).line == it.line && AsOpened(BackOf(it, max, num), max, num)
    ensures it.rec.Some? == BackOf(it, max, num).rec.Some? && (it.rec.Some? ==> SameKey(it, BackOf(it, max, num)))
    ensures AsOpened(it, max, num) ==> BackOf(it, max, num) == it
  {
    var b := LoadedAll(LinesIn(it), GroupParser(num));
    FoldedLine(b[0], b[1..]);
    BlockText(b);
    TextOfLoaded(LinesIn(it), GroupParser(num));
    LinesInText(it);
    SameBeforeNewline(LineOf(Fold(b)), LineOf(it));
  }

  lemma {:induction false} BlockText(b: seq<GroupItem>)
    requires IsBlock(b)
    ensures FileText(b) == LineOf(Fold(b)) + "\n"
  {
    FoldedText(b[0], b[1..], []);
    assert [b[0]] + b[1..] + [] == b;
    assert FileText([]) == "" && LineOf(Fold(b)) + "\n" + "" == LineOf(Fold(b)) + "\n";
  }

  lemma {:induction false} SameBeforeNewline(a: string, b: string)
    requires a + "\n" == b + "\n"
    ensures a == b
  {
    assert a == (a + "\n")[..|a + "\n"| - 1];
    assert b == (b + "\n")[..|b + "\n"| - 1];
  }

  // ----- lists nobody marked -----

  lemma {:induction false} ClosedUnmarked(h: seq<GroupItem>, max: nat)
    requires forall i :: 0 <= i < |h| ==> !h[i].changed
    ensures Closed(h, max) == h
  {
    if h != [] && max > 0 {
      assert forall i :: 0 <= i < |h| - 1 ==> h[1..][i] == h[i + 1];
      ClosedUnmarked(h[1..], max);
    }
  }

  lemma {:induction false} UnmarkedText(h: seq<GroupItem>)
    requires forall i :: 0 <= i < |h| ==> !h[i].changed && h[i].line.Some?
    ensures Serialize(h, PutGroup) == Some(FileText(h))
  {
    if h != [] {
      assert forall i :: 0 <= i < |h| - 1 ==> h[1..][i] == h[i + 1];
      UnmarkedText(h[1..]);
      assert h == [h[0]] + h[1..];
      SerializeOne(h[0], PutGroup);
      SerializeConcat([h[0]], h[1..], PutGroup);
    }
  }

  // ----- the whole way round -----

  /** One edit of the open list: an update of a name that is not an NIS one, or the
      removal of an entry. */
  ghost predicate Edited(s: seq<GroupItem>, t: seq<GroupItem>) {
    || (exists r: GroupRec :: !NameIsNis(r.name) && Updated(s, r, GroupName) == Some(t))
    || (exists k: nat :: k < |s| && t == Without(s, k))
  }

  ghost predicate AreEdits(lists: seq<seq<GroupItem>>) {
    lists != [] && forall i :: 0 <= i < |lists| - 1 ==> Edited(lists[i], lists[i + 1])
  }

  lemma {:induction false} KeysBetween(s: seq<GroupItem>, i: nat, j: nat)
    requires UniqueKeys(s) && i < j < |s|
    ensures !SameKey(s[i], s[j])
  {
    assert NoneOf(s[i], s, i + 1);
  }

  lemma {:induction false} RemovalKeepsKeys(s: seq<GroupItem>, k: nat)
    requires k < |s| && UniqueKeys(s)
    ensures UniqueKeys(Without(s, k))
  {
    forall i, j | 0 <= i < j < |s| - 1
      ensures !SameKey(Without(s, k)[i], Without(s, k)[j])
    {
      KeysBetween(s, if i < k then i else i + 1, if j < k then j else j + 1);
    }
  }

  /** A rewritten or new entry has a name of its own, so a key of its own. */
  lemma {:induction false} UpdateKeepsKeys(s: seq<GroupItem>, r: GroupRec)
    requires UniqueKeys(s) && Updated(s, r, GroupName).Some?
    ensures UniqueKeys(Updated(s, r, GroupName).value)
  {
    var k, t := FirstNamed(s, 0, r.name, GroupName), Updated(s, r, GroupName).value;
    forall i | 0 <= i < |s| && i != k
      ensures !Named(s[i], r.name, GroupName)
    {
    }
    var n := if k < |s| then k else FirstNis(s, 0, GroupName);
    forall i, j | 0 <= i < j < |t|
      ensures !SameKey(t[i], t[j])
    {
      if k < |s| {
        if i != k && j != k {
          KeysBetween(s, i, j);
        }
      } else if i != n && j != n {
        KeysBetween(s, if i < n then i else i - 1, if j < n then j else j - 1);
      }
    }
  }

  ghost predicate EachHeld(s: seq<GroupItem>, max: nat, num: Reader) {
    forall i :: 0 <= i < |s| ==> GroupMarked(s[i]) || AsOpened(s[i], max, num)
  }

  ghost predicate AllHeld(s: seq<GroupItem>, max: nat, num: Reader) {
    EachHeld(s, max, num) && (max > 0 ==> UniqueKeys(s))
  }

  lemma {:induction false} UpdateKeepsEach(s: seq<GroupItem>, r: GroupRec, max: nat, num: Reader)
    requires EachHeld(s, max, num) && !NameIsNis(r.name) && Updated(s, r, GroupName).Some?
    ensures EachHeld(Updated(s, r, GroupName).value, max, num)
  {
  }

  lemma {:induction false} EditKeepsHeld(s: seq<GroupItem>, t: seq<GroupItem>, max: nat, num: Reader)
    requires AllHeld(s, max, num) && Edited(s, t)
    ensures AllHeld(t, max, num)
  {
    if r: GroupRec :| !NameIsNis(r.name) && Updated(s, r, GroupName) == Some(t) {
      UpdateKeepsEach(s, r, max, num);
      if max > 0 {
        UpdateKeepsKeys(s, r);
      }
    } else {
      var k: nat :| k < |s| && t == Without(s, k);
      if max > 0 {
        RemovalKeepsKeys(s, k);
      }
    }
  }

  lemma {:induction false} EditsKeepHeld(a: string, lists: seq<seq<GroupItem>>, max: nat, num: Reader)
    requires Lines(a).Some? && AreEdits(lists) && lists[0] == Opened(a, max, num)
    ensures AllHeld(lists[|lists| - 1], max, num)
    decreases |lists|
  {
    var n := |lists| - 1;
    if n == 0 {
      OpenedEntries(a, max, num);
    } else {
      EditsKeepHeld(a, lists[..n], max, num);
      EditKeepsHeld(lists[n - 1], lists[n], max, num);
    }
  }

  /** The entry comes back with its record. */
  lemma {:induction false} BackIff(it: GroupItem, max: nat, num: Reader)
    requires ReadsDecimals(num) && (GroupMarked(it) || AsOpened(it, max, num)) && GroupWritable(it)
    requires max > 0 && MustSplit(it, max) ==> NoDup(it.rec.value.members)
    ensures BackOf(it, max, num).rec == it.rec <==> (it.changed ==> KeepsNames(it.rec.value.members, max))
  {
    if it.changed {
      MarkedBack(it, max, num);
      AgainIff(it.rec.value.members, max);
    } else {
      UnmarkedBack(it, max, num);
    }
  }

  /**
   A group file is opened, edited and written, and opened again. If no group that is
   split repeats a member, every entry then has the record it had in memory if and
   only if no piece of a changed group ends with an empty name. Whether or not, the
   lines of the list are the file as it was written.
   */
  lemma {:induction false} SplitThenMerge(a: string, lists: seq<seq<GroupItem>>, max: nat, c: string, num: Reader)
    requires ReadsDecimals(num) && Lines(a).Some? && AreEdits(lists) && lists[0] == Opened(a, max, num)
    requires var s := lists[|lists| - 1];
             && Serialize(Closed(s, max), PutGroup) == Some(c)
             && forall i :: 0 <= i < |s| && max > 0 && MustSplit(s[i], max) ==> NoDup(s[i].rec.value.members)
    ensures var s := lists[|lists| - 1];
            && Lines(c).Some? && |Opened(c, max, num)| == |s| && FileText(Opened(c, max, num)) == c
            && ((forall i :: 0 <= i < |s| ==> Opened(c, max, num)[i].rec == s[i].rec) <==>
                 forall i :: 0 <= i < |s| && s[i].changed ==> s[i].rec.Some? && KeepsNames(s[i].rec.value.members, max))
  {
    var s := lists[|lists| - 1];
    EditsKeepHeld(a, lists, max, num);
    Reopened(s, max, c, num);
    forall i | 0 <= i < |s|
      ensures Opened(c, max, num)[i].rec == s[i].rec <==>
                (s[i].changed ==> s[i].rec.Some? && KeepsNames(s[i].rec.value.members, max))
    {
      BackIff(s[i], max, num);
    }
  }
}
