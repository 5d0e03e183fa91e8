/**
 Entries of group and gshadow lists between two programs: as they were read, or
 marked to be printed. What a gshadow list becomes when it is committed and opened.
 */
module GroupStore {
  import opened Wrappers
  import opened CommonIO
  import opened Commit
  import opened CommonIOOpen
  import opened Fields
  import opened GroupSplit
  import opened Grpconv
  import opened GroupText

  /** The entry of an unmarked line is what was read from it. */
  predicate GroupAsRead(it: GroupItem, num: Reader) {
    it.line.Some? && '\n' !in it.line.value && it == Loaded(it.line.value, GroupParser(num))
  }

  predicate SgrpAsRead(it: SgrpItem) {
    it.line.Some? && '\n' !in it.line.value && it == Loaded(it.line.value, ParseSgrp)
  }

  /** A marked entry has a record, and its name is not an NIS one. */
  predicate GroupMarked(it: GroupItem) {
    it.changed && it.rec.Some? && !NameIsNis(it.rec.value.name)
  }

  predicate SgrpMarked(it: SgrpItem) {
    it.changed && it.rec.Some? && !NameIsNis(it.rec.value.name)
  }

  predicate SgrpHeld(it: SgrpItem) {
    SgrpMarked(it) || SgrpAsRead(it)
  }

  lemma {:induction false} SgrpAsReadName(it: SgrpItem)
    requires SgrpAsRead(it)
    ensures it.rec.Some? ==> !NameIsNis(it.rec.value.name)
  {
    if it.rec.Some? {
      ReadName(it.line.value, ':');
    }
  }

  lemma {:induction false} GroupLoaded(text: string, num: Reader)
    requires Lines(text).Some?
    ensures forall i :: 0 <= i < |Load(text, GroupParser(num))| ==> GroupAsRead(Load(text, GroupParser(num))[i], num)
  {
    forall i | 0 <= i < |Load(text, GroupParser(num))|
      ensures GroupAsRead(Load(text, GroupParser(num))[i], num)
    {
      LinesArePlain(text, i);
    }
  }

  lemma {:induction false} SgrpLoaded(text: string)
    requires Lines(text).Some?
    ensures forall i :: 0 <= i < |Load(text, ParseSgrp)| ==> SgrpAsRead(Load(text, ParseSgrp)[i])
  {
    forall i | 0 <= i < |Load(text, ParseSgrp)|
      ensures SgrpAsRead(Load(text, ParseSgrp)[i])
    {
      LinesArePlain(text, i);
    }
  }

  /** Marked entries come back from their printed line, the others are as they were. */
  function SgrpBack(it: SgrpItem): SgrpItem {
    if it.changed && it.rec.Some? then Item(Some(SgrpLine(it.rec.value)), Some(SgrpAgain(it.rec.value)), false)
    else it
  }

  lemma {:induction false} SgrpReread(s: seq<SgrpItem>)
    requires Serialize(s, PutSgrp).Some?
    requires forall i :: 0 <= i < |s| ==> SgrpHeld(s[i])
    ensures Lines(Serialize(s, PutSgrp).value).Some?
    ensures var u := Load(Serialize(s, PutSgrp).value, ParseSgrp);
            |u| == |s| && forall i :: 0 <= i < |s| ==> u[i] == SgrpBack(s[i])
  {
    SerializeEach(s, PutSgrp);
    forall i | 0 <= i < |s|
      ensures OneLine(s[i], PutSgrp, SgrpLine) && Loaded(WrittenLine(s[i], SgrpLine), ParseSgrp) == SgrpBack(s[i])
    {
      assert Text(s[i], PutSgrp).Some?;
      if s[i].changed {
        SgrpReadsBack(s[i].rec.value);
      }
    }
    CommitThenLoad(s, PutSgrp, SgrpLine, ParseSgrp);
  }
}
