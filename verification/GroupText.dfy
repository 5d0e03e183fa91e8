/**
 The lines of `/etc/group` and `/etc/gshadow`: `group_put`, `gshadow_put`,
 `sgetgrent` and `sgetsgent`. What is printed is read back but for one empty name at
 the end of a list.
 */
module GroupText {
  import opened Words
  import opened Wrappers
  import opened CommonIO
  import opened Fields
  import opened GroupSplit
  import opened Grpconv

  // ----- lists of names -----

  /** `list` and `build_list` drop an empty last name. */
  function Trim(ms: seq<string>): (r: seq<string>)
    ensures forall m :: m in r ==> m in ms
  {
    if ms != [] && ms[|ms| - 1] == "" then ms[..|ms| - 1] else ms
  }

  function NameList(field: string): seq<string> {
    Trim(FieldsOf(field, ','))
  }

  predicate Trimmed(ms: seq<string>) {
    ms == [] || ms[|ms| - 1] != ""
  }

  lemma {:induction false} ListReadsBack(ms: seq<string>)
    requires forall m :: m in ms ==> ',' !in m
    ensures NameList(JoinBy(ms, ',')) == Trim(ms)
    ensures Trim(ms) == ms <==> Trimmed(ms)
  {
    if ms != [] {
      SplitJoined(ms, ',');
    }
  }

  // ----- valid_field -----

  predicate IsControl(c: char) {
    1 <= c as int <= 31 || c as int == 127
  }

  /** `valid_field` does not refuse the field. */
  predicate ValidField(field: string, illegal: string) {
    forall c :: c in field ==> c !in illegal && !IsControl(c)
  }

  predicate ValidNames(ms: seq<string>) {
    forall m :: m in ms ==> ValidField(m, ",:\n")
  }

  lemma {:induction false} JoinedNames(ms: seq<string>, c: char)
    requires (forall m :: m in ms ==> c !in m) && c != ','
    ensures c !in JoinBy(ms, ',')
  {
    if |ms| > 1 {
      JoinedNames(ms[1..], c);
    }
  }

  // ----- group -----

  /** `sgetgrent`. */
  function ParseGroup(line: string, num: Reader): Option<GroupRec> {
    var fs := FieldsOf(line, ':');
    if |fs| != 4 || fs[2] == "" then None
    else
      var gid := num(fs[2]);
      if gid.None? || gid.value >= ID_SPACE then None
      else Some(GroupRec(fs[0], fs[1], gid.value, NameList(fs[3])))
  }

  function GroupParser(num: Reader): string -> Option<GroupRec> {
    line => ParseGroup(line, num)
  }

  /** What libc's `putgrent` writes for a name that is not an NIS one. */
  function GroupLine(r: GroupRec): string {
    JoinBy([r.name, r.passwd, Decimal(r.gid), JoinBy(r.members, ',')], ':')
  }

  predicate GroupPrintable(r: GroupRec) {
    ValidField(r.name, ":\n") && ValidField(r.passwd, ":\n") && r.gid != ID_SPACE - 1 && ValidNames(r.members)
  }

  /** `group_put`. */
  function PutGroup(r: GroupRec): Option<string> {
    if GroupPrintable(r) then Some(GroupLine(r) + "\n") else None
  }

  /** The entry that a printed record is when it is read again. */
  function GroupAgain(r: GroupRec): GroupRec {
    r.(members := Trim(r.members))
  }

  lemma {:induction false} FirstCharacter(fs: seq<string>, c: char)
    requires |fs| > 1 && !NameIsNis(fs[0]) && c != '+' && c != '-'
    ensures !NameIsNis(JoinBy(fs, c))
  {
  }

  lemma {:induction false} NoNewline(fs: seq<string>)
    requires forall f :: f in fs ==> '\n' !in f
    ensures '\n' !in JoinBy(fs, ':')
  {
    if |fs| > 1 {
      NoNewline(fs[1..]);
    }
  }

  /** A printed group is one line, and is read back but for an empty last member. */
  lemma {:induction false} GroupReadsBack(r: GroupRec, num: Reader)
    requires ReadsDecimals(num) && GroupPrintable(r) && !NameIsNis(r.name)
    ensures '\n' !in GroupLine(r)
    ensures Loaded(GroupLine(r), GroupParser(num)) == Item(Some(GroupLine(r)), Some(GroupAgain(r)), false)
  {
    var fs := [r.name, r.passwd, Decimal(r.gid), JoinBy(r.members, ',')];
    JoinedNames(r.members, ':');
    JoinedNames(r.members, '\n');
    forall i | 0 <= i < |fs|
      ensures ':' !in fs[i] && '\n' !in fs[i]
    {
      assert i == 2 ==> forall c :: c in fs[i] ==> '0' <= c <= '9';
    }
    SplitJoined(fs, ':');
    NoNewline(fs);
    FirstCharacter(fs, ':');
    ListReadsBack(r.members);
    assert num(Decimal(r.gid)) == Some(r.gid as nat);
  }

  /** Whatever was read has a name that is not an NIS one. */
  lemma {:induction false} ReadName(line: string, c: char)
    requires !NameIsNis(line) && c != '+' && c != '-'
    ensures !NameIsNis(FieldsOf(line, c)[0])
  {
  }

  /** A group is printed as "name:passwd:gid:member,member", and refused exactly if a
      field holds a colon, a list separator or a control character, or the GID is -1. */
  lemma {:induction false} PutExactly(r: GroupRec)
    ensures PutGroup(r).Some? <==>
              && PlainField(r.name, {':'}) && PlainField(r.passwd, {':'}) && r.gid != 0xFFFF_FFFF
              && forall m :: m in r.members ==> PlainField(m, {':', ','})
    ensures PutGroup(r).Some? ==>
              PutGroup(r).value == r.name + ":" + r.passwd + ":" + Decimal(r.gid) + ":" + JoinBy(r.members, ',') + "\n"
  {
    var a, b, c, d := r.name, r.passwd, Decimal(r.gid), JoinBy(r.members, ',');
    FourFields(a, b, c, d);
    assert a + ([':'] + (b + ([':'] + (c + ([':'] + d))))) == a + ":" + b + ":" + c + ":" + d;
    FieldIsPlain(a);
    FieldIsPlain(b);
    forall m
      ensures ValidField(m, ",:\n") <==> PlainField(m, {':', ','})
    {
      FieldIsPlain(m);
    }
  }

  /** No control character and none of those. */
  predicate PlainField(field: string, bad: set<char>) {
    forall c :: c in field ==> c !in bad && !(1 <= c as int < 32) && c as int != 127
  }

  lemma {:induction false} FieldIsPlain(f: string)
    ensures ValidField(f, ":\n") <==> PlainField(f, {':'})
    ensures ValidField(f, ",:\n") <==> PlainField(f, {':', ','})
  {
    assert ":\n"[0] == ':' && ":\n"[1] == '\n';
    assert ",:\n"[0] == ',' && ",:\n"[1] == ':' && ",:\n"[2] == '\n';
    assert '\n' as int == 10;
  }

  /** The members are the parts between the commas, without the last one if it is empty. */
  ghost predicate IsNameList(field: string, ms: seq<string>) {
    exists fs: seq<string> ::
      && fs != [] && JoinBy(fs, ',') == field && (forall i :: 0 <= i < |fs| ==> ',' !in fs[i])
      && ms == if fs[|fs| - 1] == "" then fs[..|fs| - 1] else fs
  }

  lemma {:induction false} NameListExactly(field: string)
    ensures IsNameList(field, NameList(field))
  {
    var fs := FieldsOf(field, ',');
    JoinedFields(field, ',');
    forall i | 0 <= i < |fs|
      ensures ',' !in fs[i]
    {
      if ',' in fs[i] {
        SplitParts(field, ',', i, ',');
      }
    }
  }

  /** A group line is read exactly if it has four fields and its third is a 32-bit number. */
  lemma {:induction false} ParseExactly(a: string, b: string, c: string, d: string, num: Reader)
    requires ':' !in a && ':' !in b && ':' !in c && ':' !in d
    ensures var r := ParseGroup(a + ":" + b + ":" + c + ":" + d, num);
            && (r.Some? <==> c != "" && num(c).Some? && num(c).value < 0x1_0000_0000)
            && (r.Some? ==> r.value.name == a && r.value.passwd == b && r.value.gid == num(c).value
                            && IsNameList(d, r.value.members))
  {
    FourFields(a, b, c, d);
    assert a + ":" + b + ":" + c + ":" + d == a + ([':'] + (b + ([':'] + (c + ([':'] + d)))));
    SplitJoined([a, b, c, d], ':');
    NameListExactly(d);
  }

  lemma {:induction false} ParseNeedsFour(line: string, num: Reader)
    ensures Occurs(line, ':') != 3 ==> ParseGroup(line, num) == None && ParseSgrp(line) == None
  {
    SplitCounts(line, ':');
  }

  // ----- gshadow -----

  /** `sgetsgent`. */
  function ParseSgrp(line: string): Option<Sgrp> {
    var fs := FieldsOf(line, ':');
    if |fs| != 4 then None else Some(Sgrp(fs[0], fs[1], NameList(fs[2]), NameList(fs[3])))
  }

  /** `putsgent`. */
  function SgrpLine(r: Sgrp): string {
    JoinBy([r.name, r.passwd, JoinBy(r.adm, ','), JoinBy(r.mem, ',')], ':')
  }

  predicate SgrpPrintable(r: Sgrp) {
    ValidField(r.name, ":\n") && ValidField(r.passwd, ":\n") && ValidNames(r.adm) && ValidNames(r.mem)
  }

  /** `gshadow_put`. */
  function PutSgrp(r: Sgrp): Option<string> {
    if SgrpPrintable(r) then Some(SgrpLine(r) + "\n") else None
  }

  function SgrpAgain(r: Sgrp): Sgrp {
    r.(adm := Trim(r.adm), mem := Trim(r.mem))
  }

  lemma {:induction false} SgrpReadsBack(r: Sgrp)
    requires SgrpPrintable(r) && !NameIsNis(r.name)
    ensures '\n' !in SgrpLine(r)
    ensures Loaded(SgrpLine(r), ParseSgrp) == Item(Some(SgrpLine(r)), Some(SgrpAgain(r)), false)
  {
    var fs := [r.name, r.passwd, JoinBy(r.adm, ','), JoinBy(r.mem, ',')];
    JoinedNames(r.adm, ':');
    JoinedNames(r.adm, '\n');
    JoinedNames(r.mem, ':');
    JoinedNames(r.mem, '\n');
    SplitJoined(fs, ':');
    NoNewline(fs);
    FirstCharacter(fs, ':');
    ListReadsBack(r.adm);
    ListReadsBack(r.mem);
  }

  /** A gshadow entry is printed as "name:passwd:adm,adm:mem,mem". */
  lemma {:induction false} PutSgrpExactly(r: Sgrp)
    ensures PutSgrp(r).Some? <==>
              && PlainField(r.name, {':'}) && PlainField(r.passwd, {':'})
              && (forall m :: m in r.adm ==> PlainField(m, {':', ','}))
              && (forall m :: m in r.mem ==> PlainField(m, {':', ','}))
    ensures PutSgrp(r).Some? ==>
              PutSgrp(r).value == r.name + ":" + r.passwd + ":" + JoinBy(r.adm, ',') + ":" + JoinBy(r.mem, ',') + "\n"
  {
    var a, b, c, d := r.name, r.passwd, JoinBy(r.adm, ','), JoinBy(r.mem, ',');
    FourFields(a, b, c, d);
    assert a + ([':'] + (b + ([':'] + (c + ([':'] + d))))) == a + ":" + b + ":" + c + ":" + d;
    FieldIsPlain(a);
    FieldIsPlain(b);
    forall m
      ensures ValidField(m, ",:\n") <==> PlainField(m, {':', ','})
    {
      FieldIsPlain(m);
    }
  }

  /** Every line of four fields is a gshadow entry. */
  lemma {:induction false} ParseSgrpExactly(a: string, b: string, c: string, d: string)
    requires ':' !in a && ':' !in b && ':' !in c && ':' !in d
    ensures var r := ParseSgrp(a + ":" + b + ":" + c + ":" + d);
            && r.Some? && r.value.name == a && r.value.passwd == b
            && IsNameList(c, r.value.adm) && IsNameList(d, r.value.mem)
  {
    FourFields(a, b, c, d);
    assert a + ":" + b + ":" + c + ":" + d == a + ([':'] + (b + ([':'] + (c + ([':'] + d)))));
    SplitJoined([a, b, c, d], ':');
    NameListExactly(c);
    NameListExactly(d);
  }
}
