/**
 The lines of `/etc/subuid` and `/etc/subgid`: `subordinate_put` and
 `subordinate_parse` of lib/subordinateio.c, and which entries survive being
 written and read again.
 */
module SubidText {
  import opened Words
  import opened Wrappers
  import opened CommonIO
  import opened Fields
  import opened SubidRanges

  const LINE_MAX: nat := 1024

  function Line(r: Range): string {
    JoinBy([r.owner, Decimal(r.start), Decimal(r.count)], ':')
  }

  /** `subordinate_put`. */
  function Put(r: Range): Option<string> {
    Some(Line(r) + "\n")
  }

  /** `subordinate_parse`. */
  function ParseRange(line: string, num: Reader): Option<Range> {
    var fs := FieldsOf(line, ':');
    if |line| >= LINE_MAX || |fs| != 3 || fs[0] == "" || fs[1] == "" || fs[2] == "" then None
    else
      var start, count := num(fs[1]), num(fs[2]);
      if start.None? || start.value >= ID_SPACE || count.None? || count.value > ID_SPACE - start.value ||
         count.value >= ID_SPACE
      then None else Some(Range(fs[0], start.value, count.value))
  }

  function Parser(num: Reader): string -> Option<Range> {
    line => ParseRange(line, num)
  }

  /** A user name that the file format can hold. */
  predicate GoodOwner(owner: string) {
    owner != "" && ':' !in owner && '\n' !in owner && !NameIsNis(owner)
  }

  /** The entry is read back as it was written. */
  predicate ReadsBack(r: Range) {
    GoodOwner(r.owner) && |Line(r)| < LINE_MAX && Parses(r)
  }

  lemma {:induction false} DecimalPlain(n: nat)
    ensures ':' !in Decimal(n) && '\n' !in Decimal(n)
  {
  }

  lemma {:induction false} LineIs(r: Range)
    ensures Line(r) == r.owner + ([':'] + (Decimal(r.start) + ([':'] + Decimal(r.count))))
    ensures '\n' !in r.owner ==> '\n' !in Line(r)
  {
    DecimalPlain(r.start);
    DecimalPlain(r.count);
    var a, b, c := r.owner, Decimal(r.start), Decimal(r.count);
    assert [a, b, c][1..] == [b, c] && [b, c][1..] == [c];
    assert JoinBy([b, c], ':') == b + ([':'] + JoinBy([c], ':'));
    assert '\n' !in [':'] + c && '\n' !in b + ([':'] + c) && '\n' !in [':'] + (b + ([':'] + c));
  }

  /** A range is printed as "owner:start:count". */
  lemma {:induction false} PutExactly(r: Range)
    ensures Put(r) == Some(r.owner + ":" + Decimal(r.start) + ":" + Decimal(r.count) + "\n")
  {
    LineIs(r);
    var a, b, c := r.owner, Decimal(r.start), Decimal(r.count);
    assert a + ([':'] + (b + ([':'] + c))) == a + ":" + b + ":" + c;
  }

  /** A line is read exactly if it is shorter than 1024 characters, has three fields,
      none empty, and two numbers that start and end a range below 2^32. */
  lemma {:induction false} ParseExactly(a: string, b: string, c: string, num: Reader)
    requires ':' !in a && ':' !in b && ':' !in c
    ensures ParseRange(a + ":" + b + ":" + c, num) ==
              if |a| + |b| + |c| + 2 < 1024 && a != "" && b != "" && c != "" && num(b).Some? && num(c).Some?
                 && num(b).value < 0x1_0000_0000 && num(c).value < 0x1_0000_0000
                 && num(b).value + num(c).value <= 0x1_0000_0000
              then Some(Range(a, num(b).value, num(c).value)) else None
  {
    ThreeFields(a, b, c);
    assert a + ":" + b + ":" + c == a + ([':'] + (b + ([':'] + c)));
    SplitJoined([a, b, c], ':');
  }

  /** Any other number of fields is refused. */
  lemma {:induction false} ParseNeedsThree(line: string, num: Reader)
    ensures Occurs(line, ':') != 2 ==> ParseRange(line, num) == None
  {
    SplitCounts(line, ':');
  }

  lemma {:induction false} LineFields(r: Range)
    ensures ':' !in r.owner ==> FieldsOf(Line(r), ':') == [r.owner, Decimal(r.start), Decimal(r.count)]
    ensures ':' in r.owner ==> |FieldsOf(Line(r), ':')| > 3
  {
    var b, c := Decimal(r.start), Decimal(r.count);
    DecimalPlain(r.start);
    DecimalPlain(r.count);
    if ':' !in r.owner {
      SplitJoined([r.owner, b, c], ':');
    } else {
      LineIs(r);
      SplitCounts(Line(r), ':');
      OccursConcat(r.owner, [':'] + (b + ([':'] + c)), ':');
      OccursConcat([':'], b + ([':'] + c), ':');
      OccursConcat(b, [':'] + c, ':');
      OccursConcat([':'], c, ':');
    }
  }

  /** Written on one line, an entry is read back exactly when `ReadsBack` says so, and
      otherwise as a line without a record. */
  lemma {:induction false} PrintThenParse(r: Range, num: Reader)
    requires ReadsDecimals(num)
    ensures '\n' !in r.owner ==> Loaded(Line(r), Parser(num)).rec == if ReadsBack(r) then Some(r) else None
    ensures LineIsNis(Loaded(Line(r), Parser(num))) <==> NameIsNis(r.owner)
  {
    LineIs(r);
    LineFields(r);
    assert r.owner != "" ==> Line(r)[0] == r.owner[0];
    assert num(Decimal(r.start)) == Some(r.start as nat) && num(Decimal(r.count)) == Some(r.count as nat);
  }

  /** Whatever was read names an owner that the format can hold and numbers in bounds. */
  lemma {:induction false} ParsedIsGood(line: string, num: Reader)
    requires '\n' !in line && Loaded(line, Parser(num)).rec.Some?
    ensures var r := Loaded(line, Parser(num)).rec.value; GoodOwner(r.owner) && Parses(r) && |r.owner| < LINE_MAX
  {
    var o := FieldsOf(line, ':')[0];
    FirstField(line, ':');
    if ':' in o {
      SplitParts(line, ':', 0, ':');
    }
    if '\n' in o {
      SplitParts(line, ':', 0, '\n');
    }
    assert o[0] == line[0];
  }

  /** An owner short enough for any two 32-bit numbers. */
  predicate ShortOwner(owner: string) {
    |owner| + 22 < LINE_MAX
  }

  lemma {:induction false} ShortReadsBack(r: Range)
    requires GoodOwner(r.owner) && ShortOwner(r.owner) && Parses(r)
    ensures ReadsBack(r)
  {
    LineIs(r);
    DecimalShort(r.start);
    DecimalShort(r.count);
  }
}
