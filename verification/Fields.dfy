/**
 The text of one line of an account file: fields between delimiters, as
 lib/string/strtok/ splits them, and numbers as `printf` writes them. How a number
 is read is left to libc; all that is used is that it reads back what was printed.
 */
module Fields {
  import opened Words
  import opened Wrappers

  // ----- fields -----

  /** `strsep` until the string is used up: at least one field. */
  function FieldsOf(s: string, c: char): (fs: seq<string>)
    ensures |fs| >= 1
  {
    if s == "" then [""] else Before(s[0], c, FieldsOf(s[1..], c))
  }

  /** The fields with one more character in front. */
  function Before(x: char, c: char, fs: seq<string>): (r: seq<string>)
    requires fs != []
    ensures r != []
  {
    if x == c then [""] + fs else [[x] + fs[0]] + fs[1..]
  }

  lemma {:induction false} BeforeConcat(x: char, c: char, u: seq<string>, v: seq<string>)
    requires u != []
    ensures Before(x, c, u + v) == Before(x, c, u) + v
  {
    assert (u + v)[0] == u[0] && (u + v)[1..] == u[1..] + v;
  }

  function JoinBy(fs: seq<string>, c: char): string {
    if fs == [] then "" else if |fs| == 1 then fs[0] else fs[0] + ([c] + JoinBy(fs[1..], c))
  }

  lemma {:induction false} SplitPlain(a: string, c: char)
    requires c !in a
    ensures FieldsOf(a, c) == [a]
  {
    if a != "" {
      SplitPlain(a[1..], c);
      assert a == [a[0]] + a[1..];
    }
  }

  /** Two strings with the delimiter between them have the fields of both. */
  lemma {:induction false} SplitTwo(a: string, s: string, c: char)
    ensures FieldsOf(a + ([c] + s), c) == FieldsOf(a, c) + FieldsOf(s, c)
  {
    var t := a + ([c] + s);
    if a == "" {
      assert t == [c] + s && t[1..] == s;
    } else {
      SplitTwo(a[1..], s, c);
      assert t[1..] == a[1..] + ([c] + s) && t[0] == a[0];
      BeforeConcat(a[0], c, FieldsOf(a[1..], c), FieldsOf(s, c));
    }
  }

  /** Fields without the delimiter, joined, are split into the same fields. */
  lemma {:induction false} SplitJoined(fs: seq<string>, c: char)
    requires fs != [] && forall i :: 0 <= i < |fs| ==> c !in fs[i]
    ensures FieldsOf(JoinBy(fs, c), c) == fs
  {
    SplitPlain(fs[0], c);
    if |fs| > 1 {
      assert forall i :: 0 <= i < |fs[1..]| ==> fs[1..][i] == fs[i + 1];
      SplitJoined(fs[1..], c);
      SplitTwo(fs[0], JoinBy(fs[1..], c), c);
      assert fs == [fs[0]] + fs[1..];
    }
  }

  lemma {:induction false} JoinBefore(x: char, c: char, fs: seq<string>)
    requires fs != []
    ensures JoinBy(Before(x, c, fs), c) == [x] + JoinBy(fs, c)
  {
    if x == c {
      assert ([""] + fs)[1..] == fs;
    } else if |fs| > 1 {
      assert ([[x] + fs[0]] + fs[1..])[1..] == fs[1..];
      var rest := [c] + JoinBy(fs[1..], c);
      assert ([x] + fs[0]) + rest == [x] + (fs[0] + rest);
    }
  }

  /** The fields of a string, joined, are the string. */
  lemma {:induction false} JoinedFields(s: string, c: char)
    ensures JoinBy(FieldsOf(s, c), c) == s
  {
    if s != "" {
      JoinedFields(s[1..], c);
      JoinBefore(s[0], c, FieldsOf(s[1..], c));
    }
  }

  lemma {:induction false} FirstField(s: string, c: char)
    ensures |FieldsOf(s, c)[0]| <= |s| && FieldsOf(s, c)[0] == s[..|FieldsOf(s, c)[0]|]
  {
    if s != "" && s[0] != c {
      FirstField(s[1..], c);
    }
  }

  /** The fields hold no delimiter and no character that is not in the string. */
  lemma {:induction false} SplitParts(s: string, c: char, i: nat, x: char)
    requires i < |FieldsOf(s, c)| && x in FieldsOf(s, c)[i]
    ensures x != c && x in s
  {
    if s != "" {
      var rest := FieldsOf(s[1..], c);
      if s[0] == c {
        SplitParts(s[1..], c, i - 1, x);
      } else if i > 0 {
        SplitParts(s[1..], c, i, x);
      } else if x != s[0] {
        assert x in rest[0];
        SplitParts(s[1..], c, 0, x);
      }
    }
  }

  /** A string with a delimiter in its first part has more fields. */
  lemma {:induction false} SplitCounts(s: string, c: char)
    ensures |FieldsOf(s, c)| == 1 + Occurs(s, c)
  {
    if s != "" {
      SplitCounts(s[1..], c);
    }
  }

  function Occurs(s: string, c: char): nat {
    if s == "" then 0 else (if s[0] == c then 1 else 0) + Occurs(s[1..], c)
  }

  lemma {:induction false} OccursConcat(a: string, b: string, c: char)
    ensures Occurs(a + b, c) == Occurs(a, c) + Occurs(b, c)
    ensures Occurs(a, c) > 0 <==> c in a
  {
    if a == "" {
      assert a + b == b;
    } else {
      assert (a + b)[1..] == a[1..] + b;
      OccursConcat(a[1..], b, c);
    }
  }

  lemma {:induction false} ThreeFields(a: string, b: string, c: string)
    ensures JoinBy([a, b, c], ':') == a + ([':'] + (b + ([':'] + c)))
  {
    assert [a, b, c][1..] == [b, c] && [b, c][1..] == [c];
    assert JoinBy([b, c], ':') == b + ([':'] + JoinBy([c], ':'));
  }

  lemma {:induction false} FourFields(a: string, b: string, c: string, d: string)
    ensures JoinBy([a, b, c, d], ':') == a + ([':'] + (b + ([':'] + (c + ([':'] + d)))))
  {
    assert [a, b, c, d][1..] == [b, c, d] && [b, c, d][1..] == [c, d] && [c, d][1..] == [d];
    assert JoinBy([c, d], ':') == c + ([':'] + JoinBy([d], ':'));
    assert JoinBy([b, c, d], ':') == b + ([':'] + JoinBy([c, d], ':'));
  }

  // ----- numbers -----

  function Digit(d: nat): (c: char)
    requires d < 10
    ensures '0' <= c <= '9'
  {
    ('0' as int + d) as char
  }

  /** `%lu`. */
  function Decimal(n: nat): (s: string)
    ensures s != "" && forall c :: c in s ==> '0' <= c <= '9'
  {
    if n < 10 then [Digit(n)] else Decimal(n / 10) + [Digit(n % 10)]
  }

  function Pow10(k: nat): (p: nat)
    ensures p > 0
  {
    if k == 0 then 1 else 10 * Pow10(k - 1)
  }

  lemma {:induction false} DecimalLength(n: nat, k: nat)
    requires k > 0 && n < Pow10(k)
    ensures |Decimal(n)| <= k
  {
    if n >= 10 {
      assert Pow10(1) == 10 * Pow10(0) == 10;
      assert k > 1;
      DecimalLength(n / 10, k - 1);
    }
  }

  /** No number but 0 starts with 0, and reading the digits gives it back. */
  lemma {:induction false} DecimalExactly(n: nat)
    ensures ReadDigits(Decimal(n)) == Some(n)
    ensures Decimal(n)[0] == '0' <==> n == 0
    ensures n < 10 <==> |Decimal(n)| == 1
  {
    DigitsRead(n);
    DecimalStart(n);
  }

  lemma {:induction false} DecimalStart(n: nat)
    ensures Decimal(n)[0] == '0' <==> n == 0
    ensures n < 10 <==> |Decimal(n)| == 1
  {
    if n >= 10 {
      DecimalStart(n / 10);
    }
  }

  /** A 32-bit number has at most ten digits. */
  lemma {:induction false} DecimalShort(n: id_t)
    ensures |Decimal(n)| <= 10
  {
    assert Pow10(10) == 10_000_000_000 by {
      assert Pow10(2) == 100;
      assert Pow10(4) == 10_000;
      assert Pow10(6) == 1_000_000;
      assert Pow10(8) == 100_000_000;
    }
    DecimalLength(n, 10);
  }

  /** How libc reads a number; `None` when it refuses the text. */
  type Reader = string -> Option<nat>

  ghost predicate ReadsDecimals(num: Reader) {
    forall n: ulong :: num(Decimal(n)) == Some(n as nat)
  }

  /** A reader of plain digits: what is asked of a reader can be met. */
  function ReadDigits(s: string): Option<nat> {
    if s == "" then None
    else
      var c := s[|s| - 1];
      if !('0' <= c <= '9') then None
      else if |s| == 1 then Some(c as int - '0' as int)
      else
        var rest := ReadDigits(s[..|s| - 1]);
        if rest.None? then None else Some(10 * rest.value + (c as int - '0' as int))
  }

  lemma {:induction false} DigitsRead(n: nat)
    ensures ReadDigits(Decimal(n)) == Some(n)
  {
    if n >= 10 {
      DigitsRead(n / 10);
      var s := Decimal(n);
      assert s[..|s| - 1] == Decimal(n / 10) && s[|s| - 1] == Digit(n % 10);
    }
  }

  lemma {:induction false} ReaderExists()
    ensures ReadsDecimals(ReadDigits)
  {
    forall n: ulong
      ensures ReadDigits(Decimal(n)) == Some(n as nat)
    {
      DigitsRead(n);
    }
  }
}
