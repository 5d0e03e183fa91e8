/**
 What comes back of a list of members that is printed in pieces of at most `max`
 names, each of which is read without an empty last name, and united again.
 */
module GroupPieces {
  import Bits
  import opened GroupSplit
  import opened GroupText

  /** The members of a group whose list was printed in pieces: each piece loses an
      empty last name, and the pieces are united. */
  function Again(ms: seq<string>, max: nat): seq<string> {
    if max == 0 || |ms| <= max then Trim(ms) else AgainAfter(Trim(ms[..max]), ms[max..], max)
  }

  function AgainAfter(before: seq<string>, ms: seq<string>, max: nat): seq<string>
    requires max > 0
    decreases |ms|
  {
    if |ms| <= max then Union(before, Trim(ms))
    else AgainAfter(Union(before, Trim(ms[..max])), ms[max..], max)
  }

  // ----- when all members come back -----

  /** A piece of a list of `n` names ends in front of position `i`. */
  predicate EndsPiece(i: int, n: nat, max: nat) {
    0 < i <= n && (i == n || (max > 0 && i % max == 0))
  }

  /** No piece of the printed list ends with an empty name. */
  ghost predicate KeepsNames(ms: seq<string>, max: nat) {
    forall i :: EndsPiece(i, |ms|, max) ==> ms[i - 1] != ""
  }

  lemma {:induction false} FirstPiece(i: int, n: nat, max: nat)
    requires 0 < i <= n && (max == 0 || i <= max)
    ensures EndsPiece(i, n, max) <==> i == n || i == max
  {
    if max > 0 {
      Bits.DivUnique(i, max, if i == max then 1 else 0, if i == max then 0 else i);
    }
  }

  lemma {:induction false} LaterPiece(i: int, n: nat, max: nat)
    requires 0 < max < i <= n
    ensures EndsPiece(i, n, max) <==> EndsPiece(i - max, n - max, max)
  {
    var q, r := i / max, i % max;
    Bits.DivMod(i, max);
    assert max * (q - 1) == max * q - max;
    Bits.DivUnique(i - max, max, q - 1, r);
  }

  lemma {:induction false} KeepsNamesAfter(ms: seq<string>, max: nat)
    requires 0 < max < |ms|
    ensures KeepsNames(ms, max) <==> ms[max - 1] != "" && KeepsNames(ms[max..], max)
  {
    var rest := ms[max..];
    FirstPiece(max, |ms|, max);
    if KeepsNames(ms, max) {
      forall i | EndsPiece(i, |rest|, max)
        ensures rest[i - 1] != ""
      {
        LaterPiece(i + max, |ms|, max);
      }
    }
    if ms[max - 1] != "" && KeepsNames(rest, max) {
      forall i | EndsPiece(i, |ms|, max)
        ensures ms[i - 1] != ""
      {
        if i > max {
          LaterPiece(i, |ms|, max);
          assert rest[i - max - 1] != "";
        } else {
          FirstPiece(i, |ms|, max);
        }
      }
    }
  }

  lemma {:induction false} KeepsNamesShort(ms: seq<string>, max: nat)
    requires max == 0 || |ms| <= max
    ensures KeepsNames(ms, max) <==> Trimmed(ms)
  {
    forall i | 0 < i <= |ms|
      ensures EndsPiece(i, |ms|, max) <==> i == |ms|
    {
      FirstPiece(i, |ms|, max);
    }
    assert ms != [] ==> EndsPiece(|ms|, |ms|, max);
  }

  lemma {:induction false} UnionNotLarger(a: seq<string>, b: seq<string>)
    ensures |Union(a, b)| <= |a| + |b|
    decreases |b|
  {
    if b != [] {
      UnionNotLarger(if b[0] in a then a else a + [b[0]], b[1..]);
    }
  }

  lemma {:induction false} AgainAfterSize(before: seq<string>, ms: seq<string>, max: nat)
    requires max > 0
    ensures |AgainAfter(before, ms, max)| <= |before| + |ms|
    ensures |AgainAfter(before, ms, max)| == |before| + |ms| ==> KeepsNames(ms, max)
    decreases |ms|
  {
    if |ms| <= max {
      KeepsNamesShort(ms, max);
      UnionNotLarger(before, Trim(ms));
    } else {
      KeepsNamesAfter(ms, max);
      UnionNotLarger(before, Trim(ms[..max]));
      AgainAfterSize(Union(before, Trim(ms[..max])), ms[max..], max);
    }
  }

  lemma {:induction false} AgainAfterAll(before: seq<string>, ms: seq<string>, max: nat)
    requires max > 0 && NoDup(before + ms) && KeepsNames(ms, max)
    ensures AgainAfter(before, ms, max) == before + ms
    decreases |ms|
  {
    if |ms| <= max {
      KeepsNamesShort(ms, max);
      UnionOfDistinct(before, ms);
    } else {
      var a, b := ms[..max], ms[max..];
      KeepsNamesAfter(ms, max);
      assert before + a == (before + ms)[..|before| + max] && (before + a) + b == before + ms;
      UnionOfDistinct(before, a);
      AgainAfterAll(before + a, b, max);
    }
  }

  /** No list grows, and one that stays as long keeps its names. */
  lemma {:induction false} AgainSize(ms: seq<string>, max: nat)
    ensures |Again(ms, max)| <= |ms|
    ensures |Again(ms, max)| == |ms| ==> KeepsNames(ms, max)
  {
    if max == 0 || |ms| <= max {
      KeepsNamesShort(ms, max);
    } else {
      KeepsNamesAfter(ms, max);
      AgainAfterSize(Trim(ms[..max]), ms[max..], max);
    }
  }

  /** A list comes back as it was if and only if no piece of it ends with an empty
      name; one that is split must not repeat a name. */
  lemma {:induction false} AgainIff(ms: seq<string>, max: nat)
    requires 0 < max < |ms| ==> NoDup(ms)
    ensures Again(ms, max) == ms <==> KeepsNames(ms, max)
    ensures forall m :: m in Again(ms, max) ==> m in ms
  {
    AgainAmong(ms, max);
    AgainSize(ms, max);
    if max == 0 || |ms| <= max {
      KeepsNamesShort(ms, max);
    } else if KeepsNames(ms, max) {
      var a, b := ms[..max], ms[max..];
      KeepsNamesAfter(ms, max);
      assert a + b == ms;
      AgainAfterAll(a, b, max);
    }
  }

  lemma {:induction false} AgainAfterAmong(before: seq<string>, ms: seq<string>, max: nat)
    requires max > 0
    ensures forall m :: m in AgainAfter(before, ms, max) ==> m in before || m in ms
    decreases |ms|
  {
    forall m | m in AgainAfter(before, ms, max)
      ensures m in before || m in ms
    {
      if |ms| <= max {
        UnionHolds(before, Trim(ms), m);
      } else {
        AgainAfterAmong(Union(before, Trim(ms[..max])), ms[max..], max);
        UnionHolds(before, Trim(ms[..max]), m);
      }
    }
  }

  /** No name comes back that was not there. */
  lemma {:induction false} AgainAmong(ms: seq<string>, max: nat)
    ensures forall m :: m in Again(ms, max) ==> m in ms
  {
    if max > 0 && |ms| > max {
      AgainAfterAmong(Trim(ms[..max]), ms[max..], max);
    }
  }

  /** The exception occurs: three members split after the second, which is empty. */
  lemma {:induction false} SplitLosesEmptyName()
    ensures !KeepsNames(["a", "", "b"], 2) && Again(["a", "", "b"], 2) == ["a", "b"]
  {
    var ms := ["a", "", "b"];
    assert EndsPiece(2, |ms|, 2) && ms[2 - 1] == "";
    assert ms[..2] == ["a", ""] && ms[2..] == ["b"];
    assert Trim(ms[..2]) == ["a"] && Trim(ms[2..]) == ["b"];
    assert ["b"][1..] == [] && "b" !in ["a"];
    assert Union(["a"], ["b"]) == Union(["a"] + ["b"], []) == ["a", "b"];
  }
}
