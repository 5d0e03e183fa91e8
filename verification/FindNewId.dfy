/**
 The search for a free user or group ID in lib/find_new_uid.c and
 lib/find_new_gid.c, which run the same algorithm on passwd and group entries.
 */
module FindNewId {
  import opened Words
  import opened Wrappers

  function Narrow(x: int): id_t {
    x % 0x1_0000_0000
  }

  /** The limits of login.defs; an absent one takes the default of the code. */
  datatype Limits = Limits(min: Option<ulong>, max: Option<ulong>, sysMin: Option<ulong>, sysMax: Option<ulong>)

  function GetOr(o: Option<ulong>, default: ulong): ulong {
    match o
    case Some(v) => v
    case None => default
  }

  datatype Window = Window(min: id_t, max: id_t, preferredMin: id_t)

  /** `get_ranges`: the window to search and the lowest ID that may be asked for. */
  function GetRanges(system: bool, l: Limits): Option<Window> {
    if system then
      var min := Narrow(GetOr(l.sysMin, 101));
      var defMax := Narrow(GetOr(l.min, 1000) - 1);
      var max := Narrow(GetOr(l.sysMax, defMax));
      if max < min then None else Some(Window(if min == 0 then 1 else min, max, 1))
    else
      var min := Narrow(GetOr(l.min, 1000));
      var max := Narrow(GetOr(l.max, 60000));
      if max < min then None else Some(Window(min, max, min))
  }

  /** The values reserved for 16-bit and 32-bit error codes. */
  predicate Reserved(id: int) {
    id == 0xFFFF || id == 0xFFFF_FFFF
  }

  /** In range, not reserved, used neither locally nor according to NSS. */
  predicate Eligible(id: int, min: id_t, max: id_t, local: seq<id_t>, nss: set<id_t>) {
    min <= id <= max && !Reserved(id) && id !in local && id !in nss
  }

  /** `check_uid` returning 0, with the index of used IDs or without it. */
  method CheckId(id: id_t, min: id_t, max: id_t, used: array?<bool>, nss: set<id_t>) returns (ok: bool)
    requires used != null ==> used.Length == max + 1
    ensures ok == (min <= id <= max && !Reserved(id) && id !in nss && (used != null ==> id <= max && !used[id]))
  {
    if id < min || id > max {
      return false;
    }
    if id == 0xFFFF || id == 0xFFFF_FFFF {
      return false;
    }
    if used != null && used[id] {
      return false;
    }
    return id !in nss;
  }

  // ----- the pass over the local database -----

  /** The ID after the highest local one in the window, or `min`. */
  function Above(local: seq<id_t>, min: id_t, max: id_t): int {
    if local == [] then min
    else
      var rest := Above(local[..|local| - 1], min, max);
      var id := local[|local| - 1];
      if id >= rest && id <= max then id + 1 else rest
  }

  /** The ID before the lowest local one in the window, or `max`. */
  function Below(local: seq<id_t>, min: id_t, max: id_t): int {
    if local == [] then max
    else
      var rest := Below(local[..|local| - 1], min, max);
      var id := local[|local| - 1];
      if id <= rest && id >= min then id - 1 else rest
  }

  /** `Above` lies just past every local ID in the window. */
  lemma {:induction false} AboveIsHighest(local: seq<id_t>, min: id_t, max: id_t)
    requires min <= max + 1
    ensures min <= Above(local, min, max) <= max + 1
    ensures forall i :: 0 <= i < |local| && min <= local[i] <= max ==> local[i] < Above(local, min, max)
    ensures Above(local, min, max) != min ==> Above(local, min, max) - 1 in local
  {
    if local != [] {
      var init := local[..|local| - 1];
      AboveIsHighest(init, min, max);
      assert forall i :: 0 <= i < |init| ==> local[i] == init[i];
    }
  }

  lemma {:induction false} BelowIsLowest(local: seq<id_t>, min: id_t, max: id_t)
    requires min <= max + 1
    ensures min - 1 <= Below(local, min, max) <= max
    ensures forall i :: 0 <= i < |local| && min <= local[i] <= max ==> local[i] > Below(local, min, max)
    ensures Below(local, min, max) != max ==> Below(local, min, max) + 1 in local
  {
    if local != [] {
      var init := local[..|local| - 1];
      BelowIsLowest(init, min, max);
      assert forall i :: 0 <= i < |init| ==> local[i] == init[i];
    }
  }

  /** Whether `used` marks exactly the local IDs of the window seen so far. */
  ghost predicate Indexed(used: array<bool>, local: seq<id_t>, min: id_t, max: id_t)
    reads used
  {
    used.Length == max + 1 && forall id :: 0 <= id <= max ==> (used[id] <==> id >= min && id in local)
  }

  /** The `pw_next` loop: the extremes and the index of used IDs. For a window
      that starts at 0 the lowest value may wrap, but is then not used. */
  method ScanLocal(local: seq<id_t>, min: id_t, max: id_t) returns (lowest: id_t, highest: id_t, used: array<bool>)
    requires min <= max + 1 <= 0xFFFF_FFFF
    ensures fresh(used) && Indexed(used, local, min, max)
    ensures highest == Above(local, min, max)
    ensures min > 0 ==> lowest == Below(local, min, max)
  {
    used := new bool[max + 1](i => false);
    highest, lowest := min, max;
    var k := 0;
    while k < |local|
      invariant 0 <= k <= |local|
      invariant Indexed(used, local[..k], min, max)
      invariant highest == Above(local[..k], min, max)
      invariant min > 0 ==> lowest == Below(local[..k], min, max)
    {
      var id := local[k];
      assert local[..k + 1][..k] == local[..k];
      if id <= lowest && id >= min {
        lowest := Narrow(id - 1);
      }
      if id >= highest && id <= max {
        highest := id + 1;
      }
      if id >= min && id <= max {
        used[id] := true;
      }
      k := k + 1;
    }
    assert local[..k] == local;
  }

  // ----- the search loops -----

  /** The first eligible ID from `from` upward. */
  method SearchUp(from: id_t, min: id_t, max: id_t, used: array<bool>, local: seq<id_t>, nss: set<id_t>)
      returns (r: Option<id_t>)
    requires min <= from <= max < 0xFFFF_FFFF && Indexed(used, local, min, max)
    ensures r.Some? ==> from <= r.value && Eligible(r.value, min, max, local, nss)
    ensures forall x: int :: from <= x <= max && (r.Some? ==> x < r.value) ==> !Eligible(x, min, max, local, nss)
  {
    var id: int := from;
    while id <= max
      invariant from <= id <= max + 1
      invariant forall x: int :: from <= x < id ==> !Eligible(x, min, max, local, nss)
    {
      var ok := CheckId(id, min, max, used, nss);
      if ok {
        return Some(id);
      }
      id := id + 1;
    }
    return None;
  }

  /** The first eligible ID from `from` downward. */
  method SearchDown(from: id_t, min: id_t, max: id_t, used: array<bool>, local: seq<id_t>, nss: set<id_t>)
      returns (r: Option<id_t>)
    requires 1 <= min <= max + 1 <= 0xFFFF_FFFF && min - 1 <= from <= max && Indexed(used, local, min, max)
    ensures r.Some? ==> r.value <= from && Eligible(r.value, min, max, local, nss)
    ensures forall x: int :: min <= x <= from && (r.Some? ==> r.value < x) ==> !Eligible(x, min, max, local, nss)
  {
    var id: int := from;
    while id >= min
      invariant min - 1 <= id <= from
      invariant forall x: int :: id < x <= from ==> !Eligible(x, min, max, local, nss)
    {
      var ok := CheckId(id, min, max, used, nss);
      if ok {
        return Some(id);
      }
      id := id - 1;
    }
    return None;
  }

  // ----- find_new_uid and find_new_gid -----

  /** Whether the preferred ID is granted as asked. */
  predicate Granted(preferred: Option<id_t>, w: Window, local: seq<id_t>, nss: set<id_t>) {
    preferred.Some? && Eligible(preferred.value, w.preferredMin, w.max, local, nss)
  }

  /** The least eligible ID at or above `from` and the greatest at or below it. */
  ghost predicate LeastFrom(id: int, from: int, w: Window, local: seq<id_t>, nss: set<id_t>) {
    && from <= id && Eligible(id, w.min, w.max, local, nss)
    && forall x: int :: from <= x < id ==> !Eligible(x, w.min, w.max, local, nss)
  }

  ghost predicate GreatestTo(id: int, to: int, w: Window, local: seq<id_t>, nss: set<id_t>) {
    && id <= to && Eligible(id, w.min, w.max, local, nss)
    && forall x: int :: id < x <= to ==> !Eligible(x, w.min, w.max, local, nss)
  }

  /** Some eligible ID lies above, or below, every local one of the window. */
  ghost predicate RoomAbove(w: Window, local: seq<id_t>, nss: set<id_t>) {
    exists x: int :: Above(local, w.min, w.max) <= x && Eligible(x, w.min, w.max, local, nss)
  }

  ghost predicate RoomBelow(w: Window, local: seq<id_t>, nss: set<id_t>) {
    exists x: int :: x <= Below(local, w.min, w.max) && Eligible(x, w.min, w.max, local, nss)
  }

  // ----- the limits in numbers -----

  /** An ID that may be chosen: for a normal one UID_MIN, else 1000, to UID_MAX, else 60000;
      for a system one SYS_UID_MIN, else 101, but never 0, to SYS_UID_MAX, else the ID
      below UID_MIN. The limits are narrowed to 32 bits. */
  predicate MayChoose(system: bool, l: Limits, id: int) {
    var min := if l.min.Some? then l.min.value else 1000;
    if system then
      && id >= 1 && (if l.sysMin.Some? then l.sysMin.value else 101) % 0x1_0000_0000 <= id
      && id <= (if l.sysMax.Some? then l.sysMax.value else min - 1) % 0x1_0000_0000
    else
      && min % 0x1_0000_0000 <= id
      && id <= (if l.max.Some? then l.max.value else 60000) % 0x1_0000_0000
  }

  /** An ID that may be asked for: a system one may lie below the window. */
  predicate MayAsk(system: bool, l: Limits, id: int) {
    if system then
      var min := if l.min.Some? then l.min.value else 1000;
      var high := (if l.sysMax.Some? then l.sysMax.value else min - 1) % 0x1_0000_0000;
      1 <= id <= high && (if l.sysMin.Some? then l.sysMin.value else 101) % 0x1_0000_0000 <= high
    else MayChoose(false, l, id)
  }

  /** Nobody has the ID, and it is no error code. */
  predicate IsFree(id: int, local: seq<id_t>, nss: set<id_t>) {
    id !in local && id !in nss && id != 65535 && id != 4294967295
  }

  lemma {:induction false} WindowInNumbers(system: bool, l: Limits, id: int, local: seq<id_t>, nss: set<id_t>)
    ensures var w := GetRanges(system, l);
            (w.Some? && Eligible(id, w.value.min, w.value.max, local, nss) <==>
               MayChoose(system, l, id) && IsFree(id, local, nss))
            && (w.Some? && Eligible(id, w.value.preferredMin, w.value.max, local, nss) <==>
               MayAsk(system, l, id) && IsFree(id, local, nss))
  {
  }

  /** Past every local ID that may be chosen: above them, for a system ID below them. */
  predicate Past(system: bool, l: Limits, local: seq<id_t>, id: int) {
    forall i :: 0 <= i < |local| && MayChoose(system, l, local[i]) ==> if system then id < local[i] else local[i] < id
  }

  /** The choice without a preference: among the IDs past every local one the nearest
      to them; if there is none, the first of all. */
  ghost predicate IsNext(system: bool, l: Limits, local: seq<id_t>, nss: set<id_t>, id: int) {
    forall x: int :: MayChoose(system, l, x) && IsFree(x, local, nss) ==>
      && (Past(system, l, local, x) ==> Past(system, l, local, id))
      && (Past(system, l, local, x) || !Past(system, l, local, id) ==> if system then x <= id else id <= x)
  }

  lemma {:induction false} AboveIsPast(local: seq<id_t>, min: id_t, max: id_t, x: int)
    requires min <= x <= max
    ensures Above(local, min, max) <= x <==> forall i :: 0 <= i < |local| && min <= local[i] <= max ==> local[i] < x
  {
    AboveIsHighest(local, min, max);
  }

  lemma {:induction false} BelowIsPast(local: seq<id_t>, min: id_t, max: id_t, x: int)
    requires min <= x <= max
    ensures x <= Below(local, min, max) <==> forall i :: 0 <= i < |local| && min <= local[i] <= max ==> x < local[i]
  {
    BelowIsLowest(local, min, max);
  }

  lemma {:induction false} ChosenInWindow(system: bool, l: Limits, id: int)
    ensures MayChoose(system, l, id) <==>
              var w := GetRanges(system, l); w.Some? && w.value.min <= id <= w.value.max
  {
  }

  lemma {:induction false} PastIsBeyond(system: bool, l: Limits, local: seq<id_t>, w: Window, x: int)
    requires GetRanges(system, l) == Some(w) && MayChoose(system, l, x)
    ensures Past(system, l, local, x) <==>
              if system then x <= Below(local, w.min, w.max) else Above(local, w.min, w.max) <= x
  {
    ChosenInWindow(system, l, x);
    forall i | 0 <= i < |local|
      ensures MayChoose(system, l, local[i]) <==> w.min <= local[i] <= w.max
    {
      ChosenInWindow(system, l, local[i]);
    }
    if system {
      BelowIsPast(local, w.min, w.max, x);
    } else {
      AboveIsPast(local, w.min, w.max, x);
    }
  }

  lemma {:induction false} NextInNumbers(system: bool, l: Limits, local: seq<id_t>, nss: set<id_t>, r: int)
    requires GetRanges(system, l).Some?
    requires var w := GetRanges(system, l).value;
             if system then
               GreatestTo(r, if RoomBelow(w, local, nss) then Below(local, w.min, w.max) else w.max, w, local, nss)
             else
               LeastFrom(r, if RoomAbove(w, local, nss) then Above(local, w.min, w.max) else w.min, w, local, nss)
    ensures IsNext(system, l, local, nss, r)
  {
    var w := GetRanges(system, l).value;
    WindowInNumbers(system, l, r, local, nss);
    PastIsBeyond(system, l, local, w, r);
    forall x: int | MayChoose(system, l, x) && IsFree(x, local, nss)
      ensures Past(system, l, local, x) ==> Past(system, l, local, r)
      ensures Past(system, l, local, x) || !Past(system, l, local, r) ==> if system then x <= r else r <= x
    {
      WindowInNumbers(system, l, x, local, nss);
      PastIsBeyond(system, l, local, w, x);
    }
  }

  /**
   Finds an ID. Without a granted preference the search is exhaustive: it fails
   only when no ID of the window is eligible, and otherwise a normal ID is the
   least one above every local ID if there is one there, else the least of the
   window; a system ID mirrors this downward.
   */
  method FindNewId(system: bool, l: Limits, preferred: Option<id_t>, local: seq<id_t>, nss: set<id_t>)
      returns (r: Option<id_t>)
    requires GetRanges(system, l).Some? ==> GetRanges(system, l).value.max < 0xFFFF_FFFF
    ensures GetRanges(system, l).None? ==> r == None
    ensures GetRanges(system, l).Some? ==>
              var w := GetRanges(system, l).value;
              if Granted(preferred, w, local, nss) then r == preferred
              else if r.None? then forall x: int :: !Eligible(x, w.min, w.max, local, nss)
              else if system then
                GreatestTo(r.value, if RoomBelow(w, local, nss) then Below(local, w.min, w.max) else w.max,
                           w, local, nss)
              else
                LeastFrom(r.value, if RoomAbove(w, local, nss) then Above(local, w.min, w.max) else w.min,
                          w, local, nss)
    // the same without the window: what is granted, and when nothing is
    ensures r.Some? ==> IsFree(r.value, local, nss)
                        && (MayChoose(system, l, r.value) || (r == preferred && MayAsk(system, l, r.value)))
    ensures preferred.Some? && MayAsk(system, l, preferred.value) && IsFree(preferred.value, local, nss) ==>
              r == preferred
    ensures r.None? ==> forall x: int :: MayChoose(system, l, x) ==> !IsFree(x, local, nss)
    ensures r.Some? && !(preferred.Some? && MayAsk(system, l, preferred.value)
                         && IsFree(preferred.value, local, nss)) ==>
              IsNext(system, l, local, nss, r.value)
  {
    forall x: int
      ensures MayChoose(system, l, x) && IsFree(x, local, nss) ==>
                var w := GetRanges(system, l); w.Some? && Eligible(x, w.value.min, w.value.max, local, nss)
    {
      WindowInNumbers(system, l, x, local, nss);
    }
    r := Find(system, l, preferred, local, nss);
    if r.Some? {
      WindowInNumbers(system, l, r.value, local, nss);
    }
    if preferred.Some? {
      WindowInNumbers(system, l, preferred.value, local, nss);
    }
    if r.Some? && !Granted(preferred, GetRanges(system, l).value, local, nss) {
      NextInNumbers(system, l, local, nss, r.value);
    }
  }

  /** The body of the search. */
  method Find(system: bool, l: Limits, preferred: Option<id_t>, local: seq<id_t>, nss: set<id_t>)
      returns (r: Option<id_t>)
    requires GetRanges(system, l).Some? ==> GetRanges(system, l).value.max < 0xFFFF_FFFF
    ensures GetRanges(system, l).None? ==> r == None
    ensures GetRanges(system, l).Some? ==>
              var w := GetRanges(system, l).value;
              if Granted(preferred, w, local, nss) then r == preferred
              else if r.None? then forall x: int :: !Eligible(x, w.min, w.max, local, nss)
              else if system then
                GreatestTo(r.value, if RoomBelow(w, local, nss) then Below(local, w.min, w.max) else w.max,
                           w, local, nss)
              else
                LeastFrom(r.value, if RoomAbove(w, local, nss) then Above(local, w.min, w.max) else w.min,
                          w, local, nss)
  {
    var ranges := GetRanges(system, l);
    if ranges.None? {
      return None;
    }
    var w := ranges.value;
    if preferred.Some? {
      var free := CheckId(preferred.value, w.preferredMin, w.max, null, nss);
      if free && preferred.value !in local {
        return preferred;
      }
    }
    var lowest, highest, used := ScanLocal(local, w.min, w.max);
    AboveIsHighest(local, w.min, w.max);
    BelowIsLowest(local, w.min, w.max);
    if system {
      r := AllocateDown(lowest, w, used, local, nss);
    } else {
      r := AllocateUp(highest, w, used, local, nss);
    }
  }

  method AllocateUp(found: id_t, w: Window, used: array<bool>, local: seq<id_t>, nss: set<id_t>)
      returns (r: Option<id_t>)
    requires w.min <= found <= w.max + 1 && w.min <= w.max < 0xFFFF_FFFF && Indexed(used, local, w.min, w.max)
    requires found == Above(local, w.min, w.max)
    ensures r.None? ==> forall x: int :: !Eligible(x, w.min, w.max, local, nss)
    ensures r.Some? ==>
              LeastFrom(r.value, if RoomAbove(w, local, nss) then Above(local, w.min, w.max) else w.min, w, local, nss)
  {
    var highest := found;
    if highest > w.max {
      highest := w.min;
    }
    r := SearchUp(highest, w.min, w.max, used, local, nss);
    if r.Some? {
      return;
    }
    if highest != w.min {
      r := SearchUp(w.min, w.min, w.max, used, local, nss);
    }
  }

  method AllocateDown(found: id_t, w: Window, used: array<bool>, local: seq<id_t>, nss: set<id_t>)
      returns (r: Option<id_t>)
    requires w.min - 1 <= found <= w.max < 0xFFFF_FFFF && 1 <= w.min <= w.max + 1 && Indexed(used, local, w.min, w.max)
    requires found == Below(local, w.min, w.max)
    ensures r.None? ==> forall x: int :: !Eligible(x, w.min, w.max, local, nss)
    ensures r.Some? ==>
              GreatestTo(r.value, if RoomBelow(w, local, nss) then Below(local, w.min, w.max) else w.max, w, local, nss)
  {
    var lowest := found;
    if lowest < w.min {
      lowest := w.max;
    }
    r := SearchDown(lowest, w.min, w.max, used, local, nss);
    if r.Some? {
      return;
    }
    if lowest != w.max {
      r := SearchDown(w.max, w.min, w.max, used, local, nss);
    }
  }
}
