/**
 The deterministic subordinate-ID slots of lib/find_new_sub_uids.c and
 lib/find_new_sub_gids.c; both use the same arithmetic.
 */
module SubidSlots {
  import opened Words
  import opened Wrappers
  import opened Bits

  /** The settings read from login.defs. */
  datatype Config = Config(uidMin: ulong, subMin: ulong, subMax: ulong, count: ulong, wrap: bool)

  /** Whether the configuration passes the three checks that do not look at the UID. */
  predicate Usable(c: Config) {
    && c.subMin <= c.subMax && c.count != 0
    && c.subMax - c.subMin != 0xFFFF_FFFF_FFFF_FFFF
    && c.count <= c.subMax - c.subMin + 1
  }

  function Slots(c: Config): int
    requires c.count != 0
  {
    (c.subMax - c.subMin + 1) / c.count
  }

  /** The slot of a UID, if it has one. */
  function SlotOf(uid: id_t, c: Config): Option<int>
    requires Usable(c)
  {
    if uid < c.uidMin then None
    else
      var offset := uid - c.uidMin;
      UsableHasSlot(c);
      if offset < Slots(c) then Some(offset)
      else if c.wrap then Some(offset % Slots(c))
      else None
  }

  /** `find_new_sub_uids_deterministic`: the start is computed in `unsigned long`
      and stored as an `id_t`. */
  function Assign(uid: id_t, c: Config): Option<id_t> {
    if uid < c.uidMin || !Usable(c) then None
    else match SlotOf(uid, c)
      case None => None
      case Some(slot) => Some((c.subMin + slot * c.count) % 0x1_0000_0000_0000_0000 % 0x1_0000_0000)
  }

  lemma {:induction false} UsableHasSlot(c: Config)
    requires Usable(c)
    ensures Slots(c) >= 1 && c.count * Slots(c) <= c.subMax - c.subMin + 1
  {
    var space := c.subMax - c.subMin + 1;
    DivMod(space, c.count);
    if Slots(c) <= 0 {
      MulLeq(c.count, Slots(c), 0);
    }
  }

  lemma {:induction false} SlotInRange(uid: id_t, c: Config)
    requires Usable(c) && SlotOf(uid, c).Some?
    ensures 0 <= SlotOf(uid, c).value < Slots(c)
    ensures SlotOf(uid, c).value == (uid - c.uidMin) % Slots(c)
  {
    UsableHasSlot(c);
    DivMod(uid - c.uidMin, Slots(c));
    if uid - c.uidMin < Slots(c) {
      DivUnique(uid - c.uidMin, Slots(c), 0, uid - c.uidMin);
    }
  }

  /** The exact position of a slot lies, with its whole range, inside the window. */
  lemma {:induction false} SlotFits(c: Config, slot: int)
    requires Usable(c) && 0 <= slot < Slots(c)
    ensures c.subMin <= c.subMin + slot * c.count
    ensures c.subMin + slot * c.count + c.count - 1 <= c.subMax
  {
    UsableHasSlot(c);
    MulLeq(c.count, slot + 1, Slots(c));
    MulLeq(c.count, 0, slot);
    assert c.count * (slot + 1) == slot * c.count + c.count;
  }

  /** The stored start is the exact one exactly when that fits an `id_t`. */
  lemma {:induction false} AssignExactIff(uid: id_t, c: Config)
    requires Usable(c) && uid >= c.uidMin && SlotOf(uid, c).Some?
    ensures var exact := c.subMin + SlotOf(uid, c).value * c.count;
            Assign(uid, c).Some? && (Assign(uid, c).value == exact <==> exact < 0x1_0000_0000)
  {
    SlotInRange(uid, c);
    SlotFits(c, SlotOf(uid, c).value);
  }

  /** With a window inside the 32-bit IDs every assigned range lies inside it, without overflow. */
  lemma {:induction false} AssignedInWindow(uid: id_t, c: Config)
    requires c.subMax < 0x1_0000_0000 && Assign(uid, c).Some?
    ensures Assign(uid, c).value == c.subMin + SlotOf(uid, c).value * c.count
    ensures c.subMin <= Assign(uid, c).value && Assign(uid, c).value + c.count - 1 <= c.subMax
  {
    AssignExactIff(uid, c);
    SlotInRange(uid, c);
    SlotFits(c, SlotOf(uid, c).value);
  }

  /** A UID gets a range exactly if it is not below the minimum, the window is neither
      empty nor the whole of `unsigned long`, a range is not empty and fits, and the
      range at the UID's offset fits too, unless wrapping is allowed. */
  lemma {:induction false} AssignedIff(uid: id_t, c: Config)
    ensures Assign(uid, c).Some? <==>
              && uid >= c.uidMin && c.subMin <= c.subMax && c.subMax - c.subMin + 1 < 0x1_0000_0000_0000_0000
              && 0 < c.count <= c.subMax - c.subMin + 1
              && (c.wrap || c.count * (uid - c.uidMin + 1) <= c.subMax - c.subMin + 1)
  {
    if Usable(c) && uid >= c.uidMin {
      OffsetFits(uid, c);
    }
  }

  lemma {:induction false} OffsetFits(uid: id_t, c: Config)
    requires Usable(c) && uid >= c.uidMin
    ensures uid - c.uidMin < Slots(c) <==> c.count * (uid - c.uidMin + 1) <= c.subMax - c.subMin + 1
  {
    var space, offset := c.subMax - c.subMin + 1, uid - c.uidMin;
    UsableHasSlot(c);
    DivMod(space, c.count);
    if offset < Slots(c) {
      MulLeq(c.count, offset + 1, Slots(c));
    } else {
      MulLeq(c.count, Slots(c) + 1, offset + 1);
      assert c.count * (Slots(c) + 1) == c.count * Slots(c) + c.count;
    }
  }

  /** In a 32-bit window the range starts at the UID's offset, counted in ranges; if that
      does not fit, at the offset modulo the number of ranges that do. */
  lemma {:induction false} AssignedExactly(uid: id_t, c: Config)
    requires c.subMax < 0x1_0000_0000 && Assign(uid, c).Some?
    ensures c.count > 0
    ensures Assign(uid, c).value ==
              c.subMin + c.count * (if c.count * (uid - c.uidMin + 1) <= c.subMax - c.subMin + 1 then uid - c.uidMin
                                    else (uid - c.uidMin) % ((c.subMax - c.subMin + 1) / c.count))
  {
    AssignedInWindow(uid, c);
    OffsetFits(uid, c);
    var slot := SlotOf(uid, c).value;
    assert slot * c.count == c.count * slot;
  }

  lemma {:induction false} LaterSlotLater(c: Config, s: int, t: int)
    requires c.count > 0 && s < t
    ensures c.subMin + s * c.count + c.count <= c.subMin + t * c.count
  {
    MulLeq(c.count, s + 1, t);
    assert c.count * (s + 1) == s * c.count + c.count;
  }

  predicate Disjoint(a: int, b: int, count: int) {
    a + count <= b || b + count <= a
  }

  /** Without wrapping, a higher UID gets a higher start, and its range begins after the lower one's ends. */
  lemma {:induction false} MonotoneWithoutWrap(uid: id_t, other: id_t, c: Config)
    requires c.subMax < 0x1_0000_0000 && !c.wrap && uid < other
    requires Assign(uid, c).Some? && Assign(other, c).Some?
    ensures Assign(uid, c).value + c.count <= Assign(other, c).value
  {
    AssignedInWindow(uid, c);
    AssignedInWindow(other, c);
    LaterSlotLater(c, uid - c.uidMin, other - c.uidMin);
  }

  /** With wrapping, two ranges coincide or are disjoint, and coincide exactly
      when the UID offsets agree modulo the number of slots. */
  lemma {:induction false} EqualOrDisjoint(uid: id_t, other: id_t, c: Config)
    requires c.subMax < 0x1_0000_0000
    requires Assign(uid, c).Some? && Assign(other, c).Some?
    ensures Slots(c) >= 1
    ensures Assign(uid, c) == Assign(other, c) <==> (uid - c.uidMin) % Slots(c) == (other - c.uidMin) % Slots(c)
    ensures Assign(uid, c) != Assign(other, c) ==> Disjoint(Assign(uid, c).value, Assign(other, c).value, c.count)
  {
    AssignedInWindow(uid, c);
    AssignedInWindow(other, c);
    SlotInRange(uid, c);
    SlotInRange(other, c);
    var s, t := SlotOf(uid, c).value, SlotOf(other, c).value;
    if s < t {
      LaterSlotLater(c, s, t);
    } else if t < s {
      LaterSlotLater(c, t, s);
    }
  }
}
