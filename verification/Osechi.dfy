/**
 * The shared osechi box of `useOsechi`: its data model, the repair of raw
 * database snapshots, and the client-side arbitration of `claimSlot` and
 * `clearSlot`. Every database write is modelled as the new box it would
 * write; the fresh slot id is a parameter.
 */
module Osechi {
  import opened Wrappers
  import opened JsText

  datatype FoodColor = Red | Green | Yellow | White | Brown

  datatype SlotData = SlotData(id: string, user: string, dish: string, color: FoodColor)

  /** What a caller hands to `claimSlot`: a slot without its id. */
  datatype DishClaim = DishClaim(user: string, dish: string, color: FoodColor)

  /** A slot is empty (`null`) or filled. */
  type Slot = Option<SlotData>

  datatype TierData = TierData(id: string, name: string, slots: seq<Slot>)

  type Box = seq<TierData>

  const SlotsPerTier: nat := 9

  /** `Array(9).fill(null)`. */
  const EmptySlots: seq<Slot> := [None, None, None, None, None, None, None, None, None]

  /** The seed box written when the database holds nothing yet. */
  const InitialState: Box := [
    TierData("tier-1", "Tier 1: Starters (Iwai-zakana)", EmptySlots),
    TierData("tier-2", "Tier 2: Main (Yakimono)", EmptySlots),
    TierData("tier-3", "Tier 3: Sides (Nimono)", EmptySlots)
  ]

  /** Every tier has exactly nine slots. */
  predicate WellFormed(box: Box) {
    forall t :: 0 <= t < |box| ==> |box[t].slots| == SlotsPerTier
  }

  predicate ValidPos(box: Box, t: int, s: int) {
    0 <= t < |box| && 0 <= s < |box[t].slots|
  }

  lemma {:induction false} InitialStateShape()
    ensures |InitialState| == 3 && WellFormed(InitialState)
    ensures forall t, s :: ValidPos(InitialState, t, s) ==> InitialState[t].slots[s].None?
    ensures Filled(InitialState) == 0
  {
    EmptyBoxCounts(InitialState, false);
  }

  // ---------------------------------------------------------------------------
  // Snapshot normalisation
  // ---------------------------------------------------------------------------

  /**
   * A tier as the database delivers it: `slots` may be missing altogether
   * (None), shorter or longer than nine, and any entry may be falsy (None).
   * A sparse object keyed by index is the same thing as a sequence with
   * None in its holes.
   */
  datatype RawTier = RawTier(id: string, name: string, slots: Option<seq<Slot>>)

  /** Rebuilds one tier's slots to exactly nine entries. */
  function NormalizeTier(raw: RawTier): (r: TierData)
    ensures r.id == raw.id && r.name == raw.name
    ensures raw.slots.None? ==> r.slots == EmptySlots
    ensures raw.slots.Some? && |raw.slots.value| >= SlotsPerTier ==> r.slots == raw.slots.value[..SlotsPerTier]
    ensures raw.slots.Some? && |raw.slots.value| < SlotsPerTier ==>
              r.slots == raw.slots.value + seq(SlotsPerTier - |raw.slots.value|, _ => None)
  {
    var slots := seq(SlotsPerTier, i requires 0 <= i < SlotsPerTier =>
      if raw.slots.Some? && i < |raw.slots.value| then raw.slots.value[i] else None);
    TierData(raw.id, raw.name, slots)
  }

  /** The `map` over the delivered tiers: same tiers, same order, each repaired. */
  function Normalize(raw: seq<RawTier>): (r: Box)
    ensures |r| == |raw| && WellFormed(r)
    ensures forall t :: 0 <= t < |r| ==> r[t].id == raw[t].id && r[t].name == raw[t].name
    ensures forall t, s :: 0 <= t < |r| && 0 <= s < SlotsPerTier ==>
              r[t].slots[s] == (if raw[t].slots.Some? && s < |raw[t].slots.value| then raw[t].slots.value[s] else None)
  {
    seq(|raw|, t requires 0 <= t < |raw| => NormalizeTier(raw[t]))
  }

  /** Entry s of a raw tier as the repair reads it: an absent array or index counts as empty. */
  function RawEntry(raw: RawTier, s: nat): Slot {
    if raw.slots.Some? && s < |raw.slots.value| then raw.slots.value[s] else None
  }

  /** `raw` carries box's tiers: same ids and names, and the same nine entries, absent ones counting as empty. */
  predicate Carries(raw: seq<RawTier>, box: Box) {
    && |raw| == |box|
    && (forall t :: 0 <= t < |raw| ==> raw[t].id == box[t].id && raw[t].name == box[t].name)
    && (forall t, s :: 0 <= t < |raw| && 0 <= s < |box[t].slots| ==> RawEntry(raw[t], s) == box[t].slots[s])
  }

  /** Normalising any raw form that carries a well-formed box gives the box back. */
  lemma NormalizeCarried(raw: seq<RawTier>, box: Box)
    requires WellFormed(box) && Carries(raw, box)
    ensures Normalize(raw) == box
  {
    var r := Normalize(raw);
    forall t | 0 <= t < |box|
      ensures r[t] == box[t]
    {
      forall s | 0 <= s < SlotsPerTier
        ensures r[t].slots[s] == box[t].slots[s]
      {
        assert RawEntry(raw[t], s) == box[t].slots[s];
      }
      assert r[t].slots == box[t].slots;
    }
  }

  /** A slot array without its trailing empty slots, as the database keeps a sparse array. */
  function DropTrailingEmpty(slots: seq<Slot>): (r: seq<Slot>)
    ensures |r| <= |slots| && r == slots[..|r|]
    ensures forall s :: |r| <= s < |slots| ==> slots[s].None?
    ensures r == [] || r[|r| - 1].Some?
  {
    if slots == [] || slots[|slots| - 1].Some? then slots
    else DropTrailingEmpty(slots[..|slots| - 1])
  }

  /**
   * The form in which the database hands a box back: trailing empty slots
   * are dropped, and a tier with no filled slot has no slot array at all.
   */
  function Stored(box: Box): (raw: seq<RawTier>)
    ensures |raw| == |box|
    ensures forall t :: 0 <= t < |box| ==> raw[t].id == box[t].id && raw[t].name == box[t].name
    ensures forall t :: 0 <= t < |box| ==> (raw[t].slots.None? <==> DropTrailingEmpty(box[t].slots) == [])
    ensures forall t :: 0 <= t < |box| && raw[t].slots.Some? ==> raw[t].slots.value == DropTrailingEmpty(box[t].slots)
  {
    seq(|box|, t requires 0 <= t < |box| =>
      var kept := DropTrailingEmpty(box[t].slots);
      RawTier(box[t].id, box[t].name, if kept == [] then None else Some(kept)))
  }

  /** The same box written back with every slot array present. */
  function Raw(box: Box): seq<RawTier> {
    seq(|box|, t requires 0 <= t < |box| => RawTier(box[t].id, box[t].name, Some(box[t].slots)))
  }

  /** The stored form of a box carries it. */
  lemma StoredCarries(box: Box)
    ensures Carries(Stored(box), box)
  {
    var raw := Stored(box);
    forall t, s | 0 <= t < |raw| && 0 <= s < |box[t].slots|
      ensures RawEntry(raw[t], s) == box[t].slots[s]
    {
      var kept := DropTrailingEmpty(box[t].slots);
      if s < |kept| {
        assert kept[s] == box[t].slots[s];
      }
    }
  }

  /** Normalising what the database hands back for a well-formed box gives the box back. */
  lemma NormalizeRoundTrip(box: Box)
    requires WellFormed(box)
    ensures Normalize(Stored(box)) == box
    ensures Normalize(Raw(box)) == box
  {
    StoredCarries(box);
    NormalizeCarried(Stored(box), box);
    NormalizeCarried(Raw(box), box);
  }

  /** Normalisation is idempotent. */
  lemma NormalizeIdempotent(raw: seq<RawTier>)
    ensures Normalize(Raw(Normalize(raw))) == Normalize(raw)
  {
    NormalizeRoundTrip(Normalize(raw));
  }

  /** What one `onValue` notification does: the new mirror, and the seed write if the database was empty. */
  datatype SnapshotEffect = SnapshotEffect(tiers: Box, seedWrite: Option<Box>)

  function OnSnapshot(current: Box, data: Option<seq<RawTier>>): (r: SnapshotEffect)
    ensures data.None? ==> r.tiers == current && r.seedWrite == Some(InitialState)
    ensures data.Some? ==> r.seedWrite.None? && WellFormed(r.tiers) && |r.tiers| == |data.value|
    ensures data.Some? ==> r.tiers == Normalize(data.value)
  {
    match data
    case Some(raw) => SnapshotEffect(Normalize(raw), None)
    case None => SnapshotEffect(current, Some(InitialState))
  }

  /**
   * The echo of the seed write comes back with no slot array on any tier,
   * and is repaired into the seed state itself.
   */
  lemma SeedEcho(current: Box)
    ensures var seed := OnSnapshot(current, None).seedWrite.value;
            && (forall t :: 0 <= t < |seed| ==> Stored(seed)[t] == RawTier(seed[t].id, seed[t].name, None))
            && OnSnapshot(current, Some(Stored(seed))).tiers == InitialState
  {
    InitialStateShape();
    forall t | 0 <= t < |InitialState|
      ensures DropTrailingEmpty(InitialState[t].slots) == []
    {
    }
    NormalizeRoundTrip(InitialState);
  }


  // ---------------------------------------------------------------------------
  // Counting and searching the box
  // ---------------------------------------------------------------------------

  /** The comparison key of a dish: lower-cased, then trimmed. */
  function DishKey(dish: string): string {
    Trim(Lower(dish))
  }

  predicate HoldsDish(slot: Slot, key: string) {
    slot.Some? && DishKey(slot.value.dish) == key
  }

  /** Some slot anywhere in the box holds a dish with this key. */
  ghost predicate DishTaken(box: Box, key: string) {
    exists t, s :: ValidPos(box, t, s) && HoldsDish(box[t].slots[s], key)
  }

  /** The inner `tier.slots.some(...)`. */
  function TierHasDish(slots: seq<Slot>, key: string): (b: bool)
    ensures b <==> exists s :: 0 <= s < |slots| && HoldsDish(slots[s], key)
  {
    if slots == [] then false
    else HoldsDish(slots[0], key) || TierHasDish(slots[1..], key)
  }

  /** The outer `tiers.some(...)`. */
  function BoxHasDish(box: Box, key: string): (b: bool)
    ensures b <==> DishTaken(box, key)
  {
    if box == [] then false
    else
      var rest := BoxHasDish(box[1..], key);
      assert rest <==> DishTaken(box[1..], key);
      if TierHasDish(box[0].slots, key) then true
      else
        assert DishTaken(box, key) ==> DishTaken(box[1..], key) by {
          if DishTaken(box, key) {
            var t, s :| ValidPos(box, t, s) && HoldsDish(box[t].slots[s], key);
            assert t != 0;
            assert ValidPos(box[1..], t - 1, s) && HoldsDish(box[1..][t - 1].slots[s], key);
          }
        }
        assert DishTaken(box[1..], key) ==> DishTaken(box, key) by {
          if DishTaken(box[1..], key) {
            var t, s :| ValidPos(box[1..], t, s) && HoldsDish(box[1..][t].slots[s], key);
            assert ValidPos(box, t + 1, s) && HoldsDish(box[t + 1].slots[s], key);
          }
        }
        rest
  }

  /** Whether a slot is counted: any filled slot, or only the filled Brown ones. */
  predicate Tallied(slot: Slot, onlyBrown: bool) {
    slot.Some? && (!onlyBrown || slot.value.color == Brown)
  }

  function CountSlots(slots: seq<Slot>, onlyBrown: bool): nat {
    if slots == [] then 0
    else CountSlots(slots[..|slots| - 1], onlyBrown) + (if Tallied(slots[|slots| - 1], onlyBrown) then 1 else 0)
  }

  function CountBox(box: Box, onlyBrown: bool): nat {
    if box == [] then 0
    else CountBox(box[..|box| - 1], onlyBrown) + CountSlots(box[|box| - 1].slots, onlyBrown)
  }

  /** Number of filled slots in the box. */
  function Filled(box: Box): nat { CountBox(box, false) }

  /** Number of filled slots in the box whose food is Brown. */
  function Browns(box: Box): nat { CountBox(box, true) }

  lemma {:induction false} CountEmpty(slots: seq<Slot>, onlyBrown: bool)
    requires forall s :: 0 <= s < |slots| ==> slots[s].None?
    ensures CountSlots(slots, onlyBrown) == 0
  {
    if slots != [] {
      CountEmpty(slots[..|slots| - 1], onlyBrown);
    }
  }

  lemma {:induction false} EmptyBoxCounts(box: Box, onlyBrown: bool)
    requires forall t, s :: ValidPos(box, t, s) ==> box[t].slots[s].None?
    ensures CountBox(box, onlyBrown) == 0
  {
    if box != [] {
      EmptyBoxCounts(box[..|box| - 1], onlyBrown);
      CountEmpty(box[|box| - 1].slots, onlyBrown);
    }
  }

  /** A box with no filled slots holds no dish at all. */
  lemma {:induction false} NothingFilledNothingTaken(box: Box, key: string)
    requires Filled(box) == 0
    ensures !DishTaken(box, key)
  {
    if DishTaken(box, key) {
      var t, s :| ValidPos(box, t, s) && HoldsDish(box[t].slots[s], key);
      PositiveCount(box, t, s);
      assert false;
    }
  }

  lemma {:induction false} PositiveSlots(slots: seq<Slot>, s: int)
    requires 0 <= s < |slots| && slots[s].Some?
    ensures CountSlots(slots, false) > 0
  {
    if s < |slots| - 1 {
      PositiveSlots(slots[..|slots| - 1], s);
    }
  }

  lemma {:induction false} PositiveCount(box: Box, t: int, s: int)
    requires ValidPos(box, t, s) && box[t].slots[s].Some?
    ensures Filled(box) > 0
  {
    if t < |box| - 1 {
      PositiveCount(box[..|box| - 1], t, s);
    } else {
      PositiveSlots(box[t].slots, s);
    }
  }

  /**
   * The two counting loops of the Brown check: every filled slot adds to
   * `total`, every filled Brown slot also to `brown`.
   */
  method CountColors(box: Box) returns (total: nat, brown: nat)
    ensures total == Filled(box) && brown == Browns(box)
  {
    total, brown := 0, 0;
    var t := 0;
    while t < |box|
      invariant 0 <= t <= |box|
      invariant total == CountBox(box[..t], false) && brown == CountBox(box[..t], true)
    {
      var slots := box[t].slots;
      var s := 0;
      while s < |slots|
        invariant 0 <= s <= |slots|
        invariant total == CountBox(box[..t], false) + CountSlots(slots[..s], false)
        invariant brown == CountBox(box[..t], true) + CountSlots(slots[..s], true)
      {
        assert slots[..s + 1][..s] == slots[..s];
        if slots[s].Some? {
          total := total + 1;
          if slots[s].value.color == Brown {
            brown := brown + 1;
          }
        }
        s := s + 1;
      }
      assert slots[..s] == slots;
      assert box[..t + 1][..t] == box[..t];
      t := t + 1;
    }
    assert box[..t] == box;
  }

  // ---------------------------------------------------------------------------
  // Writing one slot
  // ---------------------------------------------------------------------------

  /** The box with slot (t, s) replaced by `v`: the array `claimSlot` and `clearSlot` write. */
  function SetSlot(box: Box, t: nat, s: nat, v: Slot): (r: Box)
    requires ValidPos(box, t, s)
    ensures |r| == |box|
    ensures forall i :: 0 <= i < |r| ==> r[i].id == box[i].id && r[i].name == box[i].name && |r[i].slots| == |box[i].slots|
    ensures r[t].slots[s] == v
    ensures forall i, j :: ValidPos(box, i, j) && (i != t || j != s) ==> r[i].slots[j] == box[i].slots[j]
    ensures WellFormed(box) ==> WellFormed(r)
  {
    box[t := box[t].(slots := box[t].slots[s := v])]
  }

  lemma {:induction false} CountSlotsAfterSet(slots: seq<Slot>, s: nat, v: Slot, onlyBrown: bool)
    requires s < |slots|
    ensures CountSlots(slots[s := v], onlyBrown) + (if Tallied(slots[s], onlyBrown) then 1 else 0)
         == CountSlots(slots, onlyBrown) + (if Tallied(v, onlyBrown) then 1 else 0)
  {
    var n := |slots|;
    var u := slots[s := v];
    if s < n - 1 {
      assert u[..n - 1] == slots[..n - 1][s := v];
      CountSlotsAfterSet(slots[..n - 1], s, v, onlyBrown);
    } else {
      assert u[..n - 1] == slots[..n - 1];
    }
  }

  /** Replacing one slot changes a count by what left and what arrived. */
  lemma {:induction false} CountAfterSet(box: Box, t: nat, s: nat, v: Slot, onlyBrown: bool)
    requires ValidPos(box, t, s)
    ensures CountBox(SetSlot(box, t, s, v), onlyBrown) + (if Tallied(box[t].slots[s], onlyBrown) then 1 else 0)
         == CountBox(box, onlyBrown) + (if Tallied(v, onlyBrown) then 1 else 0)
  {
    var n := |box|;
    var u := SetSlot(box, t, s, v);
    if t < n - 1 {
      assert u[..n - 1] == SetSlot(box[..n - 1], t, s, v);
      CountAfterSet(box[..n - 1], t, s, v, onlyBrown);
    } else {
      assert u[..n - 1] == box[..n - 1];
      CountSlotsAfterSet(box[t].slots, s, v, onlyBrown);
    }
  }

  // ---------------------------------------------------------------------------
  // claimSlot and clearSlot
  // ---------------------------------------------------------------------------

  datatype Rejection =
    | TooMuchPotatoSalad
    | AlreadyBrought(dish: string)
    | TooUgly
  {
    predicate IsDuplicate() { TooMuchPotatoSalad? || AlreadyBrought? }
  }

  /** The message text shown for each rejection. */
  function Message(r: Rejection): string {
    match r
    case TooMuchPotatoSalad => "\U{26A0}\U{FE0F} ALERT: Too much Potato Salad! Please make something else."
    case AlreadyBrought(dish) => "\U{26A0}\U{FE0F} Someone is already bringing " + dish + "! Please choose something else."
    case TooUgly => "The Osechi is too ugly! We need Red or Green foods only."
  }

  /** A successful claim carries the whole box it writes; a rejected one writes nothing. */
  datatype ClaimResult = Claimed(written: Box) | Rejected(reason: Rejection)

  /** The box after a claim: the written box, or the unchanged one. */
  function After(box: Box, r: ClaimResult): Box {
    if r.Claimed? then r.written else box
  }

  const PotatoSalad: string := "potato salad"

  /** `claimSlot`: the duplicate check, then the Brown cap, then the write of slot (t, s). */
  function ClaimSlot(box: Box, t: nat, s: nat, claim: DishClaim, freshId: string): (r: ClaimResult)
    requires ValidPos(box, t, s)
    ensures r.Claimed? ==> |r.written| == |box|
    ensures r.Claimed? ==> forall i :: 0 <= i < |box| ==>
              r.written[i].id == box[i].id && r.written[i].name == box[i].name && |r.written[i].slots| == |box[i].slots|
    ensures r.Claimed? ==> r.written[t].slots[s] == Some(SlotData(freshId, claim.user, claim.dish, claim.color))
    ensures r.Claimed? ==> forall i, j :: ValidPos(box, i, j) && (i != t || j != s) ==> r.written[i].slots[j] == box[i].slots[j]
    ensures r.Claimed? && WellFormed(box) ==> WellFormed(r.written)
  {
    var key := DishKey(claim.dish);
    if BoxHasDish(box, key) then
      Rejected(if Includes(key, PotatoSalad) then TooMuchPotatoSalad else AlreadyBrought(claim.dish))
    else if claim.color == Brown && 2 * (Browns(box) + 1) > Filled(box) + 1 then
      Rejected(TooUgly)
    else
      Claimed(SetSlot(box, t, s, Some(SlotData(freshId, claim.user, claim.dish, claim.color))))
  }

  /** A claim gets a duplicate message exactly when its dish key is already in the box, and the Potato Salad one exactly when that key mentions potato salad. */
  lemma ClaimDuplicateRule(box: Box, t: nat, s: nat, claim: DishClaim, freshId: string)
    requires ValidPos(box, t, s)
    ensures var r := ClaimSlot(box, t, s, claim, freshId);
            && (r.Rejected? && r.reason.IsDuplicate() <==> DishTaken(box, DishKey(claim.dish)))
            && (r == Rejected(TooMuchPotatoSalad) <==>
                  DishTaken(box, DishKey(claim.dish)) && Includes(DishKey(claim.dish), PotatoSalad))
            && (r == Rejected(AlreadyBrought(claim.dish)) <==>
                  DishTaken(box, DishKey(claim.dish)) && !Includes(DishKey(claim.dish), PotatoSalad))
  {
  }

  /** Past the duplicate check, a claim is refused exactly when it is Brown and Brown would exceed half of the filled slots. */
  lemma ClaimBrownRule(box: Box, t: nat, s: nat, claim: DishClaim, freshId: string)
    requires ValidPos(box, t, s)
    requires !DishTaken(box, DishKey(claim.dish))
    ensures var r := ClaimSlot(box, t, s, claim, freshId);
            && (r.Rejected? <==> claim.color == Brown && 2 * (Browns(box) + 1) > Filled(box) + 1)
            && (r.Rejected? ==> r.reason == TooUgly)
  {
  }

  /** The duplicate check comes first: a Brown duplicate gets a duplicate message, never the Brown one. */
  lemma DuplicateBeforeBrown(box: Box, t: nat, s: nat, claim: DishClaim, freshId: string)
    requires ValidPos(box, t, s)
    requires DishTaken(box, DishKey(claim.dish))
    ensures ClaimSlot(box, t, s, claim, freshId) != Rejected(TooUgly)
  {
  }

  /** Into an empty box a Brown dish is never accepted (1/1 > 0.5). */
  lemma BrownOnEmptyBoxRejected(box: Box, t: nat, s: nat, claim: DishClaim, freshId: string)
    requires ValidPos(box, t, s) && Filled(box) == 0 && claim.color == Brown
    ensures ClaimSlot(box, t, s, claim, freshId) == Rejected(TooUgly)
  {
    NothingFilledNothingTaken(box, DishKey(claim.dish));
  }

  /** No two filled slots anywhere in the box have the same dish key. */
  ghost predicate DistinctDishes(box: Box) {
    forall t1, s1, t2, s2 ::
      ValidPos(box, t1, s1) && ValidPos(box, t2, s2) && (t1 != t2 || s1 != s2) &&
      box[t1].slots[s1].Some? && box[t2].slots[s2].Some? ==>
        DishKey(box[t1].slots[s1].value.dish) != DishKey(box[t2].slots[s2].value.dish)
  }

  /** A successful claim keeps the dishes of the box pairwise distinct. */
  lemma ClaimPreservesDistinct(box: Box, t: nat, s: nat, claim: DishClaim, freshId: string)
    requires ValidPos(box, t, s) && DistinctDishes(box)
    ensures DistinctDishes(After(box, ClaimSlot(box, t, s, claim, freshId)))
  {
    var r := ClaimSlot(box, t, s, claim, freshId);
    if r.Claimed? {
      var w := r.written;
      var key := DishKey(claim.dish);
      assert !DishTaken(box, key);
      forall t1, s1, t2, s2 |
        ValidPos(w, t1, s1) && ValidPos(w, t2, s2) && (t1 != t2 || s1 != s2) &&
        w[t1].slots[s1].Some? && w[t2].slots[s2].Some?
        ensures DishKey(w[t1].slots[s1].value.dish) != DishKey(w[t2].slots[s2].value.dish)
      {
        if t1 == t && s1 == s {
          assert w[t2].slots[s2] == box[t2].slots[s2] && !HoldsDish(box[t2].slots[s2], key);
        } else if t2 == t && s2 == s {
          assert w[t1].slots[s1] == box[t1].slots[s1] && !HoldsDish(box[t1].slots[s1], key);
        } else {
          assert w[t1].slots[s1] == box[t1].slots[s1] && w[t2].slots[s2] == box[t2].slots[s2];
        }
      }
    }
  }

  /**
   * A claim into an empty slot keeps Brown at no more than half of the filled
   * slots: a Brown claim always ends there, and any claim keeps it there.
   */
  lemma ClaimIntoEmptyKeepsBrownCap(box: Box, t: nat, s: nat, claim: DishClaim, freshId: string)
    requires ValidPos(box, t, s) && box[t].slots[s].None?
    requires ClaimSlot(box, t, s, claim, freshId).Claimed?
    ensures var w := ClaimSlot(box, t, s, claim, freshId).written;
            && (claim.color == Brown ==> 2 * Browns(w) <= Filled(w))
            && (2 * Browns(box) <= Filled(box) ==> 2 * Browns(w) <= Filled(w))
  {
    var v := Some(SlotData(freshId, claim.user, claim.dish, claim.color));
    CountAfterSet(box, t, s, v, false);
    CountAfterSet(box, t, s, v, true);
  }

  /** A fresh box with one non-Brown dish put at (0, 0). */
  lemma OneDishBox(d: SlotData)
    requires d.color != Brown
    ensures var box := SetSlot(InitialState, 0, 0, Some(d));
            && WellFormed(box) && Filled(box) == 1 && Browns(box) == 0
            && box[0].slots[0] == Some(d)
            && forall t, s :: ValidPos(box, t, s) && (t != 0 || s != 0) ==> box[t].slots[s].None?
  {
    InitialStateShape();
    EmptyBoxCounts(InitialState, true);
    CountAfterSet(InitialState, 0, 0, Some(d), false);
    CountAfterSet(InitialState, 0, 0, Some(d), true);
  }

  /**
   * Because the target slot is not checked for emptiness, a Brown claim
   * written over a filled non-Brown slot can leave Brown above half: in a
   * fresh box holding one Red dish at (0, 0), a Brown claim over that slot
   * passes the check (2 > 2 is false) and leaves the only dish Brown.
   */
  lemma OverwriteCanBreakBrownCap(d: SlotData, claim: DishClaim, freshId: string)
    requires d.color != Brown
    requires claim.color == Brown && DishKey(claim.dish) != DishKey(d.dish)
    ensures var box := SetSlot(InitialState, 0, 0, Some(d));
            var r := ClaimSlot(box, 0, 0, claim, freshId);
            && WellFormed(box) && Filled(box) == 1 && Browns(box) == 0
            && r.Claimed? && Browns(r.written) == 1 && Filled(r.written) == 1
  {
    var box := SetSlot(InitialState, 0, 0, Some(d));
    OneDishBox(d);
    forall t, s | ValidPos(box, t, s)
      ensures !HoldsDish(box[t].slots[s], DishKey(claim.dish))
    {
    }
    ClaimBrownRule(box, 0, 0, claim, freshId);
    var v := Some(SlotData(freshId, claim.user, claim.dish, claim.color));
    CountAfterSet(box, 0, 0, v, false);
    CountAfterSet(box, 0, 0, v, true);
  }

  /** `clearSlot`: slot (t, s) becomes empty, whoever filled it; nothing else changes. */
  function ClearSlot(box: Box, t: nat, s: nat): (r: Box)
    requires ValidPos(box, t, s)
    ensures |r| == |box|
    ensures forall i :: 0 <= i < |r| ==> r[i].id == box[i].id && r[i].name == box[i].name && |r[i].slots| == |box[i].slots|
    ensures r[t].slots[s].None?
    ensures forall i, j :: ValidPos(box, i, j) && (i != t || j != s) ==> r[i].slots[j] == box[i].slots[j]
    ensures WellFormed(box) ==> WellFormed(r)
  {
    SetSlot(box, t, s, None)
  }

  /** Clearing an already empty slot writes back the same box. */
  lemma ClearEmptyIsNoop(box: Box, t: nat, s: nat)
    requires ValidPos(box, t, s) && box[t].slots[s].None?
    ensures ClearSlot(box, t, s) == box
  {
    var r := ClearSlot(box, t, s);
    forall i | 0 <= i < |box|
      ensures r[i] == box[i]
    {
      assert r[i].slots == box[i].slots;
    }
  }

  /** Clearing twice is clearing once. */
  lemma ClearIdempotent(box: Box, t: nat, s: nat)
    requires ValidPos(box, t, s)
    ensures ClearSlot(ClearSlot(box, t, s), t, s) == ClearSlot(box, t, s)
  {
    ClearEmptyIsNoop(ClearSlot(box, t, s), t, s);
  }

  /** Clearing keeps the dishes of the box pairwise distinct and takes one filled slot away if there was one. */
  lemma ClearKeepsInvariants(box: Box, t: nat, s: nat)
    requires ValidPos(box, t, s)
    ensures DistinctDishes(box) ==> DistinctDishes(ClearSlot(box, t, s))
    ensures Filled(ClearSlot(box, t, s)) == Filled(box) - (if box[t].slots[s].Some? then 1 else 0)
    ensures Browns(ClearSlot(box, t, s)) <= Browns(box)
  {
    CountAfterSet(box, t, s, None, false);
    CountAfterSet(box, t, s, None, true);
  }

  /**
   * Changing a dish is clear then claim: in a box of distinct dishes, the
   * dish just cleared from (t, s) may be claimed again there (unless it is
   * Brown, which the cap may refuse).
   */
  lemma ReclaimAfterClear(box: Box, t: nat, s: nat, claim: DishClaim, freshId: string)
    requires ValidPos(box, t, s) && DistinctDishes(box)
    requires box[t].slots[s].Some? && DishKey(box[t].slots[s].value.dish) == DishKey(claim.dish)
    requires claim.color != Brown
    ensures ClaimSlot(ClearSlot(box, t, s), t, s, claim, freshId).Claimed?
  {
  }
}
