/**
 * The rules of the dungeon as a pure state machine. `GameView` is the value of a
 * `Game` (src/logic.rs) and each operation of `Game` is a function from the value
 * before the call to the value after it. The class `Logic.Game` is proved to follow
 * these functions; the lemmas here state what the operations promise.
 */
module Rules {
  import opened Wrappers
  import opened Cards
  import opened Decimal
  import Messages

  datatype GameState = MainMenu | RoomChoice | CardSelection | CardInteraction | GameOver

  /** Whether the driver must wait for an explicit "continue" before the next intent. */
  datatype ResolveOutcome = NoResolution | AwaitContinue

  datatype GameView = GameView(
    deck: seq<Card>,                   // front is drawn next, back receives skipped cards
    roomSlots: seq<Option<Card>>,      // always four positions, never compacted
    health: int,
    maxHealth: int,
    weapon: Option<Card>,
    lastMonsterSlainWithWeapon: Option<U8>,
    potionUsedThisRoom: bool,
    canSkip: bool,
    state: GameState,
    survived: bool,
    message: Messages.Message,
    currentMonster: Option<Card>,
    awaitingWeaponChoice: bool,
    interactionsLeftInRoom: U8)

  const RoomSize: nat := 4
  const StartingHealth: int := 20
  const InteractionsPerRoom: U8 := 3

  /** The text `remaining_summary_line` gives when no monster is left. */
  const NoMonstersLine: string := "No monsters remain. You defeated them all!"
  /** What `remaining_summary_line` puts before the total threat. */
  const ThreatPrefix: string := "Remaining monsters total threat: -"

  // ---------------------------------------------------------------------------
  // Room slots

  function Occupied(slot: Option<Card>): seq<Card> {
    if slot.Some? then [slot.value] else []
  }

  /** The cards in the room, in slot order. */
  function Flatten(slots: seq<Option<Card>>): (r: seq<Card>)
    ensures |r| <= |slots|
  {
    if slots == [] then [] else Occupied(slots[0]) + Flatten(slots[1..])
  }

  lemma {:induction false} FlattenConcat(a: seq<Option<Card>>, b: seq<Option<Card>>)
    ensures Flatten(a + b) == Flatten(a) + Flatten(b)
  {
    if a != [] {
      assert (a + b)[0] == a[0];
      assert (a + b)[1..] == a[1..] + b;
      FlattenConcat(a[1..], b);
      calc {
        Flatten(a + b);
        Occupied(a[0]) + Flatten(a[1..] + b);
        Occupied(a[0]) + (Flatten(a[1..]) + Flatten(b));
        (Occupied(a[0]) + Flatten(a[1..])) + Flatten(b);
      }
    } else {
      assert a + b == b;
    }
  }

  /** `room_is_empty`: every slot is `None`. */
  predicate RoomIsEmpty(slots: seq<Option<Card>>) {
    forall i :: 0 <= i < |slots| ==> slots[i].None?
  }

  /** The room is empty exactly when it holds no card. */
  lemma {:induction false} RoomIsEmptyIffNoCards(slots: seq<Option<Card>>)
    ensures RoomIsEmpty(slots) <==> Flatten(slots) == []
  {
    if slots != [] {
      RoomIsEmptyIffNoCards(slots[1..]);
      assert forall i :: 1 <= i < |slots| ==> slots[i] == slots[1..][i - 1];
    }
  }

  function EmptySlots(n: nat): (r: seq<Option<Card>>)
    ensures |r| == n && RoomIsEmpty(r)
  {
    seq(n, _ => None)
  }

  /**
   * `fill_room` on the slots and the deck: each empty slot, left to right, takes the
   * front card of the deck while the deck lasts.
   */
  function FillSlots(slots: seq<Option<Card>>, deck: seq<Card>): (r: (seq<Option<Card>>, seq<Card>))
    ensures |r.0| == |slots| && |r.1| <= |deck|
  {
    if slots == [] then ([], deck)
    else if slots[0].None? && deck != [] then
      var rest := FillSlots(slots[1..], deck[1..]);
      ([Some(deck[0])] + rest.0, rest.1)
    else
      var rest := FillSlots(slots[1..], deck);
      ([slots[0]] + rest.0, rest.1)
  }

  /** The cards that appeared in `after` at positions that were empty in `before`, in slot order. */
  function NewCards(before: seq<Option<Card>>, after: seq<Option<Card>>): seq<Card>
    requires |before| == |after|
  {
    if before == [] then []
    else (if before[0].None? then Occupied(after[0]) else []) + NewCards(before[1..], after[1..])
  }

  /** Occupied slots keep their card; only empty slots can change. */
  lemma {:induction false} FillKeepsOccupied(slots: seq<Option<Card>>, deck: seq<Card>)
    ensures forall i :: 0 <= i < |slots| && slots[i].Some? ==> FillSlots(slots, deck).0[i] == slots[i]
  {
    if slots != [] {
      var r := FillSlots(slots, deck);
      var tail := if slots[0].None? && deck != [] then deck[1..] else deck;
      FillKeepsOccupied(slots[1..], tail);
      forall i | 1 <= i < |slots| && slots[i].Some?
        ensures r.0[i] == slots[i]
      {
        assert slots[1..][i - 1] == slots[i];
      }
    }
  }

  /**
   * The cards put into empty slots, read left to right, followed by what is left of the
   * deck, are exactly the old deck: the room is filled from the front, in slot order,
   * and the rest of the deck keeps its order.
   */
  lemma {:induction false} FillTakesFromFront(slots: seq<Option<Card>>, deck: seq<Card>)
    ensures NewCards(slots, FillSlots(slots, deck).0) + FillSlots(slots, deck).1 == deck
  {
    if slots != [] {
      var r := FillSlots(slots, deck);
      if slots[0].None? && deck != [] {
        FillTakesFromFront(slots[1..], deck[1..]);
        assert r.0[1..] == FillSlots(slots[1..], deck[1..]).0;
      } else {
        FillTakesFromFront(slots[1..], deck);
        assert r.0[1..] == FillSlots(slots[1..], deck).0;
      }
    }
  }

  /** Filling stops only when the deck runs out: afterwards the room is full or the deck empty. */
  lemma {:induction false} FillStopsOnlyWhenDeckEmpty(slots: seq<Option<Card>>, deck: seq<Card>)
    ensures FillSlots(slots, deck).1 == [] || forall i :: 0 <= i < |slots| ==> FillSlots(slots, deck).0[i].Some?
  {
    if slots != [] {
      var r := FillSlots(slots, deck);
      var tail := if slots[0].None? && deck != [] then deck[1..] else deck;
      FillStopsOnlyWhenDeckEmpty(slots[1..], tail);
      assert r.1 == FillSlots(slots[1..], tail).1;
      if r.1 != [] {
        forall i | 0 <= i < |slots| ensures r.0[i].Some? {
          if i > 0 {
            assert r.0[i] == FillSlots(slots[1..], tail).0[i - 1];
          }
        }
      }
    }
  }

  /**
   * Gaps are filled left to right: a slot still empty after filling means the deck ran
   * out there, so it and every slot after it are as they were.
   */
  lemma {:induction false} FillLeavesRestOnceEmpty(slots: seq<Option<Card>>, deck: seq<Card>, i: nat)
    requires i < |slots| && FillSlots(slots, deck).0[i].None?
    ensures forall j :: i <= j < |slots| ==> FillSlots(slots, deck).0[j] == slots[j]
    ensures FillSlots(slots, deck).1 == []
  {
    var r := FillSlots(slots, deck);
    var drawn := slots[0].None? && deck != [];
    var tail := if drawn then deck[1..] else deck;
    var rest := FillSlots(slots[1..], tail);
    assert r.0 == [if drawn then Some(deck[0]) else slots[0]] + rest.0 && r.1 == rest.1;
    if i == 0 {
      FillNothingToDo(slots, deck);
    } else {
      assert rest.0[i - 1] == r.0[i];
      FillLeavesRestOnceEmpty(slots[1..], tail, i - 1);
      forall j | i <= j < |slots| ensures r.0[j] == slots[j] {
        assert r.0[j] == rest.0[j - 1] && slots[1..][j - 1] == slots[j];
      }
    }
  }

  /** No card is created or lost: room cards plus deck cards are the same multiset. */
  lemma {:induction false} FillConserves(slots: seq<Option<Card>>, deck: seq<Card>)
    ensures multiset(Flatten(FillSlots(slots, deck).0)) + multiset(FillSlots(slots, deck).1)
         == multiset(Flatten(slots)) + multiset(deck)
  {
    if slots != [] {
      var drawn := slots[0].None? && deck != [];
      var tail := if drawn then deck[1..] else deck;
      var rest := FillSlots(slots[1..], tail);
      FillConserves(slots[1..], tail);
      var first := if drawn then Some(deck[0]) else slots[0];
      var filled := [first] + rest.0;
      assert FillSlots(slots, deck) == (filled, rest.1);
      assert filled[0] == first && filled[1..] == rest.0;
      assert Flatten(filled) == Occupied(first) + Flatten(rest.0);
      assert Flatten(slots) == Occupied(slots[0]) + Flatten(slots[1..]);
      assert Occupied(first) + tail == Occupied(slots[0]) + deck by {
        if drawn {
          assert deck == [deck[0]] + deck[1..];
        }
      }
      MultisetShift(Occupied(first), Flatten(rest.0), rest.1, Occupied(slots[0]), Flatten(slots[1..]), tail, deck);
    }
  }

  /** One step of the multiset bookkeeping behind FillConserves. */
  lemma MultisetShift(x: seq<Card>, a: seq<Card>, b: seq<Card>, y: seq<Card>, c: seq<Card>, t: seq<Card>, d: seq<Card>)
    requires multiset(a) + multiset(b) == multiset(c) + multiset(t)
    requires x + t == y + d
    ensures multiset(x + a) + multiset(b) == multiset(y + c) + multiset(d)
  {
    calc {
      multiset(x + a) + multiset(b);
      multiset(x) + (multiset(a) + multiset(b));
      multiset(x) + (multiset(c) + multiset(t));
      (multiset(x) + multiset(t)) + multiset(c);
      { assert multiset(x + t) == multiset(y + d); }
      (multiset(y) + multiset(d)) + multiset(c);
      multiset(y + c) + multiset(d);
    }
  }

  /** Filling a full room or from an empty deck changes nothing. */
  lemma {:induction false} FillNothingToDo(slots: seq<Option<Card>>, deck: seq<Card>)
    requires deck == [] || forall i :: 0 <= i < |slots| ==> slots[i].Some?
    ensures FillSlots(slots, deck) == (slots, deck)
  {
    if slots != [] {
      assert forall i :: 0 <= i < |slots[1..]| ==> slots[1..][i] == slots[i + 1];
      FillNothingToDo(slots[1..], deck);
      assert slots == [slots[0]] + slots[1..];
    }
  }

  /** Filling twice is the same as filling once. */
  lemma FillIdempotent(slots: seq<Option<Card>>, deck: seq<Card>)
    ensures var r := FillSlots(slots, deck); FillSlots(r.0, r.1) == r
  {
    FillStopsOnlyWhenDeckEmpty(slots, deck);
    var r := FillSlots(slots, deck);
    FillNothingToDo(r.0, r.1);
  }

  /** After filling, room and deck are both empty exactly when they were both empty before. */
  lemma FillEmptyIff(slots: seq<Option<Card>>, deck: seq<Card>)
    ensures var r := FillSlots(slots, deck);
      RoomIsEmpty(r.0) && r.1 == [] <==> RoomIsEmpty(slots) && deck == []
  {
    var r := FillSlots(slots, deck);
    FillConserves(slots, deck);
    RoomIsEmptyIffNoCards(slots);
    RoomIsEmptyIffNoCards(r.0);
    if RoomIsEmpty(r.0) && r.1 == [] {
      assert multiset(Flatten(slots)) + multiset(deck) == multiset{};
      assert |Flatten(slots)| == |multiset(Flatten(slots))| == 0;
    }
  }

  // ---------------------------------------------------------------------------
  // The game value and its invariant

  /** The cards still in the dungeon: the room, in slot order, then the deck. */
  function Pool(v: GameView): seq<Card> {
    Flatten(v.roomSlots) + v.deck
  }

  /** What holds of every game reachable through the operations below. */
  predicate Invariant(v: GameView) {
    && |v.roomSlots| == RoomSize
    && v.health <= v.maxHealth
    && v.interactionsLeftInRoom <= InteractionsPerRoom
    && (v.weapon.Some? ==> v.weapon.value.suit == D && InDungeon(v.weapon.value))
    && (v.lastMonsterSlainWithWeapon.Some? ==> v.weapon.Some?)
    && (v.currentMonster.Some? ==> IsMonster(v.currentMonster.value) && InDungeon(v.currentMonster.value))
    && (v.awaitingWeaponChoice ==> v.currentMonster.Some?)
    && (forall c :: c in Pool(v) ==> InDungeon(c))
  }

  /** `Game::new()` given the shuffled deck: empty room, full health, main menu. */
  function NewGame(deck: seq<Card>): (r: GameView)
    ensures r.state == MainMenu && !r.survived
    ensures r.health == r.maxHealth == StartingHealth
    ensures |r.roomSlots| == RoomSize && RoomIsEmpty(r.roomSlots) && r.deck == deck
    ensures r.weapon.None? && r.lastMonsterSlainWithWeapon.None? && r.currentMonster.None?
    ensures r.canSkip && !r.awaitingWeaponChoice
  {
    GameView(
      deck := deck,
      roomSlots := EmptySlots(RoomSize),
      health := StartingHealth,
      maxHealth := StartingHealth,
      weapon := None,
      lastMonsterSlainWithWeapon := None,
      potionUsedThisRoom := false,
      canSkip := true,
      state := MainMenu,
      survived := false,
      message := Messages.NoMessage,
      currentMonster := None,
      awaitingWeaponChoice := false,
      interactionsLeftInRoom := 0)
  }

  /** A new game over a shuffled deck satisfies the invariant and holds the whole deck. */
  lemma NewGameValid(deck: seq<Card>)
    requires multiset(deck) == multiset(CanonicalDeck())
    ensures Invariant(NewGame(deck))
    ensures Pool(NewGame(deck)) == deck
    ensures NewGame(deck).state == MainMenu && NewGame(deck).health == NewGame(deck).maxHealth
  {
    PermutationOfCanonical(deck);
    var v := NewGame(deck);
    RoomIsEmptyIffNoCards(v.roomSlots);
  }

  /** `fill_room` on a whole game: only the room and the deck change, and no card is lost. */
  function FillRoom(v: GameView): (r: GameView)
    ensures r == v.(roomSlots := r.roomSlots, deck := r.deck)
    ensures |r.roomSlots| == |v.roomSlots| && |r.deck| <= |v.deck|
  {
    var (slots, deck) := FillSlots(v.roomSlots, v.deck);
    v.(roomSlots := slots, deck := deck)
  }

  /** Filling the room loses no card of the dungeon, and keeps the invariant. */
  lemma FillRoomConserves(v: GameView)
    ensures multiset(Pool(FillRoom(v))) == multiset(Pool(v))
    ensures Invariant(v) ==> Invariant(FillRoom(v))
  {
    FillConserves(v.roomSlots, v.deck);
    var r := FillRoom(v);
    forall c | c in Pool(r) ensures c in Pool(v) {
      assert c in multiset(Pool(r));
    }
  }

  /** `reset_to_playing`: a new game over the shuffled deck, the room filled, waiting for a room choice. */
  function ResetToPlaying(deck: seq<Card>): (r: GameView)
    ensures r.state == RoomChoice && !r.survived
    ensures r.health == r.maxHealth == StartingHealth
    ensures r.weapon.None? && r.lastMonsterSlainWithWeapon.None? && r.currentMonster.None?
    ensures r.canSkip && !r.awaitingWeaponChoice
    ensures |r.roomSlots| == RoomSize && multiset(Pool(r)) == multiset(deck)
  {
    var v := NewGame(deck).(state := RoomChoice);
    FillRoomConserves(v);
    RoomIsEmptyIffNoCards(v.roomSlots);
    FillRoom(v).(message := Messages.EnteredDungeon)
  }

  /** Filling an empty room takes its cards, in slot order, from the front of the deck. */
  lemma {:induction false} NewCardsFromEmpty(before: seq<Option<Card>>, after: seq<Option<Card>>)
    requires |before| == |after| && RoomIsEmpty(before)
    ensures NewCards(before, after) == Flatten(after)
  {
    if before != [] {
      assert RoomIsEmpty(before[1..]) by {
        forall i | 0 <= i < |before[1..]| ensures before[1..][i].None? {
          assert before[1..][i] == before[i + 1];
        }
      }
      NewCardsFromEmpty(before[1..], after[1..]);
    }
  }

  /**
   * Entering the dungeon deals the first four cards of the shuffled deck into the four
   * slots, in slot order, and keeps the other forty, in order, as the deck.
   */
  lemma ResetToPlayingDeals(deck: seq<Card>)
    requires multiset(deck) == multiset(CanonicalDeck())
    ensures var v := ResetToPlaying(deck);
      && Invariant(v) && v.state == RoomChoice && v.canSkip
      && (forall i :: 0 <= i < |v.roomSlots| ==> v.roomSlots[i].Some?)
      && Flatten(v.roomSlots) + v.deck == deck
  {
    PermutationOfCanonical(deck);
    var e := EmptySlots(RoomSize);
    var r := FillSlots(e, deck);
    FillTakesFromFront(e, deck);
    NewCardsFromEmpty(e, r.0);
    FillStopsOnlyWhenDeckEmpty(e, deck);
    assert r.1 != [] by {
      assert |Flatten(r.0)| <= RoomSize;
    }
    var v := ResetToPlaying(deck);
    assert v.roomSlots == r.0 && v.deck == r.1;
    assert Pool(v) == deck;
  }

  /** `face_room`: one potion allowed again, three interactions, card selection. */
  function FaceRoom(v: GameView): (r: GameView)
    ensures r.state == CardSelection
    ensures r.interactionsLeftInRoom == InteractionsPerRoom && !r.potionUsedThisRoom
    ensures Pool(r) == Pool(v) && r.health == v.health && r.canSkip == v.canSkip
  {
    v.(potionUsedThisRoom := false,
       interactionsLeftInRoom := InteractionsPerRoom,
       state := CardSelection,
       message := Messages.FaceRoom)
  }

  /** Facing a room keeps the invariant and starts a window of three interactions. */
  lemma FaceRoomKeepsInvariant(v: GameView)
    requires Invariant(v)
    ensures Invariant(FaceRoom(v)) && Pool(FaceRoom(v)) == Pool(v)
    ensures FaceRoom(v).interactionsLeftInRoom == 3 && !FaceRoom(v).potionUsedThisRoom
  {
  }

  /** `skip_room`. */
  function SkipRoom(v: GameView): (r: GameView)
    ensures !v.canSkip ==> r == v.(message := Messages.NeedFaceOnly)
    ensures v.canSkip ==> !r.canSkip && (r.state == GameOver || r.state == v.state)
    ensures r.health == v.health && r.weapon == v.weapon && |r.roomSlots| == |v.roomSlots|
  {
    if !v.canSkip then
      v.(message := Messages.NeedFaceOnly)
    else
      var (slots, deck) := FillSlots(EmptySlots(|v.roomSlots|), v.deck + Flatten(v.roomSlots));
      WinCheck(v.(roomSlots := slots, deck := deck, canSkip := false), v.state, Messages.SkippedRoom)
  }

  /** A skip that is not allowed changes nothing but the message. */
  lemma SkipRoomRefused(v: GameView)
    requires !v.canSkip
    ensures SkipRoom(v) == v.(message := Messages.NeedFaceOnly)
  {
  }

  /**
   * An allowed skip puts the room's cards at the back of the deck in slot order, uses up
   * the skip and refills the room from the deck; health, weapon, potion flag, counter and
   * prompt are untouched.
   */
  lemma SkipRoomReturnsRoom(v: GameView)
    requires v.canSkip
    ensures var r := SkipRoom(v);
      && (r.roomSlots, r.deck) == FillSlots(EmptySlots(|v.roomSlots|), v.deck + Flatten(v.roomSlots))
      && !r.canSkip
      && r.health == v.health && r.weapon == v.weapon
      && r.lastMonsterSlainWithWeapon == v.lastMonsterSlainWithWeapon
      && r.potionUsedThisRoom == v.potionUsedThisRoom
      && r.interactionsLeftInRoom == v.interactionsLeftInRoom
      && r.currentMonster == v.currentMonster && r.awaitingWeaponChoice == v.awaitingWeaponChoice
  {
  }

  /** An allowed skip keeps every card and declares survival exactly when no card is left. */
  lemma SkipRoomWinsIffNoCards(v: GameView)
    requires v.canSkip
    ensures var r := SkipRoom(v);
      && multiset(Pool(r)) == multiset(Pool(v))
      && r.state == (if Pool(v) == [] then GameOver else v.state)
      && r.survived == (Pool(v) == [] || v.survived)
  {
    var n := |v.roomSlots|;
    var back := v.deck + Flatten(v.roomSlots);
    var f := FillSlots(EmptySlots(n), back);
    var dealt := v.(roomSlots := f.0, deck := f.1, canSkip := false);
    var r := SkipRoom(v);
    assert r == WinCheck(dealt, v.state, Messages.SkippedRoom);
    WinCheckOutcome(dealt, v.state, Messages.SkippedRoom);
    RoomIsEmptyIffNoCards(EmptySlots(n));
    FillConserves(EmptySlots(n), back);
    assert multiset(Pool(r)) == multiset(back) == multiset(Pool(v));
    assert Pool(r) == [] <==> Pool(v) == [] by {
      assert |multiset(Pool(r))| == |multiset(Pool(v))|;
    }
  }

  // ---------------------------------------------------------------------------
  // Combat

  /** `can_use_weapon_on`. */
  predicate CanUseWeaponOn(weapon: Option<Card>, lastSlain: Option<U8>, monster: Card): (ok: bool)
    ensures ok ==> weapon.Some?
    ensures weapon.Some? && lastSlain.None? ==> ok
    ensures weapon.Some? && lastSlain.Some? ==> (ok <==> monster.value < lastSlain.value)
  {
    if weapon.None? then false
    else match lastSlain
      case None => true
      case Some(last) => monster.value < last
  }

  /** The damage a monster deals when fought with a weapon: its rank beyond the weapon's. */
  function WeaponDamage(weapon: Card, monster: Card): (dmg: int)
    ensures 0 <= dmg <= monster.value
    ensures dmg == 0 <==> monster.value <= weapon.value
    ensures dmg > 0 ==> dmg == monster.value - weapon.value
  {
    if monster.value - weapon.value > 0 then monster.value - weapon.value else 0
  }

  /** `handle_monster_with_weapon`: the damage, and the kill recorded on the weapon. */
  function HandleMonsterWithWeapon(v: GameView, monster: Card): (r: (GameView, int))
    ensures 0 <= r.1 <= monster.value
    ensures v.weapon.None? ==> r == (v, monster.value)
    ensures v.weapon.Some? ==>
      && r.0 == v.(lastMonsterSlainWithWeapon := Some(monster.value))
      && r.1 == WeaponDamage(v.weapon.value, monster)
      && forall m: Card :: CanUseWeaponOn(r.0.weapon, r.0.lastMonsterSlainWithWeapon, m) <==> m.value < monster.value
  {
    if v.weapon.Some? then
      (v.(lastMonsterSlainWithWeapon := Some(monster.value)), WeaponDamage(v.weapon.value, monster))
    else
      (v, monster.value)
  }

  /** `handle_monster_without_weapon`: full damage. */
  function HandleMonsterWithoutWeapon(monster: Card): (dmg: int)
    ensures forall w: Card :: WeaponDamage(w, monster) <= dmg
    ensures InDungeon(monster) ==> 2 <= dmg <= TopRank(monster.suit)
  {
    monster.value
  }

  /**
   * A kill degrades the weapon: afterwards it can be used exactly on monsters strictly
   * weaker than the one just slain, and only on monsters it could be used on before.
   */
  lemma KillDegradesWeapon(v: GameView, monster: Card, next: Card)
    requires CanUseWeaponOn(v.weapon, v.lastMonsterSlainWithWeapon, monster)
    ensures var after := HandleMonsterWithWeapon(v, monster).0;
      && (CanUseWeaponOn(after.weapon, after.lastMonsterSlainWithWeapon, next) <==> next.value < monster.value)
      && (CanUseWeaponOn(after.weapon, after.lastMonsterSlainWithWeapon, next) ==>
            CanUseWeaponOn(v.weapon, v.lastMonsterSlainWithWeapon, next))
  {
  }

  /** Fighting the monsters of `kills` one after another with the weapon. */
  function SlayAll(v: GameView, kills: seq<Card>): GameView
    decreases kills
  {
    if kills == [] then v else SlayAll(HandleMonsterWithWeapon(v, kills[0]).0, kills[1..])
  }

  /**
   * After a run of kills with the same weapon, the weapon can be used on a monster exactly
   * when it is strictly weaker than the last one slain.
   */
  lemma {:induction false} DegradationAfterKills(v: GameView, kills: seq<Card>, next: Card)
    requires v.weapon.Some? && kills != []
    ensures var w := SlayAll(v, kills);
      CanUseWeaponOn(w.weapon, w.lastMonsterSlainWithWeapon, next) <==> next.value < kills[|kills| - 1].value
    decreases kills
  {
    var after := HandleMonsterWithWeapon(v, kills[0]).0;
    if |kills| > 1 {
      DegradationAfterKills(after, kills[1..], next);
    }
  }

  // ---------------------------------------------------------------------------
  // The shared advance step

  /**
   * The win check `skip_room` and `continue_after_interaction` share: with the room and
   * the deck both empty the game is survived, otherwise play moves to `next` with `note`.
   */
  function WinCheck(v: GameView, next: GameState, note: Messages.Message): (r: GameView)
    ensures r == v.(survived := r.survived, state := r.state, message := r.message)
    ensures r.state == GameOver || (r.state == next && r.survived == v.survived)
  {
    if RoomIsEmpty(v.roomSlots) && v.deck == [] then
      v.(survived := true, state := GameOver, message := Messages.YouSurvived)
    else
      v.(state := next, message := note)
  }

  /** The win check declares survival exactly when no card is left, and touches nothing but the outcome. */
  lemma WinCheckOutcome(v: GameView, next: GameState, note: Messages.Message)
    ensures var r := WinCheck(v, next, note);
      && r == v.(survived := r.survived, state := r.state, message := r.message)
      && r.survived == (Pool(v) == [] || v.survived)
      && r.state == (if Pool(v) == [] then GameOver else next)
  {
    NoCardsLeftIff(v);
  }

  /** `continue_after_interaction`. */
  function ContinueAfterInteraction(v: GameView): (r: GameView)
    ensures v.health <= 0 ==> r.state == GameOver && !r.survived
    ensures v.health > 0 ==> r.state in {GameOver, RoomChoice, CardSelection}
    ensures r.health == v.health && r.weapon == v.weapon
    ensures |r.roomSlots| == |v.roomSlots| && r.awaitingWeaponChoice == v.awaitingWeaponChoice
  {
    if v.health <= 0 then
      v.(survived := false, state := GameOver, message := Messages.YouDied)
    else
      var left: U8 := if v.interactionsLeftInRoom > 0 then v.interactionsLeftInRoom - 1 else v.interactionsLeftInRoom;
      var counted := v.(interactionsLeftInRoom := left);
      if left == 0 then
        WinCheck(FillRoom(counted.(canSkip := true)), RoomChoice, Messages.RoomResolved)
      else
        WinCheck(counted, CardSelection, v.message)
  }

  /** The death check comes first: with no health left the game is lost, whatever else holds. */
  lemma ContinueDeathCheckFirst(v: GameView)
    requires v.health <= 0
    ensures ContinueAfterInteraction(v) == v.(survived := false, state := GameOver, message := Messages.YouDied)
  {
  }

  /** The game is won on an empty room and an empty deck, that is when no card is left. */
  lemma NoCardsLeftIff(v: GameView)
    ensures RoomIsEmpty(v.roomSlots) && v.deck == [] <==> Pool(v) == []
  {
    RoomIsEmptyIffNoCards(v.roomSlots);
  }

  /**
   * With health left, one interaction is used up and the counter never goes below zero;
   * health, weapon, potion flag and prompt are untouched.
   */
  lemma ContinueCountsInteraction(v: GameView)
    requires v.health > 0
    ensures var r := ContinueAfterInteraction(v);
      && r.interactionsLeftInRoom == (if v.interactionsLeftInRoom > 0 then v.interactionsLeftInRoom - 1 else 0)
      && r.health == v.health && r.maxHealth == v.maxHealth && r.weapon == v.weapon
      && r.lastMonsterSlainWithWeapon == v.lastMonsterSlainWithWeapon
      && r.potionUsedThisRoom == v.potionUsedThisRoom
      && r.currentMonster == v.currentMonster && r.awaitingWeaponChoice == v.awaitingWeaponChoice
  {
    var left: U8 := if v.interactionsLeftInRoom > 0 then v.interactionsLeftInRoom - 1 else 0;
    var counted := v.(interactionsLeftInRoom := left);
    if left == 0 {
      var f := FillRoom(counted.(canSkip := true));
      assert ContinueAfterInteraction(v) == WinCheck(f, RoomChoice, Messages.RoomResolved);
      WinCheckOutcome(f, RoomChoice, Messages.RoomResolved);
    } else {
      assert ContinueAfterInteraction(v) == WinCheck(counted, CardSelection, v.message);
      WinCheckOutcome(counted, CardSelection, v.message);
    }
  }

  /**
   * When the counter reaches zero the room window closes: skipping is allowed again and the
   * room is refilled from the deck.
   */
  lemma ContinueClosesRoom(v: GameView)
    requires v.health > 0 && v.interactionsLeftInRoom <= 1
    ensures var r := ContinueAfterInteraction(v);
      r.canSkip && (r.roomSlots, r.deck) == FillSlots(v.roomSlots, v.deck)
  {
  }

  /**
   * After the room window closes, play goes back to the room choice, or ends in survival
   * when no card is left.
   */
  lemma ContinueNextRoomOrWin(v: GameView)
    requires v.health > 0 && v.interactionsLeftInRoom <= 1
    ensures var r := ContinueAfterInteraction(v);
      && r.state == (if Pool(v) == [] then GameOver else RoomChoice)
      && r.survived == (Pool(v) == [] || v.survived)
  {
    var f := FillRoom(v.(interactionsLeftInRoom := 0, canSkip := true));
    assert ContinueAfterInteraction(v) == WinCheck(f, RoomChoice, Messages.RoomResolved);
    FillEmptyIff(v.roomSlots, v.deck);
    NoCardsLeftIff(v);
  }

  /**
   * While interactions remain, room, deck and skip flag are untouched and play returns to
   * the card selection, or ends in survival when no card is left.
   */
  lemma ContinueStaysInRoom(v: GameView)
    requires v.health > 0 && v.interactionsLeftInRoom > 1
    ensures var r := ContinueAfterInteraction(v);
      && r.canSkip == v.canSkip && r.roomSlots == v.roomSlots && r.deck == v.deck
      && r.state == (if Pool(v) == [] then GameOver else CardSelection)
      && r.survived == (Pool(v) == [] || v.survived)
  {
    NoCardsLeftIff(v);
  }

  /** The advance step keeps the invariant and every card in the dungeon. */
  lemma ContinueKeepsInvariant(v: GameView)
    requires Invariant(v)
    ensures Invariant(ContinueAfterInteraction(v))
    ensures multiset(Pool(ContinueAfterInteraction(v))) == multiset(Pool(v))
  {
    var r := ContinueAfterInteraction(v);
    if v.health > 0 {
      ContinueCountsInteraction(v);
      if v.interactionsLeftInRoom <= 1 {
        ContinueClosesRoom(v);
        ContinueNextRoomOrWin(v);
        FillConserves(v.roomSlots, v.deck);
      } else {
        ContinueStaysInRoom(v);
      }
    }
    assert multiset(Pool(r)) == multiset(Pool(v));
    forall c | c in Pool(r) ensures InDungeon(c) {
      assert c in multiset(Pool(r));
    }
  }

  // ---------------------------------------------------------------------------
  // Playing a card and answering the weapon prompt

  /** The guards of `play_card_from_slot`: card selection, an index below 4, an occupied slot. */
  predicate Playable(v: GameView, idx: nat)
    requires |v.roomSlots| == RoomSize
  {
    v.state == CardSelection && idx < RoomSize && v.roomSlots[idx].Some?
  }

  /** `play_card_from_slot`: take the card out of its slot and resolve it by suit. */
  function PlayCardFromSlot(v: GameView, idx: nat): (r: (GameView, ResolveOutcome))
    requires |v.roomSlots| == RoomSize
    ensures r.1 == NoResolution && |r.0.roomSlots| == RoomSize
    ensures !Playable(v, idx) ==> r.0 == v.(message := r.0.message)
  {
    if v.state != CardSelection then
      (v.(message := Messages.MustFaceFirst), NoResolution)
    else if idx >= RoomSize then
      (v.(message := Messages.InvalidCardSelection), NoResolution)
    else if v.roomSlots[idx].None? then
      (v.(message := Messages.InvalidCardSelection), NoResolution)
    else
      var card := v.roomSlots[idx].value;
      if IsMonster(card) && CanUseWeaponOn(v.weapon, v.lastMonsterSlainWithWeapon, card) then
        (v.(roomSlots := v.roomSlots[idx := None],
            currentMonster := Some(card),
            awaitingWeaponChoice := true,
            state := CardInteraction,
            message := Messages.WeaponPrompt(card, v.weapon)),
         NoResolution)
      else
        (ContinueAfterInteraction(ResolveCard(v, idx)), NoResolution)
  }

  /**
   * The effect of a played card that needs no prompt, before the advance step: a monster
   * fought bare-handed deals its rank as damage, a diamond is equipped with no kill
   * recorded, and a heart heals up to the maximum unless a potion was already drunk here.
   */
  function ResolveCard(v: GameView, idx: nat): (r: GameView)
    requires idx < |v.roomSlots| && v.roomSlots[idx].Some?
    ensures r.state == CardInteraction && r.roomSlots == v.roomSlots[idx := None] && r.deck == v.deck
    ensures r.awaitingWeaponChoice == v.awaitingWeaponChoice && r.survived == v.survived
    ensures IsMonster(v.roomSlots[idx].value) ==>
      r.health == v.health - v.roomSlots[idx].value.value && r.currentMonster == Some(v.roomSlots[idx].value)
    ensures v.roomSlots[idx].value.suit == D ==>
      r.weapon == Some(v.roomSlots[idx].value) && r.lastMonsterSlainWithWeapon.None? && r.health == v.health
    ensures v.roomSlots[idx].value.suit == H ==>
      r.potionUsedThisRoom && r.weapon == v.weapon && (v.health <= v.maxHealth ==> v.health <= r.health <= v.maxHealth)
  {
    var card := v.roomSlots[idx].value;
    var slots := v.roomSlots[idx := None];
    match card.suit
    case S | C =>
      var dmg := HandleMonsterWithoutWeapon(card);
      v.(roomSlots := slots,
         currentMonster := Some(card),
         health := v.health - dmg,
         state := CardInteraction,
         message := Messages.FoughtMonster(dmg))
    case D =>
      v.(roomSlots := slots,
         weapon := Some(card),
         lastMonsterSlainWithWeapon := None,
         state := CardInteraction,
         message := Messages.Equipped(card))
    case H =>
      var healed := v.health + card.value;
      if !v.potionUsedThisRoom then
        v.(roomSlots := slots,
           state := CardInteraction,
           health := if healed < v.maxHealth then healed else v.maxHealth,
           potionUsedThisRoom := true,
           message := Messages.Healed(card.value))
      else
        v.(roomSlots := slots, state := CardInteraction, message := Messages.PotionWasted)
  }

  /** A play that fails a guard changes nothing but the message. */
  lemma PlayCardRefused(v: GameView, idx: nat)
    requires |v.roomSlots| == RoomSize && !Playable(v, idx)
    ensures PlayCardFromSlot(v, idx) ==
      (v.(message := if v.state != CardSelection then Messages.MustFaceFirst else Messages.InvalidCardSelection),
       NoResolution)
  {
  }

  /**
   * A valid play removes exactly the chosen card from the dungeon, keeps the invariant,
   * and never asks the driver to wait for a "continue".
   */
  lemma PlayCardTakesCard(v: GameView, idx: nat)
    requires Invariant(v) && Playable(v, idx)
    ensures var r := PlayCardFromSlot(v, idx);
      && r.1 == NoResolution
      && Invariant(r.0)
      && multiset(Pool(r.0)) + multiset{v.roomSlots[idx].value} == multiset(Pool(v))
  {
    var card := v.roomSlots[idx].value;
    var r := PlayCardFromSlot(v, idx);
    if IsMonster(card) && CanUseWeaponOn(v.weapon, v.lastMonsterSlainWithWeapon, card) {
      PromptKeepsInvariant(v, idx);
    } else {
      assert r == (ContinueAfterInteraction(ResolveCard(v, idx)), NoResolution);
      ResolveCardKeepsInvariant(v, idx);
      ContinueKeepsInvariant(ResolveCard(v, idx));
    }
  }

  /** Opening the weapon prompt keeps the invariant and loses only the held monster from the dungeon. */
  lemma PromptKeepsInvariant(v: GameView, idx: nat)
    requires Invariant(v) && Playable(v, idx)
    requires IsMonster(v.roomSlots[idx].value)
    requires CanUseWeaponOn(v.weapon, v.lastMonsterSlainWithWeapon, v.roomSlots[idx].value)
    ensures var r := PlayCardFromSlot(v, idx);
      && r.1 == NoResolution
      && Invariant(r.0)
      && multiset(Pool(r.0)) + multiset{v.roomSlots[idx].value} == multiset(Pool(v))
  {
    TakenKeepsInvariant(v, idx);
    var card := v.roomSlots[idx].value;
    var r := PlayCardFromSlot(v, idx);
    assert r.0.roomSlots == v.roomSlots[idx := None] && r.0.deck == v.deck;
  }

  /** The effect of a played card keeps the invariant and loses only that card. */
  lemma ResolveCardKeepsInvariant(v: GameView, idx: nat)
    requires Invariant(v) && Playable(v, idx)
    ensures Invariant(ResolveCard(v, idx))
    ensures multiset(Pool(ResolveCard(v, idx))) + multiset{v.roomSlots[idx].value} == multiset(Pool(v))
  {
    TakenKeepsInvariant(v, idx);
    ResolveCardEmptiesSlot(v, idx);
    match v.roomSlots[idx].value.suit
    case S | C => MonsterKeepsInvariant(v, idx);
    case D => WeaponKeepsInvariant(v, idx);
    case H => PotionKeepsInvariant(v, idx);
  }

  /** A monster fought bare-handed keeps the invariant. */
  lemma MonsterKeepsInvariant(v: GameView, idx: nat)
    requires Invariant(v) && Playable(v, idx) && IsMonster(v.roomSlots[idx].value)
    requires Invariant(v.(roomSlots := v.roomSlots[idx := None])) && InDungeon(v.roomSlots[idx].value)
    ensures Invariant(ResolveCard(v, idx))
  {
  }

  /** An equipped diamond keeps the invariant. */
  lemma WeaponKeepsInvariant(v: GameView, idx: nat)
    requires Invariant(v) && Playable(v, idx) && v.roomSlots[idx].value.suit == D
    requires Invariant(v.(roomSlots := v.roomSlots[idx := None])) && InDungeon(v.roomSlots[idx].value)
    ensures Invariant(ResolveCard(v, idx))
  {
  }

  /** A drunk or wasted potion keeps the invariant. */
  lemma PotionKeepsInvariant(v: GameView, idx: nat)
    requires Invariant(v) && Playable(v, idx) && v.roomSlots[idx].value.suit == H
    requires Invariant(v.(roomSlots := v.roomSlots[idx := None]))
    ensures Invariant(ResolveCard(v, idx))
  {
  }

  /** Resolving a card empties its slot and leaves the rest of the room and the deck alone. */
  lemma ResolveCardEmptiesSlot(v: GameView, idx: nat)
    requires idx < |v.roomSlots| && v.roomSlots[idx].Some?
    ensures ResolveCard(v, idx).roomSlots == v.roomSlots[idx := None]
    ensures ResolveCard(v, idx).deck == v.deck
  {
  }

  /** Taking the chosen card out of its slot keeps the invariant and loses only that card. */
  lemma TakenKeepsInvariant(v: GameView, idx: nat)
    requires Invariant(v) && Playable(v, idx)
    ensures var taken := v.(roomSlots := v.roomSlots[idx := None]);
      && Invariant(taken)
      && InDungeon(v.roomSlots[idx].value)
      && multiset(Pool(taken)) + multiset{v.roomSlots[idx].value} == multiset(Pool(v))
  {
    var card := v.roomSlots[idx].value;
    TakeFromSlot(v.roomSlots, idx);
    assert card in multiset(Flatten(v.roomSlots));
    assert card in Pool(v);
    var taken := v.(roomSlots := v.roomSlots[idx := None]);
    assert multiset(Pool(taken)) + multiset{card} == multiset(Pool(v));
    forall c | c in Pool(taken) ensures InDungeon(c) {
      assert c in multiset(Pool(taken));
      assert c in multiset(Pool(v));
    }
  }

  /** Emptying an occupied slot takes exactly its card out of the room. */
  lemma TakeFromSlot(slots: seq<Option<Card>>, idx: nat)
    requires idx < |slots| && slots[idx].Some?
    ensures multiset(Flatten(slots[idx := None])) + multiset{slots[idx].value} == multiset(Flatten(slots))
  {
    var card := slots[idx].value;
    var before, after := slots[..idx], slots[idx + 1..];
    assert slots == before + [Some(card)] + after;
    assert slots[idx := None] == before + [None] + after;
    FlattenConcat(before + [Some(card)], after);
    FlattenConcat(before, [Some(card)]);
    FlattenConcat(before + [None], after);
    FlattenConcat(before, [None]);
    assert Flatten([Some(card)]) == [card];
    assert Flatten([None]) == [];
  }

  /**
   * A monster the weapon can be used on opens the weapon prompt: the monster is held,
   * health is untouched and the room does not advance.
   */
  lemma PlayMonsterOpensPrompt(v: GameView, idx: nat)
    requires |v.roomSlots| == RoomSize && Playable(v, idx)
    requires IsMonster(v.roomSlots[idx].value)
    requires CanUseWeaponOn(v.weapon, v.lastMonsterSlainWithWeapon, v.roomSlots[idx].value)
    ensures var card := v.roomSlots[idx].value;
      PlayCardFromSlot(v, idx).0 ==
        v.(roomSlots := v.roomSlots[idx := None],
           currentMonster := Some(card),
           awaitingWeaponChoice := true,
           state := CardInteraction,
           message := Messages.WeaponPrompt(card, v.weapon))
  {
  }

  /**
   * A monster the weapon cannot be used on is fought bare-handed at once: it deals its full
   * rank as damage, and the advance step follows (losing the game if health is gone).
   */
  lemma PlayMonsterBareHanded(v: GameView, idx: nat)
    requires |v.roomSlots| == RoomSize && Playable(v, idx)
    requires IsMonster(v.roomSlots[idx].value)
    requires !CanUseWeaponOn(v.weapon, v.lastMonsterSlainWithWeapon, v.roomSlots[idx].value)
    ensures var card := v.roomSlots[idx].value;
      var r := PlayCardFromSlot(v, idx).0;
      && r.health == v.health - card.value
      && r.currentMonster == Some(card)
      && r.awaitingWeaponChoice == v.awaitingWeaponChoice
      && (r.health <= 0 ==> r.state == GameOver && !r.survived)
      && (r.health > 0 ==>
            r.interactionsLeftInRoom == (if v.interactionsLeftInRoom > 0 then v.interactionsLeftInRoom - 1 else 0))
  {
    var card := v.roomSlots[idx].value;
    var fought := ResolveCard(v, idx);
    assert fought.health == v.health - card.value && fought.currentMonster == Some(card);
    assert fought.awaitingWeaponChoice == v.awaitingWeaponChoice;
    assert PlayCardFromSlot(v, idx).0 == ContinueAfterInteraction(fought);
    if fought.health > 0 {
      ContinueCountsInteraction(fought);
    } else {
      ContinueDeathCheckFirst(fought);
    }
  }

  /** A diamond becomes the weapon, with no kill recorded yet, and the room advances. */
  lemma PlayWeaponEquips(v: GameView, idx: nat)
    requires |v.roomSlots| == RoomSize && Playable(v, idx)
    requires v.roomSlots[idx].value.suit == D
    ensures var r := PlayCardFromSlot(v, idx).0;
      && r.weapon == Some(v.roomSlots[idx].value)
      && r.lastMonsterSlainWithWeapon == None
      && r.health == v.health
      && (v.health > 0 ==>
            r.interactionsLeftInRoom == (if v.interactionsLeftInRoom > 0 then v.interactionsLeftInRoom - 1 else 0))
  {
    var card := v.roomSlots[idx].value;
    var equipped := ResolveCard(v, idx);
    assert equipped.weapon == Some(card) && equipped.lastMonsterSlainWithWeapon == None;
    assert equipped.health == v.health;
    assert PlayCardFromSlot(v, idx).0 == ContinueAfterInteraction(equipped);
    if v.health > 0 {
      ContinueCountsInteraction(equipped);
    } else {
      ContinueDeathCheckFirst(equipped);
    }
  }

  /**
   * A heart heals by its rank, capped at the maximum, only if no potion was drunk in this
   * room; a second potion is wasted. Either way the flag is set and the room advances.
   */
  lemma PlayPotionHeals(v: GameView, idx: nat)
    requires |v.roomSlots| == RoomSize && Playable(v, idx)
    requires v.roomSlots[idx].value.suit == H
    requires v.health <= v.maxHealth
    ensures var rank := v.roomSlots[idx].value.value;
      var r := PlayCardFromSlot(v, idx).0;
      && r.health == (if v.potionUsedThisRoom then v.health
                      else if v.health + rank < v.maxHealth then v.health + rank
                      else v.maxHealth)
      && v.health <= r.health <= v.maxHealth
      && r.potionUsedThisRoom
      && r.weapon == v.weapon
  {
    var rank := v.roomSlots[idx].value.value;
    var drunk := ResolveCard(v, idx);
    assert drunk.health == (if v.potionUsedThisRoom then v.health
                            else if v.health + rank < v.maxHealth then v.health + rank
                            else v.maxHealth);
    assert drunk.potionUsedThisRoom && drunk.weapon == v.weapon;
    assert PlayCardFromSlot(v, idx).0 == ContinueAfterInteraction(drunk);
    if drunk.health > 0 {
      ContinueCountsInteraction(drunk);
    } else {
      ContinueDeathCheckFirst(drunk);
    }
  }

  /** `answer_weapon_prompt`. */
  function AnswerWeaponPrompt(v: GameView, useWeapon: bool): (r: (GameView, ResolveOutcome))
    ensures !r.0.awaitingWeaponChoice
    ensures r.1 == AwaitContinue <==> v.awaitingWeaponChoice && v.currentMonster.Some?
    ensures r.1 == AwaitContinue ==>
      r.0.currentMonster.None? && r.0.health >= v.health - v.currentMonster.value.value
    ensures r.0.health <= v.health && r.0.state == v.state
    ensures r.0.roomSlots == v.roomSlots && r.0.deck == v.deck
  {
    if !v.awaitingWeaponChoice then
      (v, NoResolution)
    else if v.currentMonster.None? then
      (v.(awaitingWeaponChoice := false), NoResolution)
    else
      var monster := v.currentMonster.value;
      var (fought, dmg) :=
        if useWeapon then HandleMonsterWithWeapon(v, monster)
        else (v, HandleMonsterWithoutWeapon(monster));
      (fought.(currentMonster := None,
               health := fought.health - dmg,
               awaitingWeaponChoice := false,
               message := if useWeapon then Messages.FoughtWithWeapon(dmg) else Messages.FoughtMonster(dmg)),
       AwaitContinue)
  }

  /** Without a pending prompt, an answer is ignored entirely. */
  lemma AnswerIgnoredWithoutPrompt(v: GameView, useWeapon: bool)
    requires !v.awaitingWeaponChoice
    ensures AnswerWeaponPrompt(v, useWeapon) == (v, NoResolution)
  {
  }

  /**
   * An answer to a pending prompt fights the held monster: with the weapon it deals only
   * its rank beyond the weapon's and records the kill, without it deals its full rank.
   * The prompt is cleared, the control state and the dungeon are untouched, and the
   * driver must call the advance step next.
   */
  lemma AnswerResolvesFight(v: GameView, useWeapon: bool)
    requires v.awaitingWeaponChoice && v.currentMonster.Some?
    ensures var monster := v.currentMonster.value;
      var armed := useWeapon && v.weapon.Some?;
      var r := AnswerWeaponPrompt(v, useWeapon);
      && r.1 == AwaitContinue
      && !r.0.awaitingWeaponChoice && r.0.currentMonster == None
      && r.0.health == v.health - (if armed then WeaponDamage(v.weapon.value, monster) else monster.value)
      && r.0.health >= v.health - monster.value
      && r.0.lastMonsterSlainWithWeapon == (if armed then Some(monster.value) else v.lastMonsterSlainWithWeapon)
      && r.0.state == v.state && r.0.weapon == v.weapon
      && r.0.roomSlots == v.roomSlots && r.0.deck == v.deck
      && r.0.canSkip == v.canSkip && r.0.interactionsLeftInRoom == v.interactionsLeftInRoom
  {
  }

  /** Answering the prompt keeps the invariant and every card in the dungeon. */
  lemma AnswerKeepsInvariant(v: GameView, useWeapon: bool)
    requires Invariant(v)
    ensures Invariant(AnswerWeaponPrompt(v, useWeapon).0)
    ensures Pool(AnswerWeaponPrompt(v, useWeapon).0) == Pool(v)
  {
  }

  /**
   * Under the invariant a pending prompt always holds a monster, so an answer always
   * fights: the arm of `answer_weapon_prompt` that finds no monster is never taken.
   */
  lemma AnswerAlwaysFights(v: GameView, useWeapon: bool)
    requires Invariant(v) && v.awaitingWeaponChoice
    ensures v.currentMonster.Some?
    ensures AnswerWeaponPrompt(v, useWeapon).1 == AwaitContinue
  {
  }

  /** Skipping keeps the invariant. */
  lemma SkipKeepsInvariant(v: GameView)
    requires Invariant(v)
    ensures Invariant(SkipRoom(v)) && multiset(Pool(SkipRoom(v))) == multiset(Pool(v))
  {
    if v.canSkip {
      SkipRoomReturnsRoom(v);
      SkipRoomWinsIffNoCards(v);
      var r := SkipRoom(v);
      forall c | c in Pool(r) ensures InDungeon(c) {
        assert c in multiset(Pool(r));
      }
    }
  }

  // ---------------------------------------------------------------------------
  // The control flow the front end keeps

  /**
   * What the front end's dispatch keeps true of the control state: only a finished game
   * can be survived, the player is alive whenever a room or a card is to be chosen, and a
   * prompt is pending only while a card is being resolved.
   */
  predicate Consistent(v: GameView) {
    && (v.survived ==> v.state == GameOver && v.health > 0)
    && (v.state in {MainMenu, RoomChoice, CardSelection} ==> v.health > 0)
    && (v.awaitingWeaponChoice ==> v.state == CardInteraction)
  }

  /** A new game and a restart start consistent. */
  lemma StartsConsistent(deck: seq<Card>)
    ensures Consistent(NewGame(deck)) && Consistent(ResetToPlaying(deck))
  {
    var v := NewGame(deck).(state := RoomChoice);
    assert ResetToPlaying(deck).state == RoomChoice && ResetToPlaying(deck).health == StartingHealth by {
      assert FillRoom(v).state == v.state && FillRoom(v).health == v.health;
    }
  }

  /** "start" in the main menu: the room is filled and a room is to be chosen. */
  lemma EnterKeepsConsistent(v: GameView)
    requires Consistent(v) && v.state == MainMenu
    ensures Consistent(FillRoom(v.(state := RoomChoice)))
  {
  }

  /** Facing or skipping a room, as the front end allows it, while a room is to be chosen. */
  lemma RoomChoiceKeepsConsistent(v: GameView)
    requires Consistent(v) && v.state == RoomChoice
    ensures Consistent(FaceRoom(v)) && Consistent(SkipRoom(v))
  {
    if v.canSkip {
      var r := SkipRoom(v);
      assert r.health == v.health && r.awaitingWeaponChoice == v.awaitingWeaponChoice
        && (r.survived ==> r.state == GameOver) && r.state in {RoomChoice, GameOver};
    }
  }

  /** Playing a card, in whatever state it is asked for. */
  lemma PlayKeepsConsistent(v: GameView, idx: nat)
    requires |v.roomSlots| == RoomSize && Consistent(v)
    ensures Consistent(PlayCardFromSlot(v, idx).0)
  {
    if Playable(v, idx) {
      var card := v.roomSlots[idx].value;
      if !(IsMonster(card) && CanUseWeaponOn(v.weapon, v.lastMonsterSlainWithWeapon, card)) {
        var played := ResolveCard(v, idx);
        assert played.state == CardInteraction && !played.survived && !played.awaitingWeaponChoice;
        ContinueKeepsConsistent(played);
      }
    }
  }

  /** Answering the prompt, in whatever state it is asked for. */
  lemma AnswerKeepsConsistent(v: GameView, useWeapon: bool)
    requires Consistent(v)
    ensures Consistent(AnswerWeaponPrompt(v, useWeapon).0)
  {
  }

  /** The advance step, as the front end calls it: a card was resolved and no prompt is pending. */
  lemma ContinueKeepsConsistent(v: GameView)
    requires Consistent(v) && v.state == CardInteraction && !v.awaitingWeaponChoice
    ensures Consistent(ContinueAfterInteraction(v))
  {
    var r := ContinueAfterInteraction(v);
    if v.health > 0 {
      assert r.health == v.health && !r.awaitingWeaponChoice;
      assert r.state in {GameOver, RoomChoice, CardSelection};
    }
  }

  /**
   * Outside the front end's dispatch the engine does not guard the flags: skipping a room
   * after a losing fight, with the dungeon otherwise empty, declares a survival with a
   * health of -5 and so a negative score for a survivor.
   */
  lemma SkipOutOfTurnSurvivesAtLoss()
    ensures var v := GameView(
        deck := [], roomSlots := EmptySlots(RoomSize), health := 5, maxHealth := StartingHealth,
        weapon := Some(Card(D, 2)), lastMonsterSlainWithWeapon := None, potionUsedThisRoom := false,
        canSkip := true, state := CardInteraction, survived := false, message := Messages.NoMessage,
        currentMonster := Some(Card(S, 10)), awaitingWeaponChoice := true, interactionsLeftInRoom := 1);
      var r := SkipRoom(AnswerWeaponPrompt(v, false).0);
      && Invariant(v) && Consistent(v)
      && r.survived && r.health == -5 && FinalScore(r) == -5
  {
    var v := GameView(
        deck := [], roomSlots := EmptySlots(RoomSize), health := 5, maxHealth := StartingHealth,
        weapon := Some(Card(D, 2)), lastMonsterSlainWithWeapon := None, potionUsedThisRoom := false,
        canSkip := true, state := CardInteraction, survived := false, message := Messages.NoMessage,
        currentMonster := Some(Card(S, 10)), awaitingWeaponChoice := true, interactionsLeftInRoom := 1);
    RoomIsEmptyIffNoCards(v.roomSlots);
    SkipRoomWinsIffNoCards(AnswerWeaponPrompt(v, false).0);
  }

  // ---------------------------------------------------------------------------
  // Scoring

  /** The monsters among `cards`, in order. */
  function Monsters(cards: seq<Card>): seq<Card> {
    if cards == [] then [] else (if IsMonster(cards[0]) then [cards[0]] else []) + Monsters(cards[1..])
  }

  /** The sum of the ranks of the monsters among `cards`. */
  function Threat(cards: seq<Card>): (t: int)
    ensures t >= 0
    ensures Monsters(cards) == [] ==> t == 0
  {
    if cards == [] then 0 else (if IsMonster(cards[0]) then cards[0].value else 0) + Threat(cards[1..])
  }

  /** When all cards are dealt cards (rank at least 2), the threat is zero exactly when no monster is left. */
  lemma {:induction false} ThreatZeroIffNoMonsters(cards: seq<Card>)
    requires forall c :: c in cards ==> InDungeon(c)
    ensures Threat(cards) == 0 <==> Monsters(cards) == []
    ensures Monsters(cards) == [] <==> forall c :: c in cards ==> !IsMonster(c)
  {
    if cards != [] {
      ThreatZeroIffNoMonsters(cards[1..]);
      assert forall c :: c in cards <==> c == cards[0] || c in cards[1..];
    }
  }

  /** `final_score`. */
  function FinalScore(v: GameView): (s: int)
    ensures v.survived ==> s == v.health
    ensures !v.survived ==> s <= 0
  {
    if v.survived then v.health else -Threat(Pool(v))
  }

  /**
   * A survivor scores their remaining health; otherwise the score is minus the total rank
   * of the monsters still in room and deck: never positive, and zero exactly when none is left.
   */
  lemma FinalScoreSpec(v: GameView)
    requires Invariant(v)
    ensures v.survived ==> FinalScore(v) == v.health
    ensures !v.survived ==> FinalScore(v) <= 0
    ensures !v.survived ==> (FinalScore(v) == 0 <==> forall c :: c in Pool(v) ==> !IsMonster(c))
    ensures Consistent(v) && v.survived ==> FinalScore(v) > 0
  {
    ThreatZeroIffNoMonsters(Pool(v));
  }

  /** `remaining_summary_line`. */
  function RemainingSummaryLine(v: GameView): (r: string)
    ensures r == NoMonstersLine <==> Monsters(Pool(v)) == []
    ensures Monsters(Pool(v)) != [] ==>
      |ThreatPrefix| < |r| && r[..|ThreatPrefix|] == ThreatPrefix && r[|ThreatPrefix|..] == NatText(Threat(Pool(v)))
  {
    var monsters := Monsters(Pool(v));
    if monsters == [] then NoMonstersLine
    else
      ThreatOfMonsters(Pool(v));
      var r := ThreatPrefix + NatText(Threat(monsters));
      assert r[0] != NoMonstersLine[0];
      assert r[..|ThreatPrefix|] == ThreatPrefix && r[|ThreatPrefix|..] == NatText(Threat(monsters));
      r
  }

  lemma {:induction false} ThreatOfMonsters(cards: seq<Card>)
    ensures Threat(Monsters(cards)) == Threat(cards)
  {
    if cards != [] {
      var rest := cards[1..];
      ThreatOfMonsters(rest);
      if IsMonster(cards[0]) {
        var m := Monsters(cards);
        assert m == [cards[0]] + Monsters(rest);
        assert m[0] == cards[0] && m[1..] == Monsters(rest);
      } else {
        assert Monsters(cards) == [] + Monsters(rest) == Monsters(rest);
      }
    }
  }

  /**
   * The summary says no monster remains exactly when none is left in room or deck;
   * otherwise it reports the same total as the score of a defeated player.
   */
  lemma SummaryMatchesScore(v: GameView)
    ensures RemainingSummaryLine(v) == NoMonstersLine <==> Monsters(Pool(v)) == []
    ensures Monsters(Pool(v)) != [] && !v.survived ==>
      RemainingSummaryLine(v) == ThreatPrefix + NatText(-FinalScore(v))
  {
    ThreatOfMonsters(Pool(v));
    if Monsters(Pool(v)) != [] {
      assert RemainingSummaryLine(v)[0] == 'R';
    }
  }
}
