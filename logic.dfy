/**
 * The `Game` struct of src/logic.rs as a class whose methods update its fields in place.
 * Every method is proved to move the game exactly as the matching function of `Rules`
 * moves its value `View()`, so what the lemmas of `Rules` state about those functions
 * (the invariant, card conservation, the win and death conditions) holds of this class.
 */
module Logic {
  import opened Wrappers
  import opened Cards
  import opened Rules
  import Messages
  import opened Decimal

  class Game {
    var deck: seq<Card>
    const roomSlots: array<Option<Card>>
    var health: int
    var maxHealth: int
    var weapon: Option<Card>
    var lastMonsterSlainWithWeapon: Option<U8>
    var potionUsedThisRoom: bool
    var canSkip: bool
    var state: GameState
    var survived: bool
    var message: Messages.Message
    var currentMonster: Option<Card>
    var awaitingWeaponChoice: bool
    var interactionsLeftInRoom: U8

    /** The value of the game, as the functions of `Rules` see it. */
    function View(): GameView
      reads this, roomSlots
    {
      GameView(deck, roomSlots[..], health, maxHealth, weapon, lastMonsterSlainWithWeapon,
               potionUsedThisRoom, canSkip, state, survived, message, currentMonster,
               awaitingWeaponChoice, interactionsLeftInRoom)
    }

    /** `Game::new()`: a fresh game in the main menu over a newly shuffled deck. */
    constructor (roll: nat -> nat)
      ensures roomSlots.Length == RoomSize && fresh(roomSlots)
      ensures View() == NewGame(ShuffledDeck(roll))
    {
      deck := [];
      roomSlots := new Option<Card>[RoomSize](_ => None);
      health := StartingHealth;
      maxHealth := StartingHealth;
      weapon := None;
      lastMonsterSlainWithWeapon := None;
      potionUsedThisRoom := false;
      canSkip := true;
      state := MainMenu;
      survived := false;
      message := Messages.NoMessage;
      currentMonster := None;
      awaitingWeaponChoice := false;
      interactionsLeftInRoom := 0;
      new;
      CreateDeck(roll);
      assert roomSlots[..] == EmptySlots(RoomSize);
    }

    /** `reset_to_playing`: a new game, already in the dungeon with the first room dealt. */
    method ResetToPlaying(roll: nat -> nat)
      requires roomSlots.Length == RoomSize
      modifies this, roomSlots
      ensures View() == Rules.ResetToPlaying(ShuffledDeck(roll))
    {
      Renew();
      CreateDeck(roll);
      state := RoomChoice;
      FillRoom();
      message := Messages.EnteredDungeon;
    }

    /** The fields `Game::new()` sets before it creates the deck, assigned again to this game. */
    method Renew()
      requires roomSlots.Length == RoomSize
      modifies this, roomSlots
      ensures View() == NewGame([])
    {
      ClearRoom();
      ResetStats();
      ResetFlow();
    }

    /** An empty deck and four empty slots. */
    method ClearRoom()
      requires roomSlots.Length == RoomSize
      modifies this`deck, roomSlots
      ensures deck == [] && roomSlots[..] == EmptySlots(RoomSize)
    {
      deck := [];
      roomSlots[0], roomSlots[1], roomSlots[2], roomSlots[3] := None, None, None, None;
    }

    /** Full health, no weapon, no potion drunk. */
    method ResetStats()
      modifies this`health, this`maxHealth, this`weapon, this`lastMonsterSlainWithWeapon, this`potionUsedThisRoom
      ensures health == maxHealth == StartingHealth && weapon.None? && lastMonsterSlainWithWeapon.None?
      ensures !potionUsedThisRoom
    {
      health := StartingHealth;
      maxHealth := StartingHealth;
      weapon := None;
      lastMonsterSlainWithWeapon := None;
      potionUsedThisRoom := false;
    }

    /** The main menu, with no monster held and no interaction pending. */
    method ResetFlow()
      modifies this`canSkip, this`state, this`survived, this`message, this`currentMonster,
        this`awaitingWeaponChoice, this`interactionsLeftInRoom
      ensures canSkip && state == MainMenu && !survived && message == Messages.NoMessage
      ensures currentMonster.None? && !awaitingWeaponChoice && interactionsLeftInRoom == 0
    {
      canSkip := true;
      state := MainMenu;
      survived := false;
      message := Messages.NoMessage;
      currentMonster := None;
      awaitingWeaponChoice := false;
      interactionsLeftInRoom := 0;
    }

    /** `create_deck`: the unshuffled deck is built, shuffled in place, and becomes the deck. */
    method CreateDeck(roll: nat -> nat)
      modifies this
      ensures View() == old(View()).(deck := ShuffledDeck(roll))
    {
      var cards := BuildCards();
      var a := new Card[|cards|](i requires 0 <= i < |cards| => cards[i]);
      assert a[..] == cards;
      Shuffle(a, roll);
      deck := a[..];
    }

    /** `room_is_empty`. */
    predicate RoomIsEmpty(): (empty: bool)
      reads roomSlots
      ensures empty <==> Flatten(roomSlots[..]) == []
    {
      RoomIsEmptyIffNoCards(roomSlots[..]);
      Rules.RoomIsEmpty(roomSlots[..])
    }

    /** `fill_room`: walk the slots left to right, giving each empty one the front card of the deck. */
    method FillRoom()
      modifies this, roomSlots
      ensures View() == Rules.FillRoom(old(View()))
    {
      DealSlots();
    }

    /** The slot walk of `fill_room`, stated on the room and the deck alone. */
    method DealSlots()
      modifies this`deck, roomSlots
      ensures (roomSlots[..], deck) == FillSlots(old(roomSlots[..]), old(deck))
    {
      ghost var slots0 := roomSlots[..];
      ghost var deck0 := deck;
      ghost var filled: seq<Option<Card>> := [];
      for i := 0 to roomSlots.Length
        invariant |filled| == i
        invariant forall k :: 0 <= k < i ==> roomSlots[k] == filled[k]
        invariant forall k :: i <= k < roomSlots.Length ==> roomSlots[k] == slots0[k]
        invariant filled + FillSlots(slots0[i..], deck).0 == FillSlots(slots0, deck0).0
        invariant FillSlots(slots0[i..], deck).1 == FillSlots(slots0, deck0).1
        modifies this`deck, roomSlots
      {
        FillAdvance(slots0, deck0, filled, i, deck);
        if roomSlots[i].None? {
          if deck != [] {
            roomSlots[i] := Some(deck[0]);
            deck := deck[1..];
          }
        }
        filled := filled + [roomSlots[i]];
      }
      assert slots0[roomSlots.Length..] == [];
      assert filled == FillSlots(slots0, deck0).0;
      assert deck == FillSlots(slots0, deck0).1;
      assert roomSlots[..] == filled;
    }

    /** `face_room`: start the window of three interactions for the current room. */
    method FaceRoom()
      modifies this
      ensures View() == Rules.FaceRoom(old(View()))
    {
      potionUsedThisRoom := false;
      interactionsLeftInRoom := InteractionsPerRoom;
      state := CardSelection;
      message := Messages.FaceRoom;
    }

    /** `skip_room`: return the room to the back of the deck, in slot order, and deal a new one. */
    method SkipRoom()
      requires roomSlots.Length == RoomSize
      modifies this, roomSlots
      ensures View() == Rules.SkipRoom(old(View()))
    {
      if !canSkip {
        message := Messages.NeedFaceOnly;
        return;
      }
      ReturnRoomToDeck();
      canSkip := false;
      FillRoom();
      CheckWin(state, Messages.SkippedRoom);
    }

    /** The first half of `skip_room`: every occupied slot, in order, is emptied onto the back of the deck. */
    method ReturnRoomToDeck()
      requires roomSlots.Length == RoomSize
      modifies this, roomSlots
      ensures View() == old(View()).(roomSlots := EmptySlots(RoomSize),
                                     deck := old(deck) + Flatten(old(roomSlots[..])))
    {
      ghost var slots0 := roomSlots[..];
      ghost var deck0 := deck;
      for i := 0 to RoomSize
        invariant forall k :: 0 <= k < i ==> roomSlots[k].None?
        invariant forall k :: i <= k < RoomSize ==> roomSlots[k] == slots0[k]
        invariant deck == deck0 + Flatten(slots0[..i])
        modifies this`deck, roomSlots
      {
        assert slots0[..i + 1] == slots0[..i] + [slots0[i]];
        FlattenConcat(slots0[..i], [slots0[i]]);
        if roomSlots[i].Some? {
          deck := deck + [roomSlots[i].value];
          roomSlots[i] := None;
        }
      }
      assert slots0[..RoomSize] == slots0;
      assert roomSlots[..] == EmptySlots(RoomSize);
    }

    /** `can_use_weapon_on`. */
    predicate CanUseWeaponOn(monster: Card): (ok: bool)
      reads this
      ensures ok ==> weapon.Some?
      ensures weapon.Some? && lastMonsterSlainWithWeapon.None? ==> ok
      ensures weapon.Some? && lastMonsterSlainWithWeapon.Some? ==>
        (ok <==> monster.value < lastMonsterSlainWithWeapon.value)
    {
      Rules.CanUseWeaponOn(weapon, lastMonsterSlainWithWeapon, monster)
    }

    /** `handle_monster_with_weapon`: the damage dealt, and the kill recorded on the weapon. */
    method HandleMonsterWithWeapon(monster: Card) returns (dmg: int)
      modifies this
      ensures (View(), dmg) == Rules.HandleMonsterWithWeapon(old(View()), monster)
    {
      if weapon.Some? {
        dmg := if monster.value - weapon.value.value > 0 then monster.value - weapon.value.value else 0;
        lastMonsterSlainWithWeapon := Some(monster.value);
      } else {
        dmg := monster.value;
      }
    }

    /** `play_card_from_slot`: take the card out of its slot and resolve it by suit. */
    method PlayCardFromSlot(idx: nat) returns (outcome: ResolveOutcome)
      requires roomSlots.Length == RoomSize
      modifies this, roomSlots
      ensures (View(), outcome) == Rules.PlayCardFromSlot(old(View()), idx)
    {
      outcome := NoResolution;
      if state != CardSelection {
        message := Messages.MustFaceFirst;
        return;
      }
      if idx >= RoomSize {
        message := Messages.InvalidCardSelection;
        return;
      }
      if roomSlots[idx].None? {
        message := Messages.InvalidCardSelection;
        return;
      }
      ghost var v := View();
      var card := roomSlots[idx].value;
      roomSlots[idx] := None;
      PlayCard(card, v, idx);
    }

    /** The suit dispatch of `play_card_from_slot`, once `card` is out of slot `idx` of `v`. */
    method PlayCard(card: Card, ghost v: GameView, idx: nat)
      requires |v.roomSlots| == RoomSize && Playable(v, idx) && card == v.roomSlots[idx].value
      requires View() == v.(roomSlots := v.roomSlots[idx := None]) && roomSlots.Length == RoomSize
      modifies this, roomSlots
      ensures View() == Rules.PlayCardFromSlot(v, idx).0
    {
      match card.suit
      case S | C =>
        PlayMonster(card, v, idx);
      case D =>
        Equip(card);
        assert View() == ResolveCard(v, idx);
        FinishCard(v, idx);
      case H =>
        DrinkPotion(card);
        assert View() == ResolveCard(v, idx);
        FinishCard(v, idx);
    }

    /** A monster from slot `idx` of `v`: held, then offered to the weapon or fought bare-handed. */
    method PlayMonster(monster: Card, ghost v: GameView, idx: nat)
      requires |v.roomSlots| == RoomSize && Playable(v, idx) && monster == v.roomSlots[idx].value
      requires IsMonster(monster)
      requires View() == v.(roomSlots := v.roomSlots[idx := None]) && roomSlots.Length == RoomSize
      modifies this, roomSlots
      ensures View() == Rules.PlayCardFromSlot(v, idx).0
    {
      currentMonster := Some(monster);
      if CanUseWeaponOn(monster) {
        OfferWeapon(monster);
      } else {
        FightBareHanded(monster);
        assert View() == ResolveCard(v, idx);
        FinishCard(v, idx);
      }
    }

    /** The advance step after a card resolved without a prompt. */
    method FinishCard(ghost v: GameView, idx: nat)
      requires |v.roomSlots| == RoomSize && Playable(v, idx)
      requires !(IsMonster(v.roomSlots[idx].value) &&
                 Rules.CanUseWeaponOn(v.weapon, v.lastMonsterSlainWithWeapon, v.roomSlots[idx].value))
      requires View() == ResolveCard(v, idx) && roomSlots.Length == RoomSize
      modifies this, roomSlots
      ensures View() == Rules.PlayCardFromSlot(v, idx).0
    {
      ContinueAfterInteraction();
    }

    /** A monster the weapon may fight: ask the player whether to use it. */
    method OfferWeapon(monster: Card)
      modifies this`awaitingWeaponChoice, this`state, this`message
      ensures awaitingWeaponChoice && state == CardInteraction
      ensures message == Messages.WeaponPrompt(monster, weapon)
    {
      awaitingWeaponChoice := true;
      state := CardInteraction;
      message := Messages.WeaponPrompt(monster, weapon);
    }

    /** A monster fought without the weapon: its rank comes off health. */
    method FightBareHanded(monster: Card)
      modifies this`health, this`state, this`message
      ensures health == old(health) - monster.value && state == CardInteraction
      ensures message == Messages.FoughtMonster(monster.value)
    {
      var dmg := Rules.HandleMonsterWithoutWeapon(monster);
      health := health - dmg;
      state := CardInteraction;
      message := Messages.FoughtMonster(dmg);
    }

    /** A diamond replaces the weapon, with no kill recorded for it yet. */
    method Equip(card: Card)
      modifies this`weapon, this`lastMonsterSlainWithWeapon, this`state, this`message
      ensures weapon == Some(card) && lastMonsterSlainWithWeapon.None? && state == CardInteraction
      ensures message == Messages.Equipped(card)
    {
      weapon := Some(card);
      lastMonsterSlainWithWeapon := None;
      state := CardInteraction;
      message := Messages.Equipped(card);
    }

    /** A heart heals up to the maximum, unless a potion was already drunk in this room. */
    method DrinkPotion(card: Card)
      modifies this`health, this`potionUsedThisRoom, this`state, this`message
      ensures state == CardInteraction && potionUsedThisRoom
      ensures !old(potionUsedThisRoom) ==>
        health == (if old(health) + card.value < maxHealth then old(health) + card.value else maxHealth) &&
        message == Messages.Healed(card.value)
      ensures old(potionUsedThisRoom) ==> health == old(health) && message == Messages.PotionWasted
    {
      state := CardInteraction;
      if !potionUsedThisRoom {
        var heal := card.value;
        health := if health + heal < maxHealth then health + heal else maxHealth;
        potionUsedThisRoom := true;
        message := Messages.Healed(heal);
      } else {
        message := Messages.PotionWasted;
      }
    }

    /** `answer_weapon_prompt`: fight the held monster with or without the weapon. */
    method AnswerWeaponPrompt(useWeapon: bool) returns (outcome: ResolveOutcome)
      modifies this
      ensures (View(), outcome) == Rules.AnswerWeaponPrompt(old(View()), useWeapon)
    {
      if !awaitingWeaponChoice {
        return NoResolution;
      }
      if currentMonster.None? {
        awaitingWeaponChoice := false;
        return NoResolution;
      }
      var monster := currentMonster.value;
      currentMonster := None;
      var dmg;
      if useWeapon {
        dmg := HandleMonsterWithWeapon(monster);
      } else {
        dmg := Rules.HandleMonsterWithoutWeapon(monster);
      }
      health := health - dmg;
      awaitingWeaponChoice := false;
      message := if useWeapon then Messages.FoughtWithWeapon(dmg) else Messages.FoughtMonster(dmg);
      return AwaitContinue;
    }

    /** `continue_after_interaction`: the death check, then the interaction count and the win check. */
    method ContinueAfterInteraction()
      requires roomSlots.Length == RoomSize
      modifies this, roomSlots
      ensures View() == Rules.ContinueAfterInteraction(old(View()))
    {
      if health <= 0 {
        EndGame(false);
        return;
      }
      if interactionsLeftInRoom > 0 {
        interactionsLeftInRoom := interactionsLeftInRoom - 1;
      }
      if interactionsLeftInRoom == 0 {
        canSkip := true;
        FillRoom();
        CheckWin(RoomChoice, Messages.RoomResolved);
        return;
      }
      CheckWin(CardSelection, message);
    }

    /** The win check shared by `skip_room` and `continue_after_interaction`. */
    method CheckWin(next: GameState, note: Messages.Message)
      modifies this
      ensures View() == WinCheck(old(View()), next, note)
    {
      if RoomIsEmpty() && deck == [] {
        EndGame(true);
      } else {
        state := next;
        message := note;
      }
    }

    /** The three assignments that end the game: survived or died. */
    method EndGame(won: bool)
      modifies this
      ensures View() == old(View()).(survived := won, state := GameOver,
                                     message := if won then Messages.YouSurvived else Messages.YouDied)
    {
      survived := won;
      state := GameOver;
      message := if won then Messages.YouSurvived else Messages.YouDied;
    }

    /** `remaining_summary_line`. */
    function RemainingSummaryLine(): (line: string)
      reads this, roomSlots
      ensures line == NoMonstersLine <==> Monsters(Pool(View())) == []
      ensures Monsters(Pool(View())) != [] ==>
        |ThreatPrefix| < |line| && line[|ThreatPrefix|..] == NatText(Threat(Pool(View())))
    {
      Rules.RemainingSummaryLine(View())
    }

    /** `final_score`. */
    function FinalScore(): (score: int)
      reads this, roomSlots
      ensures survived ==> score == health
      ensures !survived ==> score == -Threat(Pool(View())) && score <= 0
    {
      Rules.FinalScore(View())
    }
  }

  /** The invariant of `fill_room`'s walk, carried from slot `i` to slot `i + 1`. */
  lemma FillAdvance(slots0: seq<Option<Card>>, deck0: seq<Card>, filled: seq<Option<Card>>, i: nat, deck: seq<Card>)
    requires i < |slots0| && |filled| == i
    requires filled + FillSlots(slots0[i..], deck).0 == FillSlots(slots0, deck0).0
    requires FillSlots(slots0[i..], deck).1 == FillSlots(slots0, deck0).1
    ensures var drawn := slots0[i].None? && deck != [];
      var slot := if drawn then Some(deck[0]) else slots0[i];
      var rest := if drawn then deck[1..] else deck;
      && (filled + [slot]) + FillSlots(slots0[i + 1..], rest).0 == FillSlots(slots0, deck0).0
      && FillSlots(slots0[i + 1..], rest).1 == FillSlots(slots0, deck0).1
  {
    FillAt(slots0, i, deck);
  }

  /** One step of `FillSlots` at position `i` of `slots`. */
  lemma FillAt(slots: seq<Option<Card>>, i: nat, deck: seq<Card>)
    requires i < |slots|
    ensures var drawn := slots[i].None? && deck != [];
      var rest := FillSlots(slots[i + 1..], if drawn then deck[1..] else deck);
      FillSlots(slots[i..], deck) == ([if drawn then Some(deck[0]) else slots[i]] + rest.0, rest.1)
  {
    assert slots[i..][0] == slots[i] && slots[i..][1..] == slots[i + 1..];
  }
}
