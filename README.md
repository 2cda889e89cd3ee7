# Scoundrel rules engine in Dafny

Scoundrel is a solitaire dungeon crawl played with a 44-card deck. Spades and
clubs are monsters. Diamonds are weapons, and hearts are health potions; both
red suits have no face cards and no ace.

The player starts with 20 health. Four slots form the current **room**, which
is refilled from the front of the deck without moving the cards already in it.
In each room the player either:

- **skips** it, which sends its cards to the back of the deck in slot order and
  deals a new room (never twice in a row); or
- **faces** it, which gives three interactions.

Each interaction plays one card from a slot:

- A monster is fought bare-handed or, if the weapon may be used on it, after a
  yes/no prompt.
- A diamond replaces the weapon.
- A heart heals up to the maximum, but only the first heart of a room does.

A weapon that kills a monster may afterwards fight only monsters of lower rank
than its last kill. The game is lost when health drops to 0 or below. It is won
when the room and the deck are both empty. The final score is the remaining
health after a win, and minus the total monster rank left in the dungeon after
a loss.

The project models the `Game` state machine of `src/logic.rs` and the display
helpers of `src/render.rs`:

- `support.dfy`
  - `Wrappers`: `Option`.
  - `Messages`: the status messages as tags.
  - `Decimal`: the decimal text of integers, with its read-back.
- `cards.dfy` (`Cards`): cards, suits and the unshuffled deck. It also holds
  the nested loop that builds the deck and the in-place Fisher-Yates shuffle,
  whose random draws are a parameter.
- `rules.dfy` (`Rules`): every `Game` operation as a pure function on a
  `GameView` value. It also states the lemmas that say what those operations
  promise:
  - an invariant every operation keeps;
  - that the cards in room and deck are only ever lost by being played;
  - the refill discipline of the room;
  - weapon degradation;
  - the interaction window;
  - the win and death conditions;
  - the score, and that a survivor's score is positive when the operations
    are called in the states the front end calls them in.
- `logic.dfy` (`Logic`): the class `Game`. Its fields are those of the Rust
  struct, and the room is a fixed array of four slots. Each method updates the
  fields in place, step by step as the source does. Each is proved to move the
  game exactly as the matching `Rules` function moves `View()`, so every lemma
  about that function holds of the class.
- `render.dfy` (`Render`): the card labels, colours, the health bar and the
  status lines.

## Model

| member | source | states |
|---|---|---|
| `Cards.BuildCards` | src/logic.rs:104-114 | the nested suit/rank loop yields exactly the unshuffled deck: spades, clubs, diamonds, hearts, ranks increasing, red cards above 10 skipped |
| `Cards.CanonicalDeckAt` | src/logic.rs:106-114 | the card at each of the 44 positions of the unshuffled deck, by suit block and rank |
| `Cards.CanonicalDeckShape` | src/logic.rs:106-114 | the unshuffled deck has 44 cards and no duplicates; a card is in it iff it is a dungeon card (ranks 2-14 for S and C, 2-10 for D and H) |
| `Cards.PermutationOfCanonical` | src/logic.rs:116-118 | any rearrangement of the unshuffled deck, in particular the shuffled one, has 44 distinct dungeon cards and all of them |
| `Cards.FisherYates` | src/logic.rs:116-117 | a Fisher-Yates shuffle whose draws are injected, whatever the draws, is a rearrangement of its input that leaves the positions past `n` untouched |
| `Cards.FisherYatesIdentity` | src/logic.rs:116-117 | draws that always pick the current position leave the deck in order |
| `Cards.ShuffledDeck` | src/logic.rs:103-118 | the deck `create_deck` leaves holds exactly the cards of the unshuffled deck |
| `Cards.Shuffle` | src/logic.rs:116-117 | the in-place Fisher-Yates shuffle of an array, with injected draws, leaves the array equal to `FisherYates` of its old contents |
| `Decimal.NatTextRoundTrip` | src/logic.rs:368-369 | the decimal digits written for a number read back as that number |
| `Decimal.NatTextInjective` | src/logic.rs:368-369 | different numbers are written differently |
| `Decimal.IntText` | src/render.rs:62-64 | an `i32` is written with a leading '-' iff negative; a non-negative one is all digits and reads back as itself; after the '-' a negative one is the digits of its magnitude, which read back as the magnitude |
| `Rules.FillSlots` | src/logic.rs:126-134 | filling keeps the number of slots and never lengthens the deck |
| `Rules.RoomIsEmptyIffNoCards` | src/logic.rs:121-123 | `room_is_empty` holds iff the room holds no card |
| `Rules.FillKeepsOccupied` | src/logic.rs:126-134 | filling never moves or replaces a card already in a slot |
| `Rules.FillTakesFromFront` | src/logic.rs:126-134 | the cards put into empty slots, in slot order, followed by the deck left, are exactly the old deck |
| `Rules.FillStopsOnlyWhenDeckEmpty` | src/logic.rs:126-134 | after filling, either every slot is occupied or the deck is empty |
| `Rules.FillLeavesRestOnceEmpty` | src/logic.rs:127-133 | gaps are filled left to right: a slot still empty after filling means the deck is exhausted, and that slot and every slot after it are as they were |
| `Rules.FillRoom` | src/logic.rs:126-134 | filling the room changes only the slots and the deck, keeps the number of slots and never lengthens the deck |
| `Rules.FillConserves` | src/logic.rs:126-134 | filling keeps the multiset of cards in room and deck |
| `Rules.FillNothingToDo` | src/logic.rs:126-134 | with an empty deck or a full room, filling changes nothing |
| `Rules.FillIdempotent` | src/logic.rs:126-134 | filling twice is filling once |
| `Rules.FillEmptyIff` | src/logic.rs:126-134 | room and deck are both empty after filling iff both were empty before |
| `Rules.FillRoomConserves` | src/logic.rs:126-134 | `fill_room` loses and gains no card of the dungeon, and keeps the invariant |
| `Rules.NewGame` | src/logic.rs:66-93 | a new game is in the main menu, not won, at full health of 20, with an empty room of four slots over the given deck, no weapon, no kill, no held monster, no prompt, and a skip allowed |
| `Rules.NewGameValid` | src/logic.rs:66-93 | a new game over a shuffled deck is in the main menu at full health, satisfies the invariant, and holds the whole deck |
| `Rules.ResetToPlaying` | src/logic.rs:96-101 | a restart is a new game in room choice, at full health, with no weapon or prompt, a skip allowed, and exactly the cards of the given deck in room and deck |
| `Rules.ResetToPlayingDeals` | src/logic.rs:96-101 | after a reset the game is in room choice, may skip, has four occupied slots dealt from the front of the deck, and keeps the invariant |
| `Rules.FaceRoom` | src/logic.rs:136-141 | facing moves to card selection with three interactions and the potion flag cleared; cards, health and skip flag stay |
| `Rules.FaceRoomKeepsInvariant` | src/logic.rs:136-141 | facing a room opens a window of exactly three interactions, clears the potion flag, keeps the invariant and moves no card |
| `Rules.SkipRoom` | src/logic.rs:143-167 | a refused skip changes only the message; an allowed one forbids the next skip and either ends the game or keeps the state; health, weapon and room size never change |
| `Rules.WinCheckOutcome` | src/logic.rs:158-166 | the shared win check declares survival and ends the game exactly when no card is left, otherwise moves to the given state, and touches nothing but survival, state and message |
| `Rules.WinCheck` | src/logic.rs:160-166 | the win check (shared by skipping, by closing a resolved room and by a non-final interaction) changes only survival, state and message; it either ends the game or moves to the given state with survival unchanged |
| `Rules.SkipRoomRefused` | src/logic.rs:144-147 | a skip right after a skip changes nothing but the message |
| `Rules.SkipRoomReturnsRoom` | src/logic.rs:149-158 | an allowed skip appends the room's cards in slot order to the back of the deck, refills from the front, forbids the next skip, and leaves health, weapon, potion flag, interaction count and prompt alone |
| `Rules.SkipRoomWinsIffNoCards` | src/logic.rs:158-166 | an allowed skip keeps the dungeon's cards, and ends the game as a win exactly when no card is left |
| `Rules.SkipKeepsInvariant` | src/logic.rs:143-167 | skipping keeps the invariant and the multiset of dungeon cards |
| `Rules.CanUseWeaponOn` | src/logic.rs:169-177 | no weapon may fight nothing; a weapon with no kill may fight any monster; after a kill of rank N exactly the monsters below N |
| `Rules.HandleMonsterWithoutWeapon` | src/logic.rs:189-191 | a bare-handed fight costs at least as much as a fight with any weapon, and a dungeon monster's bare-handed damage lies between 2 and its suit's top rank |
| `Rules.WeaponDamage` | src/logic.rs:181 | damage through a weapon is the monster's rank beyond the weapon's, never negative and never more than the monster's rank; zero iff the weapon is at least as strong |
| `Rules.KillDegradesWeapon` | src/logic.rs:169-187 | after a weapon kill the weapon may fight exactly the monsters weaker than the one slain, and only ones it could fight before |
| `Rules.HandleMonsterWithWeapon` | src/logic.rs:179-187 | armed: the damage is the weapon damage, the slain monster's value is recorded and the weapon may then fight exactly the monsters weaker than it; unarmed: nothing changes and the damage is the monster's full value; the damage is never negative nor above the monster's value |
| `Rules.DegradationAfterKills` | src/logic.rs:173-182 | after any sequence of weapon kills, the weapon may fight exactly the monsters weaker than the last one slain |
| `Rules.ContinueAfterInteraction` | src/logic.rs:310-351 | with no health left the game ends lost; otherwise it goes to room choice, card selection or game over, never staying in the interaction; health, weapon, room size and prompt are untouched |
| `Rules.ContinueDeathCheckFirst` | src/logic.rs:311-317 | with health at or below 0, continuing loses the game and changes nothing else but the message |
| `Rules.NoCardsLeftIff` | src/logic.rs:331 | an empty room with an empty deck means exactly that no dungeon card is left |
| `Rules.ContinueCountsInteraction` | src/logic.rs:319-322 | a living player's continue counts one interaction down, not below 0, and leaves health, weapon, potion flag and prompt alone |
| `Rules.ContinueClosesRoom` | src/logic.rs:325-329 | when the last interaction is used, skipping is allowed again and the room is refilled from the deck |
| `Rules.ContinueNextRoomOrWin` | src/logic.rs:331-338 | at the end of the window the game is won iff no card is left, and otherwise goes to room choice |
| `Rules.ContinueStaysInRoom` | src/logic.rs:343-350 | inside the window room and deck are untouched, and the game is won iff no card is left, otherwise back to card selection |
| `Rules.ContinueKeepsInvariant` | src/logic.rs:310-351 | continuing keeps the invariant and the multiset of dungeon cards |
| `Rules.PlayCardFromSlot` | src/logic.rs:194-275 | a play always reports no resolution and keeps four slots; a play that fails a guard changes only the message |
| `Rules.ResolveCard` | src/logic.rs:230-267 | every card empties its slot and moves to the interaction step, leaving deck, survival and prompt alone; a monster costs its value in health and is held; a weapon is equipped fresh and costs nothing; a potion marks the room's potion as used and, from a legal health, heals without passing the maximum |
| `Rules.PlayCardRefused` | src/logic.rs:195-210 | outside card selection, with a slot number past 3, or on an empty slot, playing changes only the message |
| `Rules.PlayCardTakesCard` | src/logic.rs:194-275 | a valid play keeps the invariant and removes exactly the chosen card from the dungeon |
| `Rules.PromptKeepsInvariant` | src/logic.rs:214-229 | opening the weapon prompt keeps the invariant and takes only the chosen card out of the dungeon |
| `Rules.ResolveCardKeepsInvariant` | src/logic.rs:230-267 | a monster fought bare-handed, a weapon equipped or a potion drunk keeps the invariant and takes only that card out of the dungeon |
| `Rules.TakenKeepsInvariant` | src/logic.rs:204-210 | taking a card out of its slot keeps the invariant, the card is a dungeon card, and the dungeon loses that card only |
| `Rules.TakeFromSlot` | src/logic.rs:204 | emptying an occupied slot removes exactly its card from the room's cards |
| `Rules.PlayMonsterOpensPrompt` | src/logic.rs:214-229 | a monster the weapon may fight is held, its slot emptied, and the game waits for the yes/no answer |
| `Rules.PlayMonsterBareHanded` | src/logic.rs:230-238 | a monster the weapon may not fight costs its full rank in health; the game is then lost if health is gone, otherwise one interaction is used |
| `Rules.PlayWeaponEquips` | src/logic.rs:242-250 | a diamond becomes the weapon with no kill recorded, health unchanged, and one interaction is used |
| `Rules.PlayPotionHeals` | src/logic.rs:253-267 | a heart heals by its rank up to the maximum if it is the room's first potion, and is wasted otherwise; health stays between its old value and the maximum |
| `Rules.AnswerWeaponPrompt` | src/logic.rs:278-307 | an answer never leaves a prompt pending; it asks for the advance step exactly when a prompt with a held monster was pending, then releases the monster and costs at most its rank; health never rises, state, room and deck stay |
| `Rules.AnswerIgnoredWithoutPrompt` | src/logic.rs:279-281 | an answer with no prompt pending changes nothing |
| `Rules.AnswerResolvesFight` | src/logic.rs:283-306 | answering fights the held monster: with the weapon it costs the weapon damage and records the kill, without it the full rank; prompt and held monster are cleared, room, deck and state untouched |
| `Rules.AnswerKeepsInvariant` | src/logic.rs:278-307 | answering the prompt keeps the invariant and moves no card |
| `Rules.AnswerAlwaysFights` | src/logic.rs:283-288 | under the invariant a pending prompt always holds a monster, so the arm that finds none is never taken and an answer always asks for the advance step |
| `Rules.StartsConsistent` | src/logic.rs:66-101 | a new game and a restart satisfy the control-flow predicate `Consistent`: survival only at game over with health left, health left whenever a room or card is to be chosen, a prompt only while a card is resolved |
| `Rules.EnterKeepsConsistent` | src/ui.rs:329-337 | "start" in the main menu, which fills the room and moves to room choice, keeps `Consistent` |
| `Rules.RoomChoiceKeepsConsistent` | src/ui.rs:339-350 | facing or skipping, called in room choice as the driver does, keeps `Consistent` |
| `Rules.PlayKeepsConsistent` | src/ui.rs:352-359 | playing a card, in any state, keeps `Consistent` |
| `Rules.AnswerKeepsConsistent` | src/ui.rs:361-370 | answering the prompt, in any state, keeps `Consistent` |
| `Rules.ContinueKeepsConsistent` | src/ui.rs:306-311 | the advance step, called in the interaction state with no prompt pending as the driver does, keeps `Consistent` |
| `Rules.SkipOutOfTurnSurvivesAtLoss` | src/logic.rs:143-167 | outside the driver's guards, skipping right after losing a fight in an otherwise empty dungeon declares survival at health -5, a negative score |
| `Rules.Threat` | src/logic.rs:380-384 | the total monster rank is never negative, and is zero when there is no monster |
| `Rules.ThreatZeroIffNoMonsters` | src/logic.rs:358-368 | over dungeon cards, the total monster rank is 0 iff no monster is among them |
| `Rules.ThreatOfMonsters` | src/logic.rs:358-368 | summing the ranks of the filtered monsters equals summing the monster ranks of all cards |
| `Rules.FinalScore` | src/logic.rs:372-388 | a survivor scores their health; a lost game never scores above 0 |
| `Rules.FinalScoreSpec` | src/logic.rs:372-388 | a survivor scores their health, which is positive in any `Consistent` game; otherwise the score is never positive, and is 0 iff no monster is left in room or deck |
| `Rules.RemainingSummaryLine` | src/logic.rs:353-370 | the summary is the "no monsters" line iff no monster is left; otherwise it is the threat prefix followed by the digits of the total monster rank of room and deck |
| `Rules.SummaryMatchesScore` | src/logic.rs:353-388 | the summary says "no monsters" iff none is left, and otherwise shows the negated final score of a lost game |
| `Logic.Game.constructor` | src/logic.rs:66-93 | a new game equals `NewGame` over the deck shuffled with the given draws |
| `Logic.Game.ResetToPlaying` | src/logic.rs:96-101 | the game after the reset equals `ResetToPlaying` of a freshly shuffled deck |
| `Logic.Game.CreateDeck` | src/logic.rs:103-119 | the deck is replaced by the shuffled unshuffled deck and nothing else changes |
| `Logic.Game.RoomIsEmpty` | src/logic.rs:121-123 | the room is empty iff it holds no card |
| `Logic.Game.FillRoom` | src/logic.rs:126-134 | the game moves as `Rules.FillRoom`: only room and deck change |
| `Logic.Game.DealSlots` | src/logic.rs:127-133 | the walk over the four slots, popping the deck's front into each empty one, leaves room and deck equal to `FillSlots` of the old room and deck |
| `Logic.Game.FaceRoom` | src/logic.rs:136-141 | the game moves as `Rules.FaceRoom` |
| `Logic.Game.SkipRoom` | src/logic.rs:143-167 | the game moves as `Rules.SkipRoom` |
| `Logic.Game.CheckWin` | src/logic.rs:158-166 | the win check on the fields moves the game as `Rules.WinCheck` |
| `Logic.Game.ReturnRoomToDeck` | src/logic.rs:151-155 | every slot is emptied and the room's cards are appended, in slot order, to the back of the deck |
| `Logic.Game.CanUseWeaponOn` | src/logic.rs:169-177 | the fields' weapon may fight nothing when absent, anything before its first kill, and after a kill of rank N exactly the monsters below N |
| `Logic.Game.HandleMonsterWithWeapon` | src/logic.rs:179-187 | returns the damage and records the kill exactly as `Rules.HandleMonsterWithWeapon` |
| `Logic.Game.PlayCardFromSlot` | src/logic.rs:194-275 | the game and the outcome are those of `Rules.PlayCardFromSlot` on the old game |
| `Logic.Game.PlayCard` | src/logic.rs:212-274 | the suit dispatch leaves the game as `Rules.PlayCardFromSlot` of the game before the slot was emptied |
| `Logic.Game.PlayMonster` | src/logic.rs:214-239 | a monster is held, then offered to the weapon or fought bare-handed and followed by the advance step, as `Rules.PlayCardFromSlot` |
| `Logic.Game.OfferWeapon` | src/logic.rs:217-227 | sets the prompt flag, the interaction state and the prompt naming monster and weapon |
| `Logic.Game.FightBareHanded` | src/logic.rs:231-234 | health drops by the monster's rank and the message reports that damage |
| `Logic.Game.Equip` | src/logic.rs:243-246 | the diamond becomes the weapon with no kill recorded |
| `Logic.Game.DrinkPotion` | src/logic.rs:254-263 | the room's first potion heals up to the maximum and sets the flag; a later one leaves health alone and is reported wasted |
| `Logic.Game.AnswerWeaponPrompt` | src/logic.rs:278-307 | the game and the outcome are those of `Rules.AnswerWeaponPrompt` on the old game |
| `Logic.Game.ContinueAfterInteraction` | src/logic.rs:310-351 | the game moves as `Rules.ContinueAfterInteraction` |
| `Logic.Game.RemainingSummaryLine` | src/logic.rs:353-370 | the summary is the "no monsters" line iff no monster is in room or deck, and otherwise ends in the digits of their total rank |
| `Logic.Game.FinalScore` | src/logic.rs:372-388 | a survivor scores their health; a lost game scores minus the total monster rank of room and deck, never above 0 |
| `Render.RankText` | src/render.rs:9-15 | ranks 11-14 are written J, Q, K, A, and these only; every other rank is written in digits that read back as the rank |
| `Render.SuitGlyph` | src/render.rs:17-23 | each suit's glyph is a code point of the supplementary private use area, never a digit nor a rank letter |
| `Render.SuitGlyphInjective` | src/render.rs:17-23 | the four suits have four different glyphs, none of them a digit |
| `Render.CardText` | src/render.rs:8-26 | a label is the rank text followed by exactly one glyph, that of the card's suit |
| `Render.CardTextOfFaces` | src/render.rs:9-13 | a face card or ace is labelled by its letter and its glyph |
| `Render.CardTextOfNumbers` | src/render.rs:14 | a numbered card's label, without its glyph, reads back as its rank |
| `Render.CardTextInjective` | src/render.rs:8-26 | no two cards have the same label |
| `Render.CardColor` | src/render.rs:31-36 | light red exactly for the non-monster suits, white exactly for monsters, on a transparent background |
| `Render.HealthColor` | src/render.rs:39-48 | green iff health above 10, yellow iff 6 to 10, red iff 5 or below |
| `Render.HealthColorMonotone` | src/render.rs:39-48 | less health never gives a less alarming colour |
| `Render.BarLevel` | src/render.rs:52-53 | the filled length is health clamped to between 0 and the bar's width |
| `Render.HealthBar` | src/render.rs:51-58 | the bar is as wide as the maximum (0 if negative); cell `i` is filled iff `i` is below the clamped health, hollow otherwise |
| `Render.HealthBarFilledFirst` | src/render.rs:55-57 | every filled cell precedes every hollow cell |
| `Render.HealthBarExtremes` | src/render.rs:52-57 | at or above the maximum the bar is all filled; at or below 0 it is all hollow |
| `Render.HealthBarMonotone` | src/render.rs:51-58 | more health never shows fewer filled cells |
| `Render.HealthLine` | src/render.rs:62-64 | a health line starts with "Health: " and ends with '\|' |
| `Render.HealthLineReadBack` | src/render.rs:62-64 | a health line starts with "Health: ", shows health and maximum separated by '/', each its decimal text reading back as the number, a negative one after its '-', and ends with the bar between two '\|' |
| `Render.LimitText` | src/render.rs:75-77 | the restriction text is empty iff no kill is recorded |
| `Render.WeaponLine` | src/render.rs:71-81 | "Weapon: None" without a weapon; with one, the line starts with "Weapon: " and ends in ')' iff a kill is recorded |
| `Render.WeaponLineStatesLimit` | src/render.rs:71-81 | with a recorded kill of rank N the line ends in " (must be < N)", and the weapon may fight exactly the monsters below N |
| `Render.WeaponLineUnrestricted` | src/render.rs:71-81 | without a recorded kill the line is just the weapon's label, and the weapon may fight any monster |

## Left out

- `src/ui.rs` is not modelled: the terminal drawing, the layout, the mouse and
  keyboard handling, and the mapping of keystrokes to commands. Its extra
  death check is driver logic outside `Game`. The states in which its dispatch
  calls each operation appear only as preconditions of the `...KeepsConsistent`
  lemmas.
- `Rules.FinalScoreSpec` promises a positive score to a survivor only for a
  `Consistent` game, one driven as `src/ui.rs` drives it. The engine alone does
  not guard it: after losing a fight in an otherwise empty dungeon, a skip
  declares survival at negative health (`Rules.SkipOutOfTurnSurvivesAtLoss`).
- `src/main.rs` is not modelled either: it is only the event loop.
- Message text is not modelled. `message` is a tag of `Messages.Message` that
  carries the numbers and cards a message shows. The strings of
  `src/messages.rs` and the `format!` texts are not reproduced.
- `last_command_feedback` is not modelled: `Game` sets it only when it is
  created, and only the driver writes it afterwards.
- Randomness is not modelled. The random generator becomes the parameter
  `roll`, which gives the draw at each step of the shuffle. The model proves
  that any draws give a rearrangement of the deck. It makes no claim that the
  shuffle is uniform.
- Health is an unbounded integer. The `i32` wrap-around of `health -= dmg` and
  of `health + heal` cannot occur with ranks of at most 14 and health of at
  most 20, so it is not modelled.
- The unknown-suit arm of `play_card_from_slot` (src/logic.rs:269-273) is not
  modelled. The `'?'` glyph of `card_text` is not modelled either. A suit is a
  four-valued datatype, so neither can be reached.
- `card_text` in src/logic.rs:395-413 is the same function as
  `card_text` in src/render.rs:8-26. It is modelled once, as `Render.CardText`.
- `face_room` and `skip_room` check no game state. Neither does a `continue`
  while a prompt is pending. The model keeps these operations as written; the
  driver decides when they are called. The invariant claims only what holds
  after any sequence of calls.
- The Rust array `[Option<Card>; 4]` always has four slots. In the class it is
  a `const` array, so the methods that index it require `roomSlots.Length ==
  4`.
