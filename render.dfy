/**
 * The pure display helpers of src/render.rs: card labels, colours, the health bar
 * and the status lines the terminal front end draws.
 */
module Render {
  import opened Wrappers
  import opened Cards
  import opened Decimal
  import Rules

  /** The terminal colours the helpers pick from. */
  datatype Color = Green | Yellow | Red | LightRed | White | Transparent

  /** A foreground and a background colour. */
  datatype ColorPair = ColorPair(fg: Color, bg: Color)

  // Card labels

  /** The rank part of a label: a letter for the face cards and the ace, digits otherwise. */
  function RankText(value: U8): (r: string)
    ensures |r| >= 1
    ensures value == 11 <==> r == "J"
    ensures value == 12 <==> r == "Q"
    ensures value == 13 <==> r == "K"
    ensures value == 14 <==> r == "A"
    ensures !(11 <= value <= 14) <==> AllDigits(r)
    ensures !(11 <= value <= 14) ==> DigitsValue(r) == value
  {
    match value
    case 11 => "J"
    case 12 => "Q"
    case 13 => "K"
    case 14 => "A"
    case _ => NatTextRoundTrip(value); NatText(value)
  }

  /**
   * The Nerd Font glyph drawn for each suit: a code point of the supplementary private use
   * area, so never a digit nor one of the rank letters a label starts with.
   */
  function SuitGlyph(suit: Suit): (g: char)
    ensures '\U{F0000}' <= g <= '\U{FFFFD}'
    ensures !IsDigit(g) && g !in ['J', 'Q', 'K', 'A']
  {
    match suit
    case S => '\U{F18B1}'
    case C => '\U{F18A5}'
    case D => '\U{F18A9}'
    case H => '\U{F18AD}'
  }

  /** Each suit has its own glyph, and no glyph is a decimal digit. */
  lemma SuitGlyphInjective(a: Suit, b: Suit)
    ensures !IsDigit(SuitGlyph(a))
    ensures SuitGlyph(a) == SuitGlyph(b) <==> a == b
  {
  }

  /** `card_text`: the rank text followed by the suit glyph, as in `9` + glyph or `A` + glyph. */
  function CardText(card: Card): (r: string)
    ensures |r| >= 2
    ensures r[|r| - 1] == SuitGlyph(card.suit)
    ensures r[..|r| - 1] == RankText(card.value)
  {
    RankText(card.value) + [SuitGlyph(card.suit)]
  }

  /** The face cards and the ace are written as one letter and a glyph. */
  lemma CardTextOfFaces(card: Card)
    requires 11 <= card.value <= 14
    ensures |CardText(card)| == 2
    ensures CardText(card)[0] == ['J', 'Q', 'K', 'A'][card.value - 11]
  {
  }

  /** The label of a numbered card reads back as its rank. */
  lemma CardTextOfNumbers(card: Card)
    requires !(11 <= card.value <= 14)
    ensures var r := CardText(card); AllDigits(r[..|r| - 1]) && DigitsValue(r[..|r| - 1]) == card.value
  {
  }

  /** No two cards share a label. */
  lemma {:induction false} CardTextInjective(a: Card, b: Card)
    requires CardText(a) == CardText(b)
    ensures a == b
  {
    var ra, rb := CardText(a), CardText(b);
    assert SuitGlyph(a.suit) == SuitGlyph(b.suit);
    SuitGlyphInjective(a.suit, b.suit);
    assert RankText(a.value) == RankText(b.value);
    if !(11 <= a.value <= 14) && !(11 <= b.value <= 14) {
      NatTextInjective(a.value, b.value);
    } else {
      assert 11 <= a.value <= 14 && 11 <= b.value <= 14 by {
        assert !AllDigits("J") && !AllDigits("Q") && !AllDigits("K") && !AllDigits("A") by {
          assert !IsDigit('J') && !IsDigit('Q') && !IsDigit('K') && !IsDigit('A');
        }
      }
    }
  }

  // Colours

  /** `card_color`: the red suits are drawn light red, the monster suits white. */
  function CardColor(card: Card): (p: ColorPair)
    ensures p.bg == Transparent
    ensures p.fg == LightRed <==> !IsMonster(card)
    ensures p.fg == White <==> IsMonster(card)
  {
    match card.suit
    case D | H => ColorPair(LightRed, Transparent)
    case _ => ColorPair(White, Transparent)
  }

  /** `health_color`: green above 10, yellow above 5, red otherwise. */
  function HealthColor(hp: int): (p: ColorPair)
    ensures p.bg == Transparent
    ensures p.fg == Green <==> hp > 10
    ensures p.fg == Yellow <==> 5 < hp <= 10
    ensures p.fg == Red <==> hp <= 5
  {
    var fg := if hp > 10 then Green else if hp > 5 then Yellow else Red;
    ColorPair(fg, Transparent)
  }

  /** How alarming a health colour is: red above yellow above green. */
  function Alarm(c: Color): nat {
    match c
    case Green => 0
    case Yellow => 1
    case _ => 2
  }

  /** Losing health never makes the colour less alarming. */
  lemma HealthColorMonotone(lo: int, hi: int)
    requires lo <= hi
    ensures Alarm(HealthColor(hi).fg) <= Alarm(HealthColor(lo).fg)
  {
  }

  // The health bar

  const Filled: char := '█'
  const Hollow: char := '░'

  /** `n` copies of `ch`, as Rust's `str::repeat`. */
  function Repeat(ch: char, n: nat): (r: string)
    ensures |r| == n
    ensures forall i :: 0 <= i < n ==> r[i] == ch
  {
    seq(n, _ => ch)
  }

  /** The bar's width: the maximum, or 0 when the maximum is negative. */
  function BarWidth(maxHp: int): nat {
    if maxHp > 0 then maxHp else 0
  }

  /** The number of filled cells: health clamped to [0, width]. */
  function BarLevel(hp: int, maxHp: int): (n: nat)
    ensures n <= BarWidth(maxHp)
  {
    var width := BarWidth(maxHp);
    if hp < 0 then 0 else if hp > width then width else hp
  }

  /** `health_bar`: one cell per point of the maximum, filled up to the clamped health. */
  function HealthBar(hp: int, maxHp: int): (r: string)
    ensures |r| == BarWidth(maxHp)
    ensures forall i :: 0 <= i < |r| ==> (r[i] == Filled <==> i < BarLevel(hp, maxHp))
    ensures forall i :: 0 <= i < |r| ==> (r[i] == Hollow <==> i >= BarLevel(hp, maxHp))
  {
    var width := BarWidth(maxHp);
    var level := BarLevel(hp, maxHp);
    Repeat(Filled, level) + Repeat(Hollow, width - level)
  }

  /** Every filled cell comes before every hollow one. */
  lemma HealthBarFilledFirst(hp: int, maxHp: int, i: int, j: int)
    requires 0 <= i < j < |HealthBar(hp, maxHp)|
    requires HealthBar(hp, maxHp)[j] == Filled
    ensures HealthBar(hp, maxHp)[i] == Filled
  {
  }

  /** The bar is all filled at full health or above, and all hollow at zero health or below. */
  lemma HealthBarExtremes(hp: int, maxHp: int)
    ensures hp >= maxHp ==> forall i :: 0 <= i < |HealthBar(hp, maxHp)| ==> HealthBar(hp, maxHp)[i] == Filled
    ensures hp <= 0 ==> forall i :: 0 <= i < |HealthBar(hp, maxHp)| ==> HealthBar(hp, maxHp)[i] == Hollow
  {
  }

  /** More health never shows fewer filled cells. */
  lemma HealthBarMonotone(lo: int, hi: int, maxHp: int, i: int)
    requires lo <= hi && 0 <= i < BarWidth(maxHp)
    requires HealthBar(lo, maxHp)[i] == Filled
    ensures HealthBar(hi, maxHp)[i] == Filled
  {
  }

  // Status lines

  const HealthLabel: string := "Health: "

  /** The middle piece of a concatenation, recovered by slicing. */
  lemma Middle(a: string, b: string, c: string)
    ensures (a + b + c)[|a|..|a| + |b|] == b
    ensures (a + b + c)[..|a|] == a
    ensures (a + b + c)[|a| + |b|..] == c
  {
    assert (a + b + c)[..|a|] == a;
    assert (a + b + c)[|a|..|a| + |b|] == b;
  }

  /** `health_line`: the label, `hp/max` in decimal, then the bar between two `|`. */
  function HealthLine(hp: int, maxHp: int): (r: string)
    ensures |r| >= |HealthLabel| + 4 && r[..|HealthLabel|] == HealthLabel
    ensures r[|r| - 1] == '|'
  {
    var hpText := IntText(hp);
    var rest := "/" + IntText(maxHp) + (" |" + HealthBar(hp, maxHp) + "|");
    Middle(HealthLabel, hpText, rest);
    HealthLabel + hpText + rest
  }

  /** The pieces of `head + x + ("/" + y + tail)`, recovered by slicing. */
  lemma {:induction false} SlashPieces(head: string, x: string, y: string, tail: string)
    ensures var r := head + x + ("/" + y + tail);
      var k := |head| + |x|;
      var m := k + 1 + |y|;
      && m <= |r| && r[..|head|] == head && r[|head|..k] == x
      && r[k] == '/' && r[k + 1..m] == y && r[m..] == tail
  {
    var rest := "/" + y + tail;
    var r := head + x + rest;
    Middle(head, x, rest);
    Middle("/", y, tail);
    var k := |head| + |x|;
    assert r[k + 1..] == y + tail by {
      assert r[k + 1..] == r[k..][1..];
    }
    assert r[k + 1..k + 1 + |y|] == y by {
      assert r[k + 1..k + 1 + |y|] == r[k + 1..][..|y|];
    }
  }

  /**
   * A health line starts with its label and ends with the bar between two `|`, and the
   * health and the maximum can be read back from it, a negative health (which the front
   * end shows on the turn the player dies) after its '-'.
   */
  lemma HealthLineReadBack(hp: int, maxHp: int)
    ensures var r := HealthLine(hp, maxHp);
      var k := |HealthLabel| + |IntText(hp)|;
      var m := k + 1 + |IntText(maxHp)|;
      && m <= |r| && r[..|HealthLabel|] == HealthLabel
      && r[|HealthLabel|..k] == IntText(hp) && Denotes(r[|HealthLabel|..k], hp)
      && r[k] == '/'
      && r[k + 1..m] == IntText(maxHp) && Denotes(r[k + 1..m], maxHp)
      && r[m..] == " |" + HealthBar(hp, maxHp) + "|"
  {
    SlashPieces(HealthLabel, IntText(hp), IntText(maxHp), " |" + HealthBar(hp, maxHp) + "|");
  }

  const WeaponLabel: string := "Weapon: "

  /** The restriction suffix: ` (must be < N)` after a kill of rank N, nothing before one. */
  function LimitText(lastSlain: Option<U8>): (r: string)
    ensures lastSlain.None? <==> r == []
  {
    match lastSlain
    case None => ""
    case Some(last) => " (must be < " + NatText(last) + ")"
  }

  /** `weapon_line`: "Weapon: None", or the weapon's label and the restriction from its last kill. */
  function WeaponLine(weapon: Option<Card>, lastSlain: Option<U8>): (r: string)
    ensures weapon.None? ==> r == WeaponLabel + "None"
    ensures weapon.Some? ==> |r| > |WeaponLabel| && r[..|WeaponLabel|] == WeaponLabel
    ensures weapon.Some? ==> (r[|r| - 1] == ')' <==> lastSlain.Some?)
  {
    match weapon
    case None => WeaponLabel + "None"
    case Some(w) =>
      var name := CardText(w);
      var limit := LimitText(lastSlain);
      Middle(WeaponLabel, name, limit);
      WeaponLabel + name + limit
  }

  /**
   * The number the weapon line shows is the bound `can_use_weapon_on` applies: with a
   * weapon and a recorded kill of rank N, the line ends in ` (must be < N)` and the
   * weapon may fight exactly the monsters of rank below N.
   */
  lemma WeaponLineStatesLimit(weapon: Card, last: U8, monster: Card)
    ensures var r := WeaponLine(Some(weapon), Some(last));
      var tail := " (must be < " + NatText(last) + ")";
      && |tail| <= |r| && r[|r| - |tail|..] == tail
      && (Rules.CanUseWeaponOn(Some(weapon), Some(last), monster) <==> monster.value < last)
  {
    var tail := " (must be < " + NatText(last) + ")";
    var r := WeaponLine(Some(weapon), Some(last));
    assert r == WeaponLabel + CardText(weapon) + tail;
  }

  /** Without a recorded kill the line is just the weapon's label, and any monster may be fought. */
  lemma WeaponLineUnrestricted(weapon: Card, monster: Card)
    ensures WeaponLine(Some(weapon), None) == WeaponLabel + CardText(weapon)
    ensures Rules.CanUseWeaponOn(Some(weapon), None, monster)
  {
  }
}
