/** The optional value the source writes as Rust's `Option`. */
module Wrappers {

  datatype Option<T> = None | Some(value: T)
}

/**
 * The status messages the engine leaves for the driver (src/messages.rs and the
 * `format!` messages of src/logic.rs), kept as tags rather than text.
 */
module Messages {
  import opened Wrappers
  import opened Cards

  datatype Message =
    | NoMessage                                   // the empty string of a new game
    | EnteredDungeon
    | FaceRoom
    | SkippedRoom
    | RoomResolved
    | YouSurvived
    | YouDied
    | NeedFaceOnly
    | InvalidCardSelection
    | MustFaceFirst
    | WeaponPrompt(monster: Card, offered: Option<Card>)  // "use weapon ...? (y/n)"
    | FoughtMonster(damage: int)
    | FoughtWithWeapon(damage: int)
    | Equipped(equipped: Card)
    | Healed(amount: int)
    | PotionWasted
}

/** Decimal text of integers, as Rust's `Display` for `u8` and `i32` writes it. */
module Decimal {

  predicate IsDigit(ch: char) {
    '0' <= ch <= '9'
  }

  predicate AllDigits(s: string) {
    forall i :: 0 <= i < |s| ==> IsDigit(s[i])
  }

  function DigitChar(d: int): (ch: char)
    requires 0 <= d < 10
    ensures IsDigit(ch) && ch as int - '0' as int == d
  {
    ('0' as int + d) as char
  }

  /** The decimal digits of `n`, most significant first, with no leading zero. */
  function NatText(n: nat): (r: string)
    ensures |r| >= 1 && AllDigits(r)
    ensures r[0] == '0' <==> n == 0
    ensures n < 10 <==> |r| == 1
    decreases n
  {
    if n < 10 then [DigitChar(n)] else NatText(n / 10) + [DigitChar(n % 10)]
  }

  /** The number a string of decimal digits denotes. */
  function DigitsValue(s: string): nat
    requires AllDigits(s)
  {
    if s == [] then 0 else DigitsValue(s[..|s| - 1]) * 10 + (s[|s| - 1] as int - '0' as int)
  }

  /** Reading the digits back gives the number they were written from. */
  lemma {:induction false} NatTextRoundTrip(n: nat)
    ensures DigitsValue(NatText(n)) == n
    decreases n
  {
    if n >= 10 {
      NatTextRoundTrip(n / 10);
      var r := NatText(n);
      assert r[..|r| - 1] == NatText(n / 10);
    }
  }

  /** Different numbers are written differently. */
  lemma NatTextInjective(a: nat, b: nat)
    requires NatText(a) == NatText(b)
    ensures a == b
  {
    NatTextRoundTrip(a);
    NatTextRoundTrip(b);
  }

  /** `s` denotes `i`: its digits, after a '-' when `i` is negative. */
  predicate Denotes(s: string, i: int) {
    if i >= 0 then AllDigits(s) && DigitsValue(s) == i
    else |s| >= 2 && s[0] == '-' && AllDigits(s[1..]) && DigitsValue(s[1..]) == -i
  }

  /** An `i32` written in decimal, with a leading '-' when negative. */
  function IntText(i: int): (r: string)
    ensures |r| >= 1
    ensures (r[0] == '-') == (i < 0)
    ensures i >= 0 ==> AllDigits(r) && DigitsValue(r) == i
    ensures i < 0 ==> r[1..] == NatText(-i)
    ensures Denotes(r, i)
  {
    if i < 0 then
      NatTextRoundTrip(-i);
      var r := "-" + NatText(-i);
      assert r[1..] == NatText(-i);
      r
    else
      NatTextRoundTrip(i); NatText(i)
  }
}
