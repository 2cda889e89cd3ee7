/** Cards and the 44-card dungeon deck of the rules engine (src/logic.rs). */
module Cards {

  /** Ranks are stored in a `u8` by the source. */
  type U8 = x: int | 0 <= x < 256

  /** The four suits, kept by the source as the characters 'S', 'C', 'D', 'H'. */
  datatype Suit = S | C | D | H

  /** A playing card: a suit and a rank from 2 to 14 (11-14 are J, Q, K, A). */
  datatype Card = Card(suit: Suit, value: U8)

  /** Spades and clubs are the monster suits. */
  predicate IsMonster(c: Card) {
    c.suit == S || c.suit == C
  }

  /** The highest rank dealt in a suit: the red suits have no face cards and no ace. */
  function TopRank(s: Suit): int {
    if s == D || s == H then 10 else 14
  }

  /** The cards the dungeon deck is made of. */
  predicate InDungeon(c: Card) {
    2 <= c.value <= TopRank(c.suit)
  }

  /** No card occurs twice. */
  predicate Distinct(cards: seq<Card>) {
    forall i, j :: 0 <= i < j < |cards| ==> cards[i] != cards[j]
  }

  /** The suits in the order the deck is built. */
  const Suits: seq<Suit> := [S, C, D, H]

  /** One suit's cards in increasing rank, 2 up to its top rank. */
  function SuitRun(s: Suit): (r: seq<Card>)
    ensures |r| == TopRank(s) - 1
  {
    seq(TopRank(s) - 1, i requires 0 <= i < TopRank(s) - 1 => Card(s, i + 2))
  }

  /** The runs of the first `k` suits of `Suits`, concatenated. */
  function Runs(k: nat): seq<Card>
    requires k <= |Suits|
  {
    if k == 0 then [] else Runs(k - 1) + SuitRun(Suits[k - 1])
  }

  /** The unshuffled deck, in the order the source builds it. */
  function CanonicalDeck(): seq<Card> {
    Runs(4)
  }

  /** Where each card sits in the unshuffled deck. */
  lemma CanonicalDeckAt(i: int)
    requires 0 <= i < 44
    ensures |CanonicalDeck()| == 44
    ensures CanonicalDeck()[i] ==
      if i < 13 then Card(S, i + 2)
      else if i < 26 then Card(C, i - 11)
      else if i < 35 then Card(D, i - 24)
      else Card(H, i - 33)
  {
    assert CanonicalDeck() == SuitRun(S) + SuitRun(C) + SuitRun(D) + SuitRun(H);
  }

  /**
   * The deck has 44 cards, no two alike, and holds exactly the dungeon cards:
   * 13 spades and 13 clubs of ranks 2-14, 9 diamonds and 9 hearts of ranks 2-10.
   */
  lemma CanonicalDeckShape()
    ensures |CanonicalDeck()| == 44
    ensures Distinct(CanonicalDeck())
    ensures forall c :: c in CanonicalDeck() <==> InDungeon(c)
  {
    var deck := CanonicalDeck();
    CanonicalDeckAt(0);
    forall i | 0 <= i < 44
      ensures InDungeon(deck[i])
    {
      CanonicalDeckAt(i);
    }
    forall i, j | 0 <= i < j < 44
      ensures deck[i] != deck[j]
    {
      CanonicalDeckAt(i);
      CanonicalDeckAt(j);
    }
    forall c | InDungeon(c)
      ensures c in deck
    {
      var i := match c.suit
        case S => c.value - 2
        case C => c.value + 11
        case D => c.value + 24
        case H => c.value + 33;
      CanonicalDeckAt(i);
    }
  }

  /** A sequence has no duplicates exactly when no card is counted twice by its multiset. */
  lemma {:induction false} DistinctIffSingleCounts(cards: seq<Card>)
    ensures Distinct(cards) <==> forall c :: multiset(cards)[c] <= 1
  {
    if cards != [] {
      var rest := cards[1..];
      DistinctIffSingleCounts(rest);
      assert cards == [cards[0]] + rest;
      assert multiset(cards) == multiset{cards[0]} + multiset(rest);
      if Distinct(cards) {
        assert Distinct(rest) by {
          forall i, j | 0 <= i < j < |rest| ensures rest[i] != rest[j] {
            assert rest[i] == cards[i + 1] && rest[j] == cards[j + 1];
          }
        }
        assert cards[0] !in rest by {
          forall k | 0 <= k < |rest| ensures rest[k] != cards[0] {
            assert rest[k] == cards[k + 1];
          }
        }
      } else {
        var i, j :| 0 <= i < j < |cards| && cards[i] == cards[j];
        if i == 0 {
          assert cards[j] == rest[j - 1];
          assert multiset(cards)[cards[0]] >= 2;
        } else {
          assert rest[i - 1] == cards[i] && rest[j - 1] == cards[j];
          assert !Distinct(rest);
          var x :| multiset(rest)[x] > 1;
          assert multiset(cards)[x] > 1;
        }
      }
    }
  }

  /**
   * Any permutation of the unshuffled deck, in particular a shuffled one, has 44 cards,
   * no duplicates, and only dungeon cards.
   */
  lemma PermutationOfCanonical(deck: seq<Card>)
    requires multiset(deck) == multiset(CanonicalDeck())
    ensures |deck| == 44
    ensures Distinct(deck)
    ensures forall c :: c in deck <==> InDungeon(c)
  {
    CanonicalDeckShape();
    assert |deck| == |multiset(deck)| == |multiset(CanonicalDeck())| == 44;
    DistinctIffSingleCounts(CanonicalDeck());
    DistinctIffSingleCounts(deck);
    forall c ensures c in deck <==> c in CanonicalDeck() {
      assert c in deck <==> c in multiset(deck);
      assert c in CanonicalDeck() <==> c in multiset(CanonicalDeck());
    }
  }

  /**
   * The nested loop that builds the unshuffled deck: every suit over ranks 2..=14,
   * skipping the red face cards and aces.
   */
  method BuildCards() returns (cards: seq<Card>)
    ensures cards == CanonicalDeck()
  {
    cards := [];
    for k := 0 to 4
      invariant cards == Runs(k)
    {
      var suit := Suits[k];
      for value := 2 to 15
        invariant cards == Runs(k) + SuitRun(suit)[..if value <= TopRank(suit) + 1 then value - 2 else TopRank(suit) - 1]
      {
        if (suit == D || suit == H) && value >= 11 {
          continue;
        }
        cards := cards + [Card(suit, value)];
      }
      assert SuitRun(suit)[..TopRank(suit) - 1] == SuitRun(suit);
    }
  }

  /** `s` with the cards at positions `i` and `j` exchanged. */
  function Swap(s: seq<Card>, i: nat, j: nat): (r: seq<Card>)
    requires i < |s| && j < |s|
    ensures |r| == |s| && r[i] == s[j] && r[j] == s[i]
    ensures forall k :: 0 <= k < |s| && k != i && k != j ==> r[k] == s[k]
    ensures multiset(r) == multiset(s)
  {
    s[i := s[j]][j := s[i]]
  }

  /**
   * A Fisher-Yates shuffle of the first `n` positions whose draws are injected:
   * position n-1 is exchanged with a position drawn from [0, n-1], then the first n-1
   * positions are shuffled the same way. `roll(i)` stands for the random draw at step `i`.
   * Whatever the draws, the result is a rearrangement of `s`.
   */
  function FisherYates(s: seq<Card>, n: nat, roll: nat -> nat): (r: seq<Card>)
    requires n <= |s|
    ensures |r| == |s| && multiset(r) == multiset(s)
    ensures forall k :: n <= k < |s| ==> r[k] == s[k]
    decreases n
  {
    if n <= 1 then s
    else
      var i := n - 1;
      FisherYates(Swap(s, i, roll(i) % (i + 1)), i, roll)
  }

  /** A draw that always picks the current position swaps nothing: the order is kept. */
  lemma {:induction false} FisherYatesIdentity(s: seq<Card>, n: nat)
    requires n <= |s|
    ensures FisherYates(s, n, i => i) == s
    decreases n
  {
    if n > 1 {
      var i := n - 1;
      assert Swap(s, i, i % (i + 1)) == s;
      FisherYatesIdentity(s, i);
    }
  }

  /** The deck `create_deck` leaves: the unshuffled deck, shuffled with the draws `roll`. */
  function ShuffledDeck(roll: nat -> nat): (r: seq<Card>)
    ensures multiset(r) == multiset(CanonicalDeck())
  {
    FisherYates(CanonicalDeck(), |CanonicalDeck()|, roll)
  }

  /**
   * An in-place Fisher-Yates shuffle whose draws are injected: for i from the last index down
   * to 1, swap element i with element j, where j is drawn from [0, i] by `roll`.
   */
  method Shuffle(a: array<Card>, roll: nat -> nat)
    modifies a
    ensures a[..] == FisherYates(old(a[..]), a.Length, roll)
  {
    var i := a.Length;
    while i > 1
      invariant 0 <= i <= a.Length
      invariant FisherYates(a[..], i, roll) == FisherYates(old(a[..]), a.Length, roll)
    {
      i := i - 1;
      var j := roll(i) % (i + 1);
      ghost var before := a[..];
      a[i], a[j] := a[j], a[i];
      assert a[..] == Swap(before, i, j);
    }
  }
}
