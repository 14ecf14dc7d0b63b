/** Day 22 ("Crab Combat"): every player holds a deck of numbered cards, a queue with its
    top at the front. In a round each player with cards puts the top card on the table;
    the player numbered like the highest card takes the table, its own card first, and the
    game ends when only one player has cards. The recursive variant also ends a game when
    a position repeats, and settles a round by a sub-game on copies of the decks when every
    player has at least as many cards left as the value just drawn.

    `Deck` is a class whose `cards` the methods update in place; the games copy the
    callers' decks first (Python's `copy.deepcopy`). Each game is proved against a function
    on the values of the hands (`Game1`, `Game2`), whose rounds keep the cards in play. The
    games carry a round budget `fuel` because nothing bounds Python's `while True`. */
module Day22 {
  import opened Basics
  import opened Strings

  // ---------------------------------------------------------------------------
  // Decks
  // ---------------------------------------------------------------------------

  class Deck {
    var number: int
    var cards: seq<int>

    constructor (number: int, cards: seq<int>)
      ensures this.number == number && this.cards == cards
    {
      this.number := number;
      this.cards := cards;
    }

    /** `draw`: take the top card off (Python's `popleft`, which raises on an empty deque,
        so callers only draw from decks with cards). */
    method Draw() returns (c: int)
      requires cards != []
      modifies this
      ensures c == old(cards)[0] && cards == old(cards)[1..]
      ensures number == old(number)
    {
      c := cards[0];
      cards := cards[1..];
    }

    /** `win`: put the won cards at the bottom, in the given order. */
    method Win(won: seq<int>)
      modifies this
      ensures cards == old(cards) + won
      ensures number == old(number)
    {
      cards := cards + won;
    }

    /** `score`: the top card times the deck size, the next one times one less, down to
        the bottom card times one. */
    method Score() returns (s: int)
      ensures s == ScoreOf(cards)
    {
      var mult := |cards|;
      s := 0;
      for i := 0 to |cards|
        invariant mult == |cards| - i
        invariant s + ScoreOf(cards[i..]) == ScoreOf(cards)
      {
        assert cards[i..][1..] == cards[i + 1..];
        s := s + mult * cards[i];
        mult := mult - 1;
      }
    }
  }

  /** The score of a deck, top card first. */
  function ScoreOf(cards: seq<int>): int
  {
    if cards == [] then 0 else |cards| * cards[0] + ScoreOf(cards[1..])
  }

  /** Putting `ys` under `xs` raises the weight of every card of `xs` by `|ys|`. */
  lemma {:induction false} ScoreAppend(xs: seq<int>, ys: seq<int>)
    ensures ScoreOf(xs + ys) == ScoreOf(xs) + |ys| * Sum(xs) + ScoreOf(ys)
  {
    if xs == [] {
      assert xs + ys == ys;
    } else {
      assert (xs + ys)[1..] == xs[1..] + ys;
      ScoreAppend(xs[1..], ys);
      assert |xs + ys| * xs[0] == |xs| * xs[0] + |ys| * xs[0];
    }
  }

  /** The decks are different objects: each one is none of the decks before it. */
  ghost predicate Separate(decks: seq<Deck>)
  {
    decks == [] || (decks[|decks| - 1] !in decks[..|decks| - 1] && Separate(decks[..|decks| - 1]))
  }

  lemma {:induction false} SeparateApart(decks: seq<Deck>)
    requires Separate(decks)
    ensures forall i, j :: 0 <= i < j < |decks| ==> decks[i] != decks[j]
  {
    if decks != [] {
      var init := decks[..|decks| - 1];
      SeparateApart(init);
      forall i, j | 0 <= i < j < |decks|
        ensures decks[i] != decks[j]
      {
        assert decks[i] == init[i];
        if j < |decks| - 1 {
          assert decks[j] == init[j];
        }
      }
    }
  }

  lemma SeparateAppend(decks: seq<Deck>, d: Deck)
    requires Separate(decks) && d !in decks
    ensures Separate(decks + [d])
  {
    assert (decks + [d])[..|decks|] == decks;
  }

  /** The cards of every deck, in seating order. */
  function Hands(decks: seq<Deck>): (h: seq<seq<int>>)
    reads set d | d in decks
    ensures |h| == |decks|
  {
    seq(|decks|, i requires 0 <= i < |decks| reads decks => decks[i].cards)
  }

  /** The number of every deck, in seating order. */
  function Numbers(decks: seq<Deck>): (n: seq<int>)
    reads set d | d in decks
    ensures |n| == |decks|
  {
    seq(|decks|, i requires 0 <= i < |decks| reads decks => decks[i].number)
  }

  /** New decks, different objects, holding the given numbers and cards. */
  method NewDecks(numbers: seq<int>, hands: seq<seq<int>>) returns (decks: seq<Deck>)
    requires |numbers| == |hands|
    ensures |decks| == |hands| && Separate(decks)
    ensures forall d :: d in decks ==> fresh(d)
    ensures Hands(decks) == hands && Numbers(decks) == numbers
  {
    decks := [];
    for i := 0 to |hands|
      invariant |decks| == i && Separate(decks)
      invariant forall d :: d in decks ==> fresh(d)
      invariant forall j :: 0 <= j < i ==> decks[j].cards == hands[j] && decks[j].number == numbers[j]
    {
      var d := new Deck(numbers[i], hands[i]);
      SeparateAppend(decks, d);
      decks := decks + [d];
    }
  }

  /** `copy.deepcopy(players)`: new decks with the same numbers and cards. */
  method Copy(players: seq<Deck>) returns (decks: seq<Deck>)
    ensures |decks| == |players| && Separate(decks)
    ensures forall d :: d in decks ==> fresh(d)
    ensures Hands(decks) == Hands(players) && Numbers(decks) == Numbers(players)
  {
    decks := NewDecks(Numbers(players), Hands(players));
  }

  // ---------------------------------------------------------------------------
  // Rounds, on values
  // ---------------------------------------------------------------------------

  /** `players_map[n]`: the dictionary built from the players keeps the last player
      numbered `n`. */
  function Seat(numbers: seq<int>, n: int): (i: nat)
    requires n in numbers
    ensures i < |numbers| && numbers[i] == n
  {
    var last := |numbers| - 1;
    if numbers[last] == n then last
    else
      assert n in numbers[..last] by {
        var k :| 0 <= k < |numbers| && numbers[k] == n;
        assert numbers[..last][k] == n;
      }
      Seat(numbers[..last], n)
  }

  /** `Seat` is the last player with the number. */
  lemma {:induction false} SeatLast(numbers: seq<int>, n: int)
    requires n in numbers
    ensures forall j :: Seat(numbers, n) < j < |numbers| ==> numbers[j] != n
  {
    var last := |numbers| - 1;
    if numbers[last] != n {
      assert n in numbers[..last] by {
        var k :| 0 <= k < |numbers| && numbers[k] == n;
        assert numbers[..last][k] == n;
      }
      SeatLast(numbers[..last], n);
    }
  }

  /** The cards on the table: (number, top card) of each player with cards, in seating
      order. */
  function Table(hands: seq<seq<int>>, numbers: seq<int>): (t: seq<(int, int)>)
    requires |hands| == |numbers|
    ensures |t| <= |hands|
    ensures forall k :: 0 <= k < |t| ==> t[k].0 in numbers
  {
    if hands == [] then []
    else
      var n := |hands| - 1;
      var front := Table(hands[..n], numbers[..n]);
      assert forall k :: 0 <= k < |front| ==> front[k].0 in numbers by {
        forall k | 0 <= k < |front|
          ensures front[k].0 in numbers
        {
          var j :| 0 <= j < n && numbers[..n][j] == front[k].0;
          assert numbers[j] == front[k].0;
        }
      }
      front + (if hands[n] != [] then [(numbers[n], hands[n][0])] else [])
  }

  /** One more seat adds its player's top card to the table, when it has cards. */
  lemma TablePrefix(hands: seq<seq<int>>, numbers: seq<int>, i: nat)
    requires |hands| == |numbers| && i < |hands|
    ensures Table(hands[..i + 1], numbers[..i + 1])
      == Table(hands[..i], numbers[..i]) + (if hands[i] != [] then [(numbers[i], hands[i][0])] else [])
  {
    assert hands[..i + 1][..i] == hands[..i] && numbers[..i + 1][..i] == numbers[..i];
  }

  /** The hands once every player with cards has drawn. */
  function AfterDraw(hands: seq<seq<int>>): (r: seq<seq<int>>)
    ensures |r| == |hands|
  {
    seq(|hands|, i requires 0 <= i < |hands| => if hands[i] == [] then [] else hands[i][1..])
  }

  /** Python's `max(cards_in_game, key=card)`: the first entry with the highest card. */
  function Best(t: seq<(int, int)>): (k: nat)
    requires t != []
    ensures k < |t|
  {
    var n := |t| - 1;
    if n == 0 then 0
    else
      var k := Best(t[..n]);
      if t[n].1 > t[k].1 then n else k
  }

  /** `Best` is the first entry holding the highest card. */
  lemma {:induction false} BestFirstMax(t: seq<(int, int)>)
    requires t != []
    ensures forall j :: 0 <= j < |t| ==> t[j].1 <= t[Best(t)].1
    ensures forall j :: 0 <= j < Best(t) ==> t[j].1 < t[Best(t)].1
  {
    var n := |t| - 1;
    if n > 0 {
      BestFirstMax(t[..n]);
      assert forall j :: 0 <= j < n ==> t[..n][j] == t[j];
    }
  }

  /** The cards on the table of the players numbered `w`, in seating order. */
  function CardsOf(t: seq<(int, int)>, w: int): (r: seq<int>)
  {
    if t == [] then []
    else CardsOf(t[..|t| - 1], w) + (if t[|t| - 1].0 == w then [t[|t| - 1].1] else [])
  }

  /** The other cards on the table, in seating order. */
  function CardsNotOf(t: seq<(int, int)>, w: int): (r: seq<int>)
  {
    if t == [] then []
    else CardsNotOf(t[..|t| - 1], w) + (if t[|t| - 1].0 != w then [t[|t| - 1].1] else [])
  }

  /** `winning_card + other_cards`. */
  function Winnings(t: seq<(int, int)>, w: int): seq<int>
  {
    CardsOf(t, w) + CardsNotOf(t, w)
  }

  /** `players_map[w].win(won)`. */
  function Award(hands: seq<seq<int>>, numbers: seq<int>, w: int, won: seq<int>): (r: seq<seq<int>>)
    requires |hands| == |numbers| && w in numbers
    ensures |r| == |hands|
  {
    var s := Seat(numbers, w);
    hands[s := hands[s] + won]
  }

  /** One round won by the player numbered `w`: everyone with cards draws, and the table
      goes to `w`. */
  function Settle(hands: seq<seq<int>>, numbers: seq<int>, w: int): (r: seq<seq<int>>)
    requires |hands| == |numbers| && w in numbers
    ensures |r| == |hands|
  {
    Award(AfterDraw(hands), numbers, w, Winnings(Table(hands, numbers), w))
  }

  /** How many players have cards: `sum(p.hascards() for p in players)`. */
  function Holders(hands: seq<seq<int>>): (n: nat)
    ensures n <= |hands|
  {
    if hands == [] then 0
    else Holders(hands[..|hands| - 1]) + (if hands[|hands| - 1] != [] then 1 else 0)
  }

  /** The first player with cards. */
  function FirstHolder(hands: seq<seq<int>>): (i: nat)
    requires Holders(hands) >= 1
    ensures i < |hands| && hands[i] != []
    ensures forall j :: 0 <= j < i ==> hands[j] == []
  {
    if hands[0] != [] then 0
    else
      HoldersFront(hands);
      FirstHolder(hands[1..]) + 1
  }

  lemma {:induction false} HoldersFront(hands: seq<seq<int>>)
    requires hands != []
    ensures Holders(hands) == (if hands[0] != [] then 1 else 0) + Holders(hands[1..])
  {
    var n := |hands| - 1;
    if n > 0 {
      assert hands[..n][0] == hands[0];
      assert hands[..n][1..] == hands[1..][..n - 1];
      HoldersFront(hands[..n]);
    }
  }

  /** The end of a game or of the model's round budget. `Fails` is a game where Python
      raises: `max` of an empty table, a draw from an empty deck, or no player 1 to
      credit with a repeated position. */
  datatype Ending = Finished(winner: int, score: int) | Fails | OutOfFuel

  /** The game's result once only one player has cards. */
  function Final(hands: seq<seq<int>>, numbers: seq<int>): (r: Ending)
    requires |hands| == |numbers| && Holders(hands) >= 1
    ensures r.Finished? && r.winner in numbers
  {
    var i := FirstHolder(hands);
    Finished(numbers[i], ScoreOf(hands[i]))
  }

  // ---------------------------------------------------------------------------
  // Properties of a round
  // ---------------------------------------------------------------------------

  /** All cards in play. */
  function Pool(hands: seq<seq<int>>): multiset<int>
  {
    if hands == [] then multiset{} else Pool(hands[..|hands| - 1]) + multiset(hands[|hands| - 1])
  }

  /** The cards of a table. */
  function Cards(t: seq<(int, int)>): (r: seq<int>)
    ensures |r| == |t|
  {
    seq(|t|, k requires 0 <= k < |t| => t[k].1)
  }

  /** Drawing puts on the table exactly the cards that leave the hands. */
  lemma {:induction false} DrawPool(hands: seq<seq<int>>, numbers: seq<int>)
    requires |hands| == |numbers|
    ensures Pool(hands) == Pool(AfterDraw(hands)) + multiset(Cards(Table(hands, numbers)))
  {
    if hands != [] {
      var n := |hands| - 1;
      DrawPool(hands[..n], numbers[..n]);
      assert AfterDraw(hands)[..n] == AfterDraw(hands[..n]);
      var t := Table(hands, numbers);
      var front := Table(hands[..n], numbers[..n]);
      if hands[n] != [] {
        assert t == front + [(numbers[n], hands[n][0])];
        assert Cards(t) == Cards(front) + [hands[n][0]];
        assert hands[n] == [hands[n][0]] + hands[n][1..];
      } else {
        assert t == front;
      }
    }
  }

  /** The winnings are the table's cards, rearranged. */
  lemma {:induction false} WinningsPool(t: seq<(int, int)>, w: int)
    ensures multiset(Winnings(t, w)) == multiset(Cards(t))
  {
    if t != [] {
      var n := |t| - 1;
      WinningsPool(t[..n], w);
      assert Cards(t) == Cards(t[..n]) + [t[n].1];
    }
  }

  /** Giving `won` to one player adds exactly `won` to the cards in play. */
  lemma {:induction false} AwardPool(hands: seq<seq<int>>, s: nat, won: seq<int>)
    requires s < |hands|
    ensures Pool(hands[s := hands[s] + won]) == Pool(hands) + multiset(won)
  {
    var n := |hands| - 1;
    var after := hands[s := hands[s] + won];
    if s == n {
      assert after[..n] == hands[..n];
    } else {
      assert after[..n] == hands[..n][s := hands[s] + won];
      AwardPool(hands[..n], s, won);
    }
  }

  /** A round keeps the cards in play, whoever wins it. */
  lemma SettleConserves(hands: seq<seq<int>>, numbers: seq<int>, w: int)
    requires |hands| == |numbers| && w in numbers
    ensures Pool(Settle(hands, numbers, w)) == Pool(hands)
  {
    var t := Table(hands, numbers);
    DrawPool(hands, numbers);
    WinningsPool(t, w);
    AwardPool(AfterDraw(hands), Seat(numbers, w), Winnings(t, w));
  }

  /** With distinct player numbers the table's winner takes its own card first, then the
      others in seating order. */
  lemma {:induction false} WinnerFirst(t: seq<(int, int)>, b: nat)
    requires b < |t| && forall i, j :: 0 <= i < j < |t| ==> t[i].0 != t[j].0
    ensures Winnings(t, t[b].0) == [t[b].1] + Cards(t[..b] + t[b + 1..])
  {
    var w := t[b].0;
    OwnCards(t, b);
    OtherCards(t, b);
  }

  lemma {:induction false} OwnCards(t: seq<(int, int)>, b: nat)
    requires b < |t| && forall i, j :: 0 <= i < j < |t| ==> t[i].0 != t[j].0
    ensures CardsOf(t, t[b].0) == [t[b].1]
  {
    var n := |t| - 1;
    if b < n {
      assert t[..n][b] == t[b];
      OwnCards(t[..n], b);
    } else {
      NoCards(t[..n], t[b].0);
    }
  }

  lemma {:induction false} NoCards(t: seq<(int, int)>, w: int)
    requires forall k :: 0 <= k < |t| ==> t[k].0 != w
    ensures CardsOf(t, w) == [] && CardsNotOf(t, w) == Cards(t)
  {
    if t != [] {
      var n := |t| - 1;
      NoCards(t[..n], w);
      assert Cards(t) == Cards(t[..n]) + [t[n].1];
    }
  }

  lemma {:induction false} OtherCards(t: seq<(int, int)>, b: nat)
    requires b < |t| && forall i, j :: 0 <= i < j < |t| ==> t[i].0 != t[j].0
    ensures CardsNotOf(t, t[b].0) == Cards(t[..b] + t[b + 1..])
  {
    var n := |t| - 1;
    var w := t[b].0;
    if b < n {
      assert t[..n][b] == t[b];
      OtherCards(t[..n], b);
      assert t[..b] + t[b + 1..] == (t[..n][..b] + t[..n][b + 1..]) + [t[n]];
      assert Cards(t[..b] + t[b + 1..]) == Cards(t[..n][..b] + t[..n][b + 1..]) + [t[n].1];
    } else {
      NoCards(t[..n], w);
      assert t[..b] + t[b + 1..] == t[..n];
    }
  }

  // ---------------------------------------------------------------------------
  // The games, on values
  // ---------------------------------------------------------------------------

  /** What a round leaves: the end of the game, or the hands for the next round. */
  datatype Step = Over(e: Ending) | Next(hands: seq<seq<int>>)

  /** The end of a round won by the player numbered `w`: the game is over when only one
      player has cards left. */
  function Close(hands: seq<seq<int>>, numbers: seq<int>, w: int): (s: Step)
    requires |hands| == |numbers| && w in numbers
    ensures s.Next? ==> |s.hands| == |hands|
    ensures s.Over? ==> s.e.Finished? && s.e.winner in numbers
  {
    var h := Settle(hands, numbers, w);
    if Holders(h) == 1 then Over(Final(h, numbers)) else Next(h)
  }

  /** One round of part1: every player with cards draws and the highest card takes the
      table; a table nobody can fill makes Python's `max` raise. */
  function Round1Of(hands: seq<seq<int>>, numbers: seq<int>): (s: Step)
    requires |hands| == |numbers|
    ensures s.Next? ==> |s.hands| == |hands|
  {
    var t := Table(hands, numbers);
    if t == [] then Over(Fails) else Close(hands, numbers, t[Best(t)].0)
  }

  /** part1: play rounds, at most `fuel` of them, until one player holds all the cards;
      the score is that player's. */
  function Game1(hands: seq<seq<int>>, numbers: seq<int>, fuel: nat): (r: Ending)
    requires |hands| == |numbers|
    decreases fuel
  {
    if fuel == 0 then OutOfFuel
    else
      match Round1Of(hands, numbers)
      case Over(e) => e
      case Next(h) => Game1(h, numbers, fuel - 1)
  }

  /** A round that ends the game gives the game's result ... */
  lemma Game1Over(hands: seq<seq<int>>, numbers: seq<int>, fuel: nat, e: Ending)
    requires |hands| == |numbers| && fuel >= 1 && Round1Of(hands, numbers) == Over(e)
    ensures Game1(hands, numbers, fuel) == e
  {
  }

  /** ... and one that does not leaves the rest of the game to play from the new hands. */
  lemma Game1Next(hands: seq<seq<int>>, numbers: seq<int>, fuel: nat, next: seq<seq<int>>)
    requires |hands| == |numbers| && fuel >= 1 && Round1Of(hands, numbers) == Next(next)
    ensures Game1(hands, numbers, fuel) == Game1(next, numbers, fuel - 1)
  {
  }

  /** Python's `xs[:c]`. */
  function Prefix(xs: seq<int>, c: int): (r: seq<int>)
    ensures |r| <= |xs| && r == xs[..|r|]
    ensures 0 <= c <= |xs| ==> |r| == c
  {
    if c >= |xs| then xs
    else if c >= 0 then xs[..c]
    else if |xs| + c >= 0 then xs[..|xs| + c]
    else []
  }

  /** The sub-game decks: each player's first `c` remaining cards, `c` being the card it
      just drew. */
  function SubHands(rest: seq<seq<int>>, numbers: seq<int>, t: seq<(int, int)>): (r: seq<seq<int>>)
    requires |rest| == |numbers| && forall k :: 0 <= k < |t| ==> t[k].0 in numbers
    ensures |r| == |t|
  {
    seq(|t|, k requires 0 <= k < |t| => Prefix(rest[Seat(numbers, t[k].0)], t[k].1))
  }

  /** The sub-game is played iff every drawn card is at most the number of cards its
      player has left. */
  predicate Recurses(rest: seq<seq<int>>, numbers: seq<int>, t: seq<(int, int)>)
    requires |rest| == |numbers| && forall k :: 0 <= k < |t| ==> t[k].0 in numbers
  {
    forall k :: 0 <= k < |t| ==> t[k].1 <= |rest[Seat(numbers, t[k].0)]|
  }

  /** The numbers of the players at a table. */
  function TableNumbers(t: seq<(int, int)>): (r: seq<int>)
    ensures |r| == |t|
  {
    seq(|t|, k requires 0 <= k < |t| => t[k].0)
  }

  /** part2: rounds, at most `fuel` of them; every sub-game is played on the budget this
      game has left after the round that starts it. */
  function Game2(hands: seq<seq<int>>, numbers: seq<int>, seen: set<seq<seq<int>>>, fuel: nat): (r: Ending)
    requires |hands| == |numbers|
    ensures r.Finished? ==> r.winner in numbers
    decreases fuel, 2
  {
    if fuel == 0 then OutOfFuel
    else
      match Round2Of(hands, numbers, seen, fuel)
      case Over(e) => e
      case Next(h) => Game2(h, numbers, seen + {hands}, fuel - 1)
  }

  lemma Game2Over(hands: seq<seq<int>>, numbers: seq<int>, seen: set<seq<seq<int>>>, fuel: nat, e: Ending)
    requires |hands| == |numbers| && fuel >= 1 && Round2Of(hands, numbers, seen, fuel) == Over(e)
    ensures Game2(hands, numbers, seen, fuel) == e
  {
  }

  lemma Game2Next(hands: seq<seq<int>>, numbers: seq<int>, seen: set<seq<seq<int>>>, fuel: nat,
                  next: seq<seq<int>>)
    requires |hands| == |numbers| && fuel >= 1 && Round2Of(hands, numbers, seen, fuel) == Next(next)
    ensures Game2(hands, numbers, seen, fuel) == Game2(next, numbers, seen + {hands}, fuel - 1)
  {
  }

  /** One round of part2: a position seen before in this game goes to player 1 (a
      `KeyError` without one); a player without cards cannot draw. */
  function Round2Of(hands: seq<seq<int>>, numbers: seq<int>, seen: set<seq<seq<int>>>, fuel: nat): (s: Step)
    requires |hands| == |numbers| && fuel >= 1
    ensures s.Next? ==> |s.hands| == |hands|
    ensures s.Over? && s.e.Finished? ==> s.e.winner in numbers
    decreases fuel, 1
  {
    if hands in seen then
      if 1 in numbers then Over(Finished(1, ScoreOf(hands[Seat(numbers, 1)]))) else Over(Fails)
    else if exists i :: 0 <= i < |hands| && hands[i] == [] then Over(Fails)
    else Contest2(hands, numbers, fuel)
  }

  /** Every player draws; the round goes to the winner of a sub-game when every player
      can recurse, to the highest card when not. A sub-game that does not finish ends
      this game the same way. */
  function Contest2(hands: seq<seq<int>>, numbers: seq<int>, fuel: nat): (s: Step)
    requires |hands| == |numbers| && fuel >= 1
    ensures s.Next? ==> |s.hands| == |hands|
    ensures s.Over? && s.e.Finished? ==> s.e.winner in numbers
    decreases fuel, 0
  {
    var t := Table(hands, numbers);
    var rest := AfterDraw(hands);
    if Recurses(rest, numbers, t) then
      var sub := Game2(SubHands(rest, numbers, t), TableNumbers(t), {}, fuel - 1);
      if sub.Finished? then
        assert sub.winner in numbers by {
          var k :| 0 <= k < |t| && TableNumbers(t)[k] == sub.winner;
        }
        Close(hands, numbers, sub.winner)
      else Over(sub)
    else
      Close(hands, numbers, t[Best(t)].0)
  }

  /** The round when the drawn cards allow a sub-game: its winner takes the table. */
  lemma ContestRecurses(hands: seq<seq<int>>, numbers: seq<int>, fuel: nat, t: seq<(int, int)>,
                        sub: Ending)
    requires |hands| == |numbers| && fuel >= 1 && t == Table(hands, numbers)
    requires Recurses(AfterDraw(hands), numbers, t)
    requires sub == Game2(SubHands(AfterDraw(hands), numbers, t), TableNumbers(t), {}, fuel - 1)
    ensures sub.Finished? ==> sub.winner in numbers
    ensures Contest2(hands, numbers, fuel)
      == if sub.Finished? then Close(hands, numbers, sub.winner) else Over(sub)
  {
    if sub.Finished? {
      var k :| 0 <= k < |t| && TableNumbers(t)[k] == sub.winner;
    }
  }

  /** The round when some drawn card is above its player's remaining count: the highest
      card takes the table. */
  lemma ContestHighest(hands: seq<seq<int>>, numbers: seq<int>, fuel: nat, t: seq<(int, int)>)
    requires |hands| == |numbers| && fuel >= 1 && t == Table(hands, numbers)
    requires !Recurses(AfterDraw(hands), numbers, t)
    ensures t != [] && Contest2(hands, numbers, fuel) == Close(hands, numbers, t[Best(t)].0)
  {
  }

  // ---------------------------------------------------------------------------
  // The games, on decks
  // ---------------------------------------------------------------------------

  /** `seats` is `players_map` for decks numbered `numbers`: each number maps to the last
      deck that carries it. */
  ghost predicate Seats(seats: map<int, Deck>, decks: seq<Deck>, numbers: seq<int>)
    requires |decks| == |numbers|
  {
    (forall i :: 0 <= i < |numbers| ==> numbers[i] in seats)
    && forall n :: n in seats ==> n in numbers && seats[n] == decks[Seat(numbers, n)]
  }

  /** `players_map = {p.number: p for p in players}`. */
  method SeatMap(decks: seq<Deck>) returns (seats: map<int, Deck>)
    ensures Seats(seats, decks, Numbers(decks))
  {
    seats := map[];
    ghost var numbers := Numbers(decks);
    for i := 0 to |decks|
      invariant forall k :: 0 <= k < i ==> numbers[k] in seats
      invariant forall n :: n in seats ==> n in numbers[..i] && seats[n] == decks[Seat(numbers[..i], n)]
    {
      assert numbers[..i + 1] == numbers[..i] + [numbers[i]];
      seats := seats[decks[i].number := decks[i]];
      forall n | n in seats
        ensures seats[n] == decks[Seat(numbers[..i + 1], n)]
      {
        assert numbers[..i + 1][..i] == numbers[..i];
      }
    }
    assert numbers[..|decks|] == numbers;
  }

  /** The entry of one player in the table: it draws when it has cards. */
  method DrawOne(d: Deck) returns (entry: seq<(int, int)>)
    modifies d
    ensures d.number == old(d.number)
    ensures entry == if old(d.cards) != [] then [(d.number, old(d.cards)[0])] else []
    ensures d.cards == if old(d.cards) == [] then [] else old(d.cards)[1..]
  {
    entry := [];
    if d.cards != [] {
      var c := d.Draw();
      entry := [(d.number, c)];
    }
  }

  /** One step of the comprehension: player `i` draws, if it has cards, onto the table of
      the players before it. */
  method DrawNext(decks: seq<Deck>, ghost h0: seq<seq<int>>, ghost n0: seq<int>, i: nat,
                  table: seq<(int, int)>)
    returns (table': seq<(int, int)>)
    requires i < |decks| == |h0| == |n0|
    requires forall j, k :: 0 <= j < k < |decks| ==> decks[j] != decks[k]
    requires table == Table(h0[..i], n0[..i])
    requires forall j :: 0 <= j < |decks| ==> decks[j].number == n0[j]
    requires forall j :: 0 <= j < i ==> decks[j].cards == AfterDraw(h0)[j]
    requires forall j :: i <= j < |decks| ==> decks[j].cards == h0[j]
    modifies decks[i]
    ensures table' == Table(h0[..i + 1], n0[..i + 1])
    ensures forall j :: 0 <= j < |decks| ==> decks[j].number == n0[j]
    ensures forall j :: 0 <= j < i + 1 ==> decks[j].cards == AfterDraw(h0)[j]
    ensures forall j :: i + 1 <= j < |decks| ==> decks[j].cards == h0[j]
  {
    TablePrefix(h0, n0, i);
    var entry := DrawOne(decks[i]);
    table' := table + entry;
  }

  /** `[(p.number, p.draw()) for p in players if p.hascards()]`. */
  method DrawHolders(decks: seq<Deck>) returns (table: seq<(int, int)>)
    requires Separate(decks)
    modifies set d | d in decks
    ensures Numbers(decks) == old(Numbers(decks))
    ensures table == Table(old(Hands(decks)), Numbers(decks))
    ensures Hands(decks) == AfterDraw(old(Hands(decks)))
  {
    ghost var h0 := Hands(decks);
    ghost var n0 := Numbers(decks);
    SeparateApart(decks);
    table := [];
    for i := 0 to |decks|
      invariant table == Table(h0[..i], n0[..i])
      invariant forall j :: 0 <= j < |decks| ==> decks[j].number == n0[j]
      invariant forall j :: 0 <= j < i ==> decks[j].cards == AfterDraw(h0)[j]
      invariant forall j :: i <= j < |decks| ==> decks[j].cards == h0[j]
    {
      table := DrawNext(decks, h0, n0, i, table);
    }
    assert h0[..|decks|] == h0 && n0[..|decks|] == n0;
    assert Numbers(decks) == n0;
    assert Hands(decks) == AfterDraw(h0);
  }

  /** `max(cards_in_game, key=lambda e: e[1])[0]`. */
  method Highest(table: seq<(int, int)>) returns (w: int)
    requires table != []
    ensures w == table[Best(table)].0
  {
    var k := 0;
    for i := 1 to |table|
      invariant k < i && k == Best(table[..i])
    {
      assert table[..i + 1][..i] == table[..i];
      if table[i].1 > table[k].1 {
        k := i;
      }
    }
    assert table[..|table|] == table;
    w := table[k].0;
  }

  /** `for p in players: if p.hascards(): return p.number, p.score()`. */
  method Winner(decks: seq<Deck>) returns (e: Ending)
    requires Holders(Hands(decks)) >= 1
    ensures e == Final(Hands(decks), Numbers(decks))
  {
    ghost var h := Hands(decks);
    ghost var first := FirstHolder(h);
    var i := 0;
    while decks[i].cards == []
      invariant i <= first
      decreases first - i
    {
      assert h[i] == decks[i].cards;
      i := i + 1;
    }
    assert h[i] == decks[i].cards;
    var s := decks[i].Score();
    e := Finished(decks[i].number, s);
  }

  /** The winner's deck takes the table. */
  method Take(decks: seq<Deck>, seats: map<int, Deck>, w: int, won: seq<int>)
    requires Separate(decks) && w in Numbers(decks)
    requires Seats(seats, decks, Numbers(decks))
    modifies set d | d in decks
    ensures Numbers(decks) == old(Numbers(decks))
    ensures Hands(decks) == Award(old(Hands(decks)), Numbers(decks), w, won)
  {
    ghost var h0 := Hands(decks);
    ghost var s := Seat(Numbers(decks), w);
    SeparateApart(decks);
    seats[w].Win(won);
    assert forall j :: 0 <= j < |decks| && j != s ==> decks[j].cards == h0[j];
  }

  /** The winner numbered `w` takes the table; the game ends when only one player has
      cards left. */
  method CloseRound(decks: seq<Deck>, seats: map<int, Deck>, ghost h: seq<seq<int>>, ghost numbers: seq<int>,
                    table: seq<(int, int)>, w: int)
    returns (done: bool, e: Ending)
    requires Separate(decks) && numbers == Numbers(decks) && Seats(seats, decks, numbers)
    requires |h| == |numbers| && w in numbers
    requires table == Table(h, numbers) && Hands(decks) == AfterDraw(h)
    modifies set d | d in decks
    ensures Numbers(decks) == numbers
    ensures Close(h, numbers, w) == if done then Over(e) else Next(Hands(decks))
  {
    Take(decks, seats, w, Winnings(table, w));
    assert Hands(decks) == Settle(h, numbers, w);
    if Holders(Hands(decks)) == 1 {
      e := Winner(decks);
      return true, e;
    }
    return false, Fails;
  }

  /** One round of part1 on the decks: `done` when the game ends with `e`. */
  method Round1(decks: seq<Deck>, seats: map<int, Deck>, ghost h: seq<seq<int>>, ghost numbers: seq<int>)
    returns (done: bool, e: Ending)
    requires Separate(decks) && h == Hands(decks) && numbers == Numbers(decks)
    requires Seats(seats, decks, numbers)
    modifies set d | d in decks
    ensures Numbers(decks) == numbers
    ensures Round1Of(h, numbers) == if done then Over(e) else Next(Hands(decks))
  {
    var table := DrawHolders(decks);
    if table == [] {
      return true, Fails;
    }
    var w := Highest(table);
    done, e := CloseRound(decks, seats, h, numbers, table, w);
  }

  /** The rounds of part1 on the decks, at most `fuel` of them. */
  method Play1(decks: seq<Deck>, seats: map<int, Deck>, ghost numbers: seq<int>, fuel: nat) returns (e: Ending)
    requires Separate(decks) && numbers == Numbers(decks)
    requires Seats(seats, decks, numbers)
    modifies set d | d in decks
    ensures e == Game1(old(Hands(decks)), numbers, fuel)
  {
    var left := fuel;
    ghost var hands := Hands(decks);
    ghost var result := Game1(hands, numbers, fuel);
    while left > 0
      invariant |hands| == |numbers| && Numbers(decks) == numbers && Hands(decks) == hands
      invariant Game1(hands, numbers, left) == result
    {
      var done;
      done, e := Round1(decks, seats, hands, numbers);
      if done {
        Game1Over(hands, numbers, left, e);
        return;
      }
      Game1Next(hands, numbers, left, Hands(decks));
      assert Game1(Hands(decks), numbers, left - 1) == result;
      hands := Hands(decks);
      left := left - 1;
    }
    e := OutOfFuel;
  }

  /** part1 on a copy of the decks, for at most `fuel` rounds. */
  method Part1(players: seq<Deck>, fuel: nat) returns (e: Ending)
    requires Separate(players)
    ensures e == Game1(Hands(players), Numbers(players), fuel)
  {
    var decks := Copy(players);
    var seats := SeatMap(decks);
    e := Play1(decks, seats, Numbers(decks), fuel);
  }

  /** `win_by_rec`: stop at the first drawn card above its player's remaining count. */
  method CanRecurse(table: seq<(int, int)>, decks: seq<Deck>, seats: map<int, Deck>) returns (rec: bool)
    requires forall k :: 0 <= k < |table| ==> table[k].0 in Numbers(decks)
    requires Seats(seats, decks, Numbers(decks))
    ensures rec == Recurses(Hands(decks), Numbers(decks), table)
  {
    rec := true;
    for k := 0 to |table|
      invariant rec == forall j :: 0 <= j < k ==> table[j].1 <= |Hands(decks)[Seat(Numbers(decks), table[j].0)]|
    {
      var (pn, c) := table[k];
      if c > |seats[pn].cards| {
        rec := false;
        break;
      }
    }
  }

  /** `[Deck(pn, list(players_map[pn].cards)[:c]) for pn, c in cards_in_game]`. */
  method SubDecks(table: seq<(int, int)>, decks: seq<Deck>, seats: map<int, Deck>) returns (sub: seq<Deck>)
    requires forall k :: 0 <= k < |table| ==> table[k].0 in Numbers(decks)
    requires Seats(seats, decks, Numbers(decks))
    ensures Separate(sub) && forall d :: d in sub ==> fresh(d)
    ensures Hands(sub) == SubHands(Hands(decks), Numbers(decks), table)
    ensures Numbers(sub) == TableNumbers(table)
  {
    ghost var hands := SubHands(Hands(decks), Numbers(decks), table);
    var cards := [];
    for k := 0 to |table|
      invariant cards == hands[..k]
    {
      var (pn, c) := table[k];
      cards := cards + [Prefix(seats[pn].cards, c)];
    }
    assert cards == hands;
    sub := NewDecks(TableNumbers(table), cards);
  }

  /** part2 on a copy of the decks, for at most `fuel` rounds. */
  method Part2(players: seq<Deck>, fuel: nat) returns (e: Ending)
    requires Separate(players)
    ensures e == Game2(Hands(players), Numbers(players), {}, fuel)
    decreases fuel, 4
  {
    var decks := Copy(players);
    var seats := SeatMap(decks);
    e := Play2(decks, seats, Numbers(decks), fuel);
  }

  /** The rounds of part2 on the decks, with `previous_rounds` starting empty. */
  method Play2(decks: seq<Deck>, seats: map<int, Deck>, ghost numbers: seq<int>, fuel: nat) returns (e: Ending)
    requires Separate(decks) && numbers == Numbers(decks)
    requires Seats(seats, decks, numbers)
    modifies set d | d in decks
    ensures e == Game2(old(Hands(decks)), numbers, {}, fuel)
    decreases fuel, 3
  {
    var left: nat := fuel;
    var seen: set<seq<seq<int>>> := {};
    var state := Hands(decks);
    ghost var result := Game2(state, numbers, {}, fuel);
    while left > 0
      invariant left <= fuel
      invariant |state| == |numbers| && Numbers(decks) == numbers && Hands(decks) == state
      invariant Game2(state, numbers, seen, left) == result
    {
      var done;
      done, e := Round2(decks, seats, state, numbers, seen, left);
      if done {
        Game2Over(state, numbers, seen, left, e);
        return;
      }
      Game2Next(state, numbers, seen, left, Hands(decks));
      seen := seen + {state};
      state := Hands(decks);
      left := left - 1;
      assert Game2(state, numbers, seen, left) == result;
    }
    e := OutOfFuel;
  }

  /** One round of part2 on the decks: `done` when the game ends with `e`. */
  method Round2(decks: seq<Deck>, seats: map<int, Deck>, state: seq<seq<int>>, ghost numbers: seq<int>,
                seen: set<seq<seq<int>>>, fuel: nat)
    returns (done: bool, e: Ending)
    requires fuel >= 1 && Separate(decks) && state == Hands(decks) && numbers == Numbers(decks)
    requires Seats(seats, decks, numbers)
    modifies set d | d in decks
    ensures Numbers(decks) == numbers
    ensures Round2Of(state, numbers, seen, fuel) == if done then Over(e) else Next(Hands(decks))
    decreases fuel, 2
  {
    if state in seen {
      if 1 !in seats {
        return true, Fails;
      }
      var s := seats[1].Score();
      return true, Finished(1, s);
    }
    if exists i :: 0 <= i < |decks| && decks[i].cards == [] {
      ghost var i :| 0 <= i < |decks| && decks[i].cards == [];
      assert state[i] == [];
      return true, Fails;
    }
    done, e := Contest(decks, seats, state, numbers, fuel);
  }

  /** Every player draws, and the round is settled by a sub-game on copies of the decks
      or by the highest card. */
  method Contest(decks: seq<Deck>, seats: map<int, Deck>, ghost h: seq<seq<int>>, ghost numbers: seq<int>, fuel: nat)
    returns (done: bool, e: Ending)
    requires fuel >= 1 && Separate(decks) && h == Hands(decks) && numbers == Numbers(decks)
    requires Seats(seats, decks, numbers)
    modifies set d | d in decks
    ensures Numbers(decks) == numbers
    ensures Contest2(h, numbers, fuel) == if done then Over(e) else Next(Hands(decks))
    decreases fuel, 1
  {
    var table := DrawHolders(decks);
    var rec := CanRecurse(table, decks, seats);
    if rec {
      done, e := SubRound(decks, seats, h, numbers, table, fuel);
    } else {
      ContestHighest(h, numbers, fuel, table);
      var w := Highest(table);
      done, e := CloseRound(decks, seats, h, numbers, table, w);
    }
  }

  /** The round settled by a sub-game on copies of the first cards of each deck. */
  method SubRound(decks: seq<Deck>, seats: map<int, Deck>, ghost h: seq<seq<int>>, ghost numbers: seq<int>,
                  table: seq<(int, int)>, fuel: nat)
    returns (done: bool, e: Ending)
    requires fuel >= 1 && Separate(decks) && numbers == Numbers(decks) && Seats(seats, decks, numbers)
    requires |h| == |numbers| && table == Table(h, numbers) && Hands(decks) == AfterDraw(h)
    requires Recurses(AfterDraw(h), numbers, table)
    modifies set d | d in decks
    ensures Numbers(decks) == numbers
    ensures Contest2(h, numbers, fuel) == if done then Over(e) else Next(Hands(decks))
    decreases fuel, 0
  {
    var sub := SubDecks(table, decks, seats);
    var r := Part2(sub, fuel - 1);
    ContestRecurses(h, numbers, fuel, table, r);
    if !r.Finished? {
      return true, r;
    }
    done, e := CloseRound(decks, seats, h, numbers, table, r.winner);
  }

  // ---------------------------------------------------------------------------
  // Parsing
  // ---------------------------------------------------------------------------

  /** The characters `strip(": ")` removes. */
  predicate IsColonOrSpace(c: char)
  {
    c == ':' || c == ' '
  }

  /** Python's `s[k:]` for `k >= 0`. */
  function Drop(s: string, k: nat): string
  {
    if k <= |s| then s[k..] else []
  }

  /** parse_deck: the first line is `Player <n>:`, every other line one card; an empty
      text, a bad number or a bad card raises (here `None`). */
  function ParseDeck(inp: string): Option<(int, seq<int>)>
  {
    var lines := SplitLines(inp);
    if lines == [] then None
    else
      var number := ParseInt(StripBy(Drop(lines[0], |"Player "|), IsColonOrSpace));
      var cards := ParseCards(lines[1..]);
      if number.None? || cards.None? then None else Some((number.value, cards.value))
  }

  /** `[int(i) for i in rest]`. */
  function ParseCards(lines: seq<string>): (r: Option<seq<int>>)
    ensures r.Some? ==> |r.value| == |lines|
  {
    if lines == [] then Some([])
    else
      var c := ParseInt(lines[0]);
      var rest := ParseCards(lines[1..]);
      if c.None? || rest.None? then None else Some([c.value] + rest.value)
  }

  /** The text of a deck as the puzzle writes it. */
  function DeckText(number: int, cards: seq<int>): string
  {
    Join(["Player " + IntToString(number) + ":"] + CardLines(cards), '\n')
  }

  function CardLines(cards: seq<int>): (r: seq<string>)
    ensures |r| == |cards|
  {
    if cards == [] then [] else [IntToString(cards[0])] + CardLines(cards[1..])
  }

  lemma {:induction false} CardLinesAt(cards: seq<int>)
    ensures forall k :: 0 <= k < |cards| ==> CardLines(cards)[k] == IntToString(cards[k])
  {
    if cards != [] {
      CardLinesAt(cards[1..]);
      forall k | 1 <= k < |cards|
        ensures CardLines(cards)[k] == CardLines(cards[1..])[k - 1]
      {
      }
    }
  }

  lemma CardLinesNoBreak(cards: seq<int>)
    ensures forall k :: 0 <= k < |cards| ==> '\n' !in CardLines(cards)[k] && |CardLines(cards)[k]| >= 1
  {
    CardLinesAt(cards);
    forall k | 0 <= k < |cards|
      ensures '\n' !in IntToString(cards[k])
    {
      NoLineBreak(cards[k]);
    }
  }

  /** Parsing the text of a deck gives back its number and cards. */
  lemma ParseDeckText(number: int, cards: seq<int>)
    ensures ParseDeck(DeckText(number, cards)) == Some((number, cards))
  {
    var lines := ["Player " + IntToString(number) + ":"] + CardLines(cards);
    DeckTextLines(number, cards);
    HeadNumber(number);
    assert lines[1..] == CardLines(cards);
    ParseCardLines(cards);
    ParseDeckOf(DeckText(number, cards), lines, number, cards);
  }

  lemma ParseDeckOf(inp: string, lines: seq<string>, number: int, cards: seq<int>)
    requires SplitLines(inp) == lines && lines != []
    requires ParseInt(StripBy(Drop(lines[0], |"Player "|), IsColonOrSpace)) == Some(number)
    requires ParseCards(lines[1..]) == Some(cards)
    ensures ParseDeck(inp) == Some((number, cards))
  {
  }

  /** The lines of a deck's text are its heading and one line per card. */
  lemma DeckTextLines(number: int, cards: seq<int>)
    ensures SplitLines(DeckText(number, cards)) == ["Player " + IntToString(number) + ":"] + CardLines(cards)
  {
    var digits := IntToString(number);
    var head := "Player " + digits + ":";
    var lines := [head] + CardLines(cards);
    CardLinesNoBreak(cards);
    assert forall k :: 1 <= k < |lines| ==> lines[k] == CardLines(cards)[k - 1];
    forall k | 0 <= k < |head|
      ensures head[k] != '\n'
    {
      if 7 <= k < 7 + |digits| {
        assert head[k] == digits[k - 7];
        NoLineBreak(number);
      }
    }
    SplitLinesJoin(lines);
  }

  /** The number parses back from the heading `Player <n>:`. */
  lemma HeadNumber(number: int)
    ensures ParseInt(StripBy(Drop("Player " + IntToString(number) + ":", |"Player "|), IsColonOrSpace)) == Some(number)
  {
    var digits := IntToString(number);
    assert Drop("Player " + digits + ":", |"Player "|) == digits + ":";
    StripNumber(number);
    ParseIntToString(number);
  }

  lemma NoLineBreak(n: int)
    ensures '\n' !in IntToString(n)
  {
    var s := IntToString(n);
    if n < 0 {
      assert s == "-" + NatToString(-n);
    }
    forall k | 0 <= k < |s|
      ensures s[k] != '\n'
    {
      if n < 0 && k > 0 {
        assert s[k] == NatToString(-n)[k - 1];
      }
    }
  }

  lemma StripNumber(n: int)
    ensures StripBy(IntToString(n) + ":", IsColonOrSpace) == IntToString(n)
  {
    var s := IntToString(n);
    var t := s + ":";
    assert t[..|t| - 1] == s;
    assert RStripBy(t, IsColonOrSpace) == RStripBy(s, IsColonOrSpace);
    NoColonOrSpace(n);
  }

  lemma NoColonOrSpace(n: int)
    ensures var s := IntToString(n);
      |s| >= 1 && !IsColonOrSpace(s[0]) && !IsColonOrSpace(s[|s| - 1])
      && RStripBy(s, IsColonOrSpace) == s && LStripBy(s, IsColonOrSpace) == s
  {
    var s := IntToString(n);
    if n < 0 {
      assert s == "-" + NatToString(-n);
    }
  }

  /** The cards of a deck parse back from their lines. */
  lemma ParseCardLines(cards: seq<int>)
    ensures ParseCards(CardLines(cards)) == Some(cards)
  {
    var lines := CardLines(cards);
    CardLinesAt(cards);
    forall k | 0 <= k < |lines|
      ensures ParseInt(lines[k]) == Some(cards[k])
    {
      ParseIntToString(cards[k]);
    }
    ParseCardsAll(lines, cards);
  }

  /** `[int(i) for i in rest]` succeeds when every line parses. */
  lemma {:induction false} ParseCardsAll(lines: seq<string>, cards: seq<int>)
    requires |lines| == |cards|
    requires forall k :: 0 <= k < |lines| ==> ParseInt(lines[k]) == Some(cards[k])
    ensures ParseCards(lines) == Some(cards)
  {
    if lines != [] {
      forall k | 0 <= k < |lines| - 1
        ensures ParseInt(lines[1..][k]) == Some(cards[1..][k])
      {
        assert lines[1..][k] == lines[k + 1];
      }
      ParseCardsAll(lines[1..], cards[1..]);
      ParseCardsCons(lines, cards[0], cards[1..]);
      assert cards == [cards[0]] + cards[1..];
    }
  }

  lemma ParseCardsCons(lines: seq<string>, c: int, rest: seq<int>)
    requires lines != [] && ParseInt(lines[0]) == Some(c) && ParseCards(lines[1..]) == Some(rest)
    ensures ParseCards(lines) == Some([c] + rest)
  {
  }
}
