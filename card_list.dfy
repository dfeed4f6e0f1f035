/**
 * The CardList component: the deck of cards, the cursor into the visible
 * cards, the flagged-only filter, the flag count and the flip-reset key,
 * with the handlers that change them.
 *
 * The derived values (the visible cards, the flag count) and the card list
 * updates are functions over values; the component's state is the class
 * `Deck` at the end, whose methods are the handlers.
 */
module CardList {
  import opened Wrappers
  import FileUploader

  /** One card of the deck: `id` is its position in the input it was loaded from. */
  datatype Card = Card(id: nat, question: string, answer: string, flagged: bool)

  // ---------------------------------------------------------------------
  // Loading
  // ---------------------------------------------------------------------

  /** The cards the load effect builds: numbered by input position, none flagged. */
  function Numbered(pairs: seq<FileUploader.QA>): (cards: seq<Card>)
    ensures |cards| == |pairs|
    ensures DenseIds(cards)
    ensures FlaggedOnly(cards) == []
  {
    var cards := seq(|pairs|, i requires 0 <= i < |pairs| =>
                   Card(i, pairs[i].question, pairs[i].answer, false));
    NoneFlagged(cards);
    cards
  }

  /** What the cards show, without their ids and flags. */
  function Contents(cards: seq<Card>): (pairs: seq<FileUploader.QA>)
    ensures |pairs| == |cards|
  {
    seq(|cards|, i requires 0 <= i < |cards| => FileUploader.QA(cards[i].question, cards[i].answer))
  }

  /** Loading keeps every question and answer, in input order. */
  lemma NumberedKeepsContents(pairs: seq<FileUploader.QA>)
    ensures Contents(Numbered(pairs)) == pairs
  {
  }

  /** Ids are the positions: card `i` has id `i`. */
  predicate DenseIds(cards: seq<Card>) {
    forall i | 0 <= i < |cards| :: cards[i].id == i
  }

  predicate UniqueIds(cards: seq<Card>) {
    forall i, j | 0 <= i < j < |cards| :: cards[i].id != cards[j].id
  }

  lemma DenseIdsAreUnique(cards: seq<Card>)
    requires DenseIds(cards)
    ensures UniqueIds(cards)
  {
  }

  // ---------------------------------------------------------------------
  // The visible cards and the flag count
  // ---------------------------------------------------------------------

  /** `cards.filter((card) => card.flagged)`. */
  function FlaggedOnly(cards: seq<Card>): (r: seq<Card>)
    ensures |r| <= |cards|
  {
    if cards == [] then []
    else (if cards[0].flagged then [cards[0]] else []) + FlaggedOnly(cards[1..])
  }

  /** The flagged-only view holds the flagged cards of the deck and nothing else. */
  lemma {:induction false} FlaggedOnlyMembers(cards: seq<Card>)
    ensures forall c :: c in FlaggedOnly(cards) <==> c in cards && c.flagged
  {
    if cards != [] {
      FlaggedOnlyMembers(cards[1..]);
      assert cards == [cards[0]] + cards[1..];
    }
  }

  lemma MultisetLength<T>(a: seq<T>, b: seq<T>)
    requires multiset(a) == multiset(b)
    ensures |a| == |b|
  {
    assert |a| == |multiset(a)| && |b| == |multiset(b)|;
  }

  lemma {:induction false} NoneFlagged(cards: seq<Card>)
    requires forall i | 0 <= i < |cards| :: !cards[i].flagged
    ensures FlaggedOnly(cards) == []
  {
    if cards != [] {
      NoneFlagged(cards[1..]);
    }
  }

  /** `visibleCards`: all cards, or the flagged ones when the filter is on. */
  function Visible(cards: seq<Card>, flaggedOnly: bool): seq<Card> {
    if flaggedOnly then FlaggedOnly(cards) else cards
  }

  /** The flag count the effect keeps: the length of the flagged list, whatever the filter. */
  function FlaggedCount(cards: seq<Card>): nat {
    |FlaggedOnly(cards)|
  }

  function Flags(cards: seq<Card>): seq<bool> {
    seq(|cards|, i requires 0 <= i < |cards| => cards[i].flagged)
  }

  /** The flag count is the number of cards whose flag is set. */
  lemma {:induction false} FlaggedCountCountsFlags(cards: seq<Card>)
    ensures FlaggedCount(cards) == multiset(Flags(cards))[true]
  {
    if cards != [] {
      FlaggedCountCountsFlags(cards[1..]);
      assert Flags(cards) == [cards[0].flagged] + Flags(cards[1..]);
    }
  }

  /** `r` is `s` with some elements left out, the others kept in order. */
  ghost predicate IsSubsequence<T>(r: seq<T>, s: seq<T>)
    decreases |s|
  {
    if r == [] then true
    else if s == [] then false
    else (r[0] == s[0] && IsSubsequence(r[1..], s[1..])) || IsSubsequence(r, s[1..])
  }

  /** The flagged-only view lists the flagged cards in deck order. */
  lemma {:induction false} FlaggedOnlyKeepsOrder(cards: seq<Card>)
    ensures IsSubsequence(FlaggedOnly(cards), cards)
  {
    if cards != [] {
      FlaggedOnlyKeepsOrder(cards[1..]);
      var r := FlaggedOnly(cards);
      if cards[0].flagged {
        assert r == [cards[0]] + FlaggedOnly(cards[1..]);
        assert r[0] == cards[0] && r[1..] == FlaggedOnly(cards[1..]);
      } else {
        assert r == FlaggedOnly(cards[1..]);
      }
    }
  }

  // ---------------------------------------------------------------------
  // Flagging
  // ---------------------------------------------------------------------

  /** The `cards.map` of `handleFlag`: every card with the given id has its flag flipped. */
  function ToggleFlag(cards: seq<Card>, id: nat): (r: seq<Card>)
    ensures |r| == |cards|
  {
    seq(|cards|, i requires 0 <= i < |cards| =>
      if cards[i].id == id then cards[i].(flagged := !cards[i].flagged) else cards[i])
  }

  /**
   * In a deck whose ids are positions, flagging id `k` flips the flag of
   * card `k` and of no other card, and changes nothing else.
   */
  lemma ToggleFlagChangesOneCard(cards: seq<Card>, k: nat)
    requires DenseIds(cards) && k < |cards|
    ensures DenseIds(ToggleFlag(cards, k))
    ensures ToggleFlag(cards, k)[k] == cards[k].(flagged := !cards[k].flagged)
    ensures forall i | 0 <= i < |cards| && i != k :: ToggleFlag(cards, k)[i] == cards[i]
  {
  }

  /** Flagging the same id twice gives back the same cards. */
  lemma ToggleFlagTwice(cards: seq<Card>, id: nat)
    ensures ToggleFlag(ToggleFlag(cards, id), id) == cards
  {
  }

  lemma ToggleFlagAbsent(cards: seq<Card>, id: nat)
    requires forall i | 0 <= i < |cards| :: cards[i].id != id
    ensures ToggleFlag(cards, id) == cards
  {
  }

  lemma ToggleFlagTail(cards: seq<Card>, id: nat)
    requires cards != []
    ensures ToggleFlag(cards, id)[1..] == ToggleFlag(cards[1..], id)
  {
  }

  /** A card's id occurs nowhere else in a deck of unique ids. */
  lemma OtherCardsHaveOtherIds(cards: seq<Card>, c: Card)
    requires UniqueIds(cards) && cards != [] && c in cards[1..]
    ensures c.id != cards[0].id
  {
    var j :| 0 <= j < |cards[1..]| && cards[1..][j] == c;
    assert cards[j + 1] == c;
  }

  /** Flagging a card moves the flag count by one, up or down. */
  lemma {:induction false} ToggleFlagCount(cards: seq<Card>, k: nat)
    requires UniqueIds(cards) && k < |cards|
    ensures FlaggedCount(ToggleFlag(cards, cards[k].id)) ==
            if cards[k].flagged then FlaggedCount(cards) - 1 else FlaggedCount(cards) + 1
  {
    var id := cards[k].id;
    var t := ToggleFlag(cards, id);
    ToggleFlagTail(cards, id);
    if k == 0 {
      assert forall i | 0 <= i < |cards[1..]| :: cards[1..][i].id != id by {
        forall i | 0 <= i < |cards[1..]| ensures cards[1..][i].id != id {
          assert cards[1..][i] == cards[i + 1];
        }
      }
      ToggleFlagAbsent(cards[1..], id);
    } else {
      assert cards[k] == cards[1..][k - 1];
      ToggleFlagCount(cards[1..], k - 1);
    }
  }

  /**
   * In the flagged-only view, flagging the visible card at position `k`
   * unflags it, so it leaves the view and the others keep their order.
   */
  lemma {:induction false} ToggleFlagInFlaggedView(cards: seq<Card>, k: nat)
    requires UniqueIds(cards) && k < |FlaggedOnly(cards)|
    ensures FlaggedOnly(ToggleFlag(cards, FlaggedOnly(cards)[k].id)) ==
            FlaggedOnly(cards)[..k] + FlaggedOnly(cards)[k + 1..]
  {
    if cards[0].flagged && k == 0 {
      UnflagFirst(cards);
    } else {
      var k' := if cards[0].flagged then k - 1 else k;
      var c := FlaggedOnly(cards)[k];
      assert c == FlaggedOnly(cards[1..])[k'];
      FlaggedOnlyMembers(cards[1..]);
      OtherCardsHaveOtherIds(cards, c);
      ToggleFlagInFlaggedView(cards[1..], k');
      UnflagLater(cards, k, k');
    }
  }

  /** `FlaggedOnly` unfolded once. */
  lemma FlaggedOnlyCons(cards: seq<Card>)
    requires cards != []
    ensures FlaggedOnly(cards) == (if cards[0].flagged then [cards[0]] else []) + FlaggedOnly(cards[1..])
  {
  }

  /** The step of the induction where the first card is the one unflagged. */
  lemma UnflagFirst(cards: seq<Card>)
    requires UniqueIds(cards) && cards != [] && cards[0].flagged
    ensures FlaggedOnly(ToggleFlag(cards, cards[0].id)) == FlaggedOnly(cards)[1..]
  {
    var rest := cards[1..];
    var id := cards[0].id;
    ToggleFlagTail(cards, id);
    assert forall i | 0 <= i < |rest| :: rest[i].id != id by {
      forall i | 0 <= i < |rest| ensures rest[i].id != id {
        assert rest[i] == cards[i + 1];
      }
    }
    ToggleFlagAbsent(rest, id);
    var t := ToggleFlag(cards, id);
    assert t == [t[0]] + rest;
    assert !t[0].flagged;
  }

  /** The step of the induction where the card unflagged is further down. */
  lemma UnflagLater(cards: seq<Card>, k: nat, k': nat)
    requires cards != [] && k < |FlaggedOnly(cards)|
    requires !(cards[0].flagged && k == 0)
    requires k' == if cards[0].flagged then k - 1 else k
    requires k' < |FlaggedOnly(cards[1..])|
    requires FlaggedOnly(cards)[k].id != cards[0].id
    requires FlaggedOnly(ToggleFlag(cards[1..], FlaggedOnly(cards[1..])[k'].id)) ==
             FlaggedOnly(cards[1..])[..k'] + FlaggedOnly(cards[1..])[k' + 1..]
    ensures FlaggedOnly(ToggleFlag(cards, FlaggedOnly(cards)[k].id)) ==
            FlaggedOnly(cards)[..k] + FlaggedOnly(cards)[k + 1..]
  {
    var v, w := FlaggedOnly(cards), FlaggedOnly(cards[1..]);
    var h: seq<Card> := if cards[0].flagged then [cards[0]] else [];
    FlaggedOnlyCons(cards);
    assert v == h + w;
    assert k == |h| + k';
    var id := v[k].id;
    assert v[k] == w[k'];
    ToggleFlagTail(cards, id);
    var t := ToggleFlag(cards, id);
    assert t[0] == cards[0];
    FlaggedOnlyCons(t);
    DropAfterPrefix(h, w, k');
  }

  /** Dropping an element after a prefix drops it from the part after the prefix. */
  lemma DropAfterPrefix<T>(h: seq<T>, w: seq<T>, k: nat)
    requires k < |w|
    ensures (h + w)[..|h| + k] + (h + w)[|h| + k + 1..] == h + (w[..k] + w[k + 1..])
  {
    assert (h + w)[..|h| + k] == h + w[..k];
    assert (h + w)[|h| + k + 1..] == w[k + 1..];
  }

  // ---------------------------------------------------------------------
  // Navigation
  // ---------------------------------------------------------------------

  /** `handleNext`'s update: from the last card back to the first. */
  function NextIndex(current: nat, count: nat): (r: nat)
    requires count > 0
    ensures current < count ==> r == (current + 1) % count
    ensures current >= count ==> r == current + 1
  {
    if current == count - 1 then 0 else current + 1
  }

  /** `handlePrevious`'s update: from the first card round to the last. */
  function PreviousIndex(current: nat, count: nat): (r: nat)
    requires count > 0
    ensures current < count ==> r == (current + count - 1) % count
    ensures current >= count ==> r == current - 1
  {
    if current == 0 then count - 1 else current - 1
  }

  /** Next then previous, or previous then next, comes back to the same card. */
  lemma NavigationRoundTrip(current: nat, count: nat)
    requires current < count
    ensures PreviousIndex(NextIndex(current, count), count) == current
    ensures NextIndex(PreviousIndex(current, count), count) == current
  {
  }

  /** Where the cursor is clamped to, in the corrected flag handler. */
  function ClampIndex(current: nat, count: nat): (r: nat)
    ensures count == 0 ==> r == 0
    ensures count > 0 ==> r < count
    ensures current < count ==> r == current
  {
    if current < count then current else if count == 0 then 0 else count - 1
  }

  // ---------------------------------------------------------------------
  // Shuffling, as written: write each shuffled card over the card with its id
  // ---------------------------------------------------------------------

  /** `findIndex` by id: the first position holding a card with that id, or -1. */
  function IndexOfId(cards: seq<Card>, id: nat): (k: int)
    ensures -1 <= k < |cards|
    ensures k == -1 <==> forall i | 0 <= i < |cards| :: cards[i].id != id
    ensures k != -1 ==> cards[k].id == id && forall i | 0 <= i < k :: cards[i].id != id
  {
    if cards == [] then -1
    else if cards[0].id == id then 0
    else
      var k := IndexOfId(cards[1..], id);
      if k == -1 then -1 else k + 1
  }

  /** One pass of the write-back loop: `c` replaces the first card with its id, if there is one. */
  function WriteOne(cards: seq<Card>, c: Card): (r: seq<Card>)
    ensures |r| == |cards|
    ensures forall i | 0 <= i < |cards| :: r[i].id == cards[i].id
  {
    var k := IndexOfId(cards, c.id);
    if k == -1 then cards else cards[k := c]
  }

  /** The array the write-back loop leaves after writing the shuffled cards in order. */
  function WriteBack(cards: seq<Card>, shuffled: seq<Card>): (r: seq<Card>)
    ensures |r| == |cards|
    ensures forall i | 0 <= i < |cards| :: r[i].id == cards[i].id
    decreases |shuffled|
  {
    if shuffled == [] then cards
    else WriteOne(WriteBack(cards, shuffled[..|shuffled| - 1]), shuffled[|shuffled| - 1])
  }

  /** Writing a card of the deck over the card with its id writes it over itself. */
  lemma WriteOneOfMember(cards: seq<Card>, c: Card)
    requires UniqueIds(cards) && c in cards
    ensures WriteOne(cards, c) == cards
  {
    var m :| 0 <= m < |cards| && cards[m] == c;
    var k := IndexOfId(cards, c.id);
    assert k == m;
  }

  /**
   * The write-back loop leaves the deck as it was: when the ids are unique
   * and the shuffled cards come from the deck, every card is written over
   * itself, whatever order the shuffle chose.
   */
  lemma {:induction false} WriteBackIsIdentity(cards: seq<Card>, shuffled: seq<Card>)
    requires UniqueIds(cards)
    requires forall c | c in shuffled :: c in cards
    ensures WriteBack(cards, shuffled) == cards
    decreases |shuffled|
  {
    if shuffled != [] {
      var n := |shuffled|;
      assert forall c | c in shuffled[..n - 1] :: c in shuffled;
      WriteBackIsIdentity(cards, shuffled[..n - 1]);
      assert shuffled[n - 1] in shuffled;
      WriteOneOfMember(cards, shuffled[n - 1]);
    }
  }

  // ---------------------------------------------------------------------
  // Shuffling, as intended: the visible cards take the shuffled order
  // ---------------------------------------------------------------------

  /** The flagged slots of `cards`, in order, receive the cards of `shuffled`. */
  function PlaceFlagged(cards: seq<Card>, shuffled: seq<Card>): (r: seq<Card>)
    requires |shuffled| == |FlaggedOnly(cards)|
    ensures |r| == |cards|
    decreases |cards|
  {
    if cards == [] then []
    else if cards[0].flagged then [shuffled[0]] + PlaceFlagged(cards[1..], shuffled[1..])
    else [cards[0]] + PlaceFlagged(cards[1..], shuffled)
  }

  /** Unflagged cards keep their slots. */
  lemma {:induction false} PlaceFlaggedKeepsUnflagged(cards: seq<Card>, shuffled: seq<Card>)
    requires |shuffled| == |FlaggedOnly(cards)|
    ensures forall i | 0 <= i < |cards| && !cards[i].flagged :: PlaceFlagged(cards, shuffled)[i] == cards[i]
    decreases |cards|
  {
    if cards != [] {
      var sh' := if cards[0].flagged then shuffled[1..] else shuffled;
      PlaceFlaggedKeepsUnflagged(cards[1..], sh');
      var r := PlaceFlagged(cards, shuffled);
      assert r[1..] == PlaceFlagged(cards[1..], sh');
      forall i | 0 <= i < |cards| && !cards[i].flagged ensures r[i] == cards[i] {
        if i > 0 {
          assert r[i] == r[1..][i - 1];
          assert cards[i] == cards[1..][i - 1];
        }
      }
    }
  }

  /** When the shuffled cards are all flagged, the flagged-only view shows exactly them. */
  lemma {:induction false} PlaceFlaggedShowsShuffled(cards: seq<Card>, shuffled: seq<Card>)
    requires |shuffled| == |FlaggedOnly(cards)|
    requires forall c | c in shuffled :: c.flagged
    ensures FlaggedOnly(PlaceFlagged(cards, shuffled)) == shuffled
    decreases |cards|
  {
    if cards != [] {
      var r := PlaceFlagged(cards, shuffled);
      if cards[0].flagged {
        assert forall c | c in shuffled[1..] :: c in shuffled;
        PlaceFlaggedShowsShuffled(cards[1..], shuffled[1..]);
        assert shuffled[0] in shuffled;
        assert r[1..] == PlaceFlagged(cards[1..], shuffled[1..]);
        assert shuffled == [shuffled[0]] + shuffled[1..];
      } else {
        PlaceFlaggedShowsShuffled(cards[1..], shuffled);
        assert r[1..] == PlaceFlagged(cards[1..], shuffled);
      }
    }
  }

  /** The flagged cards leave, the shuffled cards come in, nothing else changes. */
  lemma {:induction false} PlaceFlaggedMultiset(cards: seq<Card>, shuffled: seq<Card>)
    requires |shuffled| == |FlaggedOnly(cards)|
    ensures multiset(PlaceFlagged(cards, shuffled)) + multiset(FlaggedOnly(cards)) ==
            multiset(cards) + multiset(shuffled)
    decreases |cards|
  {
    if cards != [] {
      if cards[0].flagged {
        PlaceFlaggedMultiset(cards[1..], shuffled[1..]);
        PlaceFlaggedMultisetFlagged(cards, shuffled);
      } else {
        PlaceFlaggedMultiset(cards[1..], shuffled);
        PlaceFlaggedMultisetUnflagged(cards, shuffled);
      }
    }
  }

  /** The step of `PlaceFlaggedMultiset` at a flagged card. */
  lemma PlaceFlaggedMultisetFlagged(cards: seq<Card>, shuffled: seq<Card>)
    requires cards != [] && cards[0].flagged && |shuffled| == |FlaggedOnly(cards)|
    requires multiset(PlaceFlagged(cards[1..], shuffled[1..])) + multiset(FlaggedOnly(cards[1..])) ==
             multiset(cards[1..]) + multiset(shuffled[1..])
    ensures multiset(PlaceFlagged(cards, shuffled)) + multiset(FlaggedOnly(cards)) ==
            multiset(cards) + multiset(shuffled)
  {
    var rest, sh := cards[1..], shuffled[1..];
    var p, p' := PlaceFlagged(cards, shuffled), PlaceFlagged(rest, sh);
    var f, f' := FlaggedOnly(cards), FlaggedOnly(rest);
    assert p == [shuffled[0]] + p';
    assert f == [cards[0]] + f';
    HeadMultiset(p);
    HeadMultiset(f);
    HeadMultiset(cards);
    HeadMultiset(shuffled);
    ExchangeHeads(shuffled[0], cards[0], multiset(p'), multiset(f'), multiset(rest), multiset(sh));
  }

  /** Adding one element to each side of a multiset equation, in either pairing. */
  lemma ExchangeHeads<T>(x: T, y: T, a: multiset<T>, b: multiset<T>, c: multiset<T>, d: multiset<T>)
    requires a + b == c + d
    ensures (multiset{x} + a) + (multiset{y} + b) == (multiset{y} + c) + (multiset{x} + d)
  {
    var l, r := (multiset{x} + a) + (multiset{y} + b), (multiset{y} + c) + (multiset{x} + d);
    forall z ensures l[z] == r[z] {
      assert (a + b)[z] == (c + d)[z];
    }
    assert l == r;
  }

  lemma HeadMultiset<T>(s: seq<T>)
    requires s != []
    ensures multiset(s) == multiset{s[0]} + multiset(s[1..])
  {
    assert s == [s[0]] + s[1..];
    assert multiset([s[0]] + s[1..]) == multiset([s[0]]) + multiset(s[1..]);
  }

  /** The step of `PlaceFlaggedMultiset` at an unflagged card. */
  lemma PlaceFlaggedMultisetUnflagged(cards: seq<Card>, shuffled: seq<Card>)
    requires cards != [] && !cards[0].flagged && |shuffled| == |FlaggedOnly(cards)|
    requires multiset(PlaceFlagged(cards[1..], shuffled)) + multiset(FlaggedOnly(cards[1..])) ==
             multiset(cards[1..]) + multiset(shuffled)
    ensures multiset(PlaceFlagged(cards, shuffled)) + multiset(FlaggedOnly(cards)) ==
            multiset(cards) + multiset(shuffled)
  {
    var rest := cards[1..];
    assert cards == [cards[0]] + rest;
    assert PlaceFlagged(cards, shuffled) == [cards[0]] + PlaceFlagged(rest, shuffled);
    assert FlaggedOnly(cards) == FlaggedOnly(rest);
    calc {
      multiset(PlaceFlagged(cards, shuffled)) + multiset(FlaggedOnly(cards));
      multiset{cards[0]} + (multiset(PlaceFlagged(rest, shuffled)) + multiset(FlaggedOnly(rest)));
      multiset{cards[0]} + (multiset(rest) + multiset(shuffled));
      multiset(cards) + multiset(shuffled);
    }
  }

  /**
   * What the shuffle was meant to do: the visible cards are redistributed, in
   * the shuffled order, over the slots they occupied; the other cards stay.
   */
  function ShuffleIntended(cards: seq<Card>, flaggedOnly: bool, shuffled: seq<Card>): (r: seq<Card>)
    requires multiset(shuffled) == multiset(Visible(cards, flaggedOnly))
    ensures Visible(r, flaggedOnly) == shuffled
    ensures multiset(r) == multiset(cards)
    ensures |r| == |cards|
    ensures forall i | 0 <= i < |cards| && flaggedOnly && !cards[i].flagged :: r[i] == cards[i]
  {
    if flaggedOnly then
      PlaceShuffledFlagged(cards, shuffled);
      PlaceFlagged(cards, shuffled)
    else
      MultisetLength(shuffled, cards);
      shuffled
  }

  lemma MultisetCancel<T>(a: multiset<T>, b: multiset<T>, c: multiset<T>, d: multiset<T>)
    requires a + b == c + d && b == d
    ensures a == c
  {
    assert forall x :: a[x] == (a + b)[x] - b[x];
    assert forall x :: c[x] == (c + d)[x] - d[x];
  }

  lemma PlaceShuffledFlagged(cards: seq<Card>, shuffled: seq<Card>)
    requires multiset(shuffled) == multiset(FlaggedOnly(cards))
    ensures |shuffled| == |FlaggedOnly(cards)|
    ensures FlaggedOnly(PlaceFlagged(cards, shuffled)) == shuffled
    ensures multiset(PlaceFlagged(cards, shuffled)) == multiset(cards)
    ensures forall i | 0 <= i < |cards| && !cards[i].flagged :: PlaceFlagged(cards, shuffled)[i] == cards[i]
  {
    MultisetLength(shuffled, FlaggedOnly(cards));
    FlaggedOnlyMembers(cards);
    forall c | c in shuffled ensures c.flagged {
      assert c in multiset(FlaggedOnly(cards));
    }
    PlaceFlaggedShowsShuffled(cards, shuffled);
    PlaceFlaggedMultiset(cards, shuffled);
    MultisetCancel(multiset(PlaceFlagged(cards, shuffled)), multiset(FlaggedOnly(cards)),
                   multiset(cards), multiset(shuffled));
    PlaceFlaggedKeepsUnflagged(cards, shuffled);
  }

  /**
   * `handleShuffle` as written leaves the deck unchanged, whichever order
   * the shuffle produced and whichever view was on.
   */
  lemma ShuffleWriteBackIsIdentity(cards: seq<Card>, flaggedOnly: bool, shuffled: seq<Card>)
    requires DenseIds(cards)
    requires multiset(shuffled) == multiset(Visible(cards, flaggedOnly))
    ensures WriteBack(cards, shuffled) == cards
  {
    FlaggedOnlyMembers(cards);
    forall c | c in shuffled ensures c in cards {
      assert c in multiset(Visible(cards, flaggedOnly));
    }
    DenseIdsAreUnique(cards);
    WriteBackIsIdentity(cards, shuffled);
  }

  /** Two cards, shuffled into the opposite order: the loop keeps the old order, the intent swaps it. */
  lemma ShuffleWriteBackExample()
    ensures var a, b := Card(0, "q0", "a0", false), Card(1, "q1", "a1", false);
            WriteBack([a, b], [b, a]) == [a, b] &&
            ShuffleIntended([a, b], false, [b, a]) == [b, a]
  {
    var a, b := Card(0, "q0", "a0", false), Card(1, "q1", "a1", false);
    WriteBackIsIdentity([a, b], [b, a]);
  }

  /** A card the view shows sits in the deck at the position its id names. */
  lemma VisibleCardInDeck(cards: seq<Card>, flaggedOnly: bool, i: nat)
    requires DenseIds(cards) && i < |Visible(cards, flaggedOnly)|
    ensures Visible(cards, flaggedOnly)[i].id < |cards|
    ensures cards[Visible(cards, flaggedOnly)[i].id] == Visible(cards, flaggedOnly)[i]
  {
    if flaggedOnly {
      var c := FlaggedOnly(cards)[i];
      FlaggedOnlyMembers(cards);
      assert c in cards;
    }
  }

  // ---------------------------------------------------------------------
  // What the component renders
  // ---------------------------------------------------------------------

  /**
   * The write-back loop of `handleShuffle` on a copy of the deck: each
   * shuffled card in turn replaces the first card with its id.
   */
  method WriteBackLoop(cards: seq<Card>, shuffled: seq<Card>) returns (r: seq<Card>)
    ensures r == WriteBack(cards, shuffled)
  {
    var n := |cards|;
    var newCards := new Card[n](i requires 0 <= i < n => cards[i]);
    for i := 0 to |shuffled|
      invariant newCards[..] == WriteBack(cards, shuffled[..i])
    {
      assert shuffled[..i + 1][..i] == shuffled[..i];
      var k := IndexOfId(newCards[..], shuffled[i].id);
      if k != -1 {
        newCards[k] := shuffled[i];
      }
    }
    assert shuffled[..|shuffled|] == shuffled;
    r := newCards[..];
  }

  /**
   * The three renderings: no cards loaded, the filter on with nothing
   * flagged, or the current card with its "position / total" counter.
   * `RenderError` is the render reading a card past the end of the
   * visible list, which throws.
   */
  datatype Screen =
    | NoCardsScreen
    | NoFlaggedScreen
    | CardScreen(card: Card, position: nat, total: nat, shuffleEnabled: bool, flaggedBadge: Option<nat>)
    | RenderError

  /** The deck of `CardList`: its state variables and its handlers. */
  class Deck {
    var cards: seq<Card>
    var currentIndex: nat
    var showFlaggedOnly: bool
    var flaggedCount: nat
    /** The flip-state ref: whether the current card shows its answer. */
    var flipState: bool
    /** Bumped to remount the flashcard, which turns it back to its question. */
    var forceResetKey: nat

    /** Ids are positions, and the count the effect keeps is up to date. */
    ghost predicate Valid()
      reads this`cards, this`flaggedCount
    {
      DenseIds(cards) && flaggedCount == FlaggedCount(cards)
    }

    function VisibleCards(): seq<Card>
      reads this`cards, this`showFlaggedOnly
    {
      Visible(cards, showFlaggedOnly)
    }

    /** The cursor points at a visible card, or there is none to point at. */
    ghost predicate CursorInRange()
      reads this`cards, this`showFlaggedOnly, this`currentIndex
    {
      |VisibleCards()| == 0 || currentIndex < |VisibleCards()|
    }

    /** The render of the component in its current state. */
    function Render(): (s: Screen)
      reads this
      ensures s == NoCardsScreen <==> cards == []
      ensures s == NoFlaggedScreen <==> cards != [] && showFlaggedOnly && FlaggedOnly(cards) == []
      ensures s == RenderError <==> VisibleCards() != [] && currentIndex >= |VisibleCards()|
      ensures s.CardScreen? ==>
                s.total == |VisibleCards()| && s.position == currentIndex + 1 && s.position <= s.total &&
                s.card == VisibleCards()[s.position - 1] &&
                (s.shuffleEnabled <==> s.total > 1) &&
                (s.flaggedBadge == if showFlaggedOnly then None else Some(flaggedCount))
    {
      var v := VisibleCards();
      if cards == [] then NoCardsScreen
      else if showFlaggedOnly && v == [] then NoFlaggedScreen
      else if currentIndex >= |v| then RenderError
      else CardScreen(v[currentIndex], currentIndex + 1, |v|, |v| > 1,
                      if showFlaggedOnly then None else Some(flaggedCount))
    }

    /** The initial state: no cards, first position, filter off, nothing flipped. */
    constructor()
      ensures cards == [] && currentIndex == 0 && !showFlaggedOnly
      ensures flaggedCount == 0 && !flipState && forceResetKey == 0
      ensures Valid() && CursorInRange()
    {
      cards := [];
      currentIndex := 0;
      showFlaggedOnly := false;
      flaggedCount := 0;
      flipState := false;
      forceResetKey := 0;
    }

    /** `resetFlipState`: back to the question side, and remount the flashcard. */
    method ResetFlipState()
      modifies this`flipState, this`forceResetKey
      ensures !flipState && forceResetKey == old(forceResetKey) + 1
    {
      flipState := false;
      forceResetKey := forceResetKey + 1;
    }

    /** The flag-count effect, run after every change of the cards. */
    method RecountFlags()
      modifies this`flaggedCount
      ensures flaggedCount == FlaggedCount(cards)
    {
      flaggedCount := |FlaggedOnly(cards)|;
    }

    /** The load effect: a non-empty input replaces the deck and resets the view. */
    method Load(initialCards: seq<FileUploader.QA>)
      requires Valid()
      modifies this
      ensures initialCards == [] ==> unchanged(this)
      ensures initialCards != [] ==>
                cards == Numbered(initialCards) && currentIndex == 0 && !showFlaggedOnly &&
                flaggedCount == 0 && !flipState && forceResetKey == old(forceResetKey) + 1
      ensures Valid()
      ensures initialCards != [] ==> CursorInRange() && Contents(cards) == initialCards
    {
      if |initialCards| > 0 {
        cards := Numbered(initialCards);
        currentIndex := 0;
        showFlaggedOnly := false;
        flaggedCount := 0;
        ResetFlipState();
        RecountFlags();
        NumberedKeepsContents(initialCards);
      }
    }

    /**
     * `handleFlag`: toggle the flag of the card under the cursor. With the
     * cursor past the end of the visible list the lookup of the current
     * card throws (`thrown`) and nothing changes. The cursor is not moved.
     */
    method Flag() returns (thrown: bool)
      requires Valid()
      modifies this`cards, this`flaggedCount
      ensures Valid()
      ensures old(VisibleCards()) == [] ==> !thrown && cards == old(cards)
      ensures old(VisibleCards()) != [] ==> (thrown <==> currentIndex >= |old(VisibleCards())|)
      ensures thrown ==> cards == old(cards)
      ensures old(VisibleCards()) != [] && !thrown ==>
                var c := old(VisibleCards())[currentIndex];
                cards == ToggleFlag(old(cards), c.id) &&
                flaggedCount == (if c.flagged then old(flaggedCount) - 1 else old(flaggedCount) + 1)
      ensures old(VisibleCards()) != [] && !thrown && showFlaggedOnly ==>
                VisibleCards() == old(VisibleCards())[..currentIndex] + old(VisibleCards())[currentIndex + 1..]
      ensures !showFlaggedOnly ==> |VisibleCards()| == |old(VisibleCards())|
    {
      var v := VisibleCards();
      if |v| == 0 {
        return false;
      }
      if currentIndex >= |v| {
        return true;
      }
      var c := v[currentIndex];
      VisibleCardInDeck(cards, showFlaggedOnly, currentIndex);
      ToggleFlagChangesOneCard(cards, c.id);
      DenseIdsAreUnique(cards);
      ToggleFlagCount(cards, c.id);
      if showFlaggedOnly {
        ToggleFlagInFlaggedView(cards, currentIndex);
      }
      cards := ToggleFlag(cards, c.id);
      RecountFlags();
      thrown := false;
    }

    /** `handleFlag` with the cursor clamped to the visible list it leaves behind. */
    method FlagClamped()
      requires Valid() && CursorInRange()
      modifies this`cards, this`flaggedCount, this`currentIndex
      ensures Valid() && CursorInRange()
      ensures old(VisibleCards()) == [] ==> cards == old(cards) && currentIndex == old(currentIndex)
      ensures old(VisibleCards()) != [] ==>
                var c := old(VisibleCards())[old(currentIndex)];
                cards == ToggleFlag(old(cards), c.id) &&
                currentIndex == ClampIndex(old(currentIndex), |VisibleCards()|)
    {
      if VisibleCards() == [] {
        return;
      }
      var thrown := Flag();
      currentIndex := ClampIndex(currentIndex, |VisibleCards()|);
    }

    /**
     * `handleShuffle`, with the permutation `Math.random` chose passed in.
     * Each shuffled card is written over the first card with its id; since
     * those are the card itself, the deck comes out as it went in.
     */
    method Shuffle(shuffled: seq<Card>)
      requires Valid() && multiset(shuffled) == multiset(VisibleCards())
      modifies this
      ensures Valid()
      ensures |old(VisibleCards())| <= 1 ==> unchanged(this)
      ensures |old(VisibleCards())| > 1 ==>
                cards == WriteBack(old(cards), shuffled) && currentIndex == 0 &&
                showFlaggedOnly == old(showFlaggedOnly) && !flipState &&
                forceResetKey == old(forceResetKey) + 1
      ensures cards == old(cards)
      ensures old(CursorInRange()) ==> CursorInRange()
    {
      if |VisibleCards()| <= 1 {
        return;
      }
      var cs := cards;
      var newCards := WriteBackLoop(cs, shuffled);
      ShuffleWriteBackIsIdentity(cs, showFlaggedOnly, shuffled);
      cards := newCards;
      currentIndex := 0;
      ResetFlipState();
      RecountFlags();
    }

    /** `handlePrevious`: one card back, from the first round to the last. */
    method Previous()
      modifies this`currentIndex, this`flipState, this`forceResetKey
      ensures VisibleCards() == [] ==> unchanged(this)
      ensures VisibleCards() != [] ==>
                currentIndex == PreviousIndex(old(currentIndex), |VisibleCards()|) &&
                !flipState && forceResetKey == old(forceResetKey) + 1
      ensures old(CursorInRange()) ==> CursorInRange()
    {
      var v := VisibleCards();
      if |v| == 0 {
        return;
      }
      currentIndex := PreviousIndex(currentIndex, |v|);
      ResetFlipState();
    }

    /** `handleNext`: one card on, from the last round to the first. */
    method Next()
      modifies this`currentIndex, this`flipState, this`forceResetKey
      ensures VisibleCards() == [] ==> unchanged(this)
      ensures VisibleCards() != [] ==>
                currentIndex == NextIndex(old(currentIndex), |VisibleCards()|) &&
                !flipState && forceResetKey == old(forceResetKey) + 1
      ensures old(CursorInRange()) ==> CursorInRange()
    {
      var v := VisibleCards();
      if |v| == 0 {
        return;
      }
      currentIndex := NextIndex(currentIndex, |v|);
      ResetFlipState();
    }

    /** `toggleFlaggedView`: switch the filter and go back to the first card. */
    method ToggleFlaggedView()
      modifies this`showFlaggedOnly, this`currentIndex, this`flipState, this`forceResetKey
      ensures showFlaggedOnly == !old(showFlaggedOnly) && currentIndex == 0
      ensures !flipState && forceResetKey == old(forceResetKey) + 1
      ensures CursorInRange()
    {
      showFlaggedOnly := !showFlaggedOnly;
      currentIndex := 0;
      ResetFlipState();
    }

    /** `handleFlipStateChange`: the flashcard reports which side it shows. */
    method HandleFlipStateChange(isFlipped: bool)
      modifies this`flipState
      ensures flipState == isFlipped
    {
      flipState := isFlipped;
    }

    /** The keydown listener: arrows move, "f" flags, anything else does nothing here. */
    method HandleKey(key: string) returns (thrown: bool)
      requires Valid()
      modifies this
      ensures Valid()
      ensures key != "ArrowLeft" && key != "ArrowRight" && key != "f" ==> unchanged(this) && !thrown
      ensures key == "ArrowLeft" || key == "ArrowRight" ==>
                !thrown && cards == old(cards) && showFlaggedOnly == old(showFlaggedOnly) &&
                flaggedCount == old(flaggedCount)
      ensures (key == "ArrowLeft" || key == "ArrowRight") && VisibleCards() == [] ==> unchanged(this)
      ensures (key == "ArrowLeft" || key == "ArrowRight") && VisibleCards() != [] ==>
                !flipState && forceResetKey == old(forceResetKey) + 1
      ensures key == "ArrowLeft" && VisibleCards() != [] ==>
                currentIndex == PreviousIndex(old(currentIndex), |VisibleCards()|)
      ensures key == "ArrowRight" && VisibleCards() != [] ==>
                currentIndex == NextIndex(old(currentIndex), |VisibleCards()|)
      ensures key == "f" ==>
                currentIndex == old(currentIndex) && showFlaggedOnly == old(showFlaggedOnly) &&
                flipState == old(flipState) && forceResetKey == old(forceResetKey) &&
                (thrown <==> old(VisibleCards()) != [] && currentIndex >= |old(VisibleCards())|)
      ensures key == "f" && old(VisibleCards()) != [] && !thrown ==>
                cards == ToggleFlag(old(cards), old(VisibleCards())[old(currentIndex)].id)
      ensures key == "f" && (old(VisibleCards()) == [] || thrown) ==> cards == old(cards)
    {
      thrown := false;
      if key == "ArrowLeft" {
        Previous();
      } else if key == "ArrowRight" {
        Next();
      } else if key == "f" {
        thrown := Flag();
      }
    }
  }

  // ---------------------------------------------------------------------
  // Sessions
  // ---------------------------------------------------------------------

  /** Switching the filter twice restores it; each switch resets the flip and returns to the first card. */
  method ToggleFlaggedViewTwice(deck: Deck)
    modifies deck
    ensures deck.showFlaggedOnly == old(deck.showFlaggedOnly) && deck.cards == old(deck.cards)
    ensures deck.currentIndex == 0 && !deck.flipState
    ensures deck.forceResetKey == old(deck.forceResetKey) + 2
  {
    deck.ToggleFlaggedView();
    deck.ToggleFlaggedView();
  }

  function ThreePairs(): seq<FileUploader.QA> {
    [FileUploader.QA("q0", "a0"), FileUploader.QA("q1", "a1"), FileUploader.QA("q2", "a2")]
  }

  /**
   * Three cards; flag the second, switch to the flagged view, flag it again:
   * the one flagged card leaves the view and the empty-view message shows.
   */
  method UnflagInFlaggedViewSession() returns (before: Screen, after: Screen)
    ensures before == CardScreen(Card(1, "q1", "a1", true), 1, 1, false, None)
    ensures after == NoFlaggedScreen
  {
    var deck := new Deck();
    deck.Load(ThreePairs());
    var c0, c1, c2 := Card(0, "q0", "a0", false), Card(1, "q1", "a1", false), Card(2, "q2", "a2", false);
    assert deck.cards == [c0, c1, c2];
    deck.Next();
    var _ := deck.Flag();
    assert deck.cards == [c0, c1.(flagged := true), c2];
    assert FlaggedOnly(deck.cards) == [c1.(flagged := true)];
    deck.ToggleFlaggedView();
    before := deck.Render();
    var _ := deck.Flag();
    after := deck.Render();
  }

  /**
   * Flag the first two cards, show only flagged cards, step to the second
   * and unflag it: one card is left and the cursor still points at
   * position 1, so the render reads past the end of the visible list.
   */
  method StrandedCursorSession() returns (shown: Screen)
    ensures shown == RenderError
  {
    var deck := new Deck();
    deck.Load(ThreePairs());
    var _ := deck.Flag();
    deck.Next();
    var _ := deck.Flag();
    deck.ToggleFlaggedView();
    deck.Next();
    var _ := deck.Flag();
    shown := deck.Render();
  }

  /** The same session with the clamped flag handler shows the remaining flagged card. */
  method ClampedCursorSession() returns (shown: Screen)
    ensures shown == CardScreen(Card(0, "q0", "a0", true), 1, 1, false, None)
  {
    var deck := new Deck();
    deck.Load(ThreePairs());
    var c0, c1, c2 := Card(0, "q0", "a0", false), Card(1, "q1", "a1", false), Card(2, "q2", "a2", false);
    assert deck.cards == [c0, c1, c2];
    deck.FlagClamped();
    deck.Next();
    deck.FlagClamped();
    assert deck.cards == [c0.(flagged := true), c1.(flagged := true), c2];
    assert FlaggedOnly([c2]) == [];
    assert FlaggedOnly([c1.(flagged := true), c2]) == [c1.(flagged := true)];
    assert FlaggedOnly(deck.cards) == [c0.(flagged := true), c1.(flagged := true)];
    deck.ToggleFlaggedView();
    deck.Next();
    assert deck.currentIndex == 1;
    deck.FlagClamped();
    assert deck.cards == [c0.(flagged := true), c1, c2];
    assert FlaggedOnly(deck.cards) == [c0.(flagged := true)];
    shown := deck.Render();
  }
}
