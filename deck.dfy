/** The deck of the memory game: fifteen symbols, each placed on two cards,
    dealt in an order chosen by a random-comparator sort. */
module Deck {

  /** The fifteen card faces; `Glyph` gives the emoji the board shows. */
  datatype Symbol =
    | Sunflower | Fire | Banana | Cupcake | Gift
    | Crown | Dolphin | Clover | Grapes | BoxingGlove
    | Palette | Airplane | Pumpkin | Ghost | Unicorn

  function Glyph(v: Symbol): string
  {
    match v
    case Sunflower => "\U{1F33B}"
    case Fire => "\U{1F525}"
    case Banana => "\U{1F34C}"
    case Cupcake => "\U{1F9C1}"
    case Gift => "\U{1F381}"
    case Crown => "\U{1F451}"
    case Dolphin => "\U{1F42C}"
    case Clover => "\U{1F340}"
    case Grapes => "\U{1F347}"
    case BoxingGlove => "\U{1F94A}"
    case Palette => "\U{1F3A8}"
    case Airplane => "\U{2708}"
    case Pumpkin => "\U{1F383}"
    case Ghost => "\U{1F47B}"
    case Unicorn => "\U{1F984}"
  }

  /** Distinct symbols have distinct glyphs, so comparing the strings on two
      cards is comparing their symbols. */
  lemma GlyphInjective(v: Symbol, w: Symbol)
    requires Glyph(v) == Glyph(w)
    ensures v == w
  {
    assert Glyph(v)[0] == Glyph(w)[0];
  }

  /** The alphabet of card values, in the order the game lists them. */
  const CardValues: seq<Symbol> :=
    [Sunflower, Fire, Banana, Cupcake, Gift, Crown, Dolphin, Clover,
     Grapes, BoxingGlove, Palette, Airplane, Pumpkin, Ghost, Unicorn]

  /** Number of cards on the board: every value twice. */
  const DeckSize: nat := 2 * |CardValues|

  predicate NoRepeats(s: seq<Symbol>)
  {
    forall i, j :: 0 <= i < j < |s| ==> s[i] != s[j]
  }

  /** In a sequence without repeats, each value occurs once or not at all. */
  lemma {:induction false} CountWithoutRepeats(s: seq<Symbol>, v: Symbol)
    requires NoRepeats(s)
    ensures multiset(s)[v] == if v in s then 1 else 0
  {
    if s != [] {
      var p := s[..|s| - 1];
      assert s == p + [s[|s| - 1]];
      CountWithoutRepeats(p, v);
    }
  }

  lemma CardValuesNoRepeats()
    ensures NoRepeats(CardValues)
  {
    forall i, j | 0 <= i < j < |CardValues| ensures CardValues[i] != CardValues[j] {
    }
  }

  lemma CardValuesListsAll(v: Symbol)
    ensures v in CardValues
  {
    match v
    case Sunflower => assert CardValues[0] == v;
    case _ =>
  }

  /** The alphabet names every symbol exactly once. */
  lemma CardValuesOnce(v: Symbol)
    ensures |CardValues| == 15
    ensures multiset(CardValues)[v] == 1
  {
    CardValuesNoRepeats();
    CardValuesListsAll(v);
    CountWithoutRepeats(CardValues, v);
  }

  /** `[...values, ...values]`: the values listed twice over. */
  function Doubled(values: seq<Symbol>): (d: seq<Symbol>)
    ensures |d| == 2 * |values|
  {
    values + values
  }

  /** One exchange of two positions, as a sort performs it. */
  datatype Exchange = Exchange(i: nat, j: nat)

  predicate InRange(swaps: seq<Exchange>, n: nat)
  {
    forall k :: 0 <= k < |swaps| ==> swaps[k].i < n && swaps[k].j < n
  }

  function Swap<T>(s: seq<T>, e: Exchange): (r: seq<T>)
    requires e.i < |s| && e.j < |s|
    ensures |r| == |s|
  {
    s[e.i := s[e.j]][e.j := s[e.i]]
  }

  /** An exchange moves the two cards and nothing else, so it permutes. */
  lemma SwapFacts<T>(s: seq<T>, e: Exchange)
    requires e.i < |s| && e.j < |s|
    ensures Swap(s, e)[e.i] == s[e.j] && Swap(s, e)[e.j] == s[e.i]
    ensures forall k :: 0 <= k < |s| && k != e.i && k != e.j ==> Swap(s, e)[k] == s[k]
    ensures multiset(Swap(s, e)) == multiset(s)
  {
  }

  /** `shuffle`: sorting with a random comparator rearranges the array by
      exchanges; which exchanges happen depends on `Math.random`, so they are
      a parameter here. Whatever they are, the result is a permutation. */
  function Shuffle<T>(s: seq<T>, swaps: seq<Exchange>): (r: seq<T>)
    requires InRange(swaps, |s|)
    ensures |r| == |s|
    decreases |swaps|
  {
    if swaps == [] then s else Shuffle(Swap(s, swaps[0]), swaps[1..])
  }

  lemma {:induction false} ShufflePermutes<T>(s: seq<T>, swaps: seq<Exchange>)
    requires InRange(swaps, |s|)
    ensures multiset(Shuffle(s, swaps)) == multiset(s)
    decreases |swaps|
  {
    if swaps != [] {
      SwapFacts(s, swaps[0]);
      ShufflePermutes(Swap(s, swaps[0]), swaps[1..]);
    }
  }

  /** Conversely, the shuffle can produce every permutation of its input. */
  lemma {:induction false} ShuffleReachesEveryPermutation<T>(s: seq<T>, t: seq<T>) returns (swaps: seq<Exchange>)
    requires multiset(s) == multiset(t)
    ensures InRange(swaps, |s|) && Shuffle(s, swaps) == t
  {
    assert |s| == |multiset(s)| == |multiset(t)| == |t|;
    swaps := ReachFrom(s, t, 0);
  }

  /** Positions below `k` already agree; exchanges within the suffix fix the rest. */
  lemma {:induction false} ReachFrom<T>(s: seq<T>, t: seq<T>, k: nat) returns (swaps: seq<Exchange>)
    requires |s| == |t| && k <= |s|
    requires s[..k] == t[..k] && multiset(s[k..]) == multiset(t[k..])
    ensures InRange(swaps, |s|) && Shuffle(s, swaps) == t
    decreases |s| - k
  {
    if k == |s| {
      assert s == s[..k] && t == t[..k];
      swaps := [];
    } else {
      var m := FindInSuffix(s, t, k);
      var e := Exchange(k, m);
      SwapIntoPlace(s, t, k, m);
      var rest := ReachFrom(Swap(s, e), t, k + 1);
      swaps := [e] + rest;
      ShuffleFirstExchange(s, e, rest);
    }
  }

  /** The card wanted at position `k` sits somewhere in the suffix from `k`. */
  lemma FindInSuffix<T>(s: seq<T>, t: seq<T>, k: nat) returns (m: nat)
    requires |s| == |t| && k < |s| && multiset(s[k..]) == multiset(t[k..])
    ensures k <= m < |s| && s[m] == t[k]
  {
    assert t[k] == t[k..][0];
    assert t[k] in multiset(s[k..]);
    var j :| 0 <= j < |s| - k && s[k..][j] == t[k];
    m := k + j;
  }

  /** Exchanging that card into position `k` extends the agreeing prefix by one
      and keeps the suffixes permutations of each other. */
  lemma SwapIntoPlace<T>(s: seq<T>, t: seq<T>, k: nat, m: nat)
    requires |s| == |t| && k <= m < |s| && s[m] == t[k]
    requires s[..k] == t[..k] && multiset(s[k..]) == multiset(t[k..])
    ensures Swap(s, Exchange(k, m))[..k + 1] == t[..k + 1]
    ensures multiset(Swap(s, Exchange(k, m))[k + 1..]) == multiset(t[k + 1..])
  {
    var s2 := Swap(s, Exchange(k, m));
    SwapFacts(s, Exchange(k, m));
    assert s2[..k] == s[..k];
    assert multiset(s2[k..]) == multiset(s[k..]) by {
      SameSuffixMultiset(s, s2, k);
    }
    DropAgreedHead(s2, t, k);
  }

  /** Shuffling by `[e] + rest` is exchanging `e` first, then shuffling by `rest`. */
  lemma ShuffleFirstExchange<T>(s: seq<T>, e: Exchange, rest: seq<Exchange>)
    requires e.i < |s| && e.j < |s| && InRange(rest, |s|)
    ensures InRange([e] + rest, |s|)
    ensures Shuffle(s, [e] + rest) == Shuffle(Swap(s, e), rest)
  {
    var swaps := [e] + rest;
    assert swaps[0] == e && swaps[1..] == rest;
    forall q | 0 <= q < |swaps| ensures swaps[q].i < |s| && swaps[q].j < |s| {
      if q > 0 { assert swaps[q] == rest[q - 1]; }
    }
  }

  /** Sequences that agree up to and including `k`, and whose suffixes from `k`
      are permutations of each other, also agree in the suffixes from `k + 1`. */
  lemma DropAgreedHead<T>(a: seq<T>, b: seq<T>, k: nat)
    requires k < |a| == |b| && a[..k] == b[..k] && a[k] == b[k]
    requires multiset(a[k..]) == multiset(b[k..])
    ensures a[..k + 1] == b[..k + 1]
    ensures multiset(a[k + 1..]) == multiset(b[k + 1..])
  {
    assert a[..k + 1] == a[..k] + [a[k]];
    assert b[..k + 1] == b[..k] + [b[k]];
    assert a[k..] == [a[k]] + a[k + 1..];
    assert b[k..] == [b[k]] + b[k + 1..];
    assert multiset(a[k + 1..]) == multiset(a[k..]) - multiset{a[k]};
    assert multiset(b[k + 1..]) == multiset(b[k..]) - multiset{b[k]};
  }

  /** Two permutations of each other that share a prefix also share the suffix's multiset. */
  lemma SameSuffixMultiset<T>(a: seq<T>, b: seq<T>, k: nat)
    requires k <= |a| == |b| && a[..k] == b[..k] && multiset(a) == multiset(b)
    ensures multiset(a[k..]) == multiset(b[k..])
  {
    assert a == a[..k] + a[k..];
    assert b == b[..k] + b[k..];
    var pre := multiset(a[..k]);
    assert multiset(a) == pre + multiset(a[k..]);
    assert multiset(b) == pre + multiset(b[k..]);
    assert multiset(a[k..]) == multiset(a) - pre;
  }

  /** A well-formed deck: `DeckSize` cards, every symbol on exactly two of them. */
  predicate IsDeck(d: seq<Symbol>)
  {
    |d| == DeckSize && forall v :: multiset(d)[v] == 2
  }

  /** The doubled alphabet has every symbol exactly twice. */
  lemma DoubledAlphabetTwice()
    ensures |Doubled(CardValues)| == DeckSize == 30
    ensures forall v :: multiset(Doubled(CardValues))[v] == 2
  {
    forall v ensures multiset(Doubled(CardValues))[v] == 2 {
      CardValuesOnce(v);
      assert multiset(Doubled(CardValues)) == multiset(CardValues) + multiset(CardValues);
    }
  }

  /** `shuffle([...cardValues, ...cardValues])`. */
  function Deal(swaps: seq<Exchange>): (deck: seq<Symbol>)
    requires InRange(swaps, DeckSize)
    ensures IsDeck(deck)
  {
    DoubledAlphabetTwice();
    ShufflePermutes(Doubled(CardValues), swaps);
    Shuffle(Doubled(CardValues), swaps)
  }

  /** Any two well-formed decks are permutations of each other. */
  lemma DecksArePermutations(a: seq<Symbol>, b: seq<Symbol>)
    requires IsDeck(a) && IsDeck(b)
    ensures multiset(a) == multiset(b)
  {
    forall v ensures multiset(a)[v] == multiset(b)[v] {
    }
  }

  /** Every well-formed deck is one that can be dealt. */
  lemma EveryDeckCanBeDealt(d: seq<Symbol>) returns (swaps: seq<Exchange>)
    requires IsDeck(d)
    ensures InRange(swaps, DeckSize) && Deal(swaps) == d
  {
    var doubled := Doubled(CardValues);
    assert multiset(doubled) == multiset(d) by {
      DoubledAlphabetTwice();
      DecksArePermutations(doubled, d);
    }
    swaps := ShuffleReachesEveryPermutation(doubled, d);
  }
}
