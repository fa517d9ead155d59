/**
  The review carousel (src/components/home/HorizontalScrollCarousel.tsx):
  the list of cards is the review images repeated two or four times, each
  card paired with one of five fixed review texts in turn, and each card
  rendered under a key made of its id and its position.
 */
module Carousel {
  import opened Base
  import opened Text

  /** A review image as the page supplies it. */
  datatype ReviewItem = ReviewItem(id: int, image: string)

  /** One of the fixed review texts. */
  datatype Review = Review(text: string, subtext: string)

  /** A card of the combined list. */
  datatype Card = Card(id: string, image: string, text: string, subtext: string)

  /** `REVIEW_TEXTS`. */
  const ReviewTexts: seq<Review> := [
    Review("The concerts were mind-blowing.", "Music Club Lead"),
    Review("Loved the gaming events!", "Esports Participant"),
    Review("So well organized. Can't wait for '26.", "Sponsor Rep"),
    Review("The vibe, the people, everything was perfect.", "General Attendee"),
    Review("Chaos of Shadow theme sounds epic!", "Alumni")
  ]

  /** `repeatCount`: twice for more than five images, four times otherwise. */
  function RepeatCount(n: nat): (r: nat)
    ensures r == 2 || r == 4
    ensures r == 2 <==> n > 5
  {
    if n > 5 then 2 else 4
  }

  /** The card at position `k` of the combined list, described by position
      alone: the image of item `k mod n`, the review text `k mod 5`, and the
      id of that item tagged with the round `k div n`. */
  function CardAt(items: seq<ReviewItem>, k: nat): Card
    requires |items| > 0
  {
    MakeCard(items[k % |items|], k / |items|, k)
  }

  /** The card for `item` in round `round`, with review text number
      `k mod 5`. */
  function MakeCard(item: ReviewItem, round: nat, k: nat): Card
  {
    var review := ReviewTexts[k % |ReviewTexts|];
    Card(IntToString(item.id) + "-" + NatToString(round), item.image, review.text, review.subtext)
  }

  /** The construction loop of `combinedItems`: for each round `i` below
      `repeatCount`, every item in order, with review text number
      `(index + i * n) mod 5`. The result is empty for no items; otherwise
      it has `repeatCount * n` cards and card `k` is `CardAt(items, k)`. */
  method CombineItems(items: seq<ReviewItem>) returns (combined: seq<Card>)
    ensures |items| == 0 ==> combined == []
    ensures |combined| == RepeatCount(|items|) * |items|
    ensures |items| > 0 ==> forall k :: 0 <= k < |combined| ==> combined[k] == CardAt(items, k)
  {
    combined := [];
    var n := |items|;
    var repeatCount := RepeatCount(n);
    if n > 0 {
      var i := 0;
      while i < repeatCount
        invariant 0 <= i <= repeatCount
        invariant |combined| == i * n
        invariant forall k :: 0 <= k < |combined| ==> combined[k] == CardAt(items, k)
      {
        var index := 0;
        while index < n
          invariant 0 <= index <= n
          invariant |combined| == i * n + index
          invariant forall k :: 0 <= k < |combined| ==> combined[k] == CardAt(items, k)
        {
          var card := MakeCard(items[index], i, index + i * n);
          CardStep(items, i, index, i * n + index);
          combined := combined + [card];
          index := index + 1;
        }
        assert (i + 1) * n == i * n + n;
        i := i + 1;
      }
    }
  }

  /** The card the loop builds for round `i` and item `index` is the card
      at position `k = i * n + index`. */
  lemma CardStep(items: seq<ReviewItem>, i: nat, index: nat, k: nat)
    requires index < |items| && k == i * |items| + index
    ensures CardAt(items, k) == MakeCard(items[index], i, index + i * |items|)
  {
    ModOfShifted(k, |items|, i);
  }

  /** The images of the combined list are the item images written out
      `repeatCount` times. */
  lemma ImagesRepeat(items: seq<ReviewItem>, combined: seq<Card>)
    requires |items| > 0
    requires |combined| == RepeatCount(|items|) * |items|
    requires forall k :: 0 <= k < |combined| ==> combined[k] == CardAt(items, k)
    ensures Map(combined, (c: Card) => c.image) == Repeat(Map(items, (item: ReviewItem) => item.image), RepeatCount(|items|))
  {
  }

  /** The review texts cycle by position: two cards five places apart carry
      the same text. */
  lemma TextsCycle(items: seq<ReviewItem>, k: nat)
    requires |items| > 0
    ensures CardAt(items, k + 5).text == CardAt(items, k).text
    ensures CardAt(items, k + 5).subtext == CardAt(items, k).subtext
  {
    ModOfShifted(k + 5, 5, k / 5 + 1);
  }

  // ---------------------------------------------------------------------------
  // Rendering
  // ---------------------------------------------------------------------------

  /** What the carousel renders: a hidden placeholder, or the cards under
      their keys. */
  datatype View = Placeholder | Cards(keys: seq<string>)

  /** The render key of card `index`: its id, a dash, its position. */
  function RenderKey(card: Card, index: nat): string
  {
    card.id + "-" + NatToString(index)
  }

  /** The rendered view: the placeholder exactly when there are no items,
      otherwise one key per card. */
  function Render(items: seq<ReviewItem>, combined: seq<Card>): (v: View)
    ensures v.Placeholder? <==> |items| == 0
    ensures v.Cards? ==> |v.keys| == |combined|
  {
    if |items| == 0 then Placeholder
    else Cards(seq(|combined|, k requires 0 <= k < |combined| => RenderKey(combined[k], k)))
  }

  /** The text after the last `c` of `s` (all of `s` when there is none). */
  function AfterLast(s: string, c: char): string
    decreases |s|
  {
    if |s| == 0 || s[|s| - 1] == c then []
    else AfterLast(s[..|s| - 1], c) + [s[|s| - 1]]
  }

  /** What follows the last `c` of `a + [c] + t`, when `t` has no `c`, is `t`. */
  lemma {:induction false} AfterLastOf(a: string, c: char, t: string)
    requires c !in t
    ensures AfterLast(a + [c] + t, c) == t
    decreases |t|
  {
    var s := a + [c] + t;
    if |t| > 0 {
      var t' := t[..|t| - 1];
      assert s[..|s| - 1] == a + [c] + t';
      AfterLastOf(a, c, t');
      assert t == t' + [t[|t| - 1]];
    }
  }

  /** The render keys are pairwise distinct, whatever the ids: the position
      after the last dash tells them apart. */
  lemma RenderKeysDistinct(c1: Card, i: nat, c2: Card, j: nat)
    requires RenderKey(c1, i) == RenderKey(c2, j)
    ensures i == j
  {
    NoDashInNumber(i);
    NoDashInNumber(j);
    AfterLastOf(c1.id, '-', NatToString(i));
    AfterLastOf(c2.id, '-', NatToString(j));
    NatToStringInjective(i, j);
  }

  lemma NoDashInNumber(n: nat)
    ensures '-' !in NatToString(n)
  {
    var s := NatToString(n);
    assert forall k :: 0 <= k < |s| ==> IsDigit(s[k]);
  }

  /** In a rendered list no two cards share a key. */
  lemma RenderedKeysUnique(items: seq<ReviewItem>, combined: seq<Card>, i: nat, j: nat)
    requires |items| > 0
    requires i < |combined| && j < |combined| && i != j
    ensures Render(items, combined).keys[i] != Render(items, combined).keys[j]
  {
    var keys := Render(items, combined).keys;
    if keys[i] == keys[j] {
      RenderKeysDistinct(combined[i], i, combined[j], j);
    }
  }
}
