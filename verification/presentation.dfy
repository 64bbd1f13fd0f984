/** Card and detail-view presentation rules: title truncation and the two
    different star-fill rules of the product card and the detail modal. */
module Presentation {

  const TitleLimit: nat := 40
  const Ellipsis: string := "..."
  const StarCount: nat := 5

  /** The card's title: at most 40 characters are kept, and "..." marks a
      cut. */
  function TruncateTitle(title: string): (r: string)
    ensures |r| <= TitleLimit + |Ellipsis|
    ensures |title| <= TitleLimit ==> r == title
    ensures |title| > TitleLimit ==> |r| == TitleLimit + |Ellipsis| && r[..TitleLimit] == title[..TitleLimit]
    ensures |title| > TitleLimit ==> r[TitleLimit..] == Ellipsis
  {
    if |title| > TitleLimit then title[..TitleLimit] + Ellipsis else title
  }

  /** Truncating an already displayed title changes nothing. */
  lemma TruncateIdempotent(title: string)
    ensures TruncateTitle(TruncateTitle(title)) == TruncateTitle(title)
  {
    var r := TruncateTitle(title);
    if |title| > TitleLimit {
      assert r[..TitleLimit] + Ellipsis == r;
    }
  }

  /** `Math.round`: the nearest integer, halves rounded up. */
  function JsRound(x: real): (n: int)
    ensures n as real - 0.5 <= x < n as real + 0.5
  {
    (x + 0.5).Floor
  }

  /** Rounding reaches past `i` exactly when the rating is at least `i + 0.5`. */
  lemma RoundThreshold(rate: real, i: int)
    ensures i < JsRound(rate) <==> i as real + 0.5 <= rate
  {
    var n := JsRound(rate);
    assert i < n <==> (i + 1) as real <= n as real;
  }

  /** The card's five stars: star i (1 to 5) is filled when `rate >= i`,
      so the filled stars always come first. */
  function CardStars(rate: real): (stars: seq<bool>)
    ensures |stars| == StarCount
    ensures forall i :: 0 <= i < StarCount ==> (stars[i] <==> (i + 1) as real <= rate)
    ensures forall i, j :: 0 <= i < j < StarCount && stars[j] ==> stars[i]
  {
    [rate >= 1.0, rate >= 2.0, rate >= 3.0, rate >= 4.0, rate >= 5.0]
  }

  /** The modal's five stars: star i (0 to 4) is filled when
      `i < Math.round(rate)`, so star i is filled exactly when the rating is
      at least `i + 0.5`, and the filled stars always come first. */
  function ModalStars(rate: real): (stars: seq<bool>)
    ensures |stars| == StarCount
    ensures forall i :: 0 <= i < StarCount ==> (stars[i] <==> i as real + 0.5 <= rate)
    ensures forall i, j :: 0 <= i < j < StarCount && stars[j] ==> stars[i]
  {
    RoundThreshold(rate, 0);
    RoundThreshold(rate, 1);
    RoundThreshold(rate, 2);
    RoundThreshold(rate, 3);
    RoundThreshold(rate, 4);
    seq(StarCount, i requires 0 <= i < StarCount => i < JsRound(rate))
  }

  /** Number of filled stars. */
  function Filled(stars: seq<bool>): nat
  {
    if |stars| == 0 then 0
    else Filled(stars[..|stars| - 1]) + (if stars[|stars| - 1] then 1 else 0)
  }

  function Clamp(k: int, lo: int, hi: int): int
    requires lo <= hi
  {
    if k < lo then lo else if k > hi then hi else k
  }

  /** The first `k` of `n` stars filled. */
  function FirstFilled(n: nat, k: int): (stars: seq<bool>)
    ensures |stars| == n
    ensures forall i :: 0 <= i < n ==> (stars[i] <==> i < k)
  {
    seq(n, i requires 0 <= i < n => i < k)
  }

  lemma {:induction false} FilledFirstFilled(n: nat, k: int)
    ensures Filled(FirstFilled(n, k)) == Clamp(k, 0, n)
  {
    if n > 0 {
      FilledFirstFilled(n - 1, k);
      assert FirstFilled(n, k)[..n - 1] == FirstFilled(n - 1, k);
    }
  }

  /** The card fills the first `floor(rate)` stars, between none and five. */
  lemma CardStarsCount(rate: real)
    ensures CardStars(rate) == FirstFilled(StarCount, rate.Floor)
    ensures Filled(CardStars(rate)) == Clamp(rate.Floor, 0, StarCount)
    ensures 0 <= Filled(CardStars(rate)) <= StarCount
  {
    var f := FirstFilled(StarCount, rate.Floor);
    assert CardStars(rate)[0] == f[0] && CardStars(rate)[1] == f[1] && CardStars(rate)[2] == f[2];
    assert CardStars(rate)[3] == f[3] && CardStars(rate)[4] == f[4];
    FilledFirstFilled(StarCount, rate.Floor);
  }

  /** The modal fills the first `round(rate)` stars, between none and five. */
  lemma ModalStarsCount(rate: real)
    ensures ModalStars(rate) == FirstFilled(StarCount, JsRound(rate))
    ensures Filled(ModalStars(rate)) == Clamp(JsRound(rate), 0, StarCount)
    ensures 0 <= Filled(ModalStars(rate)) <= StarCount
  {
    FilledFirstFilled(StarCount, JsRound(rate));
  }

  /** The two views disagree by at most one star, the modal never showing
      fewer; they differ exactly when the fractional part of the rate is at
      least one half and the rate lies strictly between 0 and 5. */
  lemma CardAndModalStars(rate: real)
    ensures Filled(CardStars(rate)) <= Filled(ModalStars(rate)) <= Filled(CardStars(rate)) + 1
    ensures Filled(CardStars(rate)) != Filled(ModalStars(rate)) <==>
              JsRound(rate) != rate.Floor && 0 <= rate.Floor < StarCount as int
  {
    CardStarsCount(rate);
    ModalStarsCount(rate);
    assert rate.Floor <= JsRound(rate) <= rate.Floor + 1;
  }

  /** A rating of 3.7 shows three stars on the card and four in the modal. */
  lemma RatingThreePointSeven()
    ensures Filled(CardStars(3.7)) == 3
    ensures Filled(ModalStars(3.7)) == 4
  {
    CardStarsCount(3.7);
    ModalStarsCount(3.7);
    assert (3.7).Floor == 3;
    assert JsRound(3.7) == 4;
  }
}
