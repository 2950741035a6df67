/** The fixed cake collection and the week-number rotation over it. */
module Cakes {

  datatype Cake = Cake(emoji: string, name: string, color: string)

  /** `CAKE_COLLECTION`, in its order. */
  const Collection: seq<Cake> := [
    Cake("\U{1F382}", "Birthday Cake", "pink"),
    Cake("\U{1F370}", "Cake Slice", "red"),
    Cake("\U{1F9C1}", "Cupcake", "purple"),
    Cake("\U{1F96E}", "Moon Cake", "amber"),
    Cake("\U{1F36E}", "Flan", "yellow"),
    Cake("\U{1F381}", "Gift Box", "blue"),
    Cake("\U{1F369}", "Donut", "orange"),
    Cake("\U{1F967}", "Pie", "brown"),
    Cake("\U{1F36A}", "Cookie", "tan"),
    Cake("\U{1F36B}", "Chocolate", "chocolate")
  ]

  /** `weekNumber % CAKE_COLLECTION.length` with JavaScript's `%`: the remainder takes the
      sign of the dividend. */
  function CakeIndex(weekNumber: int): (r: int)
    ensures -|Collection| < r < |Collection|
    ensures weekNumber >= 0 ==> r >= 0
    ensures weekNumber < 0 ==> r <= 0
    ensures (weekNumber - r) % |Collection| == 0
  {
    if weekNumber >= 0 then weekNumber % |Collection| else -((-weekNumber) % |Collection|)
  }

  /** `CAKE_COLLECTION[weekNumber % 10]` names an entry; for a negative remainder it is
      `undefined`, and reading `.emoji` of it throws. */
  predicate HasCake(weekNumber: int) {
    CakeIndex(weekNumber) >= 0
  }

  /** A week number has a cake when it is non-negative or a multiple of ten (the
      remainder is then -0, which indexes like 0). */
  lemma HasCakeExactly(weekNumber: int)
    ensures HasCake(weekNumber) <==> weekNumber >= 0 || weekNumber % 10 == 0
  {
    if weekNumber < 0 {
      assert (-weekNumber) % 10 == 0 <==> weekNumber % 10 == 0;
    }
  }

  /** `getCakeByWeekNumber`: the emoji at the week number's place in the rotation. */
  function CakeByWeekNumber(weekNumber: int): (emoji: string)
    requires HasCake(weekNumber)
    ensures emoji == Collection[weekNumber % |Collection|].emoji
  {
    Collection[CakeIndex(weekNumber)].emoji
  }

  lemma EmojisDistinct(i: int, j: int)
    requires 0 <= i < j < |Collection|
    ensures Collection[i].emoji != Collection[j].emoji
  {
  }

  /** The rotation repeats every ten week numbers, and any two of ten consecutive week
      numbers get different cakes. */
  lemma CakeRotation(n: int, k: int)
    requires n >= 0 && k >= 0
    ensures CakeByWeekNumber(n + 10 * k) == CakeByWeekNumber(n)
    ensures 0 < k < 10 ==> CakeByWeekNumber(n + k) != CakeByWeekNumber(n)
  {
    assert (n + 10 * k) % 10 == n % 10;
    if 0 < k < 10 {
      var a, b := n % 10, (n + k) % 10;
      assert a != b;
      if a < b { EmojisDistinct(a, b); } else { EmojisDistinct(b, a); }
    }
  }
}
