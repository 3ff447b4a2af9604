/** The random array of bars the component shows: `generateRandomData`.
    `Math.random` is an outside input here, given as the stream of draws
    `rand(0), rand(1), …`, each in [0, 1). */
module Dataset {
  import opened Bars

  /** How many bars a fresh array has when no count is given. */
  const DefaultCount: nat := 20

  /** A bar's value from one draw: `Math.floor(r * 90) + 10`. */
  function Draw(r: real): int {
    (r * 90.0).Floor + 10
  }

  /** A draw in [0, 1) gives a value in 10..99 ... */
  lemma DrawRange(r: real)
    requires 0.0 <= r < 1.0
    ensures 10 <= Draw(r) <= 99
  {
  }

  /** ... and every value in 10..99 comes from some draw. */
  lemma DrawReaches(v: int)
    requires 10 <= v <= 99
    ensures var r := (v - 10) as real / 90.0;
      0.0 <= r < 1.0 && Draw(r) == v
  {
    var r := (v - 10) as real / 90.0;
    assert r * 90.0 == (v - 10) as real;
  }

  /** The `k`-th bar drawn: its value from draw `k`, and both its `index`
      and its `originalIndex` equal to `k`. */
  function Drawn(rand: nat -> real, k: nat): Item {
    Item(Draw(rand(k)), k, k)
  }

  /** The first `count` bars drawn, in order. */
  function Fresh(count: nat, rand: nat -> real): (s: seq<Item>)
    ensures |s| == count
  {
    seq(count, k requires 0 <= k => Drawn(rand, k))
  }

  /** `generateRandomData(count)`: pushes `count` fresh bars, all labelled
      default, and keeps an independent copy as the array a reset returns to. */
  method GenerateRandomData(count: nat, rand: nat -> real) returns (data: Frame, original: Frame)
    ensures data.Valid() && |data.items| == count
    ensures data.items == Fresh(count, rand)
    ensures AllIn(data.labels, Default)
    ensures original == data
  {
    var items: seq<Item> := [];
    var i := 0;
    while i < count
      invariant 0 <= i <= count && |items| == i
      invariant forall k :: 0 <= k < i ==> items[k] == Drawn(rand, k)
    {
      items := items + [Item(Draw(rand(i)), i, i)];
      i := i + 1;
    }
    data := Frame(items, Fill(count, Default));
    original := Frame(items, Fill(count, Default));
  }

  /** A fresh array is what every sort expects: values in 10..99, the
      renderer's keys distinct, and bars of equal value in generation
      order, so a stable sort keeps them in that order. */
  lemma FreshShape(count: nat, rand: nat -> real)
    requires forall k: nat :: k < count ==> 0.0 <= rand(k) < 1.0
    ensures var s := Fresh(count, rand);
      && (forall k :: 0 <= k < |s| ==> 10 <= s[k].value <= 99 && s[k].originalIndex == k)
      && DistinctIds(s) && EqualsInOrder(s)
  {
    var s := Fresh(count, rand);
    forall k | 0 <= k < |s|
      ensures 10 <= s[k].value <= 99
    {
      DrawRange(rand(k));
    }
  }

  /** Every array of values in 10..99 can be generated. */
  lemma FreshReaches(values: seq<int>)
    requires forall k :: 0 <= k < |values| ==> 10 <= values[k] <= 99
    ensures var rand := (k: nat) => if k < |values| then (values[k] - 10) as real / 90.0 else 0.0;
      && (forall k: nat :: 0.0 <= rand(k) < 1.0)
      && (forall k :: 0 <= k < |values| ==> Fresh(|values|, rand)[k].value == values[k])
  {
    var rand := (k: nat) => if k < |values| then (values[k] - 10) as real / 90.0 else 0.0;
    forall k: nat
      ensures 0.0 <= rand(k) < 1.0
      ensures k < |values| ==> Fresh(|values|, rand)[k].value == values[k]
    {
      if k < |values| {
        DrawReaches(values[k]);
      }
    }
  }
}
