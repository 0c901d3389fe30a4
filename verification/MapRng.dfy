/** The generator's random draws. The stream behind them is arbitrary, so results hold for every seed. */
module MapRng {
  import opened Prelude

  type Stream = nat -> u64

  /** `roll_percent` on the draw at `position`: the upper half of the word, modulo 100. */
  predicate RollAt(stream: Stream, position: nat, percent: nat) {
    (stream(position) / 0x1_0000_0000) % 100 < percent
  }

  function Swap<T>(s: seq<T>, i: nat, j: nat): (t: seq<T>)
    requires i < |s| && j < |s|
    ensures |t| == |s|
  {
    s[i := s[j]][j := s[i]]
  }

  /** The shuffle loop from `index` down to 1. */
  function ShuffledFrom<T>(s: seq<T>, index: nat, stream: Stream, position: nat): (t: seq<T>)
    requires index == 0 || index < |s|
    ensures |t| == |s|
    decreases index
  {
    if index == 0 then s
    else ShuffledFrom(Swap(s, index, stream(position) % (index + 1)), index - 1, stream, position + 1)
  }

  function Shuffled<T>(s: seq<T>, stream: Stream, position: nat): (t: seq<T>)
    ensures |t| == |s|
  {
    if s == [] then s else ShuffledFrom(s, |s| - 1, stream, position)
  }

  /** Draws one shuffle of `n` values takes. */
  function ShuffleDraws(n: nat): nat { if n == 0 then 0 else n - 1 }

  lemma SwapPermutes<T>(s: seq<T>, i: nat, j: nat)
    requires i < |s| && j < |s|
    ensures multiset(Swap(s, i, j)) == multiset(s)
  {
    var once := s[i := s[j]];
    assert multiset(once) == multiset(s) - multiset{s[i]} + multiset{s[j]};
    assert multiset(Swap(s, i, j)) == multiset(once) - multiset{once[j]} + multiset{s[i]};
  }

  lemma {:induction false} ShuffledFromPermutes<T>(s: seq<T>, index: nat, stream: Stream, position: nat)
    requires index == 0 || index < |s|
    ensures multiset(ShuffledFrom(s, index, stream, position)) == multiset(s)
    decreases index
  {
    if index > 0 {
      var j := stream(position) % (index + 1);
      SwapPermutes(s, index, j);
      ShuffledFromPermutes(Swap(s, index, j), index - 1, stream, position + 1);
    }
  }

  /** A shuffle loses nothing and invents nothing. */
  lemma ShufflePermutes<T>(s: seq<T>, stream: Stream, position: nat)
    ensures multiset(Shuffled(s, stream, position)) == multiset(s)
    ensures forall x :: x in Shuffled(s, stream, position) <==> x in s
  {
    if s != [] {
      ShuffledFromPermutes(s, |s| - 1, stream, position);
    }
    var t := Shuffled(s, stream, position);
    forall x ensures x in t <==> x in s {
      assert x in t <==> x in multiset(t);
      assert x in s <==> x in multiset(s);
    }
  }

  // ----- what the draws decide

  lemma {:induction false} AboveStays<T>(s: seq<T>, index: nat, stream: Stream, position: nat, k: nat)
    requires (index == 0 || index < |s|) && index < k < |s|
    ensures ShuffledFrom(s, index, stream, position)[k] == s[k]
    decreases index
  {
    if index > 0 {
      AboveStays(Swap(s, index, stream(position) % (index + 1)), index - 1, stream, position + 1, k);
    }
  }

  /** The first draw settles which value comes last. */
  lemma LastIsDrawn<T>(s: seq<T>, stream: Stream, position: nat)
    requires s != []
    ensures Shuffled(s, stream, position)[|s| - 1] == s[stream(position) % |s|]
  {
    if |s| > 1 {
      var j := stream(position) % |s|;
      AboveStays(Swap(s, |s| - 1, j), |s| - 2, stream, position + 1, |s| - 1);
    }
  }

  /** These draws come next. */
  ghost predicate ComeNext(stream: Stream, position: nat, draws: seq<nat>) {
    forall k :: 0 <= k < |draws| ==> stream(position + k) == draws[k]
  }

  lemma NextAfterFirst(stream: Stream, position: nat, draws: seq<nat>)
    requires draws != [] && ComeNext(stream, position, draws)
    ensures stream(position) == draws[0] && ComeNext(stream, position + 1, draws[1..])
  {
    assert stream(position + 0) == draws[0];
    forall k | 0 <= k < |draws[1..]| ensures stream(position + 1 + k) == draws[1..][k] {
      assert stream(position + (k + 1)) == draws[k + 1];
    }
  }

  /** The same values up to `index`, and the very same above it. */
  ghost predicate AgreeAbove<T>(s: seq<T>, t: seq<T>, index: nat) {
    index < |s| == |t| && multiset(s[..index + 1]) == multiset(t[..index + 1]) && s[index + 1..] == t[index + 1..]
  }

  lemma ValueIsThere<T>(s: seq<T>, t: seq<T>, index: nat) returns (j: nat)
    requires AgreeAbove(s, t, index)
    ensures j <= index && s[j] == t[index]
  {
    var low, other := s[..index + 1], t[..index + 1];
    assert other[index] in multiset(other) && other[index] in multiset(low);
    j :| j <= index && low[j] == other[index];
  }

  lemma SwapParts<T>(s: seq<T>, i: nat, j: nat)
    requires j <= i < |s|
    ensures Swap(s, i, j)[..i + 1] == Swap(s[..i + 1], i, j)
    ensures Swap(s, i, j)[i] == s[j] && Swap(s, i, j)[i + 1..] == s[i + 1..]
  {
  }

  lemma SwapSettles<T>(s: seq<T>, t: seq<T>, index: nat, j: nat)
    requires AgreeAbove(s, t, index) && 0 < index && j <= index && s[j] == t[index]
    ensures AgreeAbove(Swap(s, index, j), t, index - 1)
  {
    hide Swap;
    var next := Swap(s, index, j);
    SwapParts(s, index, j);
    SwapPermutes(s[..index + 1], index, j);
    DropLast(next, index);
    DropLast(t, index);
    SplitAt(next, index);
    SplitAt(t, index);
  }

  lemma SplitAt<T>(s: seq<T>, index: nat)
    requires index < |s|
    ensures s[index..] == [s[index]] + s[index + 1..]
  {
  }

  lemma DropLast<T>(s: seq<T>, index: nat)
    requires index < |s|
    ensures multiset(s[..index]) == multiset(s[..index + 1]) - multiset{s[index]}
  {
    assert s[..index + 1] == s[..index] + [s[index]];
  }

  /** Draws that carry `s` into `t` and are all at most `index`. */
  ghost predicate Carry<T(!new)>(s: seq<T>, t: seq<T>, index: nat, draws: seq<nat>)
    requires index < |s|
  {
    && (forall k :: 0 <= k < |draws| ==> draws[k] <= index)
    && forall stream: Stream, position: nat :: ComeNext(stream, position, draws) ==>
         ShuffledFrom(s, index, stream, position) == t
  }

  lemma CarryOne<T(!new)>(s: seq<T>, t: seq<T>, index: nat, j: nat, rest: seq<nat>)
    requires 0 < index < |s| && j <= index && Carry(Swap(s, index, j), t, index - 1, rest)
    ensures Carry(s, t, index, [j] + rest)
  {
    hide ComeNext, Swap;
    var draws := [j] + rest;
    assert draws[1..] == rest;
    assert j % (index + 1) == j;
    forall stream: Stream, position: nat | ComeNext(stream, position, draws)
      ensures ShuffledFrom(s, index, stream, position) == t
    {
      NextAfterFirst(stream, position, draws);
    }
  }

  lemma {:induction false} DrawsFor<T(!new)>(s: seq<T>, t: seq<T>, index: nat) returns (draws: seq<nat>)
    requires AgreeAbove(s, t, index)
    ensures Carry(s, t, index, draws)
    decreases index
  {
    hide ComeNext;
    if index == 0 {
      draws := [];
      var j := ValueIsThere(s, t, 0);
      assert s == [s[0]] + s[1..] && t == [t[0]] + t[1..];
    } else {
      hide AgreeAbove, Carry;
      var j := ValueIsThere(s, t, index);
      SwapSettles(s, t, index, j);
      var rest := DrawsFor(Swap(s, index, j), t, index - 1);
      CarryOne(s, t, index, j, rest);
      draws := [j] + rest;
    }
  }

  /** Every order of the values is the outcome of some draws. */
  lemma EveryOrderIsDrawn<T(!new)>(s: seq<T>, t: seq<T>, position: nat) returns (stream: Stream)
    requires multiset(s) == multiset(t) && |s| <= 0x1_0000_0000_0000_0000
    ensures Shuffled(s, stream, position) == t
  {
    assert |s| == |multiset(s)| == |multiset(t)| == |t|;
    stream := (n: nat) => 0;
    if s != [] {
      assert s[..|s|] == s && t[..|t|] == t;
      var draws := DrawsFor(s, t, |s| - 1);
      stream := (n: nat) => if position <= n < position + |draws| then draws[n - position] else 0;
      assert ComeNext(stream, position, draws);
    }
  }

  class MapRng {
    const stream: Stream
    var position: nat

    constructor (stream: Stream)
      ensures this.stream == stream && position == 0
    {
      this.stream := stream;
      position := 0;
    }

    method NextU64() returns (word: u64)
      modifies this
      ensures word == stream(old(position)) && position == old(position) + 1
    {
      word := stream(position);
      position := position + 1;
    }

    method NextU32() returns (word: u32)
      modifies this
      ensures word == stream(old(position)) / 0x1_0000_0000 && position == old(position) + 1
    {
      var wide := NextU64();
      word := wide / 0x1_0000_0000;
    }

    method RollPercent(percent: nat) returns (hit: bool)
      modifies this
      ensures hit == RollAt(stream, old(position), percent) && position == old(position) + 1
    {
      var word := NextU32();
      hit := word % 100 < percent;
    }
  }

  /** The in-place Fisher-Yates shuffle. */
  method Shuffle<T>(values: array<T>, rng: MapRng)
    modifies values, rng
    ensures values[..] == Shuffled(old(values[..]), rng.stream, old(rng.position))
    ensures rng.position == old(rng.position) + ShuffleDraws(values.Length)
  {
    if values.Length == 0 {
      return;
    }
    var index: nat := values.Length - 1;
    while index > 0
      invariant index < values.Length
      invariant rng.position == old(rng.position) + (values.Length - 1 - index)
      invariant ShuffledFrom(values[..], index, rng.stream, rng.position)
             == Shuffled(old(values[..]), rng.stream, old(rng.position))
    {
      ghost var before, at := values[..], rng.position;
      var word := rng.NextU64();
      var other := word % (index + 1);
      values[index], values[other] := values[other], values[index];
      assert values[..] == Swap(before, index, other);
      index := index - 1;
    }
  }
}
