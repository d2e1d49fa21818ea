/** The edit distance of two texts, and that it is what its name says: the length of a shortest way from one to the other. */
module EditDistances {

  function Max(a: int, b: int): int {
    if a < b then b else a
  }

  function Min(a: int, b: int): int {
    if a < b then a else b
  }

  /** Insertions, deletions and replacements that turn `a` into `b`. */
  function EditDistance(a: string, b: string): nat
    decreases |a| + |b|
  {
    if a == [] then |b|
    else if b == [] then |a|
    else
      var replaced := EditDistance(a[..|a| - 1], b[..|b| - 1]) + if a[|a| - 1] == b[|b| - 1] then 0 else 1;
      Min(Min(EditDistance(a[..|a| - 1], b), EditDistance(a, b[..|b| - 1])) + 1, replaced)
  }

  lemma {:induction false} EditDistanceBounds(a: string, b: string)
    ensures |a| - |b| <= EditDistance(a, b) && |b| - |a| <= EditDistance(a, b) <= Max(|a|, |b|)
    decreases |a| + |b|
  {
    if a != [] && b != [] {
      EditDistanceBounds(a[..|a| - 1], b);
      EditDistanceBounds(a, b[..|b| - 1]);
      EditDistanceBounds(a[..|a| - 1], b[..|b| - 1]);
    }
  }

  lemma {:induction false} ZeroDistanceIsEquality(a: string, b: string)
    ensures EditDistance(a, b) == 0 <==> a == b
    decreases |a| + |b|
  {
    if a != [] && b != [] {
      ZeroDistanceIsEquality(a[..|a| - 1], b[..|b| - 1]);
      EditDistanceBounds(a, b);
      assert a == a[..|a| - 1] + [a[|a| - 1]];
      assert b == b[..|b| - 1] + [b[|b| - 1]];
    }
  }

  // ---- Ways from one text to another ----

  /** `longer` with its `i`-th character deleted. */
  function Without(longer: string, i: nat): string
    requires i < |longer|
  {
    longer[..i] + longer[i + 1..]
  }

  predicate IsDeletion(a: string, b: string, i: int) {
    0 <= i < |a| && b == Without(a, i)
  }

  predicate IsReplacement(a: string, b: string, i: int) {
    0 <= i < |a| == |b| && b == a[i := b[i]]
  }

  /** One character is deleted, inserted or replaced. */
  ghost predicate IsStep(a: string, b: string) {
    exists i :: IsDeletion(a, b, i) || IsDeletion(b, a, i) || IsReplacement(a, b, i)
  }

  /** A way from `a` to `b`, one step at a time. */
  ghost predicate IsWay(way: seq<string>, a: string, b: string) {
    && way != [] && way[0] == a && way[|way| - 1] == b
    && forall k :: 0 <= k < |way| - 1 ==> IsStep(way[k], way[k + 1])
  }

  // ---- No way is shorter ----

  lemma FrontStaysClose(a: string, w: char, c: string)
    ensures EditDistance(a + [w], c) <= EditDistance(a, c) + 1
  {
    assert (a + [w])[..|a|] == a;
    EditDistanceBounds(a, c);
  }

  lemma BackStaysClose(a: string, c: string)
    requires c != []
    ensures EditDistance(a, c) <= EditDistance(a, c[..|c| - 1]) + 1
  {
    EditDistanceBounds(a, c[..|c| - 1]);
  }

  /** Two texts close to each other, whatever prefix of `c` they are compared with, stay close with one more character. */
  lemma {:induction false} StayClose(a: string, b: string, w: char, c: string)
    requires forall n :: 0 <= n <= |c| ==> EditDistance(a, c[..n]) <= EditDistance(b, c[..n]) + 1
    ensures EditDistance(a + [w], c) <= EditDistance(b + [w], c) + 1
  {
    var longA, longB := a + [w], b + [w];
    assert longA[..|a|] == a && longB[..|b|] == b && c[..|c|] == c;
    if c != [] {
      var front := c[..|c| - 1];
      forall n | 0 <= n <= |front| ensures EditDistance(a, front[..n]) <= EditDistance(b, front[..n]) + 1 {
        assert front[..n] == c[..n];
      }
      StayClose(a, b, w, front);
      FrontStaysClose(a, w, c);
      BackStaysClose(longA, c);
      assert EditDistance(a, c[..|c| - 1]) <= EditDistance(b, c[..|c| - 1]) + 1;
    }
  }

  /** A character less at the end. */
  lemma {:induction false} ShorterIsClose(a: string, w: char, c: string)
    ensures EditDistance(a, c) <= EditDistance(a + [w], c) + 1
    decreases |c|
  {
    var longer := a + [w];
    assert longer[..|a|] == a;
    if c != [] {
      ShorterIsClose(a, w, c[..|c| - 1]);
      BackStaysClose(a, c);
    }
  }

  lemma {:induction false} ReplacedIsClose(a: string, v: char, w: char, c: string)
    ensures EditDistance(a + [v], c) <= EditDistance(a + [w], c) + 1
    decreases |c|
  {
    assert (a + [v])[..|a|] == a && (a + [w])[..|a|] == a;
    if c != [] {
      ReplacedIsClose(a, v, w, c[..|c| - 1]);
      BackStaysClose(a + [v], c);
      FrontStaysClose(a, v, c);
    }
  }

  /** One step changes no distance by more than one. */
  lemma {:induction false} StepIsClose(a: string, b: string, c: string)
    requires IsStep(a, b)
    ensures EditDistance(a, c) <= EditDistance(b, c) + 1
    decreases |a| + |b|
  {
    hide EditDistance, Without;
    var i :| IsDeletion(a, b, i) || IsDeletion(b, a, i) || IsReplacement(a, b, i);
    if ((IsDeletion(a, b, i) || IsReplacement(a, b, i)) && i == |a| - 1) || (IsDeletion(b, a, i) && i == |b| - 1) {
      StepAtEndIsClose(a, b, c, i);
    } else {
      StepInFront(a, b, i);
      var frontA, frontB, w := a[..|a| - 1], b[..|b| - 1], a[|a| - 1];
      forall n | 0 <= n <= |c| ensures EditDistance(frontA, c[..n]) <= EditDistance(frontB, c[..n]) + 1 {
        StepIsClose(frontA, frontB, c[..n]);
      }
      assert a == frontA + [w] && b == frontB + [w];
      StayClose(frontA, frontB, w, c);
    }
  }

  lemma StepAtEndIsClose(a: string, b: string, c: string, i: int)
    requires ((IsDeletion(a, b, i) || IsReplacement(a, b, i)) && i == |a| - 1) || (IsDeletion(b, a, i) && i == |b| - 1)
    ensures EditDistance(a, c) <= EditDistance(b, c) + 1
  {
    hide EditDistance;
    if IsDeletion(a, b, i) && i == |a| - 1 {
      assert a == b + [a[i]];
      FrontStaysClose(b, a[i], c);
    } else if IsDeletion(b, a, i) && i == |b| - 1 {
      assert b == a + [b[i]];
      ShorterIsClose(a, b[i], c);
    } else {
      assert a == a[..i] + [a[i]] && b == a[..i] + [b[i]];
      ReplacedIsClose(a[..i], a[i], b[i], c);
    }
  }

  /** A step before the last character is a step of the fronts. */
  lemma StepInFront(a: string, b: string, i: int)
    requires IsDeletion(a, b, i) || IsDeletion(b, a, i) || IsReplacement(a, b, i)
    requires i < |a| - 1 || i < |b| - 1
    requires IsReplacement(a, b, i) ==> i < |a| - 1
    requires IsDeletion(a, b, i) ==> i < |a| - 1
    requires IsDeletion(b, a, i) ==> i < |b| - 1
    ensures a != [] && b != [] && a[|a| - 1] == b[|b| - 1]
    ensures IsStep(a[..|a| - 1], b[..|b| - 1])
  {
    var frontA, frontB := a[..|a| - 1], b[..|b| - 1];
    if IsDeletion(a, b, i) {
      DeletionInFront(a, b, i);
    } else if IsDeletion(b, a, i) {
      DeletionInFront(b, a, i);
    } else {
      assert IsReplacement(frontA, frontB, i);
    }
  }

  lemma DeletionInFront(a: string, b: string, i: int)
    requires IsDeletion(a, b, i) && i < |a| - 1
    ensures b != [] && a[|a| - 1] == b[|b| - 1] && IsDeletion(a[..|a| - 1], b[..|b| - 1], i)
  {
    var frontA, frontB := a[..|a| - 1], b[..|b| - 1];
    assert frontA[..i] == a[..i] && frontA[i + 1..] == a[i + 1..|a| - 1];
    assert frontB == a[..i] + a[i + 1..|a| - 1];
  }

  lemma RestOfWay(way: seq<string>, a: string, b: string)
    requires IsWay(way, a, b) && |way| > 1
    ensures IsStep(a, way[1]) && IsWay(way[1..], way[1], b)
  {
    hide IsStep;
    assert IsStep(way[0], way[0 + 1]);
    var rest := way[1..];
    forall k | 0 <= k < |rest| - 1 ensures IsStep(rest[k], rest[k + 1]) {
      var next := k + 1;
      assert IsStep(way[next], way[next + 1]);
    }
  }

  lemma {:induction false} NoWayIsShorter(way: seq<string>, a: string, b: string)
    requires IsWay(way, a, b)
    ensures EditDistance(a, b) <= |way| - 1
  {
    if |way| == 1 {
      ZeroDistanceIsEquality(a, b);
    } else {
      RestOfWay(way, a, b);
      NoWayIsShorter(way[1..], way[1], b);
      StepIsClose(a, way[1], b);
    }
  }

  // ---- There is a way as short as that ----

  /** The same way with one more character at the end of every text. */
  function Extended(way: seq<string>, w: char): seq<string> {
    if way == [] then [] else [way[0] + [w]] + Extended(way[1..], w)
  }

  lemma {:induction false} ExtendedAt(way: seq<string>, w: char)
    ensures |Extended(way, w)| == |way| && forall k :: 0 <= k < |way| ==> Extended(way, w)[k] == way[k] + [w]
  {
    if way != [] {
      ExtendedAt(way[1..], w);
    }
  }

  lemma StepExtends(a: string, b: string, w: char)
    requires IsStep(a, b)
    ensures IsStep(a + [w], b + [w])
  {
    hide IsDeletion, IsReplacement;
    var i :| IsDeletion(a, b, i) || IsDeletion(b, a, i) || IsReplacement(a, b, i);
    if IsDeletion(a, b, i) {
      DeletionExtends(a, b, w, i);
    } else if IsDeletion(b, a, i) {
      DeletionExtends(b, a, w, i);
    } else {
      ReplacementExtends(a, b, w, i);
    }
  }

  lemma DeletionExtends(a: string, b: string, w: char, i: int)
    requires IsDeletion(a, b, i)
    ensures IsDeletion(a + [w], b + [w], i)
  {
    assert (a + [w])[..i] == a[..i] && (a + [w])[i + 1..] == a[i + 1..] + [w];
  }

  lemma ReplacementExtends(a: string, b: string, w: char, i: int)
    requires IsReplacement(a, b, i)
    ensures IsReplacement(a + [w], b + [w], i)
  {
  }

  lemma WayExtends(way: seq<string>, a: string, b: string, w: char)
    requires IsWay(way, a, b)
    ensures IsWay(Extended(way, w), a + [w], b + [w])
  {
    ExtendedAt(way, w);
    var longer := Extended(way, w);
    forall k | 0 <= k < |longer| - 1 ensures IsStep(longer[k], longer[k + 1]) {
      StepExtends(way[k], way[k + 1], w);
    }
  }

  lemma WayAfterStep(way: seq<string>, start: string, a: string, b: string)
    requires IsWay(way, a, b) && IsStep(start, a)
    ensures IsWay([start] + way, start, b)
  {
  }

  lemma StepAfterWay(way: seq<string>, a: string, b: string, end: string)
    requires IsWay(way, a, b) && IsStep(b, end)
    ensures IsWay(way + [end], a, end)
  {
    var longer := way + [end];
    forall k | 0 <= k < |longer| - 1 ensures IsStep(longer[k], longer[k + 1]) {
      assert k < |way| - 1 ==> IsStep(way[k], way[k + 1]);
    }
  }

  lemma LastDeleted(a: string)
    requires a != []
    ensures IsStep(a, a[..|a| - 1]) && IsStep(a[..|a| - 1], a)
  {
    assert IsDeletion(a, a[..|a| - 1], |a| - 1);
  }

  lemma LastReplaced(a: string, v: char, w: char)
    ensures IsStep(a + [v], a + [w])
  {
    assert IsReplacement(a + [v], a + [w], |a|);
  }

  lemma NoWayAtAll(a: string)
    ensures IsWay([a], a, a)
  {
  }

  lemma {:induction false} ShortestWay(a: string, b: string) returns (way: seq<string>)
    ensures IsWay(way, a, b) && |way| - 1 == EditDistance(a, b)
    decreases |a| + |b|, 1
  {
    hide IsStep, IsWay, EditDistance;
    if a == [] && b == [] {
      way := [a];
      NoWayAtAll(a);
      ZeroDistanceIsEquality(a, b);
      return;
    }
    LastMoves(a, b);
    if b != [] && EditDistance(a, b) == EditDistance(a, b[..|b| - 1]) + 1 {
      var front := b[..|b| - 1];
      way := ShortestWay(a, front);
      LastDeleted(b);
      StepAfterWay(way, a, front, b);
      way := way + [b];
    } else if a != [] && EditDistance(a, b) == EditDistance(a[..|a| - 1], b) + 1 {
      var front := a[..|a| - 1];
      way := ShortestWay(front, b);
      LastDeleted(a);
      WayAfterStep(way, a, front, b);
      way := [a] + way;
    } else {
      way := WayByReplacing(a, b);
    }
  }

  /** The three kinds of last step a shortest way may have. */
  lemma LastMoves(a: string, b: string)
    requires a != [] || b != []
    ensures || (b != [] && EditDistance(a, b) == EditDistance(a, b[..|b| - 1]) + 1)
            || (a != [] && EditDistance(a, b) == EditDistance(a[..|a| - 1], b) + 1)
            || (a != [] && b != [] && EditDistance(a, b) ==
                EditDistance(a[..|a| - 1], b[..|b| - 1]) + if a[|a| - 1] == b[|b| - 1] then 0 else 1)
  {
  }

  lemma {:induction false} WayByReplacing(a: string, b: string) returns (way: seq<string>)
    requires a != [] && b != []
    requires EditDistance(a, b) ==
             EditDistance(a[..|a| - 1], b[..|b| - 1]) + if a[|a| - 1] == b[|b| - 1] then 0 else 1
    ensures IsWay(way, a, b) && |way| - 1 == EditDistance(a, b)
    decreases |a| + |b|, 0
  {
    hide IsStep, IsWay, EditDistance;
    var frontA, frontB, v, w := a[..|a| - 1], b[..|b| - 1], a[|a| - 1], b[|b| - 1];
    var shorter := ShortestWay(frontA, frontB);
    WayExtends(shorter, frontA, frontB, v);
    ExtendedAt(shorter, v);
    way := Extended(shorter, v);
    assert frontA + [v] == a && frontB + [w] == b;
    if v != w {
      LastReplaced(frontB, v, w);
      StepAfterWay(way, a, frontB + [v], b);
      way := way + [b];
    }
  }

  // ---- So it is a distance ----

  /** The least number of insertions, deletions and replacements. */
  lemma DistanceIsLeast(a: string, b: string)
    ensures exists way :: IsWay(way, a, b) && |way| - 1 == EditDistance(a, b)
    ensures forall way :: IsWay(way, a, b) ==> |way| - 1 >= EditDistance(a, b)
  {
    var shortest := ShortestWay(a, b);
    forall way | IsWay(way, a, b) ensures |way| - 1 >= EditDistance(a, b) {
      NoWayIsShorter(way, a, b);
    }
  }

  lemma {:induction false} WayBack(way: seq<string>, a: string, b: string) returns (back: seq<string>)
    requires IsWay(way, a, b)
    ensures IsWay(back, b, a) && |back| == |way|
  {
    if |way| == 1 {
      return way;
    }
    RestOfWay(way, a, b);
    back := WayBack(way[1..], way[1], b);
    StepBack(a, way[1]);
    StepAfterWay(back, b, way[1], a);
    back := back + [a];
  }

  lemma StepBack(a: string, b: string)
    requires IsStep(a, b)
    ensures IsStep(b, a)
  {
    var i :| IsDeletion(a, b, i) || IsDeletion(b, a, i) || IsReplacement(a, b, i);
    if IsReplacement(a, b, i) {
      assert IsReplacement(b, a, i);
    }
  }

  lemma DistanceIsMetric(a: string, b: string, c: string)
    ensures EditDistance(a, b) == EditDistance(b, a)
    ensures EditDistance(a, c) <= EditDistance(a, b) + EditDistance(b, c)
  {
    var there := ShortestWay(a, b);
    var on := ShortestWay(b, c);
    var back := WayBack(there, a, b);
    NoWayIsShorter(back, b, a);
    var other := ShortestWay(b, a);
    var otherBack := WayBack(other, b, a);
    NoWayIsShorter(otherBack, a, b);
    var all := there + on[1..];
    forall k | 0 <= k < |all| - 1 ensures IsStep(all[k], all[k + 1]) {
      if k >= |there| - 1 {
        assert all[k] == on[k - |there| + 1] && all[k + 1] == on[k - |there| + 2];
      }
    }
    NoWayIsShorter(all, a, c);
  }
}
