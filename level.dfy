/** The level a student's points earn: a fixed step function with five
    thresholds. */
module Level {

  /** `calculateLevel(points)` */
  function CalculateLevel(points: int): (level: nat)
    ensures level <= 5
  {
    if points >= 100 then 5
    else if points >= 75 then 4
    else if points >= 50 then 3
    else if points >= 25 then 2
    else if points >= 10 then 1
    else 0
  }

  /** The points at which each level from 1 to 5 starts, in rising order. */
  const Thresholds: seq<int> := [10, 25, 50, 75, 100]

  /** How many of the thresholds ts the given points have reached. */
  function Reached(ts: seq<int>, points: int): (n: nat)
    ensures n <= |ts|
  {
    if |ts| == 0 then 0
    else (if ts[0] <= points then 1 else 0) + Reached(ts[1..], points)
  }

  /** The level is the number of thresholds reached: level k exactly when
      points lie between the k-th threshold and the next one. */
  lemma LevelIsThresholdsReached(points: int)
    ensures CalculateLevel(points) == Reached(Thresholds, points)
  {
    var ts := Thresholds;
    assert ts[1..] == [25, 50, 75, 100];
    assert ts[1..][1..] == [50, 75, 100];
    assert ts[1..][1..][1..] == [75, 100];
    assert ts[1..][1..][1..][1..] == [100];
    assert Reached([100], points) == if points >= 100 then 1 else 0;
    assert Reached([75, 100], points) == (if points >= 75 then 1 else 0) + Reached([100], points);
    assert Reached([50, 75, 100], points) == (if points >= 50 then 1 else 0) + Reached([75, 100], points);
    assert Reached([25, 50, 75, 100], points) == (if points >= 25 then 1 else 0) + Reached([50, 75, 100], points);
  }

  /** More points never reach fewer thresholds. */
  lemma {:induction false} ReachedMonotonic(ts: seq<int>, p: int, q: int)
    requires p <= q
    ensures Reached(ts, p) <= Reached(ts, q)
  {
    if |ts| > 0 {
      ReachedMonotonic(ts[1..], p, q);
    }
  }

  /** More points never give a lower level. */
  lemma LevelMonotonic(p: int, q: int)
    requires p <= q
    ensures CalculateLevel(p) <= CalculateLevel(q)
  {
    LevelIsThresholdsReached(p);
    LevelIsThresholdsReached(q);
    ReachedMonotonic(Thresholds, p, q);
  }
}
