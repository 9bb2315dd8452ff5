/**
 The falling-object scheduler of the animation loop: every frame, if fewer
 than `MaxNumObjects` objects exist and the clock has passed the next spawn
 time, one object is spawned and the next spawn is put `ObjectTimePeriod`
 seconds later; then the clock advances by the frame's delta.
 */
module Spawn {

  const MaxNumObjects: nat := 30
  const ObjectTimePeriod: real := 3.0

  /* The module-level state the loop reads and writes: how many dynamic
     objects exist, the accumulated time, and when the next one may spawn. */
  datatype SpawnState = SpawnState(count: nat, time: real, timeNextSpawn: real)

  /* The state when the module is loaded. */
  function Initial(): (s: SpawnState)
    ensures s.count == 0 && s.time == 0.0
    ensures s.timeNextSpawn == s.time + ObjectTimePeriod
  {
    SpawnState(0, 0.0, 0.0 + ObjectTimePeriod)
  }

  /* The spawn condition of one frame. */
  predicate ShouldSpawn(s: SpawnState)
  {
    s.count < MaxNumObjects && s.time > s.timeNextSpawn
  }

  /* One frame of the loop with frame time `delta`. */
  function Step(s: SpawnState, delta: real): (s': SpawnState)
    ensures s'.count == s.count || s'.count == s.count + 1
    ensures s'.count == s.count + 1 <==> s.count < MaxNumObjects && s.time > s.timeNextSpawn
    ensures s.count <= MaxNumObjects ==> s'.count <= MaxNumObjects
    ensures s'.count > s.count ==> s'.timeNextSpawn == s.time + ObjectTimePeriod
    ensures s'.count == s.count ==> s'.timeNextSpawn == s.timeNextSpawn
    ensures s'.time == s.time + delta
  {
    var spawned :=
      if ShouldSpawn(s) then SpawnState(s.count + 1, s.time, s.time + ObjectTimePeriod)
      else s;
    spawned.(time := spawned.time + delta)
  }

  /* The frames of a run, one delta per frame, in order. */
  function Run(s: SpawnState, deltas: seq<real>): (r: SpawnState)
    ensures s.count <= r.count <= s.count + |deltas|
    decreases |deltas|
  {
    if |deltas| == 0 then s else Run(Step(s, deltas[0]), deltas[1..])
  }

  /* The clock value at each frame of a run that spawned an object. */
  function SpawnTimes(s: SpawnState, deltas: seq<real>): seq<real>
    decreases |deltas|
  {
    if |deltas| == 0 then []
    else (if ShouldSpawn(s) then [s.time] else []) + SpawnTimes(Step(s, deltas[0]), deltas[1..])
  }

  function Sum(deltas: seq<real>): real
  {
    if |deltas| == 0 then 0.0 else deltas[0] + Sum(deltas[1..])
  }

  /* A run adds exactly one object per spawning frame and never goes past
     the cap. */
  lemma {:induction false} RunCount(s: SpawnState, deltas: seq<real>)
    requires s.count <= MaxNumObjects
    ensures Run(s, deltas).count == s.count + |SpawnTimes(s, deltas)|
    ensures Run(s, deltas).count <= MaxNumObjects
    ensures |SpawnTimes(s, deltas)| <= |deltas|
    decreases |deltas|
  {
    if |deltas| > 0 {
      RunCount(Step(s, deltas[0]), deltas[1..]);
    }
  }

  /* From the initial state the object count never exceeds the cap, and
     every object stems from a distinct frame. */
  lemma CountBounded(deltas: seq<real>)
    ensures Run(Initial(), deltas).count <= MaxNumObjects
    ensures Run(Initial(), deltas).count <= |deltas|
  {
    RunCount(Initial(), deltas);
  }

  /* The clock of a run is the sum of its frame times, so it never goes
     back when no frame time is negative. */
  lemma {:induction false} RunTime(s: SpawnState, deltas: seq<real>)
    ensures Run(s, deltas).time == s.time + Sum(deltas)
    ensures (forall i :: 0 <= i < |deltas| ==> deltas[i] >= 0.0) ==> Run(s, deltas).time >= s.time
    decreases |deltas|
  {
    if |deltas| > 0 {
      RunTime(Step(s, deltas[0]), deltas[1..]);
      if forall i :: 0 <= i < |deltas| ==> deltas[i] >= 0.0 {
        assert forall i :: 0 <= i < |deltas| - 1 ==> deltas[1..][i] >= 0.0;
      }
    }
  }

  /* Every spawn of a run happens strictly after the next spawn time the run
     started with, and the next spawn time never moves back. */
  lemma {:induction false} SpawnsAfterNext(s: SpawnState, deltas: seq<real>)
    ensures forall i :: 0 <= i < |SpawnTimes(s, deltas)| ==> SpawnTimes(s, deltas)[i] > s.timeNextSpawn
    ensures Run(s, deltas).timeNextSpawn >= s.timeNextSpawn
    decreases |deltas|
  {
    if |deltas| > 0 {
      var s1 := Step(s, deltas[0]);
      SpawnsAfterNext(s1, deltas[1..]);
      assert s1.timeNextSpawn >= s.timeNextSpawn;
    }
  }

  /* Successive entries more than `ObjectTimePeriod` apart. */
  predicate Spaced(ts: seq<real>)
  {
    forall i :: 0 < i < |ts| ==> ts[i] > ts[i - 1] + ObjectTimePeriod
  }

  /* Two successive spawns are more than `ObjectTimePeriod` apart on the
     clock, whatever the frame times. */
  lemma {:induction false} SpawnsSpaced(s: SpawnState, deltas: seq<real>)
    ensures Spaced(SpawnTimes(s, deltas))
    decreases |deltas|
  {
    if |deltas| > 0 {
      var s1 := Step(s, deltas[0]);
      var rest := SpawnTimes(s1, deltas[1..]);
      SpawnsSpaced(s1, deltas[1..]);
      if ShouldSpawn(s) {
        SpawnsAfterNext(s1, deltas[1..]);
        var ts := [s.time] + rest;
        assert SpawnTimes(s, deltas) == ts;
        forall i | 0 < i < |ts|
          ensures ts[i] > ts[i - 1] + ObjectTimePeriod
        {
          if i > 1 {
            assert ts[i] == rest[i - 1] && ts[i - 1] == rest[i - 2];
            assert rest[i - 1] > rest[i - 2] + ObjectTimePeriod;
          } else {
            assert ts[1] == rest[0] > s1.timeNextSpawn;
            assert s1.timeNextSpawn == s.time + ObjectTimePeriod;
          }
        }
      } else {
        assert SpawnTimes(s, deltas) == [] + rest == rest;
      }
    }
  }

  /* From the initial state the first object cannot appear before the
     clock has passed `ObjectTimePeriod`. */
  lemma FirstSpawnLate(deltas: seq<real>)
    ensures forall i :: 0 <= i < |SpawnTimes(Initial(), deltas)| ==>
      SpawnTimes(Initial(), deltas)[i] > ObjectTimePeriod
  {
    SpawnsAfterNext(Initial(), deltas);
  }
}
