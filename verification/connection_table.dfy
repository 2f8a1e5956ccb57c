/** A room's `connections` dictionary (direction -> room id), kept as a list
    of entries in insertion order, which is the order Python iterates it. */
module ConnectionTable {

  import opened Options
  import opened Directions

  datatype Connection = Connection(dir: Direction, target: nat)

  /** Dictionary keys are unique. */
  predicate DistinctDirs(t: seq<Connection>)
  {
    forall i, j :: 0 <= i < j < |t| ==> t[i].dir != t[j].dir
  }

  /** `connections.get(d)`: the target stored under key d. */
  function Lookup(t: seq<Connection>, d: Direction): (r: Option<nat>)
    ensures r.Some? ==> Connection(d, r.value) in t
    ensures r.None? ==> forall i :: 0 <= i < |t| ==> t[i].dir != d
  {
    if |t| == 0 then None
    else if t[0].dir == d then Some(t[0].target)
    else Lookup(t[1..], d)
  }

  /** Every room id the table points at (`connections.values()`). */
  function Targets(t: seq<Connection>): (s: set<nat>)
    ensures forall i :: 0 <= i < |t| ==> t[i].target in s
  {
    if |t| == 0 then {} else {t[0].target} + Targets(t[1..])
  }

  /** `add_connection`, i.e. `connections[d] = target`: an existing key keeps
      its place and takes the new target, a new key is appended. */
  function Put(t: seq<Connection>, d: Direction, target: nat): (r: seq<Connection>)
    ensures Lookup(r, d) == Some(target)
    ensures forall e :: e != d ==> Lookup(r, e) == Lookup(t, e)
    ensures Lookup(t, d).None? ==> r == t + [Connection(d, target)]
    ensures Lookup(t, d).Some? ==> |r| == |t| && forall i :: 0 <= i < |t| ==> r[i].dir == t[i].dir
  {
    if |t| == 0 then [Connection(d, target)]
    else if t[0].dir == d then [Connection(d, target)] + t[1..]
    else
      var rest := Put(t[1..], d, target);
      assert ([t[0]] + rest)[1..] == rest;
      [t[0]] + rest
  }

  /** An assignment adds at most its own target to the stored values. */
  lemma {:induction false} PutTargets(t: seq<Connection>, d: Direction, target: nat)
    ensures Targets(Put(t, d, target)) <= Targets(t) + {target}
  {
    if |t| > 0 && t[0].dir != d {
      var rest := Put(t[1..], d, target);
      PutTargets(t[1..], d, target);
      assert ([t[0]] + rest)[1..] == rest;
    } else if |t| > 0 {
      assert ([Connection(d, target)] + t[1..])[1..] == t[1..];
    }
  }

  /** An assignment keeps the keys unique. */
  lemma {:induction false} PutKeepsDistinct(t: seq<Connection>, d: Direction, target: nat)
    requires DistinctDirs(t)
    ensures DistinctDirs(Put(t, d, target))
  {
    var r := Put(t, d, target);
    if Lookup(t, d).None? {
      forall i, j | 0 <= i < j < |r| ensures r[i].dir != r[j].dir {
        if j == |t| {
          assert r[i] == t[i];
        }
      }
    }
  }

  /** a is obtained from b by deleting elements (order is kept). */
  predicate IsSubsequence<T(==)>(a: seq<T>, b: seq<T>)
  {
    |a| == 0 || (|b| > 0 && if a[0] == b[0] then IsSubsequence(a[1..], b[1..]) else IsSubsequence(a, b[1..]))
  }

  /** `get_available_directions(candidates)`: the candidates, in their own
      order, that are not yet keys of the table. */
  function Available(t: seq<Connection>, candidates: seq<Direction>): (r: seq<Direction>)
    ensures forall d :: d in r <==> d in candidates && Lookup(t, d).None?
    ensures IsSubsequence(r, candidates)
  {
    if |candidates| == 0 then []
    else if Lookup(t, candidates[0]).None? then [candidates[0]] + Available(t, candidates[1..])
    else Available(t, candidates[1..])
  }

  /** With unique keys, every entry is what a lookup of its key returns. */
  lemma {:induction false} LookupFindsEntry(t: seq<Connection>, i: nat)
    requires DistinctDirs(t)
    requires i < |t|
    ensures Lookup(t, t[i].dir) == Some(t[i].target)
  {
    if i > 0 {
      assert t[0].dir != t[i].dir;
      LookupFindsEntry(t[1..], i - 1);
    }
  }

  /** The stored targets are exactly the values some key looks up. */
  lemma {:induction false} TargetsAreLookups(t: seq<Connection>, b: nat)
    requires DistinctDirs(t)
    ensures b in Targets(t) <==> exists d :: Lookup(t, d) == Some(b)
  {
    if |t| > 0 {
      assert DistinctDirs(t[1..]);
      TargetsAreLookups(t[1..], b);
      if b in Targets(t) {
        if b != t[0].target {
          var d :| Lookup(t[1..], d) == Some(b);
          var i :| 0 <= i < |t[1..]| && t[1..][i] == Connection(d, b);
          assert t[i + 1].dir == d;
          assert Lookup(t, d) == Some(b);
        } else {
          assert Lookup(t, t[0].dir) == Some(b);
        }
      }
    }
  }

  /** The set of keys in use. */
  function Keys(t: seq<Connection>): (s: set<Direction>)
    ensures forall d :: d in s <==> Lookup(t, d).Some?
  {
    if |t| == 0 then {} else {t[0].dir} + Keys(t[1..])
  }

  /** Unique keys: the key set is as large as the table. */
  lemma {:induction false} KeyCount(t: seq<Connection>)
    requires DistinctDirs(t)
    ensures |Keys(t)| == |t|
  {
    if |t| > 0 {
      KeyCount(t[1..]);
      assert t[0].dir !in Keys(t[1..]);
    }
  }

  /** A subset is no larger than its superset. */
  lemma {:induction false} SubsetNoLarger<T>(a: set<T>, b: set<T>)
    requires a <= b
    ensures |a| <= |b|
  {
    assert b == a + (b - a);
  }

  lemma FourDistinct<T>(w: T, x: T, y: T, z: T)
    requires w != x && w != y && w != z && x != y && x != z && y != z
    ensures |{w, x, y, z}| == 4
  {
    assert |{w}| == 1;
    assert {w, x} == {w} + {x};
    assert {w, x, y} == {w, x} + {y};
    assert {w, x, y, z} == {w, x, y} + {z};
  }

  /** Degree bound: a table with unique keys has at most four entries. */
  lemma DegreeBound(t: seq<Connection>)
    requires DistinctDirs(t)
    ensures |t| <= 4
  {
    KeyCount(t);
    var all := {North, East, South, West};
    assert Keys(t) <= all by {
      forall d | d in Keys(t) ensures d in all {
        if d.North? {} else if d.East? {} else if d.South? {} else {}
      }
    }
    SubsetNoLarger(Keys(t), all);
    FourDistinct(North, East, South, West);
  }
}
