/**
 The cell state and the life rule: a cell's next state is decided by how many
 of its eight surrounding cells are alive.
 */
module Rule {

  /** The status of a cell (a two-valued enum whose discriminants are 1 and 0). */
  datatype Status = Alive | Dead

  /** The eight surrounding cells handed to the rule: a fixed-length array of eight. */
  type Surroundings = s: seq<Status> | |s| == 8
    witness [Dead, Dead, Dead, Dead, Dead, Dead, Dead, Dead]

  /** The number of `Alive` entries of `s`, counted left to right (a filter followed by a count). */
  function CountAlive(s: seq<Status>): (n: nat)
    ensures n <= |s|
  {
    if s == [] then 0
    else (if s[0] == Alive then 1 else 0) + CountAlive(s[1..])
  }

  /** The count is the multiplicity of `Alive` in `s`, so it ignores the order of the entries. */
  lemma {:induction false} CountAliveIsMultiplicity(s: seq<Status>)
    ensures CountAlive(s) == multiset(s)[Alive]
  {
    if s != [] {
      CountAliveIsMultiplicity(s[1..]);
      assert s == [s[0]] + s[1..];
    }
  }

  /**
   The rule: `Alive` when exactly two or three of the surroundings are alive,
   `Dead` otherwise. The cell's own current state is not an input.
   */
  function AliveOrDead(surroundings: Surroundings): (r: Status)
  {
    match CountAlive(surroundings)
    case 2 | 3 => Alive
    case _ => Dead
  }

  /**
   `AliveOrDead` gives `Alive` exactly when two or three of the eight inputs
   are alive, and `Dead` for every other number of live inputs.
   */
  lemma AliveOrDeadRule(s: Surroundings)
    ensures AliveOrDead(s) == Alive <==> multiset(s)[Alive] in {2, 3}
    ensures AliveOrDead(s) == Dead <==> multiset(s)[Alive] in {0, 1, 4, 5, 6, 7, 8}
  {
    CountAliveIsMultiplicity(s);
  }

  /** The result depends only on which states occur how often, not on their order. */
  lemma AliveOrDeadIgnoresOrder(s: Surroundings, t: Surroundings)
    requires multiset(s) == multiset(t)
    ensures AliveOrDead(s) == AliveOrDead(t)
  {
    CountAliveIsMultiplicity(s);
    CountAliveIsMultiplicity(t);
  }

  /** In particular, swapping any two of the eight inputs leaves the result unchanged. */
  lemma {:induction false} AliveOrDeadSwap(s: Surroundings, i: nat, j: nat)
    requires i < j < 8
    ensures AliveOrDead(s[i := s[j]][j := s[i]]) == AliveOrDead(s)
  {
    var t := s[i := s[j]][j := s[i]];
    assert s == s[..i] + [s[i]] + s[i + 1..j] + [s[j]] + s[j + 1..];
    assert t == s[..i] + [s[j]] + s[i + 1..j] + [s[i]] + s[j + 1..];
    AliveOrDeadIgnoresOrder(s, t);
  }

  /** Eight dead surroundings give a dead cell. */
  lemma AllDeadSurroundings(s: Surroundings)
    requires forall k :: 0 <= k < 8 ==> s[k] == Dead
    ensures AliveOrDead(s) == Dead
  {
    assert Alive !in s;
    AliveOrDeadRule(s);
  }

  /**
   The standard Conway rule (born with three, survives with two or three), as
   a reference against which the rule above is compared.
   */
  function ConwayRule(centre: Status, surroundings: Surroundings): (r: Status)
  {
    var n := CountAlive(surroundings);
    if n == 3 || (centre == Alive && n == 2) then Alive else Dead
  }

  /**
   The rule above agrees with Conway's rule except in one case: a dead cell
   with exactly two live surroundings, which it brings to life.
   */
  lemma AliveOrDeadVersusConway(centre: Status, s: Surroundings)
    ensures AliveOrDead(s) != ConwayRule(centre, s)
        <==> centre == Dead && multiset(s)[Alive] == 2
    ensures AliveOrDead(s) != ConwayRule(centre, s) ==> AliveOrDead(s) == Alive
  {
    CountAliveIsMultiplicity(s);
  }
}
