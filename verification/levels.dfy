/**
  Severity levels of the logger and the order the level filter relies on.
  `slog::Level` is a scoped enumeration, so the built-in comparison orders
  its enumerators by declaration position.
 */
module Levels {

  /**
    The five enumerators. A value cast from another `int` is not a
    `Level` here, so every contract below speaks of these five only.
   */
  datatype Level = Trace | Debug | Info | Warning | Error

  /** An enumerator's underlying value: its position in declaration order. */
  function Rank(l: Level): (r: nat)
    ensures r < 5
  {
    match l
    case Trace => 0
    case Debug => 1
    case Info => 2
    case Warning => 3
    case Error => 4
  }

  /** Distinct levels have distinct underlying values. */
  lemma RankInjective(a: Level, b: Level)
    ensures Rank(a) == Rank(b) <==> a == b
  {
  }

  /** `a > b` on the enumeration: no level is below TRACE or above ERROR. */
  predicate Greater(a: Level, b: Level): (r: bool)
    ensures r ==> a != b && a != Trace && b != Error
  {
    Rank(a) > Rank(b)
  }

  /** Every level, in declaration order. */
  const AllLevels: seq<Level> := [Trace, Debug, Info, Warning, Error]

  /** The default threshold of the process-wide `logLevel`: every level but TRACE passes. */
  function DefaultThreshold(): (t: Level)
    ensures AtOrAbove(t) == {Debug, Info, Warning, Error}
  {
    Debug
  }

  /**
    The levels a call may have and still be emitted under threshold `t`,
    written out level by level so that the filter can be checked against it.
   */
  function AtOrAbove(t: Level): (r: set<Level>)
    ensures t in r
    ensures Error in r
    ensures forall l: Level :: l in r <==> !Greater(t, l)
  {
    match t
    case Trace => {Trace, Debug, Info, Warning, Error}
    case Debug => {Debug, Info, Warning, Error}
    case Info => {Info, Warning, Error}
    case Warning => {Warning, Error}
    case Error => {Error}
  }

  /** The level one step below `l`. */
  function OneBelow(l: Level): (r: Level)
    requires l != Trace
    ensures Rank(r) + 1 == Rank(l)
    ensures Greater(l, r)
  {
    match l
    case Debug => Trace
    case Info => Debug
    case Warning => Info
    case Error => Warning
  }

  /** `Greater` is a strict total order on the five levels. */
  lemma GreaterIsStrictTotalOrder()
    ensures forall a: Level :: !Greater(a, a)
    ensures forall a: Level, b: Level :: Greater(a, b) ==> !Greater(b, a)
    ensures forall a: Level, b: Level, c: Level :: Greater(a, b) && Greater(b, c) ==> Greater(a, c)
    ensures forall a: Level, b: Level :: a != b ==> Greater(a, b) || Greater(b, a)
  {
  }

  /** Declaration order: TRACE < DEBUG < INFO < WARNING < ERROR. */
  lemma DeclarationOrder()
    ensures Greater(Debug, Trace) && Greater(Info, Debug)
    ensures Greater(Warning, Info) && Greater(Error, Warning)
  {
  }

}
