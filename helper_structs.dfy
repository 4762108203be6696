/** `src/network/helper_structs.rs`: the numbering state of Tarjan's
    algorithm and the choice whether a component includes its start node. */
module HelperStructs {

  /** `NonZeroU32`, without its upper bound (see the README). */
  type Positive = x: nat | x >= 1 witness 1

  datatype TarjanNumber = NotVisited | Visited(num: Positive)

  function IsNotVisited(t: TarjanNumber): (r: bool)
    ensures r <==> t == NotVisited
    ensures !r <==> exists k: Positive :: t == Visited(k)
  {
    t.NotVisited?
  }

  /** `get_num`: the number of a visited node; it is never asked of a node
      that was not visited (`unreachable!`). */
  function GetNum(t: TarjanNumber): (r: Positive)
    requires t.Visited?
    ensures t == Visited(r)
  {
    t.num
  }

  /** `min`: the visited number that is the smaller of the two. */
  function Min(a: TarjanNumber, b: TarjanNumber): (r: TarjanNumber)
    requires a.Visited? && b.Visited?
    ensures r.Visited?
    ensures r.num <= a.num && r.num <= b.num
    ensures r == a || r == b
  {
    Visited(if a.num <= b.num then a.num else b.num)
  }

  lemma {:induction false} MinCommutes(a: TarjanNumber, b: TarjanNumber)
    requires a.Visited? && b.Visited?
    ensures Min(a, b) == Min(b, a)
  {
  }

  datatype ComponentChoice = IncludingSelf | ExcludingSelf

  function IncludesSelf(c: ComponentChoice): (r: bool)
    ensures r <==> c == IncludingSelf
    ensures !r <==> c == ExcludingSelf
  {
    c.IncludingSelf?
  }
}
