/** A rule: a condition over a fact, a consequence producing an output from
    the fact, and a priority used when several rules match. */
module Rules {

  /** The source's `int`: a signed 32-bit integer. */
  newtype Int32 = x: int | -0x8000_0000 <= x < 0x8000_0000

  /** Condition and consequence have no setters after construction; only
      the priority can be set again (`WithPriority`, and for a stored rule
      `Executers.SetPriority`). The datatype constructor is the
      three-argument constructor. */
  datatype Rule<!Fact, Output> = Rule(
    condition: Fact -> bool,
    consequence: Fact -> Output,
    priority: Int32)

  /** The public two-argument constructor: the priority defaults to 0. */
  function NewRule<Fact, Output>(condition: Fact -> bool, consequence: Fact -> Output): (r: Rule<Fact, Output>)
    ensures r.priority == 0
    ensures r.condition == condition && r.consequence == consequence
  {
    Rule(condition, consequence, 0)
  }

  /** The public `Priority` setter. */
  function WithPriority<Fact, Output>(r: Rule<Fact, Output>, priority: Int32): (r': Rule<Fact, Output>)
    ensures r'.priority == priority
    ensures r'.condition == r.condition && r'.consequence == r.consequence
  {
    r.(priority := priority)
  }

  /** The two-argument constructor is the three-argument one at priority 0,
      and setting the priority afterwards gives the three-argument one. */
  lemma NewRuleIsDefaultPriority<Fact, Output>(condition: Fact -> bool, consequence: Fact -> Output, priority: Int32)
    ensures NewRule(condition, consequence) == Rule(condition, consequence, 0)
    ensures WithPriority(NewRule(condition, consequence), priority) == Rule(condition, consequence, priority)
  {
  }

  /** Setting the priority: the last write wins, and writing the current
      priority back changes nothing. */
  lemma WithPriorityLastWriteWins<Fact, Output>(r: Rule<Fact, Output>, p: Int32, q: Int32)
    ensures WithPriority(WithPriority(r, p), q) == WithPriority(r, q)
    ensures WithPriority(r, r.priority) == r
  {
  }
}
