/** The `{ step, formula }` records the converters log after each stage. */
module ConversionLog {
  datatype Step = Step(step: seq<char>, formula: seq<char>)

  /** Six pushes onto an empty log give the log of the six steps. */
  lemma SixPushes(a: Step, b: Step, c: Step, d: Step, e: Step, f: Step)
    ensures [a] + [b] + [c] + [d] + [e] + [f] == [a, b, c, d, e, f]
  {
  }

  /** Seven pushes onto a log give the log followed by the seven steps. */
  lemma SevenPushes(log: seq<Step>, a: Step, b: Step, c: Step, d: Step, e: Step, f: Step, g: Step)
    ensures log + [a] + [b] + [c] + [d] + [e] + [f] + [g] == log + [a, b, c, d, e, f, g]
  {
  }
}
