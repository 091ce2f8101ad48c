/**
 * The configuration both join commands share, the constructor that fills in
 * the default join fields, and the result of one invocation.
 */
module Options {

  /**
   * The options that affect behaviour. Field1 and Field2 are the 1-based
   * join fields of the left and right input; OuterJoin turns on both
   * unpaired outputs.
   */
  datatype Flags = Flags(
    field1: int,
    field2: int,
    ignoreCase: bool,
    outerJoin: bool,
    unpairedFile1: bool,
    unpairedFile2: bool)

  /** A command as built by the constructor: positional operands and flags. */
  datatype Command = Command(positional: seq<string>, flags: Flags)

  /** Why an invocation produced no output. */
  datatype JoinError =
    | NeedTwoFiles     // fewer than two positional operands
    | FieldIndexPanic  // a negative field index reached a slice index (a Go run-time panic)

  /** Either the lines written to standard output, or the error. */
  datatype Outcome = Done(output: seq<string>) | Failed(error: JoinError)

  /**
   * The constructor: a join field left at 0 means the first field; every
   * other value, and every other option, is kept as given.
   */
  function Join(positional: seq<string>, flags: Flags): (c: Command)
    ensures c.positional == positional
    ensures c.flags.field1 != 0 && c.flags.field2 != 0
    ensures flags.field1 == 0 ==> c.flags.field1 == 1
    ensures flags.field2 == 0 ==> c.flags.field2 == 1
    ensures flags.field1 != 0 ==> c.flags.field1 == flags.field1
    ensures flags.field2 != 0 ==> c.flags.field2 == flags.field2
    ensures c.flags.(field1 := flags.field1, field2 := flags.field2) == flags
  {
    var f1 := if flags.field1 == 0 then 1 else flags.field1;
    var f2 := if flags.field2 == 0 then 1 else flags.field2;
    Command(positional, flags.(field1 := f1, field2 := f2))
  }

  /** Whether unpaired left lines are written. */
  predicate EmitLeft(flags: Flags) {
    flags.unpairedFile1 || flags.outerJoin
  }

  /** Whether unpaired right lines are written. */
  predicate EmitRight(flags: Flags) {
    flags.unpairedFile2 || flags.outerJoin
  }
}
