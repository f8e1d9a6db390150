/**
 * The command dispatch in `main`: with exactly three arguments, the first
 * handler whose command name equals argv[1] runs; anything else prints the
 * usage message and exits with status 1.
 */
module Commands {

  /** The command names of the `handlers` table, in table order. */
  const Handlers: seq<string> := ["attach", "detach"]

  /** How `main` ends. */
  datatype Outcome =
    | Usage(noSuchCommand: bool)  // usage printed, after "No such command" when argv[1] was unknown
    | Handled(handler: nat, unitNum: int, deviceType: int)  // handlers[handler].fn(unitNum, deviceType) ran

  /**
   * The process exit status: 1 after the usage message; a handler ends the
   * process itself with `exit(0)`.
   */
  function ExitStatus(outcome: Outcome): (status: int)
    ensures status == 0 <==> outcome.Handled?
    ensures status == 0 || status == 1
  {
    if outcome.Usage? then 1 else 0
  }

  /** `main(argc, argv)`, with `argc` being `|argv|`. */
  method RunMain(argv: seq<string>) returns (outcome: Outcome)
    ensures |argv| != 4 ==> outcome == Usage(false)
    ensures |argv| == 4 && argv[1] !in Handlers ==> outcome == Usage(true)
    ensures |argv| == 4 && argv[1] in Handlers ==>
              outcome.Handled? && outcome.handler < |Handlers| &&
              Handlers[outcome.handler] == argv[1] && argv[1] !in Handlers[..outcome.handler] &&
              outcome.unitNum == 0 && outcome.deviceType == 0
  {
    if |argv| == 4 {
      for i := 0 to |Handlers|
        invariant argv[1] !in Handlers[..i]
      {
        if Handlers[i] == argv[1] {
          return Handled(i, 0, 0);
        }
      }
      return Usage(true);
    }
    return Usage(false);
  }
}
