/** The startup argument interpretation of the service: which port to
    listen on, and whether to revert the seeded test data. The argument
    list includes the program name at position 0. */
module Args {
  import opened Outcomes

  /** The port used when none is given. */
  const DefaultPort: string := "8080"

  /** The argument at position `i`, if the list is long enough. */
  function Arg(args: seq<string>, i: nat): (r: Option<string>)
    ensures r.Some? <==> i < |args|
    ensures r.Some? ==> r.value == args[i]
  {
    if i < |args| then Some(args[i]) else None
  }

  /** The port to listen on: the first argument, unless it is missing or
      empty, in which case the default port. */
  function SelectPort(args: seq<string>): (port: string)
    ensures |args| <= 1 ==> port == DefaultPort
    ensures |args| > 1 && args[1] == "" ==> port == DefaultPort
    ensures |args| > 1 && args[1] != "" ==> port == args[1]
    ensures port != ""
  {
    var argPort := Arg(args, 1).GetOr(DefaultPort);
    if argPort == "" then DefaultPort else argPort
  }

  /** Whether to skip the test data: the second argument is exactly
      `"true"`. A missing second argument falls back to the default port
      string, which never reads as `"true"`. */
  function SkipTestData(args: seq<string>): (skip: bool)
    ensures skip <==> |args| > 2 && args[2] == "true"
  {
    Arg(args, 2).GetOr(DefaultPort) == "true"
  }

  /** Without a second argument the test data is kept. */
  lemma MissingFlagKeepsTestData(args: seq<string>)
    requires |args| <= 2
    ensures !SkipTestData(args)
  {
  }

  /** For a command line `program port flag`, the port and the flag are
      read independently of each other. */
  lemma FullCommandLine(args: seq<string>, port: string, flag: string)
    requires |args| == 1
    ensures SelectPort(args + [port, flag]) == (if port == "" then DefaultPort else port)
    ensures SkipTestData(args + [port, flag]) <==> flag == "true"
  {
  }
}
