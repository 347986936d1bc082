/** The command line of main.c: exactly three arguments after the program
    name, the node count K and the two matrix files. */
module Program {

  /** The three arguments main.c reads, still as text. */
  datatype Invocation = Invocation(nodes: string, adjacencyFile: string, externalFile: string)

  datatype Outcome = Usage(message: string) | Proceed(args: Invocation)

  const UsageMessage: string := "Usage: evolve K adjacency_matrix_file external_matrix_file\n"

  /** The argument check: anything but four entries of argv (program name
      included) yields the usage message; otherwise the arguments are taken
      positionally. */
  function ParseArgs(argv: seq<string>): (r: Outcome)
    ensures r.Usage? <==> |argv| != 4
    ensures r.Usage? ==> r.message == UsageMessage
    ensures r.Proceed? ==> r.args.nodes == argv[1] && r.args.adjacencyFile == argv[2] && r.args.externalFile == argv[3]
  {
    if |argv| != 4 then Usage(UsageMessage)
    else Proceed(Invocation(argv[1], argv[2], argv[3]))
  }

  /** The check depends on the number of arguments only, never on their text. */
  lemma ParseArgsCountOnly(argv: seq<string>, argv': seq<string>)
    requires |argv| == |argv'|
    ensures ParseArgs(argv).Usage? == ParseArgs(argv').Usage?
  {
  }
}
