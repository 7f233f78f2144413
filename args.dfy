/**
 * The process-wide option table as an object. ParseParameters rebuilds it
 * from an argument vector; the test helper ResetArgs tokenises a command line
 * on whitespace, puts a dummy program name in front and parses the result.
 */
module Args {
  import opened Text
  import opened Parsing

  /** The program name ResetArgs puts in front of the tokens. */
  const DummyProgramName: string := "testbitcoin"

  /** The table ResetArgs(s) leaves behind. */
  function ResetTable(s: string): (t: Table) {
    TableOf(ProgramArgs([DummyProgramName] + Split(s)))
  }

  /** The program name in front is never read as an option: only the tokens of s count. */
  lemma ProgramNameSkipped(s: string)
    ensures ResetTable(s) == TableOf(Split(s))
  {
  }

  class ArgTable {
    /** The options of the last parse. */
    var args: Table

    /** Before any parse the table is empty. */
    constructor ()
      ensures args == map[]
    {
      args := map[];
    }

    /**
     * ParseParameters(argc, argv): discards the previous table and reads
     * argv[1..] in order, each option overwriting an earlier one with the
     * same key.
     */
    method Parse(argv: seq<string>)
      modifies this
      ensures args == TableOf(ProgramArgs(argv))
    {
      args := map[];
      if |argv| == 0 {
        return;
      }
      var i := 1;
      while i < |argv|
        invariant 1 <= i <= |argv|
        invariant args == TableOf(argv[1..i])
      {
        assert argv[1..i + 1] == argv[1..i] + [argv[i]];
        TableOfAppend(argv[1..i], argv[i]);
        match EntryOf(argv[i]) {
          case Some(e) => args := args[e.key := e.value];
          case None =>
        }
        i := i + 1;
      }
      assert argv[1..i] == ProgramArgs(argv);
    }
  }

  /** ResetArgs(s): split s on whitespace, prepend the program name, parse. */
  method ResetArgs(table: ArgTable, s: string)
    modifies table
    ensures table.args == ResetTable(s)
  {
    var vecArg := Split(s);
    vecArg := [DummyProgramName] + vecArg;
    table.Parse(vecArg);
  }
}
