/** Standard output as an append-only sequence of lines. */
module Output {

  class Stdout {
    var lines: seq<string>

    /** The stream before the plugin prints anything. */
    constructor ()
      ensures lines == []
    {
      lines := [];
    }

    /** `println!`: one more line at the end; earlier lines stay as they were. */
    method PrintLn(line: string)
      modifies this
      ensures lines == old(lines) + [line]
    {
      lines := lines + [line];
    }
  }
}
