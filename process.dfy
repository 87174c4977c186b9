/** The part of `std::process::Command` that the plugin uses: an ordered argument list. */
module Process {

  /** A command to run: a program and the arguments given to it so far, in order. */
  class Command {
    /** The program name given to `Command::new`; the plugin never changes it. */
    const program: string
    var args: seq<string>

    /** `Command::new`: the cargo command reaches `modify_cargo` already built this way. */
    constructor (program: string)
      ensures this.program == program && args == []
    {
      this.program := program;
      args := [];
    }

    /** `Command::arg`: one more argument at the end. */
    method Arg(arg: string)
      modifies this
      ensures args == old(args) + [arg]
    {
      args := args + [arg];
    }

    /** `Command::args`: several more arguments at the end, in their order. */
    method Args(more: seq<string>)
      modifies this
      ensures args == old(args) + more
    {
      args := args + more;
    }
  }
}
