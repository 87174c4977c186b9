/** The plugin's parsed command-line arguments. */
module Config {

  /**
   * `StablePluginArgs`: the only field is the list of arguments that follow
   * the `--` separator on the command line, kept verbatim and in order so that
   * they can be forwarded to cargo.
   */
  datatype StablePluginArgs = StablePluginArgs(cargoArgs: seq<string>)
}
