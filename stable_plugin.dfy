/**
 * `StablePlugin`: the two hooks that build the commands: `modify_cargo`,
 * which rebuilds the standard library for the host triple and forwards the
 * user's cargo arguments, and `run`, which makes the compiler keep MIR for
 * every crate and sets up the callbacks.
 */
module StablePlugin {
  import opened Wrappers
  import opened Config
  import HostTriple
  import Process
  import Analysis

  /** Makes cargo build the standard library from source. */
  const BUILD_STD_FLAG: string := "-Zbuild-std"

  /** The key of the explicit target flag. */
  const TARGET_KEY: string := "--target="

  /** Makes the compiler encode MIR for every crate it compiles. */
  const ALWAYS_ENCODE_MIR_FLAG: string := "-Zalways-encode-mir"

  /** The triple a `--target=` flag names, if it is one. */
  function TargetOfFlag(flag: string): Option<string> {
    if |TARGET_KEY| <= |flag| && flag[..|TARGET_KEY|] == TARGET_KEY
    then Some(flag[|TARGET_KEY|..])
    else None
  }

  /** `format!("--target={}", target)`: a flag naming exactly `triple`. */
  function TargetFlag(triple: string): (flag: string)
    ensures TargetOfFlag(flag) == Some(triple)
  {
    assert (TARGET_KEY + triple)[..|TARGET_KEY|] == TARGET_KEY;
    TARGET_KEY + triple
  }

  /**
   * The arguments `modify_cargo` adds to the cargo command: the build-std
   * flag, the target flag, and then every forwarded argument in its order.
   */
  function CargoArgs(triple: string, forwarded: seq<string>): (added: seq<string>)
    ensures |added| == 2 + |forwarded|
    ensures added[0] == BUILD_STD_FLAG
    ensures TargetOfFlag(added[1]) == Some(triple)
    ensures forall k :: 0 <= k < |forwarded| ==> added[2 + k] == forwarded[k]
  {
    [BUILD_STD_FLAG, TargetFlag(triple)] + forwarded
  }

  /**
   * `modify_cargo`: finds the host triple in the `rustc -vV` report
   * `probeOutput` and appends the build flags and the forwarded arguments to
   * `cargo`; on a report without a usable triple it panics before touching
   * `cargo`.
   */
  method ModifyCargo(cargo: Process.Command, probeOutput: string, args: StablePluginArgs)
    returns (r: Result<()>)
    modifies cargo
    ensures r.Err? <==> HostTriple.Parse(probeOutput).Err?
    ensures r.Err? ==> r.msg == HostTriple.BAD_OUTPUT && cargo.args == old(cargo.args)
    ensures r.Ok? ==>
      cargo.args == old(cargo.args) + CargoArgs(HostTriple.Parse(probeOutput).value, args.cargoArgs)
  {
    var target := HostTriple.ParseHostTriple(probeOutput);
    if target.Err? {
      return Err(target.msg);
    }
    cargo.Arg(BUILD_STD_FLAG);
    cargo.Arg(TargetFlag(target.value));
    cargo.Args(args.cargoArgs);
    r := Ok(());
  }

  /**
   * `run`, up to handing control to the compiler driver: a callbacks object
   * with nothing recorded, and the compiler arguments with the flag that
   * keeps MIR for every crate pushed at the end.
   */
  method Run(compilerArgs: seq<string>, pluginArgs: StablePluginArgs)
    returns (driverArgs: seq<string>, callbacks: Analysis.StablePluginCallbacks)
    ensures fresh(callbacks)
    ensures callbacks.args == pluginArgs && callbacks.result == None
    ensures |driverArgs| == |compilerArgs| + 1
    ensures driverArgs[..|compilerArgs|] == compilerArgs
    ensures driverArgs[|compilerArgs|] == ALWAYS_ENCODE_MIR_FLAG
  {
    callbacks := new Analysis.StablePluginCallbacks(pluginArgs);
    driverArgs := compilerArgs;
    driverArgs := driverArgs + [ALWAYS_ENCODE_MIR_FLAG];
  }
}
