# stable-plugin, modelled in Dafny

`stable-plugin` is a rustc plugin built on `rustc_plugin`. It prints every
local item of a crate, with its type, through the stable MIR interface. This
project models the sequential logic of the plugin (`src/lib.rs`):

- **Host-triple probe** (`HostTriple`). The report of `rustc -vV` is cut into
  lines at `'\n'`, exactly as `str::split("\n")` does. Every line that starts
  with `host: ` replaces the candidate triple with the rest of that line, so
  the last such line wins. An empty candidate at the end is the
  `Bad output` panic. `Parse` is the meaning of the probe. `ParseHostTriple`
  is the source's loop, proved equal to it. `SplitLines` is pinned down by a
  round trip with `JoinLines` in both directions.
- **Cargo command** (`StablePlugin.ModifyCargo`, over `Process.Command`).
  After a successful probe, three things are appended to the cargo command,
  in this order: `-Zbuild-std`, `--target=<triple>`, and the arguments the
  user passed after `--`, verbatim. A failed probe panics before the command
  is touched.
- **Compiler arguments** (`StablePlugin.Run`). `-Zalways-encode-mir` is
  pushed at the end of the compiler arguments. A callbacks object is created
  with nothing recorded.
- **Analysis callback** (`Analysis`). The `StablePluginCallbacks` object
  holds `result: Option<Compilation>`, which starts as `None`. In
  `after_analysis`, the closure run inside the stable MIR session stores the
  outcome of `print_all_items` in `result`. The callback returns `Continue`
  only when `result` is `Some(Continue)`. `print_all_items` prints one line
  per local item, in enumeration order, and always returns `Continue`, so
  `after_analysis` always returns `Continue`.

Standard output is the append-only sequence of lines `Output.Stdout`.
The panic is the `Err` case of `Wrappers.Result`, carrying the panic message.

The probe also fails when the last `host: ` line has nothing after the key,
even if an earlier `host: ` line carried a triple (`ParseEmptyLastHost`).
The callback's only state is its `result` field: `None` before the analysis
and `Some(Continue)` after it.

## Model

| member | source | states |
|---|---|---|
| `HostTriple.SplitLines` | src/lib.rs:62 | splitting on `"\n"` gives at least one piece, and no piece contains a newline |
| `HostTriple.JoinSplitLines` | src/lib.rs:62 | joining the pieces with `'\n'` gives back the whole report: splitting loses no text |
| `HostTriple.SplitJoinLines` | src/lib.rs:62 | splitting the join of newline-free lines gives those lines back, empty ones included |
| `HostTriple.LastHostNone` | src/lib.rs:61-66 | no candidate triple is found exactly when no line starts with `host: ` |
| `HostTriple.LastHostAt` | src/lib.rs:61-66 | the candidate is the rest of a `host: ` line that has no `host: ` line after it, so later host lines overwrite earlier ones |
| `HostTriple.LastHostSome` | src/lib.rs:61-66 | any candidate found is the rest of the last `host: ` line |
| `HostTriple.Parse` | src/lib.rs:61-69 | a triple from the probe is never empty and never spans lines; a failure is the `Bad output` panic |
| `HostTriple.ParseHostTriple` | src/lib.rs:61-69 | the loop that overwrites `target` on every `host: ` line, followed by the emptiness check, computes exactly `Parse` |
| `HostTriple.ParseOk` | src/lib.rs:61-69 | the probe yields `t` if and only if `t` is non-empty and is the rest of the last line that starts with `host: ` |
| `HostTriple.ParseWithoutHostLine` | src/lib.rs:61-69 | if no line starts with `host: `, the probe panics with `Bad output` |
| `HostTriple.ParseEmptyLastHost` | src/lib.rs:63-69 | if the last `host: ` line has nothing after the key, the probe panics, whatever earlier lines held |
| `HostTriple.ParseJoinedLines` | src/lib.rs:61-69 | on text made of newline-free lines, the probe yields the non-empty rest of the last `host: ` line |
| `HostTriple.ParseRustcReport` | src/lib.rs:61-69 | a report in the shape `rustc -vV` prints (`binary:`, `host:`, `release:` lines and a final newline) yields exactly the non-empty, single-line triple on its `host: ` line |
| `HostTriple.ParseKeyInsideLine` | src/lib.rs:62-66 | a later line that holds `host: ` after other text (`commit-host: …`) is not a host line, so the triple of the earlier host line is kept |
| `StablePlugin.TargetFlag` | src/lib.rs:72 | the target flag names exactly the detected triple |
| `StablePlugin.CargoArgs` | src/lib.rs:71-73 | `2 + n` arguments are added: `-Zbuild-std` first, then the target flag for the triple, then the `n` forwarded arguments at positions 2.. in their original order |
| `StablePlugin.ModifyCargo` | src/lib.rs:53-74 | the command fails exactly when the probe fails, and then it is left unchanged; otherwise the command's arguments are the old ones followed by `CargoArgs` for the parsed triple and the forwarded arguments |
| `StablePlugin.Run` | src/lib.rs:78-91 | the compiler arguments keep the originals as an unchanged prefix, with exactly one more element, `-Zalways-encode-mir`, at the end; the new callbacks object holds the plugin arguments and no result |
| `Analysis.AnalysisDecision` | src/lib.rs:117-125 | the decision is `Continue` if and only if the recorded result is `Some(Continue)`: `None` and `Some(Stop)` both give `Stop` |
| `Analysis.ItemLines` | src/lib.rs:132-134 | exactly one line per item, and line `k` is the message for item `k` |
| `Analysis.PrintAllItems` | src/lib.rs:131-137 | the output gains exactly the item lines, in enumeration order, after what it held before, and the outcome is always `Continue` |
| `Analysis.StablePluginCallbacks.constructor` | src/lib.rs:83-86 | a new callbacks object has `result == None`, which would decide `Stop` |
| `Analysis.StablePluginCallbacks.AfterAnalysis` | src/lib.rs:103-127 | after the analysis closure has run, `result == Some(Continue)`, the callback returns `Continue`, and the output has gained one line per local item |

## Left out

- Spawning `rustc -vV` and its `expect` (src/lib.rs:55-58) is process I/O. The report is a parameter of `ModifyCargo`.
- The UTF-8 check on the report (src/lib.rs:59) is left out. The report is taken as text.
- Skipping the key with `chars().skip("host: ".len())` is modelled as dropping six characters. This is the same thing because the key is ASCII.
- Argument parsing with clap and the constant `CrateFilter::AllCrates` (src/lib.rs:26-30, 46-50) are left out. `StablePluginArgs` holds the parsed `cargo_args` directly.
- `version` and `driver_name` (src/lib.rs:35-41) are constants and are left out.
- Running the compiler driver (`RunCompiler::new(..).run()`, src/lib.rs:89-90) is left out, and so is its result. `Run` stops where the driver would take over.
- `compiler_args` (src/lib.rs:80, 88) is an owned vector that is pushed in place. It is modelled as a sequence value, because nothing else can see it.
- `global_ctxt().unwrap().enter` and `rustc_internal::run(..).unwrap()` (src/lib.rs:110-115) are left out. The model treats them as "the closure runs once, or the process aborts". `AfterAnalysis` models the case where the closure runs.
- `stable_mir::all_local_items()` and the `Debug`/`Display` rendering of items and types (src/lib.rs:132-133) are left out. The local items are a parameter of the analysis. Each `Item` carries its two rendered forms, so the rendering itself is not modelled.
- `print_all_items` does not use its `TyCtxt` and plugin-argument parameters (src/lib.rs:131), so they are dropped.
