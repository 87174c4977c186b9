/**
 * The analysis run inside the compiler: the callbacks object, whose
 * `result` field records the analysis outcome, the decision drawn from it
 * after type analysis, and the enumeration that prints one line per item.
 */
module Analysis {
  import opened Wrappers
  import opened Config
  import Output

  /** `rustc_driver::Compilation`: whether the compiler goes on after analysis. */
  datatype Compilation = Continue | Stop

  /**
   * The decision `after_analysis` returns: go on only when the analysis
   * recorded `Continue`; a missing record counts as `Stop`.
   */
  function AnalysisDecision(result: Option<Compilation>): (c: Compilation)
    ensures c == Continue <==> result == Some(Continue)
  {
    match result
    case Some(Continue) => Continue
    case _ => Stop
  }

  /**
   * A local item of the crate as the stable MIR session presents it: its
   * `Debug` form and the `Display` form of its type.
   */
  datatype Item = Item(debugForm: string, tyDisplay: string)

  /** The line printed for one item. */
  function ItemMessage(item: Item): string {
    "There is an item \"" + item.debugForm + "\" of type \"" + item.tyDisplay + "\""
  }

  /** The lines printed for the items, one per item and in the same order. */
  function ItemLines(items: seq<Item>): (lines: seq<string>)
    ensures |lines| == |items|
    ensures forall k :: 0 <= k < |items| ==> lines[k] == ItemMessage(items[k])
  {
    if items == [] then [] else [ItemMessage(items[0])] + ItemLines(items[1..])
  }

  /**
   * `print_all_items`: prints one line per local item, in enumeration
   * order, and always asks the compiler to continue.
   */
  method PrintAllItems(localItems: seq<Item>, out: Output.Stdout) returns (c: Compilation)
    modifies out
    ensures c == Continue
    ensures out.lines == old(out.lines) + ItemLines(localItems)
  {
    for i := 0 to |localItems|
      invariant out.lines == old(out.lines) + ItemLines(localItems[..i])
    {
      assert localItems[..i + 1] == localItems[..i] + [localItems[i]];
      out.PrintLn(ItemMessage(localItems[i]));
    }
    assert localItems[..|localItems|] == localItems;
    c := Continue;
  }

  /** `StablePluginCallbacks`: the plugin's arguments and the recorded analysis outcome. */
  class StablePluginCallbacks {
    const args: StablePluginArgs
    var result: Option<Compilation>

    /** A new callbacks object has recorded nothing, so it would decide `Stop`. */
    constructor (args: StablePluginArgs)
      ensures this.args == args && result == None
      ensures AnalysisDecision(result) == Stop
    {
      this.args := args;
      result := None;
    }

    /**
     * `after_analysis`: inside the stable MIR session the analysis closure
     * prints the local items and stores `print_all_items`'s outcome in
     * `result`; the decision is then read off `result`.
     */
    method AfterAnalysis(localItems: seq<Item>, out: Output.Stdout) returns (c: Compilation)
      modifies this, out
      ensures result == Some(Continue)
      ensures c == AnalysisDecision(result) && c == Continue
      ensures out.lines == old(out.lines) + ItemLines(localItems)
    {
      var outcome := PrintAllItems(localItems, out);
      result := Some(outcome);
      c := AnalysisDecision(result);
    }
  }
}
